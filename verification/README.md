# Record manager: a verified model

This project models the record manager (RM) of a small relational database.
The RM stores fixed-size records in a paged file:

- **File layout.** Page 0 holds the file header: the record size, the slots per page, the number of data pages and the head of the free-page list. Each data page holds:
  - a page header, which is its free-list link;
  - a bitmap with one bit per slot;
  - the record slots.
- **Free-page list.** It is threaded through the page headers. It holds exactly the pages that still have a clear bit. A page with no clear bit is marked "full and not listed".
- **Insert.** It writes to the first clear slot (first fit) of the list head, or of a newly allocated page when the list is empty.
- **Delete.** It clears a bit and puts a page that was full back on the head of the list.
- **Scans.** A scan walks the live records in (page, slot) order and returns those whose attribute satisfies a comparison with a fixed value. The attribute is a 4-byte int, a 4-byte IEEE 754 float, or a string compared as `strncmp` does.
- **File manager.** It creates a file: it checks the record size and computes the slots per page. It also opens and closes a handle on the file.

The paging layer underneath is a value, `PagedFile`:

- the header stored on page 0;
- the data pages, by page number;
- the number of allocated pages.

Each operation of the RM has two parts in the model:

- a function of that state, with its properties proved as lemmas (round trips, preserved invariants, error cases);
- the class method that mirrors the source's control flow, proved to compute that function.

A file handle carries two predicates:

- `Valid`: the handle is closed, or its data pages are numbered 1 .. count-1 and fit the header's layout. This is what the handle operations need to index bitmaps and slots. `Insert`, `Delete` and `Update` keep it (`InsertKeepsPaged`, `DeleteKeepsPaged`, `UpdateKeepsPaged`).
- `Consistent`: the handle is closed, or `FileInv` holds. `FileInv` ties the stored pages to a ghost free list: the list holds exactly the pages with a clear slot, and every other page is marked full. `Insert`, `Delete` and `Update` keep it, and the handle methods promise `old(Consistent()) ==> Consistent()`.

A handle opened on a file whose stored header is stale is valid but not consistent. The operations still compute its new state, but the free-list guarantees are not promised for it.

Some behaviours of the code are easy to miss:

- **OpenScan's bound is strict.** It refuses an int or float attribute that ends at the last byte of the record (`offset + 4 >= recordSize`). So an int that makes up a whole 4-byte record is refused (`IntInLastBytesRefused`).
- **Inserts need at least 8 slots per page.** InsertRec writes at least one bitmap byte, so it only works when a page holds 8 or more slots. That is the case exactly when records are at most 510 bytes (`RecordsPerPageAtLeastEight`). CreateFile accepts sizes up to 4087.
- **A handle can be left open after a failure.** OpenFile and OpenScan mark the handle or scan open before the paging calls that can still fail. The failure then leaves it open.

## Model

| member | source | states |
|---|---|---|
| RmRid.DefaultRid | src/rm/rm_rid.cc:4-25 | On the default locator, both accessors fail with RM_RID_INVALID and leave their out-parameter as passed |
| RmRid.MakeRid | src/rm/rm_rid.cc:6-25 | A locator built from (page, slot) gives back exactly those two numbers, with OK |
| RmRid.GetPageNum | src/rm/rm_rid.cc:13-18 | OK exactly on a valid locator, and then the page number is the locator's; otherwise RM_RID_INVALID and the out-parameter as passed |
| RmRid.GetSlotNum | src/rm/rm_rid.cc:20-25 | OK exactly on a valid locator, and then the slot number is the locator's; otherwise RM_RID_INVALID and the out-parameter as passed |
| RmRecord.Record.constructor | src/rm/rm_record.cc:3 | A new record is invalid; GetData and GetRid fail with RM_RECORD_INVALID and write nothing |
| RmRecord.Record.Copy | src/rm/rm_record.cc:5-12 | The copy has the source's size, locator and validity |
| RmRecord.Record.Assign | src/rm/rm_record.cc:14-26 | Assignment copies size, locator and validity, keeps the buffer, and is a no-op on self-assignment |
| RmRecord.Record.GetData | src/rm/rm_record.cc:35-40 | OK exactly on a valid record, and then the bytes are the record's; otherwise RM_RECORD_INVALID and the out-parameter as passed |
| RmRecord.Record.GetRid | src/rm/rm_record.cc:42-47 | OK exactly on a valid record, and then the locator is the record's; otherwise RM_RECORD_INVALID and the out-parameter as passed |
| RmTypes.ZeroPage | src/rm/rm_filehandle.cc:70-74 | A newly allocated page is all zeros: every bitmap byte is 0 and every slot is zero bytes |
| Bitmap.FullIffAllLive | src/rm/rm_filehandle.cc:124-127 | All bitmap bytes are 0xFF exactly when every slot is live |
| Bitmap.FirstClearIsLowest | src/rm/rm_filehandle.cc:88-102 | The slot chosen by the byte-then-bit search is clear, and every lower slot is live (first fit) |
| Bitmap.SetSlot | src/rm/rm_filehandle.cc:94 | Setting a slot's bit makes that slot live and changes no other slot |
| Bitmap.ClearSlot | src/rm/rm_filehandle.cc:162 | Clearing a slot's bit makes that slot free and changes no other slot |
| Bitmap.NotFullWhenClear | src/rm/rm_filehandle.cc:124-127 | A bitmap with a clear slot is not full |
| Bitmap.RescanDecidesFull | src/rm/rm_filehandle.cc:124-127 | Rescanning from the inserted slot's byte onward decides whether the page is full, because first fit already passed over full bytes |
| Bitmap.FirstFreeByte | src/rm/rm_filehandle.cc:88-89 | The outer loop of the slot search stops at the first byte that is not 0xFF |
| Bitmap.LowestClearBitFrom | src/rm/rm_filehandle.cc:91-98 | The inner loop finds a clear bit with every lower bit set |
| RmFileHandle.Fetch | src/rm/rm_filehandle.cc:12-56 | GetRec's result, defined case by case on the locator's checks in the source's order |
| RmFileHandle.Insert | src/rm/rm_filehandle.cc:58-134 | The new locator is the first clear slot of the target page. Only that slot and that page change. A new page is counted and pushed on the list; a reused page that fills is taken off the list and marked full |
| RmFileHandle.InsertThenFetch | src/rm/rm_filehandle.cc:58-134 | Fetching the locator an insert returned gives back exactly the inserted bytes |
| RmFileHandle.InsertNewPageKeepsInv | src/rm/rm_filehandle.cc:70-74 | An insert into a new page keeps the invariant, with that page as the whole free list |
| RmFileHandle.InsertFillsPageKeepsInv | src/rm/rm_filehandle.cc:122-132 | An insert that fills the list head keeps the invariant, with the head popped off |
| RmFileHandle.InsertReusedPageKeepsInv | src/rm/rm_filehandle.cc:122-132 | An insert that leaves the head non-full keeps the invariant with the same list |
| RmFileHandle.InsertKeepsInv | src/rm/rm_filehandle.cc:58-134 | Under the invariant an insert can proceed, and the invariant holds afterwards: the free list is still exactly the non-full pages |
| RmFileHandle.InsertSkipsFullPages | src/rm/rm_filehandle.cc:69-78 | An insert never targets a page with no clear slot |
| RmFileHandle.InvReadyForInsert | src/rm/rm_filehandle.cc:103-104 | Under the invariant, with at least 8 slots per page, the slot search cannot fail |
| RmFileHandle.ListedNotMarkedFull | src/rm/rm_internal.h:6-7 | A page on the free list never carries the full mark |
| RmFileHandle.HeadAndFullMark | src/rm/rm_internal.h:6-7 | The list head is a data page or the end marker, and a page marked full has every slot live |
| RmFileHandle.Delete | src/rm/rm_filehandle.cc:136-184 | Delete leaves the page count, layout and page set as they were |
| RmFileHandle.DeleteFailsLikeFetch | src/rm/rm_filehandle.cc:146-179 | Delete fails exactly where GetRec fails, with the same code, and changes nothing; where GetRec finds a record, Delete succeeds |
| RmFileHandle.DeleteThenFetch | src/rm/rm_filehandle.cc:161-170 | After a delete the record is not found, and every other slot fetches as before |
| RmFileHandle.DeleteFromFullKeepsInv | src/rm/rm_filehandle.cc:165-170 | Deleting from a page marked full keeps the invariant, with that page pushed on the list head |
| RmFileHandle.DeleteFromListedKeepsInv | src/rm/rm_filehandle.cc:161-177 | Deleting from a listed page keeps the invariant with the same list |
| RmFileHandle.DeleteKeepsInv | src/rm/rm_filehandle.cc:136-184 | Delete keeps the invariant, and the page it freed from is on the free list afterwards |
| RmFileHandle.DeleteFromFullThenInsert | src/rm/rm_filehandle.cc:165-170 | After deleting from a full page, the next insert reuses exactly the deleted locator |
| RmFileHandle.Update | src/rm/rm_filehandle.cc:186-231 | Update changes no header, bitmap or link, and on any error it changes nothing |
| RmFileHandle.UpdateThenFetch | src/rm/rm_filehandle.cc:186-226 | A successful update makes GetRec return the new bytes, and every other slot fetches as before. An invalid record gives RM_RECORD_INVALID; a record of another size gives the size-mismatch code; for a valid record of the file's size, the update fails exactly where GetRec fails on its locator, with the same code, and succeeds where GetRec succeeds |
| RmFileHandle.UpdateKeepsInv | src/rm/rm_filehandle.cc:186-231 | Update keeps the invariant with the same free list |
| RmFileHandle.InsertKeepsPaged | src/rm/rm_filehandle.cc:58-134 | With a full record, 8 or more slots per page and a list head that is the end marker or a non-full data page, the insert can proceed and the pages stay numbered 1 .. count-1 in the header's layout |
| RmFileHandle.DeleteKeepsPaged | src/rm/rm_filehandle.cc:136-184 | Delete keeps the pages numbered 1 .. count-1 in the header's layout |
| RmFileHandle.UpdateKeepsPaged | src/rm/rm_filehandle.cc:186-231 | Update keeps the pages numbered 1 .. count-1 in the header's layout |
| RmFileHandle.DeleteNotMarkedDirtyIsLost | src/rm/rm_filehandle.cc:161-183 | As written: after a delete from a full page, a file that keeps its clean copy of the page still holds it full while the list head names it, so the next insert cannot proceed |
| RmFileHandle.DeleteMarkedDirtyPersists | src/rm/rm_filehandle.cc:136-184 | With the page marked dirty, the file holds exactly Delete's pages once written back, the invariant holds and the next insert can proceed |
| RmFileHandle.SearchFreeSlot | src/rm/rm_filehandle.cc:88-102 | The byte-then-bit loop finds the first clear slot and sets its bit; on a full bitmap it ends at numRecords and changes nothing |
| RmFileHandle.LowestClearBit | src/rm/rm_filehandle.cc:91-98 | The bit loop returns the lowest clear bit of a byte that is not 0xFF |
| RmFileHandle.RescanFull | src/rm/rm_filehandle.cc:124-127 | The rescan loop reports full exactly when every byte from the inserted slot's byte onward is 0xFF |
| RmFileHandle.InsertInto | src/rm/rm_filehandle.cc:69-132 | The insert's steps compute exactly Insert |
| RmFileHandle.DeleteFrom | src/rm/rm_filehandle.cc:146-183 | The delete's steps compute exactly Delete |
| RmFileHandle.UpdateIn | src/rm/rm_filehandle.cc:197-230 | The update's steps compute exactly Update |
| RmFileHandle.FileHandle.constructor | src/rm/rm_filehandle.cc:6 | A new handle is closed and not modified |
| RmFileHandle.FileHandle.IsValidSlotNum | src/rm/rm_filehandle.cc:264-266 | A slot number is valid exactly on an open handle and below the slots per page; on a valid handle every data page then has that bit and slot |
| RmFileHandle.FileHandle.GetRec | src/rm/rm_filehandle.cc:12-56 | On a closed handle the result is RM_FILE_NOT_OPENED. Otherwise the code is Fetch's. On success the record holds the stored bytes, the header's size and the locator; on failure it is untouched |
| RmFileHandle.FileHandle.InsertRec | src/rm/rm_filehandle.cc:58-134 | On a closed handle nothing changes. A list head that names no data page gives the pager's invalid-page code and changes nothing. Otherwise the code is OK and the new state and locator are Insert's. The handle stays valid, and a consistent handle stays consistent with Insert's free list |
| RmFileHandle.FileHandle.DeleteRec | src/rm/rm_filehandle.cc:136-184 | On an open handle the code and the new state are Delete's; on a closed handle nothing changes. The handle stays valid, and a consistent handle stays consistent with Delete's free list |
| RmFileHandle.FileHandle.UpdateRec | src/rm/rm_filehandle.cc:186-231 | On an open handle the code and the new state are Update's; on a closed handle nothing changes. The handle stays valid and keeps its free list, and a consistent handle stays consistent |
| RmFileHandle.FileHandle.ForcePages | src/rm/rm_filehandle.cc:233-262 | The header goes to page 0 only when the handle is marked modified, then the flag is cleared; the data pages are untouched, and validity and consistency are kept |
| RmFileScan.DecodeInt32 | src/rm/rm_filescan.cc:194-206 | Four little-endian bytes decode to a 32-bit two's-complement int |
| RmFileScan.DecodeEncode | src/rm/rm_filescan.cc:198-199 | Decoding inverts encoding |
| RmFileScan.EncodeDecode | src/rm/rm_filescan.cc:198-199 | Encoding inverts decoding |
| RmFileScan.CompareIntsFlip | src/rm/rm_filescan.cc:121-131 | Comparing ints the other way round flips the outcome, and they compare equal exactly when they are equal |
| RmFileScan.CompareFloats | src/rm/rm_filescan.cc:132-143 | Two floats are unordered exactly when one is NaN |
| RmFileScan.FloatFieldsOf | src/rm/rm_filescan.cc:200-201 | The sign, exponent and significand read back the four stored bytes |
| RmFileScan.FloatFieldsDetermineBytes | src/rm/rm_filescan.cc:200-201 | Equal sign, exponent and significand mean equal bytes |
| RmFileScan.FloatEqualIff | src/rm/rm_filescan.cc:134 | Floats are `==` exactly when neither is NaN and they have the same bits or are both zeros |
| RmFileScan.NaNUnequal | src/rm/rm_filescan.cc:134 | A NaN is `==` to nothing, itself included |
| RmFileScan.Strncmp | src/rm/rm_filescan.cc:145 | strncmp returns a definite sign, never unordered |
| RmFileScan.CPrefix | src/rm/rm_filescan.cc:145 | The string strncmp sees is at most n bytes with no NUL, taken from the value |
| RmFileScan.StrncmpEqualIff | src/rm/rm_filescan.cc:145-147 | strncmp reports equality exactly when the NUL-terminated prefixes of at most n bytes agree |
| RmFileScan.StrncmpFlip | src/rm/rm_filescan.cc:145-153 | Swapping strncmp's arguments flips its sign |
| RmFileScan.GetValueFromPtr | src/rm/rm_filescan.cc:194-206 | A null pointer reads nothing. An int is the one whose encoding is the first four bytes; a float is those four bytes; a string is the pointer's contents |
| RmFileScan.IntValueRoundTrip | src/rm/rm_filescan.cc:198-199 | An encoded int reads back as itself, whatever follows it |
| RmFileScan.CheckScanArgs | src/rm/rm_filescan.cc:21-42 | OK exactly when the arguments are acceptable, with the type, operator and offset errors reported first as in the source |
| RmFileScan.IntInLastBytesRefused | src/rm/rm_filescan.cc:31-35 | An int ending at the record's last byte is refused, including one that fills a 4-byte record |
| RmFileScan.Matches | src/rm/rm_filescan.cc:115-158 | With no operator every live record matches; the other cases are stated by the three lemmas below |
| RmFileScan.IntMatches | src/rm/rm_filescan.cc:121-131 | An int condition is the C relation between the stored int and the value |
| RmFileScan.NaNMatchesOnlyNe | src/rm/rm_filescan.cc:132-143 | A NaN float attribute satisfies only `!=` |
| RmFileScan.StringEqMatches | src/rm/rm_filescan.cc:144-147 | A string `==` condition holds exactly when the C strings of at most attrLength bytes agree |
| RmFileScan.ScanPage | src/rm/rm_filescan.cc:111-161 | The slot loop stops just past the first hit from the start slot, with no hit skipped; with no hit, it stops at the page end |
| RmFileScan.SlotData | src/rm/rm_filescan.cc:171 | The bytes copied out of a live slot are the ones GetRec returns |
| RmFileScan.FillRecord | src/rm/rm_filescan.cc:164-177 | The filled record is valid, has the header's size and the locator, and its bytes are the slot's, which are the ones GetRec returns |
| RmFileScan.Seek | src/rm/rm_filescan.cc:84-182 | The cursor walk stops just past the first hit at or after the cursor, or past the last slot when no hit is left |
| RmFileScan.FileScan.constructor | src/rm/rm_filescan.cc:6 | A new scan is closed |
| RmFileScan.FileScan.OpenScan | src/rm/rm_filescan.cc:9-71 | The open-scan and closed-handle errors come first, then the argument checks' code, each leaving the scan as it was. On success the cursor is at slot 0 of page 1 with the condition stored, and the scan is valid when its handle is; with no data page the code is the pager's EOF and the scan is left open on page 0 |
| RmFileScan.FileScan.GetNextRec | src/rm/rm_filescan.cc:73-185 | It returns the first live matching record at or after the cursor in (page, slot) order, with GetRec's bytes and its locator, and moves the cursor just past it; with none left it returns RM_EOF and leaves the record alone; the file is not changed |
| RmFileScan.FileScan.CloseScan | src/rm/rm_filescan.cc:187-192 | Closes an open scan and leaves the rest as it was; a closed scan gives RM_SCAN_NOT_OPENED |
| RmManager.RecordsPerPage | src/rm/rm_manager.cc:44-48 | The slots per page are a multiple of 8, and the bitmap and the records fit in 4088 bytes |
| RmManager.RecordsPerPageIsLargest | src/rm/rm_manager.cc:44-48 | No larger multiple of 8 slots fits in a page |
| RmManager.RecordsPerPageAtLeastEight | src/rm/rm_manager.cc:46-48 | Pages hold at least 8 slots exactly when records are at most 510 bytes |
| RmManager.CreateFile | src/rm/rm_manager.cc:12-61 | Sizes of 0 or less give RM_SMALL_RECORDSIZE and sizes of 4088 or more give RM_LARGE_RECORDSIZE; every other size succeeds. The new file has a header page only, no data pages, an empty free list, and RecordsPerPage slots per page, which fit in a page |
| RmManager.CreatedFileIsWellFormed | src/rm/rm_manager.cc:39-50 | A newly created file satisfies the handle invariant with an empty free list |
| RmManager.OpenFile | src/rm/rm_manager.cc:67-98 | An open handle is refused and left as it was. Otherwise the handle is marked open first; a file without pages gives the pager's EOF and the handle keeps its previous header and pages. On success the handle holds the stored header and pages and is not modified; it is valid when the stored pages fit the stored layout, and consistent when the stored file is well formed |
| RmManager.CloseFile | src/rm/rm_manager.cc:100-135 | A closed handle is refused. The header is written back only when the handle is marked modified; the handle is then closed and marked modified, and stays valid |
| RmManager.HeaderLostOnClose | src/rm/rm_manager.cc:100-135 | After one insert into a new file, the handle's header counts one page while the stored header still says none; the stored file is no longer well formed, though its pages still fit the stored layout, so a reopened handle is valid but not consistent |
| RmManager.SavedHeaderReopens | src/rm/rm_manager.cc:106-127 | Writing the handle's header to page 0 gives a well-formed file that reopens to the same state |
| RmManager.CloseFileSavingHeader | src/rm/rm_manager.cc:100-135 | The corrected close writes the handle's header to page 0 and clears the modified flag, so a consistent handle leaves a well-formed file |

## Left out

- The paging layer is a value. Pinning, unpinning, buffer-pool forcing and every pager failure other than "no such page" and end-of-file are not modelled. The model also leaves out CreateFile's pager calls, which create, open, allocate and close the file.
- DeleteRec: the model assumes that its change to the page reaches the file. The source unpins the page without marking it dirty (src/rm/rm_filehandle.cc:181). The consequence is shown under Findings.
- InsertRec: the model assumes that every write to the page reaches the file. The source marks the page dirty and unpins it at src/rm/rm_filehandle.cc:108, then writes the page's free-list link at lines 117-118 and 128-130 through the unpinned buffer. Those writes reach the file only while the buffer pool keeps the page.
- File names are not modelled. `OpenFile` takes the paged file itself, so the pager's open failure is not modelled, and `CreateFile` returns the new file as a value.
- `DestroyFile` only passes the name to the pager. It is not part of this model.
- The RM's error printing is not part of this model.
- The scan's `pinHint` has no effect in the source and is not modelled.
- Record memory management is not modelled: freeing and reallocating `pData_`, the destructor, and the shallow copy of the locator.
- GetRec: a locator that names page 0 gives `PfInvalidPage` in the model, because the model keeps the header page out of the data pages. The source accepts it and reads the header page as a page header, a bitmap and slots, so it would return bytes of the stored file header as a record.
- DeleteRec: on page 0 the model gives `PfInvalidPage`. The source would clear a bit inside the stored header's fields. When the bytes standing for the page's link equal the full mark, it would also put page 0 on the free list.
- InsertRec: a free-list head of page 0 gives `PfInvalidPage` in the model, because page 0 is not a data page there. The source's `GetThisPage(0)` (src/rm/rm_filehandle.cc:75-77) succeeds on the header page. It then sets a bit in the stored header's bytes and writes the record over them. When the rescan finds those bytes full, it takes the next list head from the header's first bytes and writes the full mark there.
- UpdateRec: on page 0 the model gives `PfInvalidPage`. The source would copy the record's bytes over the header page and mark it dirty (src/rm/rm_filehandle.cc:218-221), which corrupts the stored header.
- GetNextRec requires that the scan's handle is still open and that its pages are numbered 1 .. count-1. GetNextRec after an OpenScan that failed with the pager's EOF is not modelled.
- GetNextRec: the paging layer's page order is modelled as ascending page numbers.
- OpenScan keeps a copy of the string value at open time. The source keeps the pointer and reads through it on each GetNextRec.
- A string value shorter than `attrLength` reads as NUL past its end.
- Ints and floats are read as little-endian values.
- The bitmap test `bitmap[i] != -1` assumes a signed `char`. The model reads it as "the byte is not 0xFF".
- A handle is `Consistent` only when the stored file is well formed. After the header loss under Findings, a reopened handle is `Valid` but not `Consistent`. The operations still compute Insert, Delete and Update on it, but the exactness of the free list is not promised.
- The handle operations require `Valid`: the stored pages must be numbered 1 .. count-1 and fit the header's layout. The source reads through whatever the pages hold.
- A handle that OpenFile left open after the pager's end-of-file keeps its previous header and pages.
- OpenFile and OpenScan set the open flag before later paging failures. Those failures are modelled only as the end-of-file case.
- UpdateRec requires the record's buffer to hold at least `size` bytes. The source copies `size` bytes from it without a check.
- InsertRec requires at least 8 slots per page and a record of exactly the record size. The source asserts that a free slot is found and copies `recordSize` bytes from the caller.
- Integer widths: page and slot numbers and header fields are unbounded integers. Only scan values are given 32-bit widths.

## Findings

| source | as written | input that shows it | evidently intended | confidence | as-written member | corrected member |
|---|---|---|---|---|---|---|
| src/rm/rm_filehandle.cc:58-134, src/rm/rm_manager.cc:89, src/rm/rm_manager.cc:100-135 | Nothing sets the handle's modified flag while it is open. OpenFile and ForcePages clear it; InsertRec, DeleteRec and UpdateRec leave it. So CloseFile never writes the in-memory header back | CreateFile(10), OpenFile, one InsertRec, CloseFile: the stored header still says no data pages and no free page while the file has one data page | The header is written back when it changed, so the stored file reopens to the handle's state | not executed | RmManager.HeaderLostOnClose | RmManager.CloseFileSavingHeader |
| src/rm/rm_filehandle.cc:136-184 | DeleteRec clears the slot's bit and may relink the page, then unpins the page without MarkDirty. A page read clean is therefore never written back with the change | In one session, inserts fill page 1 and mark it full; ForcePages writes it so the buffer holds it clean; DeleteRec on one of its records; the buffer pool evicts page 1. The handle's list head is page 1, but the file holds page 1 full and marked full, so the next InsertRec finds no slot and fails the assertion at line 104 | MarkDirty on the page before UnpinPage when the bit was cleared | not executed | RmFileHandle.DeleteNotMarkedDirtyIsLost | RmFileHandle.DeleteMarkedDirtyPersists |
