/**
 * Types shared by the record manager: return codes (src/rm/rm.h:158-178),
 * the file header (src/rm/rm.h:56-62), the page header sentinels
 * (src/rm/rm_internal.h:6-11), and an abstract view of the paged file that
 * the record manager runs on.
 */
module RmTypes {

  /** A byte of record data, as the unsigned value it holds. */
  newtype byte = x: int | 0 <= x < 0x100

  datatype Option<T> = None | Some(value: T)

  /**
   * Return codes. `OK` is the paging layer's OK_RC; the rest are the record
   * manager's warnings and errors in the order rm.h declares them, plus the
   * two paging-layer codes the record manager passes through.
   */
  datatype RC =
    | OK
    | RidInvalid            // RM_RID_INVALID
    | RecordInvalid         // RM_RECORD_INVALID
    | FileAlreadyOpened     // RM_FILE_ALREADY_OPENED
    | FileNotOpened         // RM_FILE_NOT_OPENED
    | InvalidSlot           // RM_INVALID_SLOT
    | RecordNotFound        // RM_RECORD_NOT_FOUND
    | RecSizeMismatch       // RM_RECSIZE_MISMATCH
    | Eof                   // RM_EOF
    | ScanAlreadyOpened     // RM_SCAN_ALREADY_OPENED
    | ScanNotOpened         // RM_SCAN_NOT_OPENED
    | LargeRecordSize       // RM_LARGE_RECORDSIZE
    | SmallRecordSize       // RM_SMALL_RECORDSIZE
    | BadAttrType           // RM_BAD_ATTRTYPE
    | BadCompOp             // RM_BAD_COMPOP
    | AttrOffsetOutOfRange  // RM_ATTROFFSET_OUT_OF_RANGE
    | InconsistentAttr      // RM_INCONSISTENT_ATTR
    | AttrLengthOutOfRange  // RM_ATTRLENGTH_OUT_OF_RANGE
    | NullValue             // RM_NULL_VALUE
    | PfEof                 // paging layer: no further page
    | PfInvalidPage         // paging layer: no such page

  /** A value or the code of the failure that prevented it. */
  datatype Outcome<T> = Success(value: T) | Failure(rc: RC)

  /** Page-header sentinel: end of the free-page list. */
  const NoFreePage: int := -1
  /** Page-header sentinel: the page has no free slot and is not on the free list. */
  const PageFullUsed: int := -2

  /** Bytes in a page of the paging layer (4096 less its own 4-byte page header). */
  const PfPageSize: int := 4092
  /** sizeof(RM_PageHdr): one int, the page's free-list link. */
  const PageHdrSize: int := 4
  /** Bytes of a page left for the slot bitmap and the record slots. */
  const PageCapacity: int := PfPageSize - PageHdrSize

  /** RM_FileHdr, kept on page 0 of the file and in memory while the file is open. */
  datatype FileHdr = FileHdr(
    recordSize: int,
    numRecordsPerPage: int,
    numPages: int,
    nextFreePage: int)

  /**
   * A data page: its RM_PageHdr (the free-list link), the slot bitmap of
   * `numRecordsPerPage / 8` bytes and the `numRecordsPerPage` record slots.
   */
  datatype Page = Page(nextFreePage: int, bitmap: seq<bv8>, slots: seq<seq<byte>>)

  /**
   * The paged file as the record manager sees it: the header stored on
   * page 0, the data pages by page number, and the number of pages the
   * paging layer has allocated (page 0 included).
   */
  datatype PagedFile = PagedFile(header: FileHdr, pages: map<int, Page>, count: nat)

  /** A page exactly as the paging layer hands out a newly allocated one: all bytes zero. */
  function ZeroPage(numRecords: nat, recordSize: nat): (pg: Page)
    ensures pg.nextFreePage == 0
    ensures |pg.bitmap| == numRecords / 8 && forall k :: 0 <= k < |pg.bitmap| ==> pg.bitmap[k] == 0
    ensures |pg.slots| == numRecords
    ensures forall s :: 0 <= s < numRecords ==> pg.slots[s] == seq(recordSize, _ => 0 as byte)
  {
    Page(0, seq(numRecords / 8, _ => 0 as bv8), seq(numRecords, _ => seq(recordSize, _ => 0 as byte)))
  }
}
