/**
 * RM_Manager (src/rm/rm_manager.cc): creating a record file (the record
 * size checks, the slots-per-page layout and the initial header), and
 * opening and closing a file handle on it. The paged file a file name
 * stands for is passed in and returned as a value.
 */
module RmManager {
  import opened RmTypes
  import opened RmFileHandle

  /** Floor division brackets its dividend between two multiples of the divisor. */
  lemma DivBrackets(x: int, d: int)
    requires x >= 0 && d > 0
    ensures (x / d) * d <= x < (x / d + 1) * d
  {
    assert x == (x / d) * d + x % d;
  }

  /** Multiplying by a non-negative factor keeps the order. */
  lemma MulMonotone(a: int, b: int, c: int)
    requires a <= b && c >= 0
    ensures a * c <= b * c
  {
    assert b * c - a * c == (b - a) * c;
  }

  /** Slots of `recordSize` bytes plus one bitmap bit each, as bits: 8 * recordSize + 1 per slot. */
  lemma SlotBits(q: int, recordSize: int)
    ensures 8 * (q + 8 * q * recordSize) == (8 * q) * (8 * recordSize + 1)
  {
  }

  /** Rounding the slot count down to a multiple of 8 keeps the layout within the page. */
  lemma LayoutFits(recordSize: int, q: int)
    requires recordSize > 0 && q == 8 * PageCapacity / (8 * recordSize + 1) / 8
    ensures q >= 0 && (8 * q) / 8 + (8 * q) * recordSize <= PageCapacity
  {
    var d := 8 * recordSize + 1;
    var records := 8 * PageCapacity / d;
    DivBrackets(8 * PageCapacity, d);
    assert records * d <= 8 * PageCapacity;
    DivBrackets(records, 8);
    assert 8 * q <= records;
    MulMonotone(8 * q, records, d);
    assert (8 * q) * d <= 8 * PageCapacity;
    SlotBits(q, recordSize);
    assert q + 8 * q * recordSize <= PageCapacity;
    assert (8 * q) / 8 == q;
    assert (8 * q) * recordSize == 8 * q * recordSize;
  }

  /**
   * Slots per page: the most slots whose bitmap (one bit each) and records
   * fit in the page capacity, rounded down to a multiple of 8.
   */
  function RecordsPerPage(recordSize: int): (n: int)
    requires recordSize > 0
    ensures n >= 0 && n % 8 == 0
    ensures n / 8 + n * recordSize <= PageCapacity
  {
    var records := 8 * PageCapacity / (8 * recordSize + 1);
    var q := records / 8;
    LayoutFits(recordSize, q);
    8 * q
  }

  /** No multiple of 8 larger than RecordsPerPage fits: the layout wastes less than 8 slots. */
  lemma RecordsPerPageIsLargest(recordSize: int, m: int)
    requires recordSize > 0 && m >= 0 && m % 8 == 0
    requires m / 8 + m * recordSize <= PageCapacity
    ensures m <= RecordsPerPage(recordSize)
  {
    var d := 8 * recordSize + 1;
    var records := 8 * PageCapacity / d;
    var k := m / 8;
    assert m == 8 * k;
    SlotBits(k, recordSize);
    assert m * d <= 8 * PageCapacity;
    DivBrackets(8 * PageCapacity, d);
    if records < m {
      MulMonotone(records + 1, m, d);
      assert false;
    }
    assert k <= records / 8;
  }

  /** Pages hold at least the 8 slots an insert needs exactly when records are at most 510 bytes. */
  lemma RecordsPerPageAtLeastEight(recordSize: int)
    requires recordSize > 0
    ensures RecordsPerPage(recordSize) >= 8 <==> recordSize <= 510
  {
    var d := 8 * recordSize + 1;
    if recordSize <= 510 {
      RecordsPerPageIsLargest(recordSize, 8);
    } else {
      DivBrackets(8 * PageCapacity, d);
      if 8 * PageCapacity / d >= 8 {
        MulMonotone(8, 8 * PageCapacity / d, d);
        assert false;
      }
    }
  }

  /**
   * CreateFile on the record manager's side: the record size must be
   * positive and below the page capacity; the new file holds only its
   * header page, with no data pages and an empty free list.
   */
  function CreateFile(recordSize: int): (r: Outcome<PagedFile>)
    ensures recordSize <= 0 ==> r == Failure(SmallRecordSize)
    ensures recordSize >= PageCapacity ==> r == Failure(LargeRecordSize)
    ensures r.Success? <==> 0 < recordSize < PageCapacity
    ensures r.Success? ==>
              r.value.header.recordSize == recordSize &&
              r.value.header.numPages == 0 && r.value.header.nextFreePage == NoFreePage &&
              r.value.count == 1 && r.value.pages == map[] &&
              var n := r.value.header.numRecordsPerPage;
              n == RecordsPerPage(recordSize) && n % 8 == 0 && n / 8 + n * recordSize <= PageCapacity
  {
    if recordSize <= 0 then Failure(SmallRecordSize)
    else if recordSize >= PageCapacity then Failure(LargeRecordSize)
    else Success(PagedFile(FileHdr(recordSize, RecordsPerPage(recordSize), 0, NoFreePage), map[], 1))
  }

  /** A newly created file satisfies the handle's invariant, with an empty free list. */
  lemma CreatedFileIsWellFormed(recordSize: int)
    requires CreateFile(recordSize).Success?
    ensures WellFormed(CreateFile(recordSize).value)
  {
    var f := CreateFile(recordSize).value;
    assert FileInv(State(f.header, f), []);
  }

  /**
   * OpenFile into `fh`: a handle that is already open is refused. Otherwise
   * the handle is marked open first; then the header is read from the
   * first page, and a file without pages fails with the pager's end-of-file
   * code and leaves the handle open on what it held before. On success the
   * handle holds the stored header and is not modified; it is valid when
   * the stored pages fit the stored header, and consistent when the stored
   * file is well formed.
   */
  method OpenFile(fh: FileHandle, f: PagedFile) returns (rc: RC)
    modifies fh
    ensures old(fh.isOpened) ==> rc == FileAlreadyOpened && unchanged(fh)
    ensures !old(fh.isOpened) ==> fh.isOpened
    ensures !old(fh.isOpened) && f.count == 0 ==>
              rc == PfEof && fh.hdr == old(fh.hdr) && fh.pf == old(fh.pf) && fh.modified == old(fh.modified)
    ensures !old(fh.isOpened) && f.count > 0 ==>
              rc == OK && fh.hdr == f.header && fh.pf == f && !fh.modified
    ensures !old(fh.isOpened) && Paged(State(f.header, f)) ==> fh.Valid()
    ensures !old(fh.isOpened) && WellFormed(f) ==> fh.Consistent()
  {
    if fh.isOpened {
      return FileAlreadyOpened;
    }
    fh.isOpened := true;
    // GetFirstPage: the header page
    if f.count == 0 {
      return PfEof;
    }
    fh.hdr := f.header;
    fh.pf := f;
    fh.modified := false;
    if WellFormed(f) {
      ghost var l :| FileInv(State(f.header, f), l);
      fh.freeList := l;
    }
    rc := OK;
  }

  /**
   * CloseFile: a closed handle is refused. The in-memory header is written
   * back to the header page only when the handle is marked modified; the
   * handle is then closed and, as the source has it, marked modified.
   */
  method CloseFile(fh: FileHandle) returns (rc: RC)
    modifies fh
    ensures old(fh.Valid()) ==> fh.Valid()
    ensures !old(fh.isOpened) ==> rc == FileNotOpened && unchanged(fh)
    ensures old(fh.isOpened) ==>
              rc == OK && !fh.isOpened && fh.modified && fh.hdr == old(fh.hdr) &&
              fh.pf == old(fh.pf).(header := if old(fh.modified) then old(fh.hdr) else old(fh.pf.header))
  {
    if !fh.isOpened {
      return FileNotOpened;
    }
    if fh.modified {
      fh.pf := fh.pf.(header := fh.hdr);
    }
    fh.isOpened := false;
    fh.modified := true;
    rc := OK;
  }

  // ---------------------------------------------------------------------
  // The stored header after a close
  // ---------------------------------------------------------------------

  /**
   * As written, nothing marks an open handle modified: OpenFile and
   * ForcePages clear the flag and InsertRec, DeleteRec and UpdateRec leave it
   * as it is, so CloseFile never writes the header back. One insert into a
   * new file shows the loss: the handle's header counts the new page and
   * lists it as free, the stored header still says no pages and no free
   * page, and the file as stored no longer satisfies the invariant. Its
   * pages still fit the stored layout, so reopening it gives a valid but
   * inconsistent handle.
   */
  lemma HeaderLostOnClose(recordSize: int, data: seq<byte>)
    requires 0 < recordSize <= 510 && |data| == recordSize
    ensures var f := CreateFile(recordSize).value;
            var st := State(f.header, f);
            InsertReady(st) &&
            var r := Insert(st, data);
            r.st.hdr.numPages == 1 && r.st.hdr.nextFreePage == 1 &&
            r.st.pf.header == f.header && r.st.pf.count == 2 &&
            !WellFormed(r.st.pf) && Paged(State(r.st.pf.header, r.st.pf))
  {
    var f := CreateFile(recordSize).value;
    var st := State(f.header, f);
    RecordsPerPageAtLeastEight(recordSize);
    assert InsertReady(st);
    InsertKeepsPaged(st, data);
    var r := Insert(st, data);
    forall l: seq<int>
      ensures !FileInv(State(r.st.pf.header, r.st.pf), l)
    {
      assert r.st.pf.header.numPages != r.st.pf.count - 1;
    }
  }

  /**
   * Writing the handle's header to the header page gives a file that
   * satisfies the invariant with the same free list, and that reopens to the
   * handle's own state.
   */
  lemma SavedHeaderReopens(st: State, l: seq<int>)
    requires FileInv(st, l)
    ensures var saved := st.pf.(header := st.hdr);
            WellFormed(saved) && FileInv(State(saved.header, saved), l) &&
            State(saved.header, saved).hdr == st.hdr &&
            saved.pages == st.pf.pages && saved.count == st.pf.count
  {
    var saved := st.pf.(header := st.hdr);
    assert FileInv(State(saved.header, saved), l);
  }

  /**
   * CloseFile as evidently intended: the header page receives the handle's
   * header whenever the two differ, so a consistent handle leaves a well
   * formed file and the next OpenFile gets a consistent handle.
   */
  method CloseFileSavingHeader(fh: FileHandle) returns (rc: RC)
    modifies fh
    ensures old(fh.Valid()) ==> fh.Valid()
    ensures !old(fh.isOpened) ==> rc == FileNotOpened && unchanged(fh)
    ensures old(fh.isOpened) ==>
              rc == OK && !fh.isOpened && !fh.modified && fh.hdr == old(fh.hdr) &&
              fh.pf == old(fh.pf).(header := old(fh.hdr))
    ensures old(fh.isOpened) && old(fh.Consistent()) ==> WellFormed(fh.pf)
  {
    if !fh.isOpened {
      return FileNotOpened;
    }
    if fh.Consistent() {
      SavedHeaderReopens(fh.St(), fh.freeList);
    }
    if fh.hdr != fh.pf.header {
      fh.pf := fh.pf.(header := fh.hdr);
    }
    fh.isOpened := false;
    fh.modified := false;
    rc := OK;
  }
}
