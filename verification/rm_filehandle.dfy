/**
 * RM_FileHandle (src/rm/rm_filehandle.cc): fetch, insert, delete and update
 * of fixed-size records at a (page, slot) locator, the first-fit slot
 * allocator over the page bitmap, and the list of pages with a free slot
 * threaded through the page headers.
 *
 * The first half states each operation as a function of the handle's state
 * (its in-memory header and the paged file) and proves its properties; the
 * class at the end is the handle itself, whose methods run the source's
 * loops and are proved to compute those functions.
 */
module RmFileHandle {
  import opened RmTypes
  import opened RmRid
  import opened RmRecord
  import opened Bitmap

  /** What a handle works on: the header held in memory (fHdr_) and the paged file. */
  datatype State = State(hdr: FileHdr, pf: PagedFile)

  /** The result of an insert: the new state and the locator of the new record. */
  datatype Inserted = Inserted(st: State, rid: Rid)

  /** The result of a delete or an update: its return code and the new state. */
  datatype Changed = Changed(rc: RC, st: State)

  /** A data page laid out for `numRecords` slots of `recordSize` bytes. */
  predicate PageFits(pg: Page, numRecords: int, recordSize: int)
  {
    |pg.bitmap| == numRecords / 8 && |pg.slots| == numRecords &&
    forall s :: 0 <= s < numRecords ==> |pg.slots[s]| == recordSize
  }

  /** The header's layout fields are sane and every data page is laid out by them. */
  predicate Shaped(st: State)
  {
    st.hdr.recordSize > 0 && st.hdr.numRecordsPerPage >= 0 && st.hdr.numRecordsPerPage % 8 == 0 &&
    forall p :: p in st.pf.pages ==> PageFits(st.pf.pages[p], st.hdr.numRecordsPerPage, st.hdr.recordSize)
  }

  /**
   * `l` is the free-page list that starts at `head`: each listed page links
   * to the next one, the last links to NoFreePage, and no page is listed twice.
   */
  ghost predicate FreeListIs(pages: map<int, Page>, head: int, l: seq<int>)
  {
    head == (if l == [] then NoFreePage else l[0]) &&
    (forall i :: 0 <= i < |l| ==> l[i] in pages) &&
    (forall i :: 0 <= i < |l| ==>
       pages[l[i]].nextFreePage == (if i + 1 < |l| then l[i + 1] else NoFreePage)) &&
    (forall i, j :: 0 <= i < j < |l| ==> l[i] != l[j])
  }

  /**
   * The handle's invariant with free list `l`: the data pages are numbered
   * 1 .. count-1 and counted by numPages; the free list holds exactly the
   * pages that have a clear bit; every other page is marked PageFullUsed.
   */
  ghost predicate FileInv(st: State, l: seq<int>)
  {
    Shaped(st) &&
    1 <= st.pf.count && st.hdr.numPages == st.pf.count - 1 &&
    (forall p :: p in st.pf.pages <==> 1 <= p < st.pf.count) &&
    FreeListIs(st.pf.pages, st.hdr.nextFreePage, l) &&
    (forall p :: p in st.pf.pages ==> (p in l <==> !Full(st.pf.pages[p].bitmap))) &&
    (forall p :: p in st.pf.pages && p !in l ==> st.pf.pages[p].nextFreePage == PageFullUsed)
  }

  /**
   * The part of the invariant the operations need: the layout, a header
   * page, and data pages numbered 1 .. count-1.
   */
  ghost predicate Paged(st: State)
  {
    Shaped(st) && 1 <= st.pf.count && forall p :: p in st.pf.pages <==> 1 <= p < st.pf.count
  }

  /** A paged file whose stored header and pages satisfy the invariant for some free list. */
  ghost predicate WellFormed(f: PagedFile)
  {
    exists l :: FileInv(State(f.header, f), l)
  }

  /** The link stored in the page at position `i` of the free list. */
  lemma ListLink(pages: map<int, Page>, head: int, l: seq<int>, i: int)
    requires FreeListIs(pages, head, l) && 0 <= i < |l|
    ensures l[i] in pages
    ensures pages[l[i]].nextFreePage == (if i + 1 < |l| then l[i + 1] else NoFreePage)
  {
  }

  // ---------------------------------------------------------------------
  // Fetch
  // ---------------------------------------------------------------------

  /** GetRec on an open handle: the bytes of the live record at `rid`, or why there are none. */
  function Fetch(st: State, rid: Rid): (r: Outcome<seq<byte>>)
    requires Shaped(st)
  {
    match rid
    case NoRid => Failure(RidInvalid)
    case Rid(p, s) =>
      if !(0 <= s < st.hdr.numRecordsPerPage) then Failure(InvalidSlot)
      else if p !in st.pf.pages then Failure(PfInvalidPage)
      else if !Live(st.pf.pages[p].bitmap, s) then Failure(RecordNotFound)
      else Success(st.pf.pages[p].slots[s])
  }

  // ---------------------------------------------------------------------
  // Insert
  // ---------------------------------------------------------------------

  /**
   * What InsertRec needs: at least one byte of bitmap per page, and a list
   * head that is either NoFreePage or a page with a clear bit (the source
   * asserts that a slot is found).
   */
  predicate InsertReady(st: State)
  {
    Shaped(st) && st.hdr.numRecordsPerPage >= 8 &&
    (st.hdr.nextFreePage == NoFreePage ||
     (st.hdr.nextFreePage in st.pf.pages && !Full(st.pf.pages[st.hdr.nextFreePage].bitmap)))
  }

  /** The page an insert writes to: a newly allocated one when the list is empty, else the list head. */
  function TargetPageNum(st: State): int
  {
    if st.hdr.nextFreePage == NoFreePage then st.pf.count else st.hdr.nextFreePage
  }

  /** That page's contents before the insert (zero-filled when newly allocated). */
  function TargetPage(st: State): (pg: Page)
    requires InsertReady(st)
    ensures PageFits(pg, st.hdr.numRecordsPerPage, st.hdr.recordSize)
    ensures !Full(pg.bitmap)
  {
    if st.hdr.nextFreePage == NoFreePage then
      var pg := ZeroPage(st.hdr.numRecordsPerPage, st.hdr.recordSize);
      assert pg.bitmap[0] == 0;
      pg
    else st.pf.pages[st.hdr.nextFreePage]
  }

  /**
   * InsertRec on an open handle. The record goes to the first clear slot of
   * the target page (ascending byte, then ascending bit). A newly allocated
   * page is pushed on the free list and counted; a reused page that the
   * insert fills is popped off the list and marked PageFullUsed.
   */
  function Insert(st: State, data: seq<byte>): (r: Inserted)
    requires InsertReady(st)
    requires |data| == st.hdr.recordSize
    ensures r.rid.Rid? && r.rid.pageNum == TargetPageNum(st)
    ensures var s := r.rid.slotNum;
            var before := TargetPage(st).bitmap;
            0 <= s < st.hdr.numRecordsPerPage &&
            !Live(before, s) && (forall t :: 0 <= t < s ==> Live(before, t))
    ensures r.rid.pageNum in r.st.pf.pages
    ensures var pg := r.st.pf.pages[r.rid.pageNum];
            var before := TargetPage(st);
            |pg.bitmap| == |before.bitmap| &&
            (forall t :: 0 <= t < 8 * |pg.bitmap| ==> (Live(pg.bitmap, t) <==> t == r.rid.slotNum || Live(before.bitmap, t))) &&
            pg.slots == before.slots[r.rid.slotNum := data]
    ensures forall q :: q in st.pf.pages && q != r.rid.pageNum ==> q in r.st.pf.pages && r.st.pf.pages[q] == st.pf.pages[q]
    ensures r.st.hdr.recordSize == st.hdr.recordSize && r.st.hdr.numRecordsPerPage == st.hdr.numRecordsPerPage
    ensures r.st.pf.header == st.pf.header
    ensures st.hdr.nextFreePage == NoFreePage ==>
              r.rid.pageNum == st.pf.count && r.st.pf.count == st.pf.count + 1 &&
              r.st.hdr.numPages == st.hdr.numPages + 1 &&
              r.st.hdr.nextFreePage == r.rid.pageNum &&
              r.st.pf.pages[r.rid.pageNum].nextFreePage == st.hdr.nextFreePage
    ensures st.hdr.nextFreePage != NoFreePage ==>
              r.rid.pageNum == st.hdr.nextFreePage && r.st.pf.count == st.pf.count &&
              r.st.hdr.numPages == st.hdr.numPages &&
              var p := r.rid.pageNum;
              if Full(r.st.pf.pages[p].bitmap) then
                r.st.hdr.nextFreePage == st.pf.pages[p].nextFreePage &&
                r.st.pf.pages[p].nextFreePage == PageFullUsed
              else
                r.st.hdr.nextFreePage == st.hdr.nextFreePage &&
                r.st.pf.pages[p].nextFreePage == st.pf.pages[p].nextFreePage
  {
    var hdr := st.hdr;
    var p := TargetPageNum(st);
    var pg := TargetPage(st);
    FirstClearIsLowest(pg.bitmap);
    var s := FirstClear(pg.bitmap);
    var bm := SetSlot(pg.bitmap, s);
    var written := pg.(bitmap := bm, slots := pg.slots[s := data]);
    if hdr.nextFreePage == NoFreePage then
      Inserted(
        State(hdr.(nextFreePage := p, numPages := hdr.numPages + 1),
              st.pf.(pages := st.pf.pages[p := written.(nextFreePage := hdr.nextFreePage)],
                     count := st.pf.count + 1)),
        Rid(p, s))
    else if Full(bm) then
      Inserted(
        State(hdr.(nextFreePage := pg.nextFreePage),
              st.pf.(pages := st.pf.pages[p := written.(nextFreePage := PageFullUsed)])),
        Rid(p, s))
    else
      Inserted(State(hdr, st.pf.(pages := st.pf.pages[p := written])), Rid(p, s))
  }

  // ---------------------------------------------------------------------
  // Delete
  // ---------------------------------------------------------------------

  /**
   * DeleteRec on an open handle. Clears the record's bit; a page that was
   * marked PageFullUsed goes back on the head of the free list.
   */
  function Delete(st: State, rid: Rid): (r: Changed)
    requires Shaped(st)
    ensures r.st.pf.count == st.pf.count && r.st.hdr.numPages == st.hdr.numPages
    ensures r.st.hdr.recordSize == st.hdr.recordSize && r.st.hdr.numRecordsPerPage == st.hdr.numRecordsPerPage
    ensures r.st.pf.header == st.pf.header
    ensures r.st.pf.pages.Keys == st.pf.pages.Keys
  {
    match rid
    case NoRid => Changed(RidInvalid, st)
    case Rid(p, s) =>
      if !(0 <= s < st.hdr.numRecordsPerPage) then Changed(InvalidSlot, st)
      else if p !in st.pf.pages then Changed(PfInvalidPage, st)
      else
        var pg := st.pf.pages[p];
        if !Live(pg.bitmap, s) then Changed(RecordNotFound, st)
        else
          var cleared := pg.(bitmap := ClearSlot(pg.bitmap, s));
          if pg.nextFreePage == PageFullUsed then
            Changed(OK, State(st.hdr.(nextFreePage := p),
                              st.pf.(pages := st.pf.pages[p := cleared.(nextFreePage := st.hdr.nextFreePage)])))
          else
            Changed(OK, st.(pf := st.pf.(pages := st.pf.pages[p := cleared])))
  }

  // ---------------------------------------------------------------------
  // Update
  // ---------------------------------------------------------------------

  /**
   * UpdateRec on an open handle, for a record with validity `recValid`, size
   * `recSize`, locator `recRid` and buffer `recData`: overwrites the slot's
   * bytes and nothing else.
   */
  function Update(st: State, recValid: bool, recSize: nat, recRid: Rid, recData: seq<byte>): (r: Changed)
    requires Shaped(st)
    requires recValid ==> |recData| >= recSize
    ensures r.st.hdr == st.hdr && r.st.pf.count == st.pf.count && r.st.pf.header == st.pf.header
    ensures r.st.pf.pages.Keys == st.pf.pages.Keys
    ensures forall q :: q in st.pf.pages ==>
              r.st.pf.pages[q].bitmap == st.pf.pages[q].bitmap &&
              r.st.pf.pages[q].nextFreePage == st.pf.pages[q].nextFreePage
    ensures r.rc != OK ==> r.st == st
  {
    if !recValid then Changed(RecordInvalid, st)
    else match recRid
      case NoRid => Changed(RidInvalid, st)
      case Rid(p, s) =>
        if recSize != st.hdr.recordSize then Changed(RecSizeMismatch, st)
        else if !(0 <= s < st.hdr.numRecordsPerPage) then Changed(InvalidSlot, st)
        else if p !in st.pf.pages then Changed(PfInvalidPage, st)
        else
          var pg := st.pf.pages[p];
          if !Live(pg.bitmap, s) then Changed(RecordNotFound, st)
          else Changed(OK, st.(pf := st.pf.(pages := st.pf.pages[p := pg.(slots := pg.slots[s := recData[..recSize]])])))
  }

  // ---------------------------------------------------------------------
  // Properties of the invariant
  // ---------------------------------------------------------------------

  /** A page on the free list never carries the PageFullUsed mark. */
  lemma ListedNotMarkedFull(st: State, l: seq<int>, p: int)
    requires FileInv(st, l) && p in l
    ensures p in st.pf.pages && st.pf.pages[p].nextFreePage != PageFullUsed
  {
    var i :| 0 <= i < |l| && l[i] == p;
    ListLink(st.pf.pages, st.hdr.nextFreePage, l, i);
    if i + 1 < |l| {
      assert l[i + 1] in st.pf.pages;
      assert 1 <= l[i + 1];
    }
  }

  /**
   * The free-list head is NoFreePage or a data page, and a page marked
   * PageFullUsed has no clear bit.
   */
  lemma HeadAndFullMark(st: State, l: seq<int>)
    requires FileInv(st, l)
    ensures st.hdr.nextFreePage == NoFreePage || st.hdr.nextFreePage in st.pf.pages
    ensures forall p :: p in st.pf.pages && st.pf.pages[p].nextFreePage == PageFullUsed ==>
              forall s :: 0 <= s < st.hdr.numRecordsPerPage ==> Live(st.pf.pages[p].bitmap, s)
  {
    forall p | p in st.pf.pages && st.pf.pages[p].nextFreePage == PageFullUsed
      ensures forall s :: 0 <= s < st.hdr.numRecordsPerPage ==> Live(st.pf.pages[p].bitmap, s)
    {
      if p in l {
        ListedNotMarkedFull(st, l, p);
      }
      FullIffAllLive(st.pf.pages[p].bitmap);
    }
  }

  /** Under the invariant, an insert can always proceed once pages hold at least eight slots. */
  lemma InvReadyForInsert(st: State, l: seq<int>)
    requires FileInv(st, l) && st.hdr.numRecordsPerPage >= 8
    ensures InsertReady(st)
  {
    if st.hdr.nextFreePage != NoFreePage {
      assert l[0] == st.hdr.nextFreePage;
    }
  }

  // ---------------------------------------------------------------------
  // Insert: round trip, invariant, full pages are skipped
  // ---------------------------------------------------------------------

  /** Fetching the locator an insert returned gives back exactly the inserted bytes. */
  lemma InsertThenFetch(st: State, data: seq<byte>)
    requires InsertReady(st) && |data| == st.hdr.recordSize
    ensures Shaped(Insert(st, data).st)
    ensures Fetch(Insert(st, data).st, Insert(st, data).rid) == Success(data)
  {
    var r := Insert(st, data);
    var p := r.rid.pageNum;
    forall q | q in r.st.pf.pages
      ensures PageFits(r.st.pf.pages[q], st.hdr.numRecordsPerPage, st.hdr.recordSize)
    {
      if q != p {
        assert q in st.pf.pages;
      }
    }
    assert Live(r.st.pf.pages[p].bitmap, r.rid.slotNum);
  }

  /** The free list after an insert. */
  ghost function InsertList(st: State, l: seq<int>, data: seq<byte>): seq<int>
    requires FileInv(st, l) && st.hdr.numRecordsPerPage >= 8 && |data| == st.hdr.recordSize
  {
    InvReadyForInsert(st, l);
    var r := Insert(st, data);
    if st.hdr.nextFreePage == NoFreePage then [r.rid.pageNum] + l
    else if Full(r.st.pf.pages[r.rid.pageNum].bitmap) then l[1..]
    else l
  }

  /** An insert into a newly allocated page puts that page on the free list, ahead of nothing. */
  lemma InsertNewPageKeepsInv(st: State, l: seq<int>, data: seq<byte>)
    requires FileInv(st, l) && InsertReady(st) && |data| == st.hdr.recordSize
    requires st.hdr.nextFreePage == NoFreePage
    ensures FileInv(Insert(st, data).st, [Insert(st, data).rid.pageNum])
  {
    InsertThenFetch(st, data);
    var r := Insert(st, data);
    var p := r.rid.pageNum;
    var pages := r.st.pf.pages;
    assert l == [];
    assert p !in st.pf.pages;
    var bm := pages[p].bitmap;
    var before := TargetPage(st).bitmap;
    assert !Live(before, 0) && !Live(before, 1);
    assert r.rid.slotNum == 0;
    assert !Live(bm, 1);
    NotFullWhenClear(bm, 1);
    assert FreeListIs(pages, r.st.hdr.nextFreePage, [p]);
  }

  /** An insert that fills the free-list head pops it off the list. */
  lemma InsertFillsPageKeepsInv(st: State, l: seq<int>, data: seq<byte>)
    requires FileInv(st, l) && InsertReady(st) && |data| == st.hdr.recordSize
    requires st.hdr.nextFreePage != NoFreePage
    requires Full(Insert(st, data).st.pf.pages[Insert(st, data).rid.pageNum].bitmap)
    ensures l != [] && FileInv(Insert(st, data).st, l[1..])
  {
    InsertThenFetch(st, data);
    var r := Insert(st, data);
    var p := r.rid.pageNum;
    var pages := r.st.pf.pages;
    assert p == l[0];
    var l2 := l[1..];
    ListLink(st.pf.pages, st.hdr.nextFreePage, l, 0);
    assert r.st.hdr.nextFreePage == (if l2 == [] then NoFreePage else l2[0]);
    forall i | 0 <= i < |l2|
      ensures l2[i] in pages && pages[l2[i]] == st.pf.pages[l2[i]]
      ensures pages[l2[i]].nextFreePage == (if i + 1 < |l2| then l2[i + 1] else NoFreePage)
    {
      assert l2[i] == l[i + 1] && l[i + 1] != l[0];
      ListLink(st.pf.pages, st.hdr.nextFreePage, l, i + 1);
    }
    assert FreeListIs(pages, r.st.hdr.nextFreePage, l2);
    forall q | q in pages
      ensures q in l2 <==> !Full(pages[q].bitmap)
    {
      if q != p {
        assert q in l2 <==> q in l;
      }
    }
  }

  /** An insert that leaves the free-list head with a clear bit keeps the list as it is. */
  lemma InsertReusedPageKeepsInv(st: State, l: seq<int>, data: seq<byte>)
    requires FileInv(st, l) && InsertReady(st) && |data| == st.hdr.recordSize
    requires st.hdr.nextFreePage != NoFreePage
    requires !Full(Insert(st, data).st.pf.pages[Insert(st, data).rid.pageNum].bitmap)
    ensures FileInv(Insert(st, data).st, l)
  {
    InsertThenFetch(st, data);
    var r := Insert(st, data);
    var pages := r.st.pf.pages;
    assert r.rid.pageNum == l[0];
    forall i | 0 <= i < |l|
      ensures pages[l[i]].nextFreePage == (if i + 1 < |l| then l[i + 1] else NoFreePage)
    {
      ListLink(st.pf.pages, st.hdr.nextFreePage, l, i);
      if i > 0 {
        assert l[i] != l[0];
      }
    }
    assert FreeListIs(pages, r.st.hdr.nextFreePage, l);
  }

  /** Insert keeps the invariant: the free list is still exactly the pages with a clear bit. */
  lemma InsertKeepsInv(st: State, l: seq<int>, data: seq<byte>)
    requires FileInv(st, l) && st.hdr.numRecordsPerPage >= 8 && |data| == st.hdr.recordSize
    ensures InsertReady(st)
    ensures FileInv(Insert(st, data).st, InsertList(st, l, data))
  {
    InvReadyForInsert(st, l);
    var r := Insert(st, data);
    if st.hdr.nextFreePage == NoFreePage {
      InsertNewPageKeepsInv(st, l, data);
      assert l == [];
    } else if Full(r.st.pf.pages[r.rid.pageNum].bitmap) {
      InsertFillsPageKeepsInv(st, l, data);
    } else {
      InsertReusedPageKeepsInv(st, l, data);
    }
  }

  /**
   * A page with no clear bit is never the target of an insert: a page leaves
   * the set of insert targets when it fills and stays out until a delete.
   */
  lemma InsertSkipsFullPages(st: State, l: seq<int>, data: seq<byte>, p: int)
    requires FileInv(st, l) && st.hdr.numRecordsPerPage >= 8 && |data| == st.hdr.recordSize
    requires p in st.pf.pages && Full(st.pf.pages[p].bitmap)
    ensures InsertReady(st)
    ensures Insert(st, data).rid.pageNum != p
  {
    InvReadyForInsert(st, l);
  }

  // ---------------------------------------------------------------------
  // Delete: agrees with Fetch, round trip, invariant, relinking
  // ---------------------------------------------------------------------

  /**
   * Delete fails exactly where Fetch fails, with the same code, and then
   * changes nothing; where Fetch finds a record, Delete succeeds.
   */
  lemma DeleteFailsLikeFetch(st: State, rid: Rid)
    requires Shaped(st)
    ensures Fetch(st, rid).Failure? ==> Delete(st, rid) == Changed(Fetch(st, rid).rc, st)
    ensures Fetch(st, rid).Success? ==> Delete(st, rid).rc == OK
  {
  }

  /** After a successful delete the record is gone, and every other slot's liveness is unchanged. */
  lemma DeleteThenFetch(st: State, rid: Rid)
    requires Shaped(st) && Delete(st, rid).rc == OK
    ensures Shaped(Delete(st, rid).st)
    ensures Fetch(Delete(st, rid).st, rid) == Failure(RecordNotFound)
    ensures forall q, t :: q in st.pf.pages && (q, t) != (rid.pageNum, rid.slotNum) ==>
              Fetch(Delete(st, rid).st, Rid(q, t)) == Fetch(st, Rid(q, t))
  {
    var r := Delete(st, rid);
    var p, s := rid.pageNum, rid.slotNum;
    forall q | q in r.st.pf.pages
      ensures PageFits(r.st.pf.pages[q], st.hdr.numRecordsPerPage, st.hdr.recordSize)
    {
    }
    forall q, t | q in st.pf.pages && (q, t) != (p, s)
      ensures Fetch(r.st, Rid(q, t)) == Fetch(st, Rid(q, t))
    {
      if q == p && 0 <= t < st.hdr.numRecordsPerPage {
        assert Live(r.st.pf.pages[p].bitmap, t) <==> Live(st.pf.pages[p].bitmap, t);
      }
    }
  }

  /** The free list after a delete. */
  ghost function DeleteList(st: State, l: seq<int>, rid: Rid): seq<int>
    requires Shaped(st)
  {
    if Delete(st, rid).rc == OK && st.pf.pages[rid.pageNum].nextFreePage == PageFullUsed
    then [rid.pageNum] + l else l
  }

  /** Deleting from a page marked full pushes that page on the head of the free list. */
  lemma DeleteFromFullKeepsInv(st: State, l: seq<int>, rid: Rid)
    requires FileInv(st, l) && Delete(st, rid).rc == OK
    requires st.pf.pages[rid.pageNum].nextFreePage == PageFullUsed
    ensures FileInv(Delete(st, rid).st, [rid.pageNum] + l)
  {
    var r := Delete(st, rid);
    DeleteThenFetch(st, rid);
    var p, s := rid.pageNum, rid.slotNum;
    var pages := r.st.pf.pages;
    var l2 := [p] + l;
    NotFullWhenClear(pages[p].bitmap, s);
    assert p !in l by {
      if p in l { ListedNotMarkedFull(st, l, p); }
    }
    forall i | 0 <= i < |l2|
      ensures pages[l2[i]].nextFreePage == (if i + 1 < |l2| then l2[i + 1] else NoFreePage)
    {
      if i > 0 {
        assert l2[i] == l[i - 1] && l[i - 1] != p;
        ListLink(st.pf.pages, st.hdr.nextFreePage, l, i - 1);
      }
    }
    assert FreeListIs(pages, r.st.hdr.nextFreePage, l2);
  }

  /** Deleting from a page already on the free list keeps the list as it is. */
  lemma DeleteFromListedKeepsInv(st: State, l: seq<int>, rid: Rid)
    requires FileInv(st, l) && Delete(st, rid).rc == OK
    requires st.pf.pages[rid.pageNum].nextFreePage != PageFullUsed
    ensures rid.pageNum in l && FileInv(Delete(st, rid).st, l)
  {
    var r := Delete(st, rid);
    DeleteThenFetch(st, rid);
    var p, s := rid.pageNum, rid.slotNum;
    var pages := r.st.pf.pages;
    NotFullWhenClear(pages[p].bitmap, s);
    assert p in l;
    forall i | 0 <= i < |l|
      ensures pages[l[i]].nextFreePage == (if i + 1 < |l| then l[i + 1] else NoFreePage)
    {
      ListLink(st.pf.pages, st.hdr.nextFreePage, l, i);
    }
    assert FreeListIs(pages, r.st.hdr.nextFreePage, l);
  }

  /** Delete keeps the invariant: a page it frees is on the free list afterwards. */
  lemma DeleteKeepsInv(st: State, l: seq<int>, rid: Rid)
    requires FileInv(st, l)
    ensures FileInv(Delete(st, rid).st, DeleteList(st, l, rid))
    ensures Delete(st, rid).rc == OK ==> rid.pageNum in DeleteList(st, l, rid)
  {
    if Delete(st, rid).rc == OK {
      if st.pf.pages[rid.pageNum].nextFreePage == PageFullUsed {
        DeleteFromFullKeepsInv(st, l, rid);
      } else {
        DeleteFromListedKeepsInv(st, l, rid);
      }
    }
  }

  /**
   * Deleting a record from a full page makes that page the next insert
   * target, ahead of any newly allocated page; the next insert gets back
   * exactly the deleted locator.
   */
  lemma DeleteFromFullThenInsert(st: State, l: seq<int>, rid: Rid, data: seq<byte>)
    requires FileInv(st, l) && st.hdr.numRecordsPerPage >= 8 && |data| == st.hdr.recordSize
    requires Delete(st, rid).rc == OK && Full(st.pf.pages[rid.pageNum].bitmap)
    ensures InsertReady(Delete(st, rid).st)
    ensures Insert(Delete(st, rid).st, data).rid == rid
  {
    var d := Delete(st, rid).st;
    DeleteKeepsInv(st, l, rid);
    var l2 := DeleteList(st, l, rid);
    InvReadyForInsert(d, l2);
    var p, s := rid.pageNum, rid.slotNum;
    assert p !in l;
    assert st.pf.pages[p].nextFreePage == PageFullUsed;
    assert d.hdr.nextFreePage == p;
    var bm := d.pf.pages[p].bitmap;
    FullIffAllLive(st.pf.pages[p].bitmap);
    FirstClearIsLowest(bm);
    var t := FirstClear(bm);
    assert !Live(bm, t);
    assert t == s;
  }

  // ---------------------------------------------------------------------
  // Update: round trip, invariant
  // ---------------------------------------------------------------------

  // ---------------------------------------------------------------------
  // Delete and the buffer pool
  // ---------------------------------------------------------------------

  /**
   * The pages the file holds once the buffer pool drops its copies: a page
   * marked dirty is written back with its buffered contents, and any other
   * page keeps what the file held before.
   */
  function WriteBack(stored: map<int, Page>, buffered: map<int, Page>, dirty: set<int>): map<int, Page>
  {
    map p | p in stored :: if p in dirty && p in buffered then buffered[p] else stored[p]
  }

  /**
   * As written, DeleteRec unpins the page without marking it dirty, so a
   * page that was read clean goes back to the file unchanged. After a delete
   * from a full page the in-memory list head names that page, while the file
   * still holds it full: the next insert takes it and finds no slot.
   */
  lemma DeleteNotMarkedDirtyIsLost(st: State, l: seq<int>, rid: Rid)
    requires FileInv(st, l) && Delete(st, rid).rc == OK
    requires st.pf.pages[rid.pageNum].nextFreePage == PageFullUsed
    ensures var d := Delete(st, rid).st;
            var stored := WriteBack(st.pf.pages, d.pf.pages, {});
            stored == st.pf.pages && d.hdr.nextFreePage == rid.pageNum &&
            rid.pageNum in stored && Full(stored[rid.pageNum].bitmap) &&
            !InsertReady(State(d.hdr, d.pf.(pages := stored)))
  {
    if rid.pageNum in l {
      ListedNotMarkedFull(st, l, rid.pageNum);
    }
  }

  /**
   * DeleteRec as evidently intended marks the page dirty before unpinning
   * it: once the buffer pool writes it back, the file holds exactly Delete's
   * pages, the invariant holds and the next insert can proceed.
   */
  lemma DeleteMarkedDirtyPersists(st: State, l: seq<int>, rid: Rid)
    requires FileInv(st, l) && Delete(st, rid).rc == OK && st.hdr.numRecordsPerPage >= 8
    ensures var d := Delete(st, rid).st;
            WriteBack(st.pf.pages, d.pf.pages, {rid.pageNum}) == d.pf.pages &&
            FileInv(d, DeleteList(st, l, rid)) && InsertReady(d)
  {
    var d := Delete(st, rid).st;
    DeleteKeepsInv(st, l, rid);
    InvReadyForInsert(d, DeleteList(st, l, rid));
    var w := WriteBack(st.pf.pages, d.pf.pages, {rid.pageNum});
    forall q | q in st.pf.pages
      ensures w[q] == d.pf.pages[q]
    {
      if q != rid.pageNum {
        assert d.pf.pages[q] == st.pf.pages[q];
      }
    }
  }

  /**
   * A successful update keeps the locator and Fetch then returns the new
   * bytes, while every other slot fetches as before. An invalid record or a
   * record of another size is refused; otherwise the update fails where
   * Fetch fails on the record's locator.
   */
  lemma UpdateThenFetch(st: State, recValid: bool, recSize: nat, recRid: Rid, recData: seq<byte>)
    requires Shaped(st) && (recValid ==> |recData| >= recSize)
    ensures var r := Update(st, recValid, recSize, recRid, recData);
            Shaped(r.st) &&
            (r.rc == OK ==> Fetch(r.st, recRid) == Success(recData[..recSize])) &&
            (forall q, t :: Rid(q, t) != recRid ==> Fetch(r.st, Rid(q, t)) == Fetch(st, Rid(q, t))) &&
            (!recValid ==> r.rc == RecordInvalid) &&
            (recValid && recRid.Rid? && recSize != st.hdr.recordSize ==> r.rc == RecSizeMismatch) &&
            (recValid && recSize == st.hdr.recordSize && Fetch(st, recRid).Failure? ==> r.rc == Fetch(st, recRid).rc) &&
            (recValid && recSize == st.hdr.recordSize && Fetch(st, recRid).Success? ==> r.rc == OK)
  {
    var r := Update(st, recValid, recSize, recRid, recData);
    forall q | q in r.st.pf.pages
      ensures PageFits(r.st.pf.pages[q], st.hdr.numRecordsPerPage, st.hdr.recordSize)
    {
    }
  }

  /** Insert keeps the data pages laid out and numbered 1 .. count-1. */
  lemma InsertKeepsPaged(st: State, data: seq<byte>)
    requires Paged(st) && st.hdr.numRecordsPerPage >= 8 && |data| == st.hdr.recordSize
    requires st.hdr.nextFreePage == NoFreePage ||
             (st.hdr.nextFreePage in st.pf.pages && !Full(st.pf.pages[st.hdr.nextFreePage].bitmap))
    ensures InsertReady(st) && Paged(Insert(st, data).st)
  {
    InsertThenFetch(st, data);
    var r := Insert(st, data);
    if st.hdr.nextFreePage == NoFreePage {
      assert r.st.pf.pages.Keys == st.pf.pages.Keys + {st.pf.count};
    } else {
      assert r.st.pf.pages.Keys == st.pf.pages.Keys;
    }
  }

  /** Delete keeps the data pages laid out and numbered 1 .. count-1. */
  lemma DeleteKeepsPaged(st: State, rid: Rid)
    requires Paged(st)
    ensures Paged(Delete(st, rid).st)
  {
    if Delete(st, rid).rc == OK {
      DeleteThenFetch(st, rid);
    }
  }

  /** Update keeps the data pages laid out and numbered 1 .. count-1. */
  lemma UpdateKeepsPaged(st: State, recValid: bool, recSize: nat, recRid: Rid, recData: seq<byte>)
    requires Paged(st) && (recValid ==> |recData| >= recSize)
    ensures Paged(Update(st, recValid, recSize, recRid, recData).st)
  {
    UpdateThenFetch(st, recValid, recSize, recRid, recData);
  }

  /** Update keeps the invariant with the same free list. */
  lemma UpdateKeepsInv(st: State, l: seq<int>, recValid: bool, recSize: nat, recRid: Rid, recData: seq<byte>)
    requires FileInv(st, l) && (recValid ==> |recData| >= recSize)
    ensures FileInv(Update(st, recValid, recSize, recRid, recData).st, l)
  {
    UpdateThenFetch(st, recValid, recSize, recRid, recData);
  }

  // ---------------------------------------------------------------------
  // The first-fit slot search
  // ---------------------------------------------------------------------

  /**
   * The slot search of InsertRec (src/rm/rm_filehandle.cc:88-102): walk the
   * bitmap a byte (eight slots) at a time, stop at the first byte that is
   * not 0xFF, set its lowest clear bit and add that bit's index to the slot.
   * When every byte is 0xFF the slot ends at `numRecords` and nothing is set.
   */
  method SearchFreeSlot(bitmap: seq<bv8>, numRecords: int) returns (slot: int, updated: seq<bv8>)
    requires numRecords >= 0 && numRecords % 8 == 0 && |bitmap| == numRecords / 8
    ensures Full(bitmap) ==> slot == numRecords && updated == bitmap
    ensures !Full(bitmap) ==> 0 <= slot < numRecords && slot == FirstClear(bitmap) && updated == SetSlot(bitmap, slot)
  {
    updated := bitmap;
    slot := 0;
    ghost var k := 0;
    while slot < numRecords
      invariant 0 <= k <= |bitmap| && slot == 8 * k
      invariant forall j :: 0 <= j < k ==> bitmap[j] == 0xFF
      invariant updated == bitmap
    {
      assert slot / 8 == k;
      if bitmap[slot / 8] != 0xFF {
        var b := bitmap[slot / 8];
        var i := LowestClearBit(b);
        assert FirstFreeByte(bitmap) == k;
        updated := bitmap[slot / 8 := b | Mask(i)];
        slot := slot + i;
        assert slot / 8 == k && slot % 8 == i;
        return;
      }
      slot, k := slot + 8, k + 1;
    }
  }

  /** The bit loop of the slot search: the lowest clear bit of a byte that is not 0xFF. */
  method LowestClearBit(b: bv8) returns (i: nat)
    requires b != 0xFF
    ensures i < 8 && i == LowestClearBitFrom(b, 0)
  {
    i := 0;
    while i < 8 && IsSet(b, i)
      invariant 0 <= i <= 8
      invariant forall j :: 0 <= j < i ==> IsSet(b, j)
    {
      i := i + 1;
    }
    FullByte(b);
  }

  /**
   * The body of InsertRec on an open handle (src/rm/rm_filehandle.cc:69-132):
   * take the free-list head or allocate a page, set the first clear bit,
   * copy the record in, and relink the page.
   */
  method InsertInto(st: State, data: seq<byte>) returns (st1: State, rid: Rid)
    requires InsertReady(st) && |data| == st.hdr.recordSize
    ensures Inserted(st1, rid) == Insert(st, data)
  {
    var hdr, pf := st.hdr, st.pf;
    ghost var target := TargetPage(st);
    FirstClearIsLowest(target.bitmap);
    var nextFreePos := hdr.nextFreePage;
    var pageNum: int;
    var pg: Page;
    if nextFreePos == NoFreePage {
      // AllocatePage: the next page number, zero-filled
      pageNum := pf.count;
      pg := ZeroPage(hdr.numRecordsPerPage, hdr.recordSize);
      pf := pf.(pages := pf.pages[pageNum := pg], count := pf.count + 1);
    } else {
      pageNum := nextFreePos;
      pg := pf.pages[pageNum];
    }
    var numRecords := hdr.numRecordsPerPage;
    assert pageNum == TargetPageNum(st) && pg == target;
    var slot, bm := SearchFreeSlot(pg.bitmap, numRecords);
    assert slot != numRecords;
    assert slot == FirstClear(target.bitmap) && bm == SetSlot(target.bitmap, slot);
    pg := pg.(bitmap := bm, slots := pg.slots[slot := data]);
    if nextFreePos == NoFreePage {
      pg := pg.(nextFreePage := hdr.nextFreePage);
      hdr := hdr.(nextFreePage := pageNum, numPages := hdr.numPages + 1);
    } else {
      RescanDecidesFull(target.bitmap);
      var full := RescanFull(bm, numRecords, slot);
      if full {
        hdr := hdr.(nextFreePage := pg.nextFreePage);
        pg := pg.(nextFreePage := PageFullUsed);
      }
    }
    pf := pf.(pages := pf.pages[pageNum := pg]);
    st1, rid := State(hdr, pf), Rid(pageNum, slot);
  }

  /**
   * The body of DeleteRec on an open handle (src/rm/rm_filehandle.cc:146-183):
   * the locator's checks, then a live record's bit is cleared, and a page
   * that was marked full goes back on the head of the free list.
   */
  method DeleteFrom(st: State, rid: Rid) returns (rc: RC, st1: State)
    requires Shaped(st)
    ensures Changed(rc, st1) == Delete(st, rid)
  {
    var pageNum := GetPageNum(rid, 0);
    if pageNum.0 != OK {
      return pageNum.0, st;
    }
    var slotNum := GetSlotNum(rid, 0);
    if slotNum.0 != OK {
      return slotNum.0, st;
    }
    var p, s := pageNum.1, slotNum.1;
    if !(0 <= s < st.hdr.numRecordsPerPage) {
      return InvalidSlot, st;
    }
    var hdr, pf := st.hdr, st.pf;
    if p !in pf.pages {
      // GetThisPage fails
      return PfInvalidPage, st;
    }
    var pg := pf.pages[p];
    if IsSet(pg.bitmap[s / 8], s % 8) {
      pg := pg.(bitmap := ClearSlot(pg.bitmap, s));
      rc := OK;
      if pg.nextFreePage == PageFullUsed {
        pg := pg.(nextFreePage := hdr.nextFreePage);
        hdr := hdr.(nextFreePage := p);
      }
      pf := pf.(pages := pf.pages[p := pg]);
    } else {
      rc := RecordNotFound;
    }
    st1 := State(hdr, pf);
  }

  /**
   * The body of UpdateRec on an open handle (src/rm/rm_filehandle.cc:197-230),
   * for a record given by its fields: the record's and the locator's checks
   * in the source's order, then a live record's bytes are overwritten.
   */
  method UpdateIn(st: State, recValid: bool, recSize: nat, recRid: Rid, recData: seq<byte>)
    returns (rc: RC, st1: State)
    requires Shaped(st) && (recValid ==> |recData| >= recSize)
    ensures Changed(rc, st1) == Update(st, recValid, recSize, recRid, recData)
  {
    // RM_Record::GetRid
    if !recValid {
      return RecordInvalid, st;
    }
    var pageNum := GetPageNum(recRid, 0);
    if pageNum.0 != OK {
      return pageNum.0, st;
    }
    var slotNum := GetSlotNum(recRid, 0);
    if slotNum.0 != OK {
      return slotNum.0, st;
    }
    if recSize != st.hdr.recordSize {
      return RecSizeMismatch, st;
    }
    var p, s := pageNum.1, slotNum.1;
    if !(0 <= s < st.hdr.numRecordsPerPage) {
      return InvalidSlot, st;
    }
    var pf := st.pf;
    if p !in pf.pages {
      // GetThisPage fails
      return PfInvalidPage, st;
    }
    var pg := pf.pages[p];
    if IsSet(pg.bitmap[s / 8], s % 8) {
      pg := pg.(slots := pg.slots[s := recData[..recSize]]);
      pf := pf.(pages := pf.pages[p := pg]);
      rc := OK;
    } else {
      rc := RecordNotFound;
    }
    st1 := st.(pf := pf);
  }

  /**
   * The full-page test after an insert into a reused page
   * (src/rm/rm_filehandle.cc:124-127): scan the bytes from the inserted
   * slot's byte onward and stop at the first that is not 0xFF.
   */
  method RescanFull(bm: seq<bv8>, numRecords: int, slot: int) returns (full: bool)
    requires numRecords % 8 == 0 && |bm| == numRecords / 8 && 0 <= slot < numRecords
    ensures full <==> forall j :: slot / 8 <= j < |bm| ==> bm[j] == 0xFF
  {
    var k := slot / 8 * 8;
    while k < numRecords
      invariant slot / 8 * 8 <= k <= numRecords && k % 8 == 0
      invariant forall j :: slot / 8 <= j < k / 8 ==> bm[j] == 0xFF
    {
      if bm[k / 8] != 0xFF {
        break;
      }
      k := k + 8;
    }
    full := k == numRecords;
  }

  // ---------------------------------------------------------------------
  // The handle
  // ---------------------------------------------------------------------

  /**
   * RM_FileHandle. `hdr` is the header held in memory (fHdr_), `pf` the
   * paged file the handle works on (pfFH_ and the pages behind it), and
   * `freeList` the free-page list that the page headers spell out when the
   * file is consistent.
   */
  class FileHandle {
    var isOpened: bool
    var modified: bool
    var hdr: FileHdr
    var pf: PagedFile
    ghost var freeList: seq<int>

    /**
     * What the handle's operations need: on an open handle the data pages
     * are laid out by the in-memory header and numbered 1 .. count-1.
     */
    ghost predicate Valid()
      reads this
    {
      isOpened ==> Paged(State(hdr, pf))
    }

    /**
     * An open handle whose header and pages agree: the file invariant holds
     * with the ghost free list. The operations keep it, but a file reopened
     * after its header was lost (RmManager.HeaderLostOnClose) lacks it.
     */
    ghost predicate Consistent()
      reads this
    {
      isOpened ==> FileInv(State(hdr, pf), freeList)
    }

    /** The state the specification functions work on. */
    function St(): State
      reads this
    {
      State(hdr, pf)
    }

    /** A new handle is closed and unmodified. */
    constructor ()
      ensures Valid() && Consistent() && !isOpened && !modified
    {
      isOpened := false;
      modified := false;
      hdr := FileHdr(0, 0, 0, NoFreePage);
      pf := PagedFile(FileHdr(0, 0, 0, NoFreePage), map[], 0);
      freeList := [];
    }

    /**
     * A slot number is valid on an open handle when it is below the number
     * of slots per page; such a slot has a bitmap bit and a record slot on
     * every data page.
     */
    function IsValidSlotNum(slotNum: int): (r: bool)
      reads this
      ensures r <==> isOpened && 0 <= slotNum < hdr.numRecordsPerPage
      ensures r && Valid() ==> forall p :: p in pf.pages ==>
                slotNum / 8 < |pf.pages[p].bitmap| && slotNum < |pf.pages[p].slots| &&
                |pf.pages[p].slots[slotNum]| == hdr.recordSize
    {
      isOpened && slotNum >= 0 && slotNum < hdr.numRecordsPerPage
    }

    /**
     * GetRec: on success `rec` holds a copy of the live record at `rid`,
     * sized by the header, with `rid` as its locator; otherwise `rec` is
     * untouched and the code is the one Fetch fails with.
     */
    method GetRec(rid: Rid, rec: Record) returns (rc: RC)
      requires Valid()
      modifies rec
      ensures !isOpened ==> rc == FileNotOpened
      ensures isOpened ==> rc == (if Fetch(St(), rid).Success? then OK else Fetch(St(), rid).rc)
      ensures rc == OK ==>
                rec.isValid && rec.size == hdr.recordSize && rec.rid == rid &&
                Fetch(St(), rid) == Success(rec.data)
      ensures rc != OK ==> unchanged(rec)
    {
      if !isOpened {
        return FileNotOpened;
      }
      var pageNum := GetPageNum(rid, 0);
      if pageNum.0 != OK {
        return pageNum.0;
      }
      var slotNum := GetSlotNum(rid, 0);
      if slotNum.0 != OK {
        return slotNum.0;
      }
      var p, s := pageNum.1, slotNum.1;
      if !IsValidSlotNum(s) {
        return InvalidSlot;
      }
      if p !in pf.pages {
        return PfInvalidPage;
      }
      var pg := pf.pages[p];
      if IsSet(pg.bitmap[s / 8], s % 8) {
        rec.isValid := true;
        rec.size := hdr.recordSize;
        rec.rid := rid;
        rec.data := pg.slots[s];
        rc := OK;
      } else {
        rc := RecordNotFound;
      }
    }

    /**
     * InsertRec: writes `data` into the first free slot of the free-list
     * head, or of a newly allocated page when the list is empty. A list head
     * that names no data page fails with the pager's invalid-page code. On
     * failure `rid` stays as passed in (`rid0`). The caller supplies a full
     * record; pages hold at least eight slots and the head, when it is a
     * data page, has a clear bit (the source asserts that a slot is found).
     * On a consistent handle the free list stays exact.
     */
    method InsertRec(data: seq<byte>, rid0: Rid) returns (rc: RC, rid: Rid)
      requires Valid()
      requires isOpened ==> |data| == hdr.recordSize && hdr.numRecordsPerPage >= 8
      requires isOpened && hdr.nextFreePage in pf.pages ==> !Full(pf.pages[hdr.nextFreePage].bitmap)
      modifies this
      ensures Valid() && isOpened == old(isOpened) && modified == old(modified)
      ensures !old(isOpened) ==> rc == FileNotOpened && rid == rid0 && unchanged(this)
      ensures old(isOpened) && old(hdr.nextFreePage) != NoFreePage && old(hdr.nextFreePage) !in old(pf.pages) ==>
                rc == PfInvalidPage && rid == rid0 && unchanged(this)
      ensures old(isOpened) && (old(hdr.nextFreePage) == NoFreePage || old(hdr.nextFreePage) in old(pf.pages)) ==>
                rc == OK && Inserted(St(), rid) == Insert(old(St()), data)
      ensures old(Consistent()) ==> Consistent() && (isOpened ==> rc == OK)
      ensures old(Consistent()) && isOpened ==> freeList == InsertList(old(St()), old(freeList), data)
    {
      if !isOpened {
        return FileNotOpened, rid0;
      }
      if hdr.nextFreePage != NoFreePage && hdr.nextFreePage !in pf.pages {
        // GetThisPage on the list head fails
        return PfInvalidPage, rid0;
      }
      ghost var st0, l0 := St(), freeList;
      InsertKeepsPaged(st0, data);
      if FileInv(st0, l0) {
        InsertKeepsInv(st0, l0, data);
        freeList := InsertList(st0, l0, data);
      }
      var st1;
      st1, rid := InsertInto(St(), data);
      hdr, pf := st1.hdr, st1.pf;
      rc := OK;
    }

    /**
     * DeleteRec: clears the record's bit and relinks a page that was marked
     * full; the code and the new state are those of Delete.
     */
    method DeleteRec(rid: Rid) returns (rc: RC)
      requires Valid()
      modifies this
      ensures Valid() && isOpened == old(isOpened) && modified == old(modified)
      ensures !old(isOpened) ==> rc == FileNotOpened && unchanged(this)
      ensures old(isOpened) ==> Changed(rc, St()) == Delete(old(St()), rid)
      ensures old(Consistent()) ==> Consistent()
      ensures old(Consistent()) && isOpened ==> freeList == DeleteList(old(St()), old(freeList), rid)
    {
      if !isOpened {
        return FileNotOpened;
      }
      ghost var st0, l0 := St(), freeList;
      DeleteKeepsPaged(st0, rid);
      if FileInv(st0, l0) {
        DeleteKeepsInv(st0, l0, rid);
        freeList := DeleteList(st0, l0, rid);
      }
      var st1;
      rc, st1 := DeleteFrom(St(), rid);
      hdr, pf := st1.hdr, st1.pf;
    }

    /**
     * UpdateRec: overwrites the live record at `rec`'s locator with `rec`'s
     * bytes; the code and the new state are those of Update.
     */
    method UpdateRec(rec: Record) returns (rc: RC)
      requires Valid()
      requires rec.isValid ==> |rec.data| >= rec.size
      modifies this
      ensures Valid() && isOpened == old(isOpened) && modified == old(modified) && freeList == old(freeList)
      ensures !old(isOpened) ==> rc == FileNotOpened && unchanged(this)
      ensures old(isOpened) ==> Changed(rc, St()) == Update(old(St()), rec.isValid, rec.size, rec.rid, rec.data)
      ensures old(Consistent()) ==> Consistent()
    {
      if !isOpened {
        return FileNotOpened;
      }
      UpdateKeepsPaged(St(), rec.isValid, rec.size, rec.rid, rec.data);
      if FileInv(St(), freeList) {
        UpdateKeepsInv(St(), freeList, rec.isValid, rec.size, rec.rid, rec.data);
      }
      var st1;
      rc, st1 := UpdateIn(St(), rec.isValid, rec.size, rec.rid, rec.data);
      hdr, pf := st1.hdr, st1.pf;
    }

    /**
     * ForcePages: on an open handle whose header was marked modified, the
     * in-memory header is written to page 0 first; the flag is then cleared.
     * The data pages are not changed.
     */
    method ForcePages(pageNum: int) returns (rc: RC)
      modifies this
      ensures old(Valid()) ==> Valid()
      ensures old(Consistent()) ==> Consistent()
      ensures !old(isOpened) ==> rc == FileNotOpened && unchanged(this)
      ensures old(isOpened) ==>
                rc == OK && isOpened && !modified &&
                hdr == old(hdr) && freeList == old(freeList) &&
                pf == old(pf).(header := if old(modified) then old(hdr) else old(pf.header))
    {
      if !isOpened {
        return FileNotOpened;
      }
      if modified {
        pf := pf.(header := hdr);
      }
      modified := false;
      rc := OK;
    }
  }
}
