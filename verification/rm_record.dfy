/**
 * RM_Record (src/rm/rm_record.cc): a copy of one record's bytes together
 * with its locator. The file handle and the scan fill a record in place; the
 * accessors fail on a record that was never filled.
 */
module RmRecord {
  import opened RmTypes
  import opened RmRid

  class Record {
    var data: seq<byte>   // the buffer pData_ points to
    var size: nat        // size_
    var rid: Rid         // rid_
    var isValid: bool    // isValid_

    /** RM_Record::GetData: the record's bytes, or RM_RECORD_INVALID with `pData` as passed. */
    function GetData(pData: seq<byte>): (r: (RC, seq<byte>))
      reads this
      ensures r.0 == OK <==> isValid
      ensures r.0 == OK ==> r.1 == data
      ensures r.0 != OK ==> r == (RecordInvalid, pData)
    {
      if !isValid then (RecordInvalid, pData) else (OK, data)
    }

    /** RM_Record::GetRid: the record's locator, or RM_RECORD_INVALID with `r` as passed. */
    function GetRid(r: Rid): (res: (RC, Rid))
      reads this
      ensures res.0 == OK <==> isValid
      ensures res.0 == OK ==> res.1 == rid
      ensures res.0 != OK ==> res == (RecordInvalid, r)
    {
      if !isValid then (RecordInvalid, r) else (OK, rid)
    }

    /** The default record is invalid: both accessors fail and write nothing. */
    constructor ()
      ensures !isValid
      ensures forall p :: GetData(p) == (RecordInvalid, p)
      ensures forall r :: GetRid(r) == (RecordInvalid, r)
    {
      data := [];
      size := 0;
      rid := NoRid;
      isValid := false;
    }

    /**
     * The copy constructor copies size, locator and validity. Its buffer copy
     * goes to a local variable that shadows the member, so the new record's
     * buffer is not the source's bytes; nothing is promised about it.
     */
    constructor Copy(r: Record)
      ensures size == r.size && rid == r.rid && isValid == r.isValid
    {
      data := [];
      size := r.size;
      rid := r.rid;
      isValid := r.isValid;
    }

    /**
     * operator=: copies size, locator and validity from `r` unless `r` is this
     * record; the record keeps its own buffer (the copy again goes to a
     * shadowing local).
     */
    method Assign(r: Record)
      modifies this
      ensures size == old(r.size) && rid == old(r.rid) && isValid == old(r.isValid)
      ensures data == old(data)
      ensures r == this ==> unchanged(this)
    {
      if r != this {
        size := r.size;
        rid := r.rid;
        isValid := r.isValid;
      }
    }
  }
}
