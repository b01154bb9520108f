/**
 * The record locator RID (src/rm/rm_rid.cc): a page number and a slot
 * number, or the invalid locator a default-constructed RID holds. The
 * accessors fail on the invalid locator and leave their out-parameter as the
 * caller passed it; here the out-parameter's incoming value is an argument
 * and the function returns the code together with its outgoing value.
 */
module RmRid {
  import opened RmTypes

  datatype Rid = NoRid | Rid(pageNum: int, slotNum: int)

  /**
   * RID::GetPageNum: the locator's page number, or RM_RID_INVALID on the
   * default locator with `pageNum` left as passed.
   */
  function GetPageNum(rid: Rid, pageNum: int): (r: (RC, int))
    ensures r.0 == OK <==> rid.Rid?
    ensures r.0 == OK ==> rid == Rid(r.1, rid.slotNum)
    ensures r.0 != OK ==> r == (RidInvalid, pageNum)
  {
    match rid
    case NoRid => (RidInvalid, pageNum)
    case Rid(p, _) => (OK, p)
  }

  /**
   * RID::GetSlotNum: the locator's slot number, or RM_RID_INVALID on the
   * default locator with `slotNum` left as passed.
   */
  function GetSlotNum(rid: Rid, slotNum: int): (r: (RC, int))
    ensures r.0 == OK <==> rid.Rid?
    ensures r.0 == OK ==> rid == Rid(rid.pageNum, r.1)
    ensures r.0 != OK ==> r == (RidInvalid, slotNum)
  {
    match rid
    case NoRid => (RidInvalid, slotNum)
    case Rid(_, s) => (OK, s)
  }

  /** RID(): the default locator, on which every accessor fails and writes nothing. */
  function DefaultRid(): (r: Rid)
    ensures forall x :: GetPageNum(r, x) == (RidInvalid, x) && GetSlotNum(r, x) == (RidInvalid, x)
  {
    NoRid
  }

  /** RID(pageNum, slotNum): the accessors give back exactly the two numbers. */
  function MakeRid(pageNum: int, slotNum: int): (r: Rid)
    ensures forall x :: GetPageNum(r, x) == (OK, pageNum) && GetSlotNum(r, x) == (OK, slotNum)
  {
    Rid(pageNum, slotNum)
  }
}
