/**
 * The per-page slot bitmap of the record manager: one bit per slot, eight
 * slots per byte, bit `s % 8` of byte `s / 8` set when slot `s` holds a live
 * record (src/rm/rm_filehandle.cc:37, 92, 113). The source keeps the bitmap as
 * `char` bytes and recognises a full byte by comparing it with -1; here a byte
 * is a `bv8` and a full byte is 0xFF.
 */
module Bitmap {

  /** The mask `1 << i` used to test, set and clear bit `i` of a bitmap byte. */
  function Mask(i: nat): bv8
    requires i < 8
  {
    (1 as bv8) << i
  }

  predicate IsSet(b: bv8, i: nat)
    requires i < 8
  {
    b & Mask(i) != 0
  }

  /** A byte is 0xFF exactly when all eight of its bits are set. */
  lemma FullByte(b: bv8)
    ensures b == 0xFF <==> forall i :: 0 <= i < 8 ==> IsSet(b, i)
  {
    if forall i :: 0 <= i < 8 ==> IsSet(b, i) {
      assert IsSet(b, 0) && IsSet(b, 1) && IsSet(b, 2) && IsSet(b, 3);
      assert IsSet(b, 4) && IsSet(b, 5) && IsSet(b, 6) && IsSet(b, 7);
    }
  }

  /** Setting bit `i` changes bit `i` and no other. */
  lemma SetBit(b: bv8, i: nat, j: nat)
    requires i < 8 && j < 8
    ensures IsSet(b | Mask(i), j) <==> i == j || IsSet(b, j)
  {
  }

  /** Clearing bit `i` changes bit `i` and no other. */
  lemma ClearBit(b: bv8, i: nat, j: nat)
    requires i < 8 && j < 8
    ensures IsSet(b & !Mask(i), j) <==> i != j && IsSet(b, j)
  {
  }

  /** Slot `s` of a bitmap is live: its bit is set. */
  predicate Live(bm: seq<bv8>, s: int)
    requires 0 <= s < 8 * |bm|
  {
    IsSet(bm[s / 8], s % 8)
  }

  /** Every byte of the bitmap is 0xFF: the page has no free slot. */
  predicate Full(bm: seq<bv8>)
  {
    forall k :: 0 <= k < |bm| ==> bm[k] == 0xFF
  }

  /** A full bitmap is one in which every slot is live, and conversely. */
  lemma {:induction false} FullIffAllLive(bm: seq<bv8>)
    ensures Full(bm) <==> forall s :: 0 <= s < 8 * |bm| ==> Live(bm, s)
  {
    if forall s :: 0 <= s < 8 * |bm| ==> Live(bm, s) {
      forall k | 0 <= k < |bm|
        ensures bm[k] == 0xFF
      {
        forall i | 0 <= i < 8
          ensures IsSet(bm[k], i)
        {
          assert (8 * k + i) / 8 == k && (8 * k + i) % 8 == i;
          assert Live(bm, 8 * k + i);
        }
        FullByte(bm[k]);
      }
    }
    if Full(bm) {
      forall s | 0 <= s < 8 * |bm|
        ensures Live(bm, s)
      {
        FullByte(bm[s / 8]);
      }
    }
  }

  /** Index of the first byte that is not 0xFF, or `|bm|` when there is none. */
  function FirstFreeByte(bm: seq<bv8>): (k: nat)
    ensures k <= |bm|
    ensures forall j :: 0 <= j < k ==> bm[j] == 0xFF
    ensures k < |bm| ==> bm[k] != 0xFF
  {
    if |bm| == 0 then 0
    else if bm[0] != 0xFF then 0
    else 1 + FirstFreeByte(bm[1..])
  }

  /** The lowest clear bit of a byte that is not 0xFF, searching from bit `i` upward. */
  function LowestClearBitFrom(b: bv8, i: nat): (r: nat)
    requires i < 8
    requires forall j :: 0 <= j < i ==> IsSet(b, j)
    requires b != 0xFF
    ensures i <= r < 8 && !IsSet(b, r)
    ensures forall j :: 0 <= j < r ==> IsSet(b, j)
    decreases 8 - i
  {
    if i == 7 || !IsSet(b, i) then
      FullByte(b); i
    else LowestClearBitFrom(b, i + 1)
  }

  /**
   * The slot an insert takes: the lowest clear bit of the first byte that is
   * not 0xFF (ascending byte, then ascending bit).
   */
  function FirstClear(bm: seq<bv8>): (s: nat)
    requires !Full(bm)
  {
    var k := FirstFreeByte(bm);
    8 * k + LowestClearBitFrom(bm[k], 0)
  }

  /** First fit: `FirstClear` names a clear slot, and every lower slot is live. */
  lemma FirstClearIsLowest(bm: seq<bv8>)
    requires !Full(bm)
    ensures FirstClear(bm) < 8 * |bm|
    ensures !Live(bm, FirstClear(bm))
    ensures forall t :: 0 <= t < FirstClear(bm) ==> Live(bm, t)
  {
    var k := FirstFreeByte(bm);
    var s := FirstClear(bm);
    assert s / 8 == k && s % 8 == s - 8 * k;
    forall t | 0 <= t < s
      ensures Live(bm, t)
    {
      if t / 8 < k {
        FullByte(bm[t / 8]);
      } else {
        assert t / 8 == k;
      }
    }
  }

  /** The bitmap with slot `s` marked live (`bitmapChar |= 1 << i`). */
  function SetSlot(bm: seq<bv8>, s: int): (r: seq<bv8>)
    requires 0 <= s < 8 * |bm|
    ensures |r| == |bm|
    ensures forall t :: 0 <= t < 8 * |bm| ==> (Live(r, t) <==> t == s || Live(bm, t))
  {
    var r := bm[s / 8 := bm[s / 8] | Mask(s % 8)];
    forall t | 0 <= t < 8 * |bm|
      ensures Live(r, t) <==> t == s || Live(bm, t)
    {
      if t / 8 == s / 8 {
        SetBit(bm[s / 8], s % 8, t % 8);
      }
    }
    r
  }

  /** The bitmap with slot `s` marked free (`bitmap[s/8] &= ~(1 << s%8)`). */
  function ClearSlot(bm: seq<bv8>, s: int): (r: seq<bv8>)
    requires 0 <= s < 8 * |bm|
    ensures |r| == |bm|
    ensures forall t :: 0 <= t < 8 * |bm| ==> (Live(r, t) <==> t != s && Live(bm, t))
  {
    var r := bm[s / 8 := bm[s / 8] & !Mask(s % 8)];
    forall t | 0 <= t < 8 * |bm|
      ensures Live(r, t) <==> t != s && Live(bm, t)
    {
      if t / 8 == s / 8 {
        ClearBit(bm[s / 8], s % 8, t % 8);
      }
    }
    r
  }

  /** A bitmap with a clear slot is not full. */
  lemma NotFullWhenClear(bm: seq<bv8>, s: int)
    requires 0 <= s < 8 * |bm| && !Live(bm, s)
    ensures !Full(bm)
  {
    FullByte(bm[s / 8]);
  }

  /**
   * The full-page test after an insert rescans only from the byte of the
   * inserted slot. That is enough: first fit skipped every earlier byte
   * because it was 0xFF, so the page is full exactly when the bytes from
   * the inserted slot's byte onward are all 0xFF.
   */
  lemma RescanDecidesFull(bm: seq<bv8>)
    requires !Full(bm)
    ensures FirstClear(bm) < 8 * |bm|
    ensures var after := SetSlot(bm, FirstClear(bm));
            Full(after) <==> forall j :: FirstClear(bm) / 8 <= j < |after| ==> after[j] == 0xFF
  {
    FirstClearIsLowest(bm);
    var s := FirstClear(bm);
    var after := SetSlot(bm, s);
    if forall j :: s / 8 <= j < |after| ==> after[j] == 0xFF {
      forall j | 0 <= j < s / 8
        ensures after[j] == 0xFF
      {
        forall i | 0 <= i < 8
          ensures IsSet(after[j], i)
        {
          var t := 8 * j + i;
          assert t / 8 == j && t % 8 == i;
          assert Live(bm, t);
          assert Live(after, t);
        }
        FullByte(after[j]);
      }
    }
  }
}
