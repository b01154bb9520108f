/**
 * RM_FileScan (src/rm/rm_filescan.cc): a cursor over the live records of an
 * open file, in ascending (page, slot) order, that returns only the records
 * whose attribute satisfies a comparison with a fixed value.
 *
 * The first half holds the value decoding and the comparisons as functions:
 * 4-byte little-endian two's-complement integers, IEEE 754 binary32 floats
 * compared through their bit patterns, and strings compared as `strncmp`
 * does (section 7.24.4.4 of ISO/IEC 9899:2011). The class at the end is the
 * scan itself.
 */
module RmFileScan {
  import opened RmTypes
  import opened RmRid
  import opened RmRecord
  import opened Bitmap
  import opened RmFileHandle

  /** MAXSTRINGLEN of the system's global header: the longest string attribute. */
  const MaxStringLen: int := 255

  /** The attribute types; `OtherType` stands for any other value a caller passes. */
  datatype AttrType = Int | Float | String | OtherType

  /** The comparison operators; `OtherOp` stands for any other value a caller passes. */
  datatype CompOp = NoOp | EqOp | NeOp | LtOp | GtOp | LeOp | GeOp | OtherOp

  /** The outcome of comparing two values; `Unordered` when a float is NaN. */
  datatype Ordering = Less | Equal | Greater | Unordered

  /** The union value_ the scan compares with (and one read from a record). */
  datatype ScanValue =
    | NoValue                     // the pointer was null: nothing was read
    | IntValue(i: int)
    | FloatValue(bits: seq<byte>)  // the four bytes of a binary32
    | StrValue(s: seq<byte>)       // the bytes the pointer points to

  /** The flipped outcome: what comparing the other way round gives. */
  function Flip(o: Ordering): Ordering
  {
    match o
    case Less => Greater
    case Greater => Less
    case Equal => Equal
    case Unordered => Unordered
  }

  // ---------------------------------------------------------------------
  // Integers
  // ---------------------------------------------------------------------

  predicate IsInt32(i: int)
  {
    -0x8000_0000 <= i < 0x8000_0000
  }

  /** The int stored little-endian, two's complement, in four bytes. */
  function DecodeInt32(b: seq<byte>): (i: int)
    requires |b| == 4
    ensures IsInt32(i)
  {
    var u := b[0] as int + 0x100 * (b[1] as int) + 0x1_0000 * (b[2] as int) + 0x100_0000 * (b[3] as int);
    if u >= 0x8000_0000 then u - 0x1_0000_0000 else u
  }

  /** The four bytes that store an int. */
  function EncodeInt32(i: int): (b: seq<byte>)
    requires IsInt32(i)
    ensures |b| == 4
  {
    var u := if i < 0 then i + 0x1_0000_0000 else i;
    [(u % 0x100) as byte, (u / 0x100 % 0x100) as byte, (u / 0x1_0000 % 0x100) as byte, (u / 0x100_0000) as byte]
  }

  /** Division by 0x100 separates the low byte from the rest. */
  lemma ShiftByte(a: int, r: int)
    requires 0 <= a < 0x100
    ensures (a + 0x100 * r) / 0x100 == r && (a + 0x100 * r) % 0x100 == a
  {
  }

  /** The base-256 digits of a 32-bit unsigned value are the four bytes it was built from. */
  lemma Digits(x0: int, x1: int, x2: int, x3: int)
    requires 0 <= x0 < 0x100 && 0 <= x1 < 0x100 && 0 <= x2 < 0x100 && 0 <= x3 < 0x100
    ensures var u := x0 + 0x100 * x1 + 0x1_0000 * x2 + 0x100_0000 * x3;
            u % 0x100 == x0 && u / 0x100 % 0x100 == x1 && u / 0x1_0000 % 0x100 == x2 && u / 0x100_0000 == x3
  {
    var u := x0 + 0x100 * x1 + 0x1_0000 * x2 + 0x100_0000 * x3;
    var r1 := x1 + 0x100 * x2 + 0x1_0000 * x3;
    var r2 := x2 + 0x100 * x3;
    assert u == x0 + 0x100 * r1;
    ShiftByte(x0, r1);
    ShiftByte(x1, r2);
    ShiftByte(x2, x3);
    assert u / 0x1_0000 == r2 by {
      assert u / 0x1_0000 == (u / 0x100) / 0x100;
    }
    assert u / 0x100_0000 == x3 by {
      assert u / 0x100_0000 == (u / 0x1_0000) / 0x100;
    }
  }

  /** A 32-bit unsigned value is the sum of its base-256 digits. */
  lemma Split(u: int)
    requires 0 <= u < 0x1_0000_0000
    ensures u == u % 0x100 + 0x100 * (u / 0x100 % 0x100) + 0x1_0000 * (u / 0x1_0000 % 0x100) + 0x100_0000 * (u / 0x100_0000)
  {
    var r1 := u / 0x100;
    var r2 := r1 / 0x100;
    var r3 := r2 / 0x100;
    assert u == u % 0x100 + 0x100 * r1;
    assert r1 == r1 % 0x100 + 0x100 * r2;
    assert r2 == r2 % 0x100 + 0x100 * r3;
    assert u / 0x1_0000 == r2;
    assert u / 0x100_0000 == r3;
  }

  /** Decoding inverts encoding. */
  lemma DecodeEncode(i: int)
    requires IsInt32(i)
    ensures DecodeInt32(EncodeInt32(i)) == i
  {
    var u := if i < 0 then i + 0x1_0000_0000 else i;
    Split(u);
  }

  /** Encoding inverts decoding: every four bytes are the encoding of exactly one int. */
  lemma EncodeDecode(b: seq<byte>)
    requires |b| == 4
    ensures EncodeInt32(DecodeInt32(b)) == b
  {
    Digits(b[0] as int, b[1] as int, b[2] as int, b[3] as int);
    var e := EncodeInt32(DecodeInt32(b));
    assert e[0] == b[0] && e[1] == b[1] && e[2] == b[2] && e[3] == b[3];
  }

  /** How the C operators `<`, `==` and `>` relate two ints. */
  function CompareInts(x: int, y: int): (o: Ordering)
    ensures o != Unordered
  {
    if x < y then Less else if x == y then Equal else Greater
  }

  /** Comparing the other way round flips the outcome. */
  lemma CompareIntsFlip(x: int, y: int)
    ensures CompareInts(y, x) == Flip(CompareInts(x, y))
    ensures CompareInts(x, y) == Equal <==> x == y
  {
  }

  // ---------------------------------------------------------------------
  // Floats (IEEE 754 binary32, stored little-endian)
  // ---------------------------------------------------------------------

  /** The sign bit of the float stored in four bytes. */
  function FloatSign(b: seq<byte>): (s: int)
    requires |b| == 4
  {
    b[3] as int / 0x80
  }

  /** The biased exponent (8 bits). */
  function FloatExponent(b: seq<byte>): int
    requires |b| == 4
  {
    b[3] as int % 0x80 * 2 + b[2] as int / 0x80
  }

  /** The trailing significand (23 bits). */
  function FloatMantissa(b: seq<byte>): int
    requires |b| == 4
  {
    b[2] as int % 0x80 * 0x1_0000 + b[1] as int * 0x100 + b[0] as int
  }

  predicate IsNaN(b: seq<byte>)
    requires |b| == 4
  {
    FloatExponent(b) == 0xFF && FloatMantissa(b) != 0
  }

  /** Positive or negative zero. */
  predicate IsZero(b: seq<byte>)
    requires |b| == 4
  {
    FloatExponent(b) == 0 && FloatMantissa(b) == 0
  }

  /**
   * A key that orders the non-NaN floats as their real values are ordered:
   * exponent and significand read together as an integer grow with the
   * magnitude (infinities included), and the sign bit negates it, so both
   * zeros get key 0.
   */
  function FloatKey(b: seq<byte>): int
    requires |b| == 4
  {
    var magnitude := FloatExponent(b) * 0x80_0000 + FloatMantissa(b);
    if FloatSign(b) == 1 then -magnitude else magnitude
  }

  /** How the C operators on float relate two floats: any NaN makes them unordered. */
  function CompareFloats(a: seq<byte>, b: seq<byte>): (o: Ordering)
    requires |a| == 4 && |b| == 4
    ensures o == Unordered <==> IsNaN(a) || IsNaN(b)
  {
    if IsNaN(a) || IsNaN(b) then Unordered else CompareInts(FloatKey(a), FloatKey(b))
  }

  /** The sign, exponent and significand, read back, are the bytes' own values. */
  lemma FloatFieldsOf(a: seq<byte>)
    requires |a| == 4
    ensures 0 <= FloatMantissa(a) < 0x80_0000 && 0 <= FloatExponent(a) < 0x100 && 0 <= FloatSign(a) < 2
    ensures a[0] as int == FloatMantissa(a) % 0x100
    ensures a[1] as int == FloatMantissa(a) / 0x100 % 0x100
    ensures a[2] as int == FloatExponent(a) % 2 * 0x80 + FloatMantissa(a) / 0x1_0000
    ensures a[3] as int == FloatSign(a) * 0x80 + FloatExponent(a) / 2
  {
    var x0, x1, x2, x3 := a[0] as int, a[1] as int, a[2] as int, a[3] as int;
    var lo, hi := x2 % 0x80, x2 / 0x80;
    assert x2 == hi * 0x80 + lo && 0 <= hi < 2;
    var m := FloatMantissa(a);
    assert m == x0 + 0x100 * (x1 + 0x100 * lo);
    ShiftByte(x0, x1 + 0x100 * lo);
    ShiftByte(x1, lo);
    assert m / 0x1_0000 == lo by {
      assert m / 0x1_0000 == (m / 0x100) / 0x100;
    }
    var e := FloatExponent(a);
    var top, sign := x3 % 0x80, x3 / 0x80;
    assert e == top * 2 + hi;
    assert e % 2 == hi && e / 2 == top;
    assert x3 == sign * 0x80 + top;
  }

  /** The sign, exponent and significand determine the four bytes. */
  lemma FloatFieldsDetermineBytes(a: seq<byte>, b: seq<byte>)
    requires |a| == 4 && |b| == 4
    requires FloatSign(a) == FloatSign(b) && FloatExponent(a) == FloatExponent(b) && FloatMantissa(a) == FloatMantissa(b)
    ensures a == b
  {
    FloatFieldsOf(a);
    FloatFieldsOf(b);
    assert a[0] == b[0] && a[1] == b[1] && a[2] == b[2] && a[3] == b[3];
  }

  /** The exponent and the significand are the two digits of the magnitude. */
  lemma SplitMagnitude(e: int, m: int)
    requires 0 <= m < 0x80_0000
    ensures (e * 0x80_0000 + m) / 0x80_0000 == e && (e * 0x80_0000 + m) % 0x80_0000 == m
  {
  }

  /**
   * Two floats compare equal exactly when neither is NaN and they have the
   * same bit pattern or are both zeros (+0 == -0).
   */
  lemma FloatEqualIff(a: seq<byte>, b: seq<byte>)
    requires |a| == 4 && |b| == 4
    ensures CompareFloats(a, b) == Equal <==>
              !IsNaN(a) && !IsNaN(b) && (a == b || (IsZero(a) && IsZero(b)))
  {
    FloatFieldsOf(a);
    FloatFieldsOf(b);
    var ma := FloatExponent(a) * 0x80_0000 + FloatMantissa(a);
    var mb := FloatExponent(b) * 0x80_0000 + FloatMantissa(b);
    if CompareFloats(a, b) == Equal {
      if FloatSign(a) == FloatSign(b) {
        assert ma == mb;
        SplitMagnitude(FloatExponent(a), FloatMantissa(a));
        SplitMagnitude(FloatExponent(b), FloatMantissa(b));
        FloatFieldsDetermineBytes(a, b);
      } else {
        assert ma == 0 && mb == 0;
      }
    }
  }

  /** NaN compares unequal to everything, itself included. */
  lemma NaNUnequal(a: seq<byte>)
    requires |a| == 4 && IsNaN(a)
    ensures forall b :: |b| == 4 ==> CompareFloats(a, b) != Equal && CompareFloats(b, a) != Equal
  {
  }

  // ---------------------------------------------------------------------
  // Strings: strncmp
  // ---------------------------------------------------------------------

  /**
   * Byte `i` of a string. A byte past the end of the given bytes reads as
   * NUL: a value shorter than the attribute ends there.
   */
  function ByteAt(s: seq<byte>, i: nat): byte
  {
    if i < |s| then s[i] else 0
  }

  function Rest(s: seq<byte>): seq<byte>
  {
    if |s| == 0 then [] else s[1..]
  }

  /**
   * strncmp: compare at most `n` bytes as unsigned char, stopping after the
   * first NUL; only the sign of the C result is used, so it is an Ordering.
   */
  function Strncmp(a: seq<byte>, b: seq<byte>, n: nat): (o: Ordering)
    ensures o != Unordered
    decreases n
  {
    if n == 0 then Equal
    else if ByteAt(a, 0) < ByteAt(b, 0) then Less
    else if ByteAt(a, 0) > ByteAt(b, 0) then Greater
    else if ByteAt(a, 0) == 0 then Equal
    else Strncmp(Rest(a), Rest(b), n - 1)
  }

  /** The C string `strncmp` sees: at most `n` bytes, up to the first NUL. */
  function CPrefix(s: seq<byte>, n: nat): (p: seq<byte>)
    ensures |p| <= n
    ensures forall i :: 0 <= i < |p| ==> p[i] != 0 && p[i] == ByteAt(s, i)
    decreases n
  {
    if n == 0 || ByteAt(s, 0) == 0 then [] else [s[0]] + CPrefix(Rest(s), n - 1)
  }

  /** strncmp reports equality exactly when the two strings it sees are the same. */
  lemma {:induction false} StrncmpEqualIff(a: seq<byte>, b: seq<byte>, n: nat)
    ensures Strncmp(a, b, n) == Equal <==> CPrefix(a, n) == CPrefix(b, n)
    decreases n
  {
    if n > 0 {
      var x, y := ByteAt(a, 0), ByteAt(b, 0);
      if x != y {
        if x != 0 && y != 0 {
          assert CPrefix(a, n)[0] != CPrefix(b, n)[0];
        } else {
          assert |CPrefix(a, n)| == 0 <==> |CPrefix(b, n)| != 0;
        }
      } else if x != 0 {
        StrncmpEqualIff(Rest(a), Rest(b), n - 1);
        assert CPrefix(a, n) == [a[0]] + CPrefix(Rest(a), n - 1);
        assert CPrefix(b, n) == [b[0]] + CPrefix(Rest(b), n - 1);
        if CPrefix(a, n) == CPrefix(b, n) {
          assert CPrefix(Rest(a), n - 1) == CPrefix(a, n)[1..];
        }
      }
    }
  }

  /** Swapping the arguments of strncmp flips its sign. */
  lemma {:induction false} StrncmpFlip(a: seq<byte>, b: seq<byte>, n: nat)
    ensures Strncmp(b, a, n) == Flip(Strncmp(a, b, n))
    decreases n
  {
    if n > 0 && ByteAt(a, 0) == ByteAt(b, 0) && ByteAt(a, 0) != 0 {
      StrncmpFlip(Rest(a), Rest(b), n - 1);
    }
  }

  // ---------------------------------------------------------------------
  // The scan condition
  // ---------------------------------------------------------------------

  /**
   * getValueFromPtr: read a value of type `attrType` from what `value`
   * points to; a null pointer (`None`) reads nothing. An int or a float is
   * copied out of the first four bytes; a string is the pointer itself.
   */
  function GetValueFromPtr(attrType: AttrType, value: Option<seq<byte>>): (v: ScanValue)
    requires value.Some? && (attrType == Int || attrType == Float) ==> |value.value| >= 4
    ensures v.NoValue? <==> value.None?
    ensures value.Some? ==> match attrType
              case Int => v.IntValue? && IsInt32(v.i) && EncodeInt32(v.i) == value.value[..4]
              case Float => v.FloatValue? && v.bits == value.value[..4]
              case _ => v == StrValue(value.value)
  {
    if value.None? then NoValue
    else if attrType == Int then
      EncodeDecode(value.value[..4]);
      IntValue(DecodeInt32(value.value[..4]))
    else if attrType == Float then FloatValue(value.value[..4])
    else StrValue(value.value)
  }

  /** An int written with EncodeInt32 reads back as that int. */
  lemma IntValueRoundTrip(i: int, rest: seq<byte>)
    requires IsInt32(i)
    ensures GetValueFromPtr(Int, Some(EncodeInt32(i) + rest)) == IntValue(i)
  {
    DecodeEncode(i);
    assert (EncodeInt32(i) + rest)[..4] == EncodeInt32(i);
  }

  /** The scan's condition: attribute type, length and offset, operator and value_. */
  datatype ScanCond = ScanCond(attrType: AttrType, attrLength: int, attrOffset: int, compOp: CompOp, value: ScanValue)

  predicate ValidType(t: AttrType)
  {
    t == Int || t == Float || t == String
  }

  predicate ValidOp(op: CompOp)
  {
    op != OtherOp
  }

  /**
   * The arguments OpenScan accepts, stated declaratively: a known type and
   * operator; an int or float is four bytes that end before the last byte
   * of the record; a string of 1 .. MaxStringLen bytes also ends before the
   * last byte; a real comparison comes with a value.
   */
  predicate ScanArgsOk(attrType: AttrType, attrLength: int, attrOffset: int, compOp: CompOp, hasValue: bool, recordSize: int)
  {
    ValidType(attrType) && ValidOp(compOp) && 0 <= attrOffset &&
    (attrType == Int || attrType == Float ==> attrLength == 4 && attrOffset + 4 < recordSize) &&
    (attrType == String ==> 1 <= attrLength <= MaxStringLen && attrOffset + attrLength < recordSize) &&
    (compOp != NoOp ==> hasValue)
  }

  /**
   * The argument checks of OpenScan, in the order the source makes them,
   * giving the code of the first that fails.
   */
  function CheckScanArgs(attrType: AttrType, attrLength: int, attrOffset: int, compOp: CompOp,
                         hasValue: bool, recordSize: int): (rc: RC)
    ensures rc == OK <==> ScanArgsOk(attrType, attrLength, attrOffset, compOp, hasValue, recordSize)
    ensures !ValidType(attrType) ==> rc == BadAttrType
    ensures ValidType(attrType) && !ValidOp(compOp) ==> rc == BadCompOp
    ensures ValidType(attrType) && ValidOp(compOp) && (attrOffset < 0 || attrOffset >= recordSize) ==>
              rc == AttrOffsetOutOfRange
    ensures rc in {OK, BadAttrType, BadCompOp, AttrOffsetOutOfRange, InconsistentAttr, AttrLengthOutOfRange, NullValue}
  {
    if !ValidType(attrType) then BadAttrType
    else if !ValidOp(compOp) then BadCompOp
    else if attrOffset < 0 || attrOffset >= recordSize then AttrOffsetOutOfRange
    else if attrType == Int || attrType == Float then
      if attrLength != 4 then InconsistentAttr
      else if attrOffset + attrLength >= recordSize then AttrOffsetOutOfRange
      else if compOp != NoOp && !hasValue then NullValue
      else OK
    else if attrLength < 1 || attrLength > MaxStringLen || attrOffset + attrLength >= recordSize then AttrLengthOutOfRange
    else if compOp != NoOp && !hasValue then NullValue
    else OK
  }

  /**
   * The bound on an int or float attribute is one byte stricter than the
   * record needs: an int that fills the last four bytes of a record, and
   * so an int that is the whole of a 4-byte record, is refused.
   */
  lemma IntInLastBytesRefused(recordSize: int)
    requires recordSize >= 4
    ensures CheckScanArgs(Int, 4, recordSize - 4, EqOp, true, recordSize) == AttrOffsetOutOfRange
    ensures CheckScanArgs(Int, 4, 0, EqOp, true, 4) == AttrOffsetOutOfRange
  {
  }

  /** A condition OpenScan accepted, as the scan stores it. */
  predicate CondFits(c: ScanCond, recordSize: int)
  {
    ScanArgsOk(c.attrType, c.attrLength, c.attrOffset, c.compOp, !c.value.NoValue?, recordSize) &&
    (c.value.IntValue? ==> c.attrType == Int) &&
    (c.value.FloatValue? ==> c.attrType == Float && |c.value.bits| == 4) &&
    (c.value.StrValue? ==> c.attrType == String)
  }

  /** What the operator makes of an ordering, as the C comparison operators do. */
  function ApplyOp(op: CompOp, o: Ordering): bool
  {
    match op
    case EqOp => o == Equal
    case NeOp => o != Equal
    case LtOp => o == Less
    case GtOp => o == Greater
    case LeOp => o == Less || o == Equal
    case GeOp => o == Greater || o == Equal
    case _ => true
  }

  /**
   * Whether a live record's bytes satisfy the condition: always for NoOp;
   * otherwise the attribute read at `attrOffset` compared with value_.
   */
  function Matches(c: ScanCond, rec: seq<byte>): (b: bool)
    requires CondFits(c, |rec|)
    ensures c.compOp == NoOp ==> b
  {
    if c.compOp == NoOp then true
    else
      var u := GetValueFromPtr(c.attrType, Some(rec[c.attrOffset..]));
      match c.attrType
      case Int => ApplyOp(c.compOp, CompareInts(u.i, c.value.i))
      case Float => ApplyOp(c.compOp, CompareFloats(u.bits, c.value.bits))
      case String => ApplyOp(c.compOp, Strncmp(u.s, c.value.s, c.attrLength))
  }

  /** An int condition is the C relation between the stored int and value_. */
  lemma IntMatches(c: ScanCond, rec: seq<byte>)
    requires CondFits(c, |rec|) && c.attrType == Int && c.compOp != NoOp
    ensures var x, y := DecodeInt32(rec[c.attrOffset..c.attrOffset + 4]), c.value.i;
            Matches(c, rec) == match c.compOp
              case EqOp => x == y
              case NeOp => x != y
              case LtOp => x < y
              case GtOp => x > y
              case LeOp => x <= y
              case GeOp => x >= y
              case _ => false
  {
    assert rec[c.attrOffset..][..4] == rec[c.attrOffset..c.attrOffset + 4];
  }

  /** A float attribute that is NaN satisfies only `!=`. */
  lemma NaNMatchesOnlyNe(c: ScanCond, rec: seq<byte>)
    requires CondFits(c, |rec|) && c.attrType == Float && c.compOp != NoOp
    requires IsNaN(rec[c.attrOffset..c.attrOffset + 4])
    ensures Matches(c, rec) <==> c.compOp == NeOp
  {
    assert rec[c.attrOffset..][..4] == rec[c.attrOffset..c.attrOffset + 4];
  }

  /**
   * A string condition under `==` holds exactly when the attribute and the
   * value agree up to the first NUL within attrLength bytes.
   */
  lemma StringEqMatches(c: ScanCond, rec: seq<byte>)
    requires CondFits(c, |rec|) && c.attrType == String && c.compOp == EqOp
    ensures Matches(c, rec) <==> CPrefix(rec[c.attrOffset..], c.attrLength) == CPrefix(c.value.s, c.attrLength)
  {
    StrncmpEqualIff(rec[c.attrOffset..], c.value.s, c.attrLength);
  }

  // ---------------------------------------------------------------------
  // The scan
  // ---------------------------------------------------------------------

  /** The record at (q, t) is live and satisfies the condition: the scan returns it. */
  predicate Hit(st: State, c: ScanCond, q: int, t: int)
    requires Shaped(st) && CondFits(c, st.hdr.recordSize)
  {
    q in st.pf.pages && 0 <= t < st.hdr.numRecordsPerPage &&
    Live(st.pf.pages[q].bitmap, t) && Matches(c, st.pf.pages[q].slots[t])
  }

  /** Position (q, t) comes before position (p, s) in (page, slot) order. */
  predicate Precedes(q: int, t: int, p: int, s: int)
  {
    q < p || (q == p && t < s)
  }

  /**
   * The slot loop of GetNextRec (src/rm/rm_filescan.cc:111-161) on page `p`
   * from slot `from`: examine slots in ascending order and stop just past the
   * first live one that satisfies the condition, or at the end of the page.
   */
  method ScanPage(st: State, c: ScanCond, p: int, from: int) returns (found: bool, next: int)
    requires Shaped(st) && CondFits(c, st.hdr.recordSize)
    requires p in st.pf.pages && 0 <= from <= st.hdr.numRecordsPerPage
    ensures from <= next <= st.hdr.numRecordsPerPage
    ensures found ==> from < next && Hit(st, c, p, next - 1)
    ensures found ==> forall t :: from <= t < next - 1 ==> !Hit(st, c, p, t)
    ensures !found ==> next == st.hdr.numRecordsPerPage && forall t :: from <= t < next ==> !Hit(st, c, p, t)
  {
    var pg := st.pf.pages[p];
    var n := st.hdr.numRecordsPerPage;
    next := from;
    while next < n
      invariant from <= next <= n
      invariant forall t :: from <= t < next ==> !Hit(st, c, p, t)
    {
      assert |pg.slots[next]| == st.hdr.recordSize;
      found := false;
      if IsSet(pg.bitmap[next / 8], next % 8) {
        if c.compOp == NoOp {
          found := true;
        } else {
          found := Matches(c, pg.slots[next]);
        }
      }
      assert found == Hit(st, c, p, next);
      // the for loop's increment runs before its test sees the hit
      next := next + 1;
      if found {
        return;
      }
    }
    found := false;
  }

  /** No position from (p0, s0) up to, not including, (p, s) is a hit. */
  ghost predicate NoHitBetween(st: State, c: ScanCond, p0: int, s0: int, p: int, s: int)
    requires Shaped(st) && CondFits(c, st.hdr.recordSize)
  {
    forall q, t :: !Precedes(q, t, p0, s0) && Precedes(q, t, p, s) ==> !Hit(st, c, q, t)
  }

  /** No position from (p0, s0) onwards is a hit. */
  ghost predicate NoHitFrom(st: State, c: ScanCond, p0: int, s0: int)
    requires Shaped(st) && CondFits(c, st.hdr.recordSize)
  {
    forall q, t :: !Precedes(q, t, p0, s0) ==> !Hit(st, c, q, t)
  }

  /** Slots [from, upto) of page p are no hits: the hit-free range reaches (p, upto). */
  lemma ExtendInPage(st: State, c: ScanCond, p0: int, s0: int, p: int, from: int, upto: int)
    requires Shaped(st) && CondFits(c, st.hdr.recordSize)
    requires NoHitBetween(st, c, p0, s0, p, from) && from <= upto
    requires forall t :: from <= t < upto ==> !Hit(st, c, p, t)
    ensures NoHitBetween(st, c, p0, s0, p, upto)
  {
  }

  /** Past the last slot of page p, the hit-free range reaches the start of page p + 1. */
  lemma ExtendToNextPage(st: State, c: ScanCond, p0: int, s0: int, p: int, s: int)
    requires Shaped(st) && CondFits(c, st.hdr.recordSize)
    requires NoHitBetween(st, c, p0, s0, p, s) && s >= st.hdr.numRecordsPerPage
    ensures NoHitBetween(st, c, p0, s0, p + 1, 0)
  {
  }

  /** Past the last slot of the last page, no hit is left. */
  lemma NoHitToEnd(st: State, c: ScanCond, p0: int, s0: int, p: int, s: int)
    requires Paged(st) && CondFits(c, st.hdr.recordSize)
    requires NoHitBetween(st, c, p0, s0, p, s) && p + 1 >= st.pf.count && s >= st.hdr.numRecordsPerPage
    ensures NoHitFrom(st, c, p0, s0)
  {
  }

  /** The bytes of the live record at (p, t), as they lie in the page. */
  function SlotData(st: State, p: int, t: int): (data: seq<byte>)
    requires Shaped(st) && p in st.pf.pages && 0 <= t < st.hdr.numRecordsPerPage && Live(st.pf.pages[p].bitmap, t)
    ensures Fetch(st, Rid(p, t)) == Success(data)
  {
    st.pf.pages[p].slots[t]
  }

  /** Fills `rec` with the live record at (p, t): its bytes, its size and its locator. */
  method FillRecord(rec: Record, st: State, p: int, t: int)
    requires Shaped(st) && p in st.pf.pages && 0 <= t < st.hdr.numRecordsPerPage
    requires Live(st.pf.pages[p].bitmap, t)
    modifies rec
    ensures rec.isValid && rec.rid == Rid(p, t) && rec.size == st.hdr.recordSize
    ensures rec.data == SlotData(st, p, t) && Fetch(st, rec.rid) == Success(rec.data)
  {
    rec.isValid, rec.size, rec.data, rec.rid := true, st.hdr.recordSize, SlotData(st, p, t), Rid(p, t);
  }

  /**
   * The outcome of a cursor walk from (p0, s0) that stops at (p, s): when
   * `found`, the slot just before (p, s) is the first hit at or after
   * (p0, s0); otherwise the cursor is past the last slot of the last page
   * and no hit is left at or after (p0, s0).
   */
  ghost predicate SeekOutcome(st: State, c: ScanCond, p0: int, s0: int, found: bool, p: int, s: int)
    requires Paged(st) && CondFits(c, st.hdr.recordSize)
  {
    1 <= p < st.pf.count && 0 <= s <= st.hdr.numRecordsPerPage &&
    (found ==>
       1 <= s && Hit(st, c, p, s - 1) && !Precedes(p, s - 1, p0, s0) &&
       NoHitBetween(st, c, p0, s0, p, s - 1)) &&
    (!found ==>
       p == st.pf.count - 1 && s == st.hdr.numRecordsPerPage &&
       NoHitFrom(st, c, p0, s0))
  }

  /**
   * The cursor walk of GetNextRec (src/rm/rm_filescan.cc:84-182) from
   * (p0, s0): move to the next page whenever the slots of the current one
   * are used up, examine each page's slots in turn, and stop just past the
   * first hit, or at the last slot of the last page when there is none.
   */
  method Seek(st: State, c: ScanCond, p0: int, s0: int) returns (found: bool, p: int, s: int)
    requires Paged(st) && CondFits(c, st.hdr.recordSize)
    requires 1 <= p0 < st.pf.count && 0 <= s0 <= st.hdr.numRecordsPerPage
    ensures SeekOutcome(st, c, p0, s0, found, p, s)
  {
    var n := st.hdr.numRecordsPerPage;
    p := p0;
    found, s := ScanPage(st, c, p, s0);
    ExtendInPage(st, c, p0, s0, p, s0, if found then s - 1 else s);
    while !found && p + 1 < st.pf.count
      invariant p0 <= p < st.pf.count && 0 <= s <= n
      invariant found ==> 1 <= s && Hit(st, c, p, s - 1) && !Precedes(p, s - 1, p0, s0)
      invariant !found ==> s == n
      invariant NoHitBetween(st, c, p0, s0, p, if found then s - 1 else s)
      decreases st.pf.count - p
    {
      // GetNextPage, then its slots from the first
      ExtendToNextPage(st, c, p0, s0, p, s);
      p := p + 1;
      found, s := ScanPage(st, c, p, 0);
      ExtendInPage(st, c, p0, s0, p, 0, if found then s - 1 else s);
    }
    if !found {
      NoHitToEnd(st, c, p0, s0, p, s);
    }
  }

  /**
   * RM_FileScan. The cursor (curPage, nextSlot) names the next slot to
   * examine; `fh` is the file handle the scan reads through.
   */
  class FileScan {
    var isOpened: bool
    var fh: FileHandle?
    var curPage: int
    var nextSlot: int
    var attrType: AttrType
    var attrLength: int
    var attrOffset: int
    var compOp: CompOp
    var value: ScanValue

    /** The condition the scan filters with. */
    function Cond(): ScanCond
      reads this
    {
      ScanCond(attrType, attrLength, attrOffset, compOp, value)
    }

    /**
     * An open scan reads an open-able handle, its cursor is on a data page
     * with a slot number in [0, numRecordsPerPage], and its condition is one
     * OpenScan accepted.
     */
    ghost predicate Valid()
      reads this, fh
    {
      isOpened ==>
        fh != null && 1 <= curPage < fh.pf.count && 0 <= nextSlot <= fh.hdr.numRecordsPerPage &&
        CondFits(Cond(), fh.hdr.recordSize)
    }

    /** A new scan is closed. */
    constructor ()
      ensures Valid() && !isOpened
    {
      isOpened := false;
      fh := null;
      curPage, nextSlot := 0, 0;
      attrType, attrLength, attrOffset, compOp, value := Int, 0, 0, NoOp, NoValue;
    }

    /**
     * OpenScan: after the state and argument checks, the scan is marked open
     * and the cursor goes to slot 0 of the first data page. A file with no
     * data page gives the pager's end-of-file code, and the scan is left
     * open with the cursor on page 0.
     */
    method OpenScan(fileHandle: FileHandle, attrType: AttrType, attrLength: int, attrOffset: int,
                    compOp: CompOp, value: Option<seq<byte>>) returns (rc: RC)
      requires value.Some? && (attrType == Int || attrType == Float) ==> |value.value| >= 4
      modifies this
      ensures old(isOpened) ==> rc == ScanAlreadyOpened && unchanged(this)
      ensures !old(isOpened) && !fileHandle.isOpened ==> rc == FileNotOpened && unchanged(this)
      ensures !old(isOpened) && fileHandle.isOpened ==>
                var check := CheckScanArgs(attrType, attrLength, attrOffset, compOp, value.Some?, fileHandle.hdr.recordSize);
                (check != OK ==> rc == check && unchanged(this)) &&
                (check == OK ==>
                   isOpened && fh == fileHandle &&
                   (fileHandle.pf.count == 1 ==> rc == PfEof && curPage == 0) &&
                   (fileHandle.pf.count > 1 ==>
                      rc == OK && (fileHandle.Valid() ==> Valid()) && curPage == 1 && nextSlot == 0 &&
                      Cond() == ScanCond(attrType, attrLength, attrOffset, compOp, GetValueFromPtr(attrType, value))))
    {
      if isOpened {
        return ScanAlreadyOpened;
      }
      if !fileHandle.isOpened {
        return FileNotOpened;
      }
      rc := CheckScanArgs(attrType, attrLength, attrOffset, compOp, value.Some?, fileHandle.hdr.recordSize);
      if rc != OK {
        return;
      }
      isOpened := true;
      fh := fileHandle;
      // the header page, then the page after it
      curPage := 0;
      if curPage + 1 >= fh.pf.count {
        return PfEof;
      }
      curPage := curPage + 1;
      nextSlot := 0;
      this.attrType := attrType;
      this.attrLength := attrLength;
      this.attrOffset := attrOffset;
      this.compOp := compOp;
      this.value := GetValueFromPtr(attrType, value);
    }

    /**
     * GetNextRec: the first live record at or after the cursor that
     * satisfies the condition, in (page, slot) order; the cursor then sits
     * just past it. When no such record is left the result is Eof.
     */
    method GetNextRec(rec: Record) returns (rc: RC)
      requires Valid()
      requires isOpened ==> fh.isOpened && Paged(fh.St())
      modifies this, rec
      ensures Valid() && isOpened == old(isOpened) && fh == old(fh) && Cond() == old(Cond())
      ensures fh != null ==> fh.St() == old(fh.St())
      ensures !old(isOpened) ==> rc == ScanNotOpened && unchanged(this) && unchanged(rec)
      ensures old(isOpened) ==> rc == OK || rc == Eof
      ensures old(isOpened) ==>
                SeekOutcome(old(fh.St()), old(Cond()), old(curPage), old(nextSlot), rc == OK, curPage, nextSlot)
      ensures old(isOpened) && rc == OK ==>
                rec.isValid && rec.rid == Rid(curPage, nextSlot - 1) && rec.size == old(fh.hdr.recordSize) &&
                Fetch(old(fh.St()), rec.rid) == Success(rec.data)
      ensures old(isOpened) && rc == Eof ==>
                unchanged(rec)
    {
      if !isOpened {
        return ScanNotOpened;
      }
      var st, c := fh.St(), Cond();
      var found, p, t := Seek(st, c, curPage, nextSlot);
      curPage, nextSlot := p, t;
      assert Cond() == c;
      if !found {
        return Eof;
      }
      FillRecord(rec, st, p, t - 1);
      rc := OK;
    }

    /** CloseScan: closes an open scan; a closed one gives ScanNotOpened. */
    method CloseScan() returns (rc: RC)
      modifies this
      ensures !isOpened
      ensures rc == (if old(isOpened) then OK else ScanNotOpened)
      ensures fh == old(fh) && curPage == old(curPage) && nextSlot == old(nextSlot) && Cond() == old(Cond())
    {
      if !isOpened {
        return ScanNotOpened;
      }
      isOpened := false;
      rc := OK;
    }
  }
}
