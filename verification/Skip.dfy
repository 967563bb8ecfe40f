/** skipClusterpb: the length of one field of any kind, groups nested to any depth included. */
module Skip {
  import opened Wire
  import opened Varint
  import opened Bits

  datatype Length = Len(n: nat) | Bad(error: Error)

  // ---------------------------------------------------------------- specification

  /** int(wire & 0x7), for a tag whose digits sum to raw: 8 divides 2^64, so the wrap is invisible. */
  function WireType(raw: nat): nat {
    raw % 8
  }

  /** The length of the field at the front of s, counting bytes it claims past the end of s. */
  function SkipField(s: Bytes): (r: Length)
    ensures r.Len? ==> r.n >= 1
    decreases |s|, 0
  {
    if s == [] then Bad(Unreachable)
    else
      var tag := ScanVarint(s);
      if tag.error.Some? then Bad(tag.error.value)
      else
        ScanBounds(s, 0);
        SkipBody(WireType(tag.raw), s[tag.n..], tag.n)
  }

  /** The length of a field whose tag took `at` bytes and is followed by s. */
  function SkipBody(wireType: nat, s: Bytes, at: nat): (r: Length)
    ensures r.Len? ==> r.n >= at
    decreases |s|, 2
  {
    match wireType
    case 0 =>
      var v := ScanVarint(s);
      if v.error.Some? then Bad(v.error.value) else Len(at + v.n)
    case 1 => Len(at + 8)
    case 2 =>
      var v := ScanVarint(s);
      if v.error.Some? then Bad(v.error.value)
      else if Int64(v.raw) < 0 then Bad(InvalidLength)
      else Len(at + v.n + Int64(v.raw))
    case 3 => SkipGroup(s, at)
    case 4 => Len(at)
    case 5 => Len(at + 4)
    case _ => Bad(IllegalWireType(wireType))
  }

  /** The rest of a group, s, whose first `at` bytes have been read; the result counts from
      the start of the group. A field that claims bytes past the end makes the next read fail:
      with EOF, or out of bounds if the claimed end is no int. */
  function SkipGroup(s: Bytes, at: nat): (r: Length)
    ensures r.Len? ==> r.n >= at + 1
    decreases |s|, 1
  {
    var tag := ScanVarint(s);
    if tag.error.Some? then Bad(tag.error.value)
    else
      ScanBounds(s, 0);
      if WireType(tag.raw) == 4 then Len(at + tag.n)
      else
        var field := SkipField(s);
        if field.Bad? then field
        else if field.n > |s| then Bad(if at + field.n < TWO_63 then UnexpectedEOF else OutOfBounds)
        else SkipGroup(s[field.n..], at + field.n)
  }

  lemma {:induction false} SkipNotPastEnd(s: Bytes)
    ensures SkipField(s).Bad? ==> !SkipField(s).error.PastEnd?
    decreases |s|, 0
  {
    hide ScanFrom;
    ScanErrors(s, 0);
    ScanBounds(s, 0);
    if s != [] && ScanVarint(s).error.None? {
      var t := ScanVarint(s).n;
      ScanErrors(s[t..], 0);
      GroupNotPastEnd(s[t..], t);
    }
  }

  lemma {:induction false} GroupNotPastEnd(s: Bytes, at: nat)
    ensures SkipGroup(s, at).Bad? ==> !SkipGroup(s, at).error.PastEnd?
    decreases |s|, 1
  {
    hide ScanFrom;
    ScanErrors(s, 0);
    if s != [] {
      SkipNotPastEnd(s);
      var r := SkipField(s);
      if r.Len? && r.n <= |s| { GroupNotPastEnd(s[r.n..], at + r.n); }
    }
  }

  // ---------------------------------------------------------------- the Go function

  /** skipClusterpb(dAtA[lo:]). The length may be negative, when the sum of a declared length
      and its position wraps. */
  method SkipClusterpb(dAtA: array<Byte>, lo: nat) returns (n: int, err: Option<Error>)
    requires lo <= dAtA.Length <= MAX_ALLOC
    ensures match SkipField(dAtA[lo..])
            case Len(k) => err == None && n == Int64(k)
            case Bad(e) => err == Some(e) && n == 0
    ensures err == None ==> n < 0 || n >= 1
    decreases dAtA.Length - lo, 0
  {
    hide ScanFrom, And, Int64;
    var l := dAtA.Length - lo;
    ghost var s := dAtA[lo..];
    if l == 0 { return 0, Some(Unreachable); }
    var wire, iNdEx, e := ReadUint64(dAtA, lo);
    if e.Some? { return 0, e; }
    iNdEx := iNdEx - lo;
    assert s[iNdEx..] == dAtA[lo + iNdEx..];
    assert SkipField(s) == SkipBody(WireType(ScanVarint(s).raw), s[iNdEx..], iNdEx);
    var wireType := And(wire, 0x7);
    WireTypeOfTag(ScanVarint(s).raw);
    match wireType {
      case 0 =>
        var next;
        next, e := PassVarint(dAtA, lo + iNdEx);
        if e.Some? { return 0, e; }
        return next - lo, None;
      case 1 =>
        return iNdEx + 8, None;
      case 2 =>
        var length, next;
        length, next, e := ReadUint64(dAtA, lo + iNdEx);
        if e.Some? { return 0, e; }
        Int64OfLow(ScanVarint(s[iNdEx..]).raw);
        var sum := Int64(next - lo + Int64(length));
        if Int64(length) < 0 { return 0, Some(InvalidLength); }
        return sum, None;
      case 3 =>
        n, err := SkipToEndGroup(dAtA, lo, iNdEx);
        SkipGroupBound(s[iNdEx..], iNdEx);
      case 4 =>
        return iNdEx, None;
      case 5 =>
        return iNdEx + 4, None;
      case _ =>
        return 0, Some(IllegalWireType(wireType));
    }
  }

  lemma {:induction false} WireTypeOfTag(raw: nat)
    ensures And(raw % TWO_64, 0x7) == WireType(raw)
  {
    AndMask(raw % TWO_64, 3);
    var q, w := raw / TWO_64, raw % TWO_64;
    assert raw == (q * 0x2000_0000_0000_0000 + w / 8) * 8 + w % 8;
    DivModUnique(8, q * 0x2000_0000_0000_0000 + w / 8, w % 8);
  }

  /** The loop of `case 3`, over dAtA[lo:], from its index iNdEx on. */
  method SkipToEndGroup(dAtA: array<Byte>, lo: nat, from: nat) returns (n: int, err: Option<Error>)
    requires lo + from <= dAtA.Length <= MAX_ALLOC && from >= 1
    ensures match SkipGroup(dAtA[lo + from..], from)
            case Len(k) => err == None && n == k
            case Bad(e) => err == Some(e) && n == 0
    ensures err == None ==> n >= 1
    decreases dAtA.Length - lo, -1
  {
    hide ScanFrom, And, Int64;
    var iNdEx := from;
    while true
      invariant from <= iNdEx && lo + iNdEx <= dAtA.Length
      invariant SkipGroup(dAtA[lo + iNdEx..], iNdEx) == SkipGroup(dAtA[lo + from..], from)
      decreases dAtA.Length - lo - iNdEx
    {
      var start := iNdEx;
      ghost var s := dAtA[lo + start..];
      var innerWire, next, e := ReadUint64(dAtA, lo + iNdEx);
      if e.Some? { return 0, e; }
      iNdEx := next - lo;
      WireTypeOfTag(ScanVarint(s).raw);
      if And(innerWire, 0x7) == 4 { return iNdEx, None; }
      var skipped;
      skipped, e := SkipClusterpb(dAtA, lo + start);
      if e.Some? { return 0, e; }
      SkipFieldBound(s);
      var sum := Int64(start + skipped);
      if sum < 0 { return 0, Some(OutOfBounds); }         // the next read, dAtA[iNdEx], is out of range
      if lo + sum > dAtA.Length { return 0, Some(UnexpectedEOF); }  // the next read finds iNdEx >= l
      assert s[SkipField(s).n..] == dAtA[lo + sum..];
      iNdEx := sum;
    }
  }

  lemma {:induction false} SkipFieldBound(s: Bytes)
    ensures SkipField(s).Len? ==> SkipField(s).n < TWO_63 + |s| + 8
    decreases |s|, 0
  {
    hide ScanFrom;
    if s != [] {
      ScanBounds(s, 0);
      var tag := ScanVarint(s);
      ScanBounds(s[tag.n..], 0);
      if tag.n > 0 { SkipGroupBound(s[tag.n..], tag.n); }
    }
  }

  /** A group never claims bytes past the end. */
  lemma {:induction false} SkipGroupBound(s: Bytes, at: nat)
    ensures SkipGroup(s, at).Len? ==> SkipGroup(s, at).n <= at + |s|
    decreases |s|, 1
  {
    hide ScanFrom;
    ScanBounds(s, 0);
    var field := SkipField(s);
    if field.Len? && field.n <= |s| { SkipGroupBound(s[field.n..], at + field.n); }
  }
}
