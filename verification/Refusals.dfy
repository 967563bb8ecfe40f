/** Which inputs Unmarshal refuses, with which error, and what the message is by then. */
module Refusals {
  import opened Wire
  import opened Bits
  import opened Message
  import opened Varint
  import opened Skip
  import opened Grammar
  import opened Decode

  // ---------------------------------------------------------------- numbers

  /** The number of a tag is the int32 that its bits from the fourth on stand for, modulo 2^32. */
  lemma {:induction false} FieldNumberMeans(raw: nat)
    ensures -0x8000_0000 <= FieldNumber(raw) < 0x8000_0000
    ensures (raw / 8 - FieldNumber(raw)) % TWO_32 == 0
  {
    var q, w := raw / TWO_64, raw % TWO_64;
    assert raw == (q * 0x2000_0000_0000_0000 + w / 8) * 8 + w % 8;
    Int32Congruent(w / 8);
    var c := (w / 8 - Int32(w / 8)) / TWO_32;
    assert raw / 8 - FieldNumber(raw) == (q * 0x2000_0000 + c) * TWO_32;
    MultipleOf(q * 0x2000_0000 + c, TWO_32);
  }

  lemma {:induction false} Int32Congruent(x: nat)
    ensures (x - Int32(x)) % TWO_32 == 0
  {}

  lemma {:induction false} MultipleOf(k: int, m: nat)
    requires m > 0
    ensures (k * m) % m == 0
  {
    DivModUnique(m, k, 0);
  }

  // ---------------------------------------------------------------- varints cut short

  /** Reading a varint fails exactly when none of the first ten bytes is a last one: for want of
      bytes, or for having ten of them. The digits read by then are kept. */
  lemma {:induction false} ScanFailsIff(s: Bytes)
    ensures var n := if |s| < 10 then |s| else 10;
            && (ScanVarint(s).error.Some? <==> forall i :: 0 <= i < n ==> s[i] >= 128)
            && (ScanVarint(s).error.Some? ==>
                  ScanVarint(s) == Scan(DigitSum(s[..n]), n, Some(if |s| < 10 then UnexpectedEOF else IntOverflow)))
  {
    ScanFromFailsIff(s, 0);
  }

  lemma {:induction false} ScanFromFailsIff(s: Bytes, k: nat)
    requires k <= 10
    ensures var n := if |s| < 10 - k then |s| else 10 - k;
            && (ScanFrom(s, k).error.Some? <==> forall i :: 0 <= i < n ==> s[i] >= 128)
            && (ScanFrom(s, k).error.Some? ==>
                  ScanFrom(s, k)
                  == Scan(DigitSum(s[..n]), n, Some(if |s| < 10 - k then UnexpectedEOF else IntOverflow)))
    decreases 10 - k
  {
    hide DigitSum;
    var n := if |s| < 10 - k then |s| else 10 - k;
    if n == 0 {
      DigitSumEmpty(s[..n]);
    } else {
      var t := s[1..];
      ScanFromFailsIff(t, k + 1);
      assert forall i :: 0 <= i < n - 1 ==> t[i] == s[i + 1];
      assert forall i :: 1 <= i < n ==> s[i] == t[i - 1];
      DigitSumFirst(s[..n]);
      assert s[..n][1..] == t[..n - 1];
    }
  }

  // ---------------------------------------------------------------- tags

  /** The four ways in which a field is refused on its tag alone. */
  lemma {:induction false} TagRefused(m: Status, tag: Bytes, rest: Bytes)
    requires IsVarint(tag)
    ensures var w, n := DigitSum(tag) % 8, FieldNumber(DigitSum(tag));
            var r := DecodeField(m, tag + rest);
            && (w == 4 ==> r == Stop(m, EndGroup))
            && (w != 4 && n <= 0 ==> r == Stop(m, IllegalTag(n)))
            && (w !in {0, 4} && n in {4, 7, 9} ==> r == Stop(m, WrongWireType(n, w)))
            && (w !in {2, 4} && n in {1, 2, 3, 5, 6, 8} ==> r == Stop(m, WrongWireType(n, w)))
  {
    hide ScanFrom, FieldNumber, DigitSum, IsVarint, DecodeKnown, DecodeUnknown;
    ScanPrefix(tag, rest);
  }

  lemma {:induction false} TagCut(m: Status, s: Bytes)
    requires ScanVarint(s).error.Some?
    ensures DecodeField(m, s) == Stop(m, ScanVarint(s).error.value)
  {
    hide ScanFrom;
  }

  // ---------------------------------------------------------------- values of the nine fields

  /** When the varint of a value or of a length is cut short the message is left alone, but for the
      two unsigned fields, which keep the digits read. */
  lemma {:induction false} ValueCut(m: Status, tag: Bytes, rest: Bytes)
    requires IsVarint(tag) && ScanVarint(rest).error.Some?
    ensures var w, n := DigitSum(tag) % 8, FieldNumber(DigitSum(tag));
            var v, r := ScanVarint(rest), DecodeField(m, tag + rest);
            && (w == 2 && n in {1, 2, 3, 5, 6, 8} ==> r == Stop(m, v.error.value))
            && (w == 0 && n == 4 ==> r == Stop(m, v.error.value))
            && (w == 0 && n == 7 ==> r == Stop(m.(dbSize := v.raw % TWO_64), v.error.value))
            && (w == 0 && n == 9 ==> r == Stop(m.(hash := v.raw % TWO_32), v.error.value))
  {
    hide ScanFrom, FieldNumber, DigitSum, IsVarint, DecodeUnknown;
    ScanPrefix(tag, rest);
  }

  // ---------------------------------------------------------------- skipping

  /** What skipping makes of a field, by the wire type of its tag: the length it claims, or the error. */
  lemma {:induction false} SkipByWireType(tag: Bytes, rest: Bytes)
    requires IsVarint(tag)
    ensures var w, r := DigitSum(tag) % 8, SkipField(tag + rest);
            var v := ScanVarint(rest);
            && (w == 1 ==> r == Len(|tag| + 8))
            && (w == 4 ==> r == Len(|tag|))
            && (w == 5 ==> r == Len(|tag| + 4))
            && (w in {6, 7} ==> r == Bad(IllegalWireType(w)))
            && (w in {0, 2} && v.error.Some? ==> r == Bad(v.error.value))
            && (w == 0 && v.error.None? ==> r == Len(|tag| + v.n))
            && (w == 2 && v.error.None? && Int64(v.raw) < 0 ==> r == Bad(InvalidLength))
            && (w == 2 && v.error.None? && Int64(v.raw) >= 0 ==> r == Len(|tag| + v.n + Int64(v.raw)))
  {
    hide ScanFrom, DigitSum, Int64;
    ScanPrefix(tag, rest);
  }

  /** A group that runs out behind well-formed fields: in the middle of a varint, or because the next
      field claims bytes past the end. */
  lemma {:induction false} GroupCut(fs: FieldList, rest: Bytes, at: nat)
    requires AllWellFormed(fs)
    ensures var r, next := SkipGroup(FlattenAll(fs) + rest, at), at + |FlattenAll(fs)|;
            && (ScanVarint(rest).error.Some? ==> r == Bad(ScanVarint(rest).error.value))
            && (SkipField(rest).Len? && WireType(ScanVarint(rest).raw) != 4 && SkipField(rest).n > |rest| ==>
                  r == Bad(if next + SkipField(rest).n < TWO_63 then UnexpectedEOF else OutOfBounds))
            && (SkipField(rest).Bad? && ScanVarint(rest).error.None? && WireType(ScanVarint(rest).raw) != 4 ==>
                  r == SkipField(rest))
    decreases fs
  {
    hide ScanFrom, WireType, Flatten, WellFormed, SkipField, Int64;
    match fs
    case Nil =>
      assert FlattenAll(fs) + rest == rest;
      SkipHasTag(rest);
    case Cons(f, tail) =>
      var more := FlattenAll(tail) + rest;
      assert FlattenAll(fs) + rest == Flatten(f) + more;
      GroupPasses(f, more, at);
      GroupCut(tail, rest, at + |Flatten(f)|);
  }

  lemma {:induction false} SkipHasTag(s: Bytes)
    ensures SkipField(s).Len? ==> ScanVarint(s).error.None?
  {
    hide ScanFrom, SkipBody;
  }
}
