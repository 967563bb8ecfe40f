/** Base 128 varints: encodeVarintClusterpb, sovClusterpb and the decoding loop that
    Unmarshal and skipClusterpb repeat. */
module Varint {
  import opened Wire
  import opened Bits

  // ---------------------------------------------------------------- specification

  /** The canonical encoding: low seven bits first, the top bit set on all but the last. */
  function Encode(v: nat): (bs: Bytes) {
    if v < 128 then [v] else [v % 128 + 128] + Encode(v / 128)
  }

  /** What reading a varint from the front of s gives: the unbounded sum of the digits
      read, the number of bytes read, and the error if reading stopped on one. */
  datatype Scan = Scan(raw: nat, n: nat, error: Option<Error>)

  /** Reads on after k continuation bytes: the shift 7 * k is checked before the input. */
  function ScanFrom(s: Bytes, k: nat): Scan
    decreases 10 - k
  {
    if k >= 10 then Scan(0, 0, Some(IntOverflow))
    else if s == [] then Scan(0, 0, Some(UnexpectedEOF))
    else if s[0] < 128 then Scan(s[0], 1, None)
    else
      var t := ScanFrom(s[1..], k + 1);
      Scan(s[0] - 128 + 128 * t.raw, 1 + t.n, t.error)
  }

  function ScanVarint(s: Bytes): Scan {
    ScanFrom(s, 0)
  }

  /** Well-formed varints, canonical or over-long. */
  predicate IsVarint(bs: Bytes) {
    1 <= |bs| <= 10 && bs[|bs| - 1] < 128 && forall i :: 0 <= i < |bs| - 1 ==> bs[i] >= 128
  }

  /** The sum of the seven-bit digits, each at its own position. */
  function DigitSum(bs: Bytes): nat {
    if bs == [] then 0
    else
      var i := |bs| - 1;
      DigitSum(bs[..i]) + (bs[i] % 128) * Pow2(7 * i)
  }

  function Sov(v: nat): nat {
    if v < 128 then 1 else 1 + Sov(v / 128)
  }

  // ---------------------------------------------------------------- properties

  lemma {:induction false} EncodeLength(v: nat)
    ensures |Encode(v)| == Sov(v)
  {
    if v >= 128 { EncodeLength(v / 128); }
  }

  /** Sov(v) is the least n >= 1 with v < 128^n. */
  lemma {:induction false} SovIsLeast(v: nat, n: nat)
    requires n >= 1
    ensures v < Pow2(7 * n) <==> Sov(v) <= n
  {
    Pow2Values();
    if n == 1 {
      if v >= 128 { assert Sov(v / 128) >= 1; }
    } else if v >= 128 {
      SovIsLeast(v / 128, n - 1);
      Pow2Sum(7, 7 * (n - 1));
      assert 7 + 7 * (n - 1) == 7 * n;
    } else {
      Pow2Monotone(7, 7 * n);
    }
  }

  lemma {:induction false} SovUint64(v: Uint64)
    ensures 1 <= Sov(v) <= 10
  {
    Pow2Values();
    SovIsLeast(v, 10);
  }

  lemma {:induction false} ScanBounds(s: Bytes, k: nat)
    ensures var t := ScanFrom(s, k);
            t.n <= |s| && (k <= 10 ==> t.n <= 10 - k) && (t.error.None? ==> t.n >= 1)
    decreases 10 - k
  {
    if k < 10 && s != [] && s[0] >= 128 { ScanBounds(s[1..], k + 1); }
  }

  lemma {:induction false} ScanBelow(s: Bytes, k: nat)
    ensures var t := ScanFrom(s, k); t.raw < Pow2(7 * t.n)
    decreases 10 - k
  {
    hide Pow2;
    if k < 10 && s != [] {
      if s[0] < 128 {
        MoreDigits(s[0], 0, 0);
      } else {
        ScanBelow(s[1..], k + 1);
        var t := ScanFrom(s[1..], k + 1);
        MoreDigits(s[0] - 128, t.raw, t.n);
      }
    }
  }

  /** A seven-bit digit put below a sum of n of them. */
  lemma {:induction false} MoreDigits(d: nat, raw: nat, n: nat)
    requires d < 128 && raw < Pow2(7 * n)
    ensures d + 128 * raw < Pow2(7 * (1 + n))
  {
    hide Pow2;
    Pow2Small();
    Pow2Sum(7, 7 * n);
    assert 7 + 7 * n == 7 * (1 + n);
  }

  /** The two ways a varint can be cut short. */
  lemma {:induction false} ScanErrors(s: Bytes, k: nat)
    ensures ScanFrom(s, k).error in {None, Some(IntOverflow), Some(UnexpectedEOF)}
    ensures s == [] ==> ScanFrom(s, k).error.Some?
    decreases 10 - k
  {
    if k < 10 && s != [] { ScanErrors(s[1..], k + 1); }
  }

  /** The decoder inverts the encoder, whatever follows. */
  lemma {:induction false} ScanEncodedFrom(v: nat, rest: Bytes, k: nat)
    requires k + Sov(v) <= 10
    ensures ScanFrom(Encode(v) + rest, k) == Scan(v, Sov(v), None)
    decreases 10 - k
  {
    var s := Encode(v) + rest;
    if v >= 128 {
      assert s[1..] == Encode(v / 128) + rest;
      assert Sov(v / 128) >= 1;
      ScanEncodedFrom(v / 128, rest, k + 1);
    }
  }

  lemma {:induction false} ScanEncoded(v: Uint64, rest: Bytes)
    ensures ScanVarint(Encode(v) + rest) == Scan(v, |Encode(v)|, None)
  {
    SovUint64(v);
    EncodeLength(v);
    ScanEncodedFrom(v, rest, 0);
  }

  /** A complete varint is read the same whatever follows it. */
  lemma {:induction false} ScanLocal(x: Bytes, y: Bytes, k: nat)
    requires ScanFrom(x, k).error.None?
    ensures ScanFrom(x + y, k) == ScanFrom(x, k)
    decreases 10 - k
  {
    if x[0] >= 128 {
      assert (x + y)[1..] == x[1..] + y;
      ScanLocal(x[1..], y, k + 1);
    }
  }

  lemma {:induction false} DigitSumFirst(bs: Bytes)
    requires |bs| > 0
    ensures DigitSum(bs) == bs[0] % 128 + 128 * DigitSum(bs[1..])
  {
    hide Pow2;
    var i := |bs| - 1;
    if i == 0 {
      Pow2Small();
    } else {
      DigitSumFirst(bs[..i]);
      assert bs[..i][1..] == bs[1..][..i - 1];
      NextWeight(bs[i] % 128, i);
    }
  }

  /** A digit weighs 128 times what it would one position lower. */
  lemma {:induction false} NextWeight(d: nat, i: nat)
    requires i >= 1
    ensures d * Pow2(7 * i) == 128 * (d * Pow2(7 * (i - 1)))
  {
    hide Pow2;
    Pow2Small();
    Pow2Sum(7, 7 * (i - 1));
    assert 7 + 7 * (i - 1) == 7 * i;
    MulAssoc(d, 128, Pow2(7 * (i - 1)));
    MulAssoc(128, d, Pow2(7 * (i - 1)));
  }

  /** Reading accepts exactly the well-formed varints and sums their digits. */
  lemma {:induction false} ScanAccepts(s: Bytes, n: nat, k: nat)
    requires k <= 9
    ensures (ScanFrom(s, k).error.None? && ScanFrom(s, k).n == n)
            <==> (n <= |s| && k + n <= 10 && IsVarint(s[..n]))
    ensures n <= |s| && k + n <= 10 && IsVarint(s[..n]) ==> ScanFrom(s, k).raw == DigitSum(s[..n])
    decreases 10 - k
  {
    hide DigitSum;
    ScanBounds(s, k);
    if s != [] && 1 <= n <= |s| {
      var bs := s[..n];
      DigitSumFirst(bs);
      if s[0] < 128 {
        if n == 1 { DigitSumEmpty(bs[1..]); }
      } else if k < 9 {
        ScanAccepts(s[1..], n - 1, k + 1);
        assert s[1..][..n - 1] == bs[1..];
        VarintTail(bs);
      }
    }
  }

  lemma {:induction false} DigitSumEmpty(bs: Bytes)
    requires bs == []
    ensures DigitSum(bs) == 0
  {}

  lemma {:induction false} VarintTail(bs: Bytes)
    requires |bs| >= 1
    ensures IsVarint(bs) && bs[0] >= 128 ==> IsVarint(bs[1..])
    ensures |bs| <= 10 && bs[0] >= 128 && IsVarint(bs[1..]) ==> IsVarint(bs)
  {
    var t := bs[1..];
    if IsVarint(t) && |bs| <= 10 && bs[0] >= 128 {
      forall i | 0 <= i < |bs| - 1 ensures bs[i] >= 128 {
        if i > 0 { assert bs[i] == t[i - 1]; }
      }
    }
  }

  // ---------------------------------------------------------------- the Go loops

  /** encodeVarintClusterpb. */
  method EncodeVarint(dAtA: array<Byte>, offset: nat, v: Uint64) returns (next: nat)
    requires offset + Sov(v) <= dAtA.Length
    modifies dAtA
    ensures next == offset + Sov(v)
    ensures dAtA[offset..next] == Encode(v)
    ensures forall j :: 0 <= j < offset || next <= j < dAtA.Length ==> dAtA[j] == old(dAtA[j])
  {
    hide And, Or, Shr;
    EncodeLength(v);
    var x, i := v, offset;
    ghost var done: Bytes := [];
    while x >= 128
      invariant offset <= i <= dAtA.Length && dAtA[offset..i] == done
      invariant done + Encode(x) == Encode(v)
      invariant i + Sov(x) == offset + Sov(v)
      invariant forall j :: 0 <= j < offset || i <= j < dAtA.Length ==> dAtA[j] == old(dAtA[j])
    {
      LowDigit(x);
      ShiftSeven(x);
      assert Sov(x / 128) >= 1;
      var b: Byte := Or(And(x, 0x7f), 0x80);
      dAtA[i] := b;
      assert done + Encode(x) == (done + [b]) + Encode(x / 128);
      done := done + [b];
      x := Shr(x, 7);
      i := i + 1;
    }
    dAtA[i] := x;
    return i + 1;
  }

  /** uint8(v&0x7f|0x80): the low digit of v with the top bit set. */
  lemma {:induction false} LowDigit(x: nat)
    ensures Or(And(x, 0x7f), 0x80) == x % 128 + 128
  {
    hide Or, And, Pow2;
    Pow2Small();
    AndMask(x, 7);
    OrDisjoint(x % 128, 1, 7);
  }

  lemma {:induction false} ShiftSeven(x: nat)
    ensures Shr(x, 7) == x / 128
  {
    hide Pow2;
    Pow2Small();
  }

  /** sovClusterpb. */
  method SovVarint(x: Uint64) returns (n: nat)
    ensures n == Sov(x)
  {
    hide Shr;
    n := 0;
    var y := x;
    while true
      invariant n + Sov(y) == Sov(x)
      decreases y
    {
      n := n + 1;
      ShiftSeven(y);
      var rest := Shr(y, 7);
      if rest == 0 { break; }
      y := rest;
    }
  }

  /** The loop that accumulates a varint into an unsigned variable of the given width. */
  method ReadVarint(dAtA: array<Byte>, start: nat, width: nat)
    returns (v: nat, next: nat, err: Option<Error>)
    requires start <= dAtA.Length
    ensures var t := ScanVarint(dAtA[start..]);
            v == t.raw % Pow2(width) && next == start + t.n && err == t.error
  {
    hide Pow2, Or, And, Shl, AddDigits, Above, ScanFrom;
    ghost var whole := ScanVarint(dAtA[start..]);
    ghost var raw: nat, k: nat := 0, 0;
    ReadStart(whole);
    v, next := 0, start;
    SmallMod(0, Pow2(width));
    var shift := 0;
    while true
      invariant shift == 7 * k && k <= 10 && next == start + k <= dAtA.Length
      invariant raw < Pow2(shift) && v == raw % Pow2(width)
      invariant whole == Above(raw, k, ScanFrom(dAtA[next..], k))
      decreases 70 - shift
    {
      if k == 10 || next == dAtA.Length { ReadCut(dAtA[next..], raw, k); }
      if shift >= 64 { return v, next, Some(IntOverflow); }
      if next >= dAtA.Length { return v, next, Some(UnexpectedEOF); }
      ReadStep(dAtA[next..], raw, k, width);
      assert dAtA[next..][1..] == dAtA[next + 1..];
      var b := dAtA[next];
      next := next + 1;
      v := Or(v, Shl(And(b, 0x7F), shift, width));
      raw := AddDigits(raw, b % 128, k);
      if b < 0x80 { return v, next, None; }
      k, shift := k + 1, shift + 7;
    }
  }

  /** The loop over a uint64 (or an int, which has the same bits). */
  method ReadUint64(dAtA: array<Byte>, start: nat) returns (v: Uint64, next: nat, err: Option<Error>)
    requires start <= dAtA.Length
    ensures var t := ScanVarint(dAtA[start..]);
            v == t.raw % TWO_64 && next == start + t.n <= dAtA.Length && err == t.error
            && (err.None? ==> next > start)
  {
    Pow2Values();
    ScanBounds(dAtA[start..], 0);
    v, next, err := ReadVarint(dAtA, start, 64);
  }

  /** The loop over a uint32: the bits above the low 32 are shifted out. */
  method ReadUint32(dAtA: array<Byte>, start: nat) returns (v: Uint32, next: nat, err: Option<Error>)
    requires start <= dAtA.Length
    ensures var t := ScanVarint(dAtA[start..]);
            v == t.raw % TWO_32 && next == start + t.n <= dAtA.Length && err == t.error
            && (err.None? ==> next > start)
  {
    Pow2Values();
    ScanBounds(dAtA[start..], 0);
    v, next, err := ReadVarint(dAtA, start, 32);
  }

  /** raw, with the digits of `higher` added from position k on. */
  ghost function AddDigits(raw: nat, higher: nat, k: nat): nat {
    raw + higher * Pow2(7 * k)
  }

  lemma {:induction false} AddNothing(raw: nat, k: nat)
    ensures AddDigits(0, raw, 0) == raw && AddDigits(raw, 0, k) == raw
  {
    Pow2Small();
  }

  /** The scan of a whole varint, given the sum of its first k digits and the scan of the rest. */
  ghost function Above(raw: nat, k: nat, t: Scan): Scan {
    Scan(AddDigits(raw, t.raw, k), k + t.n, t.error)
  }

  lemma {:induction false} ReadStart(t: Scan)
    ensures Above(0, 0, t) == t && 0 < Pow2(0)
  {
    AddNothing(t.raw, 0);
  }

  lemma {:induction false} ReadCut(s: Bytes, raw: nat, k: nat)
    requires k == 10 || (k < 10 && s == [])
    ensures Above(raw, k, ScanFrom(s, k)) == Scan(raw, k, Some(if k == 10 then IntOverflow else UnexpectedEOF))
  {
    AddNothing(raw, k);
  }

  lemma {:induction false} ReadStep(s: Bytes, raw: nat, k: nat, width: nat)
    requires s != [] && k < 10 && raw < Pow2(7 * k)
    ensures var raw' := AddDigits(raw, s[0] % 128, k);
            && Or(raw % Pow2(width), Shl(And(s[0], 0x7F), 7 * k, width)) == raw' % Pow2(width)
            && raw' < Pow2(7 * (k + 1))
            && Above(raw, k, ScanFrom(s, k))
               == if s[0] < 128 then Scan(raw', k + 1, None)
                  else Above(raw', k + 1, ScanFrom(s[1..], k + 1))
  {
    ReadBits(s[0], raw, k, width);
    var d := LowSeven(s[0]);
    NextDigit(raw, d, k, if s[0] < 128 then 0 else ScanFrom(s[1..], k + 1).raw);
  }

  lemma {:induction false} LowSeven(b: Byte) returns (d: nat)
    ensures d < 128 && b == (if b < 128 then d else d + 128) && b % 128 == d
  {
    d := if b < 128 then b else b - 128;
  }

  lemma {:induction false} ReadBits(b: Byte, raw: nat, k: nat, width: nat)
    requires raw < Pow2(7 * k)
    ensures Or(raw % Pow2(width), Shl(And(b, 0x7F), 7 * k, width)) == AddDigits(raw, b % 128, k) % Pow2(width)
  {
    Pow2Values();
    AndMask(b, 7);
    OrStep(raw, b % 128, 7 * k, width);
  }

  lemma {:induction false} NextDigit(raw: nat, d: nat, k: nat, higher: nat)
    requires raw < Pow2(7 * k) && d < 128
    ensures AddDigits(raw, d, k) < Pow2(7 * (k + 1))
    ensures AddDigits(raw, d + 128 * higher, k) == AddDigits(AddDigits(raw, d, k), higher, k + 1)
  {
    var p := Pow2(7 * k);
    Pow2Values();
    Pow2Sum(7, 7 * k);
    assert Pow2(7 * (k + 1)) == 128 * p;
    assert d * p <= 127 * p by { MulSub(127, d, p); MulNonNegative(127 - d, p); }
    MulAdd(d, 128 * higher, p);
    MulAssoc(128, higher, p);
    MulAssoc(higher, 128, p);
  }

  lemma {:induction false} PassStep(s: Bytes, k: nat)
    requires k <= 10
    ensures var t := ScanFrom(s, k);
            if k == 10 then t.n == 0 && t.error == Some(IntOverflow)
            else if s == [] then t.n == 0 && t.error == Some(UnexpectedEOF)
            else if s[0] < 128 then t.n == 1 && t.error == None
            else var u := ScanFrom(s[1..], k + 1); t.n == 1 + u.n && t.error == u.error
  {}

  /** The loop of skipClusterpb that passes over a varint without keeping it. */
  method PassVarint(dAtA: array<Byte>, start: nat) returns (next: nat, err: Option<Error>)
    requires start <= dAtA.Length
    ensures var t := ScanVarint(dAtA[start..]);
            next == start + t.n <= dAtA.Length && err == t.error && (err.None? ==> next > start)
  {
    hide ScanFrom;
    ghost var whole := ScanVarint(dAtA[start..]);
    ScanBounds(dAtA[start..], 0);
    next := start;
    var shift := 0;
    ghost var k := 0;
    while true
      invariant shift == 7 * k && k <= 10 && next == start + k <= dAtA.Length
      invariant var t := ScanFrom(dAtA[next..], k); whole.n == k + t.n && whole.error == t.error
      decreases 70 - shift
    {
      PassStep(dAtA[next..], k);
      if shift >= 64 { return next, Some(IntOverflow); }
      if next >= dAtA.Length { return next, Some(UnexpectedEOF); }
      assert dAtA[next..][1..] == dAtA[next + 1..];
      next := next + 1;
      if dAtA[next - 1] < 0x80 { return next, None; }
      k, shift := k + 1, shift + 7;
    }
  }
}
