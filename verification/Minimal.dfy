/** The canonical encoding is the shortest of all encodings of a message. */
module Minimal {
  import opened Wire
  import opened Message
  import opened Bits
  import opened Varint
  import opened Skip
  import opened Decode

  /** A varint of n bytes holds no value that needs more than n. */
  lemma {:induction false} SovOfScan(s: Bytes, v: nat)
    requires ScanVarint(s).error.None? && v <= ScanVarint(s).raw
    ensures Sov(v) <= ScanVarint(s).n
  {
    hide ScanFrom;
    ScanBounds(s, 0);
    ScanBelow(s, 0);
    SovIsLeast(v, ScanVarint(s).n);
  }

  lemma {:induction false} LowIsSmaller(raw: nat, m: nat)
    requires m > 0
    ensures raw % m <= raw
  {
    if raw < m { SmallMod(raw, m); }
  }

  lemma {:induction false} SizeOfSetBound(m: Status, k: FieldNum, v: Value)
    requires Fits(k, v)
    ensures SizeOf(Set(m, k, v)) <= SizeOf(m) + FieldSize(v)
  {
    hide Set, Get, FieldSize;
    SizeOfSet(m, k, v, FIELD_ORDER);
  }

  /** One field read adds at most its own length to the size of the message. */
  lemma {:induction false} StepSize(m: Status, s: Bytes)
    requires DecodeField(m, s).Next?
    ensures SizeOf(DecodeField(m, s).m) <= SizeOf(m) + DecodeField(m, s).n
  {
    hide ScanFrom, SizeOf, Set, FieldNumber, Int64;
    ScanBounds(s, 0);
    var t := ScanVarint(s);
    var num := FieldNumber(t.raw);
    if num <= 9 {
      KnownSize(m, num, s[t.n..], t.n);
    }
  }

  lemma {:induction false} KnownSize(m: Status, k: FieldNum, s: Bytes, at: nat)
    requires at >= 1 && DecodeKnown(m, k, s, at).Next?
    ensures SizeOf(DecodeKnown(m, k, s, at).m) <= SizeOf(m) + DecodeKnown(m, k, s, at).n
  {
    hide ScanFrom, SizeOf, Set, Sov;
    var v := ScanVarint(s);
    if WireTypeOf(k) == 2 {
      TextSize(s);
      SizeOfSetBound(m, k, Str(DecodeText(s).text));
    } else if k == 4 {
      ScanBounds(s, 0);
      SizeOfSetBound(m, k, Bool(v.raw % TWO_64 != 0));
    } else {
      var modulus := if k == 7 then TWO_64 else TWO_32;
      LowIsSmaller(v.raw, modulus);
      SovOfScan(s, v.raw % modulus);
      SizeOfSetBound(m, k, Uint(v.raw % modulus));
    }
  }

  lemma {:induction false} TextSize(s: Bytes)
    requires DecodeText(s).Payload?
    ensures var p := DecodeText(s); Sov(|p.text|) + |p.text| <= p.n
  {
    hide ScanFrom, Sov;
    var v := ScanVarint(s);
    Int64AtMost(v.raw);
    SovOfScan(s, Int64(v.raw));
  }

  lemma {:induction false} Int64AtMost(raw: nat)
    ensures Int64(raw) <= raw
  {}

  lemma {:induction false} DecodedSize(m: Status, s: Bytes)
    requires DecodeFrom(m, s).error.None?
    ensures SizeOf(DecodeFrom(m, s).m) <= SizeOf(m) + |s|
    decreases |s|
  {
    hide DecodeField, SizeOf;
    if s != [] {
      StepSize(m, s);
      var step := DecodeField(m, s);
      DecodedSize(step.m, s[step.n..]);
    }
  }

  /** Over-long varints, repeated fields and skipped fields only ever lengthen an encoding: whatever
      bytes decode to a message, its canonical encoding is no longer and decodes to it too. */
  lemma {:induction false} CanonicalIsShortest(s: Bytes)
    requires DecodeFrom(ZERO, s).error.None?
    ensures var m := DecodeFrom(ZERO, s).m;
            |Message.Encode(m)| <= |s| && DecodeFrom(ZERO, Message.Encode(m)) == DecodeFrom(ZERO, s)
  {
    hide DecodeFrom;
    var m := DecodeFrom(ZERO, s).m;
    DecodedSize(ZERO, s);
    SizeOfZero();
    SizeOfFieldsIsLength(m, FIELD_ORDER);
    RoundTrip(m);
  }

  lemma {:induction false} SizeOfZero()
    ensures SizeOf(ZERO) == 0
  {
    ZeroSize(FIELD_ORDER);
  }

  lemma {:induction false} ZeroSize(order: seq<FieldNum>)
    ensures SizeOfFields(ZERO, order) == 0
  {
    if order != [] { ZeroSize(order[1..]); }
  }
}
