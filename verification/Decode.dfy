/** Unmarshal as a function of the bytes: what it accepts, the message it leaves, success or not. */
module Decode {
  import opened Wire
  import opened Message
  import opened Varint
  import opened Skip

  /** What reading one field leads to: the message and the length of the field, or the message
      as it stands when reading stops on an error. */
  datatype Step = Next(m: Status, n: nat) | Stop(m: Status, error: Error)

  datatype Outcome = Outcome(m: Status, error: Option<Error>)

  /** int32(wire >> 3). */
  function FieldNumber(raw: nat): int {
    Int32((raw % TWO_64) / 8)
  }

  datatype Payload = Payload(text: Text, n: nat) | NoPayload(error: Error)

  /** A length-delimited value at the front of s. */
  function DecodeText(s: Bytes): (r: Payload)
    ensures r.Payload? ==> 1 <= r.n <= |s|
  {
    ScanBounds(s, 0);
    var v := ScanVarint(s);
    var len := Int64(v.raw);
    if v.error.Some? then NoPayload(v.error.value)
    else if len < 0 then NoPayload(InvalidLength)
    else if v.n + len > |s| then NoPayload(PastEnd(v.n + len - |s|))
    else Payload(s[v.n..v.n + len], v.n + len)
  }

  /** The value of a numeric field whose varint sums to raw. */
  function NumberValue(k: FieldNum, raw: nat): (v: Value)
    requires WireTypeOf(k) == 0
    ensures Fits(k, v)
  {
    if k == 4 then Bool(raw % TWO_64 != 0)
    else if k == 7 then Uint(raw % TWO_64)
    else Uint(raw % TWO_32)
  }

  /** The value of known field k, given the input after its tag of `at` bytes. The two unsigned
      fields are reset before reading and keep the digits read when reading fails. */
  function DecodeKnown(m: Status, k: FieldNum, s: Bytes, at: nat): (r: Step)
    ensures r.Next? ==> at < r.n <= at + |s|
  {
    if WireTypeOf(k) == 2 then
      var p := DecodeText(s);
      if p.NoPayload? then Stop(m, p.error) else Next(Set(m, k, Str(p.text)), at + p.n)
    else
      ScanBounds(s, 0);
      var v := ScanVarint(s);
      var value := NumberValue(k, v.raw);
      if v.error.None? then Next(Set(m, k, value), at + v.n)
      else Stop(if k == 4 then m else Set(m, k, value), v.error.value)
  }

  /** An unknown field: s starts at its tag. */
  function DecodeUnknown(m: Status, s: Bytes): (r: Step)
    ensures r.Next? ==> 1 <= r.n <= |s|
  {
    match SkipField(s)
    case Bad(e) => Stop(m, e)
    case Len(n) =>
      if n >= TWO_63 then Stop(m, InvalidLength)   // the sum wrapped to a negative length
      else if n > |s| then Stop(m, PastEnd(n - |s|))
      else Next(m, n)
  }

  function DecodeField(m: Status, s: Bytes): (r: Step)
    ensures r.Next? ==> 1 <= r.n <= |s|
  {
    ScanBounds(s, 0);
    var tag := ScanVarint(s);
    var num, wireType := FieldNumber(tag.raw), WireType(tag.raw);
    if tag.error.Some? then Stop(m, tag.error.value)
    else if wireType == 4 then Stop(m, EndGroup)
    else if num <= 0 then Stop(m, IllegalTag(num))
    else if num > 9 then DecodeUnknown(m, s)
    else if wireType != WireTypeOf(num) then Stop(m, WrongWireType(num, wireType))
    else DecodeKnown(m, num, s[tag.n..], tag.n)
  }

  function DecodeFrom(m: Status, s: Bytes): Outcome
    decreases |s|
  {
    if s == [] then Outcome(m, None)
    else match DecodeField(m, s)
      case Stop(m', e) => Outcome(m', Some(e))
      case Next(m', n) => DecodeFrom(m', s[n..])
  }

  // ---------------------------------------------------------------- locality and sequencing

  lemma {:induction false} SkipLocal(x: Bytes, y: Bytes)
    requires SkipField(x).Len?
    ensures SkipField(x + y) == SkipField(x)
    decreases |x|, 0
  {
    hide ScanFrom;
    ScanLocal(x, y, 0);
    ScanBounds(x, 0);
    var t := ScanVarint(x);
    var body := x[t.n..];
    assert (x + y)[t.n..] == body + y;
    match WireType(t.raw)
    case 0 => ScanLocal(body, y, 0);
    case 2 => ScanLocal(body, y, 0);
    case 3 => SkipGroupLocal(body, y, t.n);
    case _ =>
  }

  lemma {:induction false} SkipGroupLocal(x: Bytes, y: Bytes, at: nat)
    requires SkipGroup(x, at).Len?
    ensures SkipGroup(x + y, at) == SkipGroup(x, at)
    decreases |x|, 1
  {
    hide ScanFrom;
    ScanLocal(x, y, 0);
    if WireType(ScanVarint(x).raw) != 4 {
      SkipLocal(x, y);
      var n := SkipField(x).n;
      assert (x + y)[n..] == x[n..] + y;
      SkipGroupLocal(x[n..], y, at + n);
    }
  }

  lemma {:induction false} DecodeTextLocal(x: Bytes, y: Bytes)
    requires DecodeText(x).Payload?
    ensures DecodeText(x + y) == DecodeText(x)
  {
    hide ScanFrom, Int64;
    ScanLocal(x, y, 0);
    ScanBounds(x, 0);
    var v := ScanVarint(x);
    var len := Int64(v.raw);
    assert (x + y)[v.n..v.n + len] == x[v.n..v.n + len];
  }

  /** A field that is read completely is read the same whatever follows it. */
  lemma {:induction false} DecodeFieldLocal(m: Status, x: Bytes, y: Bytes)
    requires DecodeField(m, x).Next?
    ensures DecodeField(m, x + y) == DecodeField(m, x)
  {
    hide ScanFrom, Int64, Int32, Set, SkipField;
    ScanLocal(x, y, 0);
    ScanBounds(x, 0);
    var t := ScanVarint(x);
    var body := x[t.n..];
    assert (x + y)[t.n..] == body + y;
    var num := FieldNumber(t.raw);
    if num > 9 {
      SkipLocal(x, y);
    } else if WireTypeOf(num) == 2 {
      DecodeTextLocal(body, y);
    } else {
      ScanLocal(body, y, 0);
    }
  }

  /** Concatenation is sequencing: after x decodes, x + y leads to just what y leads to from there,
      the message left behind by a failure included. */
  lemma {:induction false} DecodeConcat(m: Status, x: Bytes, y: Bytes)
    requires DecodeFrom(m, x).error.None?
    ensures DecodeFrom(m, x + y) == DecodeFrom(DecodeFrom(m, x).m, y)
    decreases |x|
  {
    hide DecodeField;
    if x == [] {
      assert x + y == y;
    } else {
      DecodeFieldLocal(m, x, y);
      var n := DecodeField(m, x).n;
      assert (x + y)[n..] == x[n..] + y;
      DecodeConcat(DecodeField(m, x).m, x[n..], y);
    }
  }

  // ---------------------------------------------------------------- canonical fields

  lemma {:induction false} TagParts(k: FieldNum)
    ensures FieldNumber(Tag(k)) == k && WireType(Tag(k)) == WireTypeOf(k) && Tag(k) < 128
  {}

  lemma {:induction false} DecodesText(text: Text, rest: Bytes)
    ensures DecodeText(EncodeValue(Str(text)) + rest) == Payload(text, |EncodeValue(Str(text))|)
  {
    hide ScanFrom, Varint.Encode;
    var length := Varint.Encode(|text|);
    var s := EncodeValue(Str(text)) + rest;
    ScanEncoded(|text|, text + rest);
    assert s == length + (text + rest);
    assert s[|length|..|length| + |text|] == text;
  }

  /** A value as MarshalTo emits it, whatever follows, sets its field and nothing else. */
  lemma {:induction false} DecodesValue(m: Status, k: FieldNum, v: Value, rest: Bytes, at: nat)
    requires Fits(k, v)
    ensures DecodeKnown(m, k, EncodeValue(v) + rest, at) == Next(Set(m, k, v), at + |EncodeValue(v)|)
  {
    hide ScanFrom, Varint.Encode, Set, DecodeText;
    match v
    case Str(text) => DecodesText(text, rest);
    case Bool(flag) => TagScan(if flag then 1 else 0, rest);
    case Uint(num) => ScanEncoded(num, rest);
  }

  lemma {:induction false} DecodesField(m: Status, k: FieldNum, v: Value, rest: Bytes)
    requires Fits(k, v) && !IsZero(v)
    ensures DecodeField(m, EncodeField(k, v) + rest) == Next(Set(m, k, v), |EncodeField(k, v)|)
  {
    hide ScanFrom, FieldNumber, WireType, EncodeValue, DecodeKnown;
    TagParts(k);
    var s := EncodeField(k, v) + rest;
    var body := EncodeValue(v) + rest;
    assert s == [Tag(k)] + body && s[1..] == body;
    TagScan(Tag(k), body);
    DecodesValue(m, k, v, rest, 1);
  }

  lemma {:induction false} TagScan(b: Byte, rest: Bytes)
    requires b < 128
    ensures ScanVarint([b] + rest) == Scan(b, 1, None)
  {}

  /** The message with the listed non-zero fields of `from` written over m. */
  function Overwrite(m: Status, from: Status, order: seq<FieldNum>): Status
    decreases |order|
  {
    if order == [] then m
    else
      var k := order[0];
      var m' := if IsZero(Get(from, k)) then m else Set(m, k, Get(from, k));
      Overwrite(m', from, order[1..])
  }

  lemma {:induction false} DecodesFields(m: Status, from: Status, order: seq<FieldNum>)
    ensures DecodeFrom(m, EncodeFields(from, order)) == Outcome(Overwrite(m, from, order), None)
    decreases |order|
  {
    hide DecodeField, Set, Get, EncodeField;
    if order != [] {
      var k := order[0];
      var v := Get(from, k);
      var head, tail := EncodeField(k, v), EncodeFields(from, order[1..]);
      if IsZero(v) {
        assert head == [] by { ZeroEncodesEmpty(k, v); }
        assert head + tail == tail;
        DecodesFields(m, from, order[1..]);
      } else {
        DecodesField(m, k, v, tail);
        assert (head + tail)[|head|..] == tail;
        DecodesFields(Set(m, k, v), from, order[1..]);
      }
    }
  }

  lemma {:induction false} ZeroEncodesEmpty(k: FieldNum, v: Value)
    requires IsZero(v)
    ensures EncodeField(k, v) == []
  {}

  /** Overwriting, read field by field: the order and repetitions do not matter. */
  lemma {:induction false} OverwriteGet(m: Status, from: Status, order: seq<FieldNum>, j: FieldNum)
    ensures Get(Overwrite(m, from, order), j)
            == if j in order && !IsZero(Get(from, j)) then Get(from, j) else Get(m, j)
    decreases |order|
  {
    hide Get, Set, IsZero;
    if order != [] {
      var k := order[0];
      var m' := if IsZero(Get(from, k)) then m else Set(m, k, Get(from, k));
      OverwriteGet(m', from, order[1..], j);
      assert order == [k] + order[1..];
    }
  }

  /** Last one wins: every field b sets, otherwise a's. */
  function Merge(a: Status, b: Status): Status {
    MemberStatus(
      if b.name == [] then a.name else b.name,
      if b.id == [] then a.id else b.id,
      if b.endpoint == [] then a.endpoint else b.endpoint,
      b.isLeader || a.isLeader,
      if b.state == [] then a.state else b.state,
      if b.stateTxt == [] then a.stateTxt else b.stateTxt,
      if b.dbSize == 0 then a.dbSize else b.dbSize,
      if b.dbSizeTxt == [] then a.dbSizeTxt else b.dbSizeTxt,
      if b.hash == 0 then a.hash else b.hash)
  }

  lemma {:induction false} MergeGet(a: Status, b: Status, k: FieldNum)
    ensures Get(Merge(a, b), k) == if IsZero(Get(b, k)) then Get(a, k) else Get(b, k)
  {}

  // ---------------------------------------------------------------- the main theorems

  /** The single-field encodings of b, in any order that mentions every field at least once,
      decode over a to the last-one-wins merge. */
  lemma {:induction false} AnyOrderMerges(a: Status, b: Status, order: seq<FieldNum>)
    requires forall k: FieldNum :: k in order
    ensures DecodeFrom(a, EncodeFields(b, order)) == Outcome(Merge(a, b), None)
  {
    hide Get, DecodeField, Merge;
    DecodesFields(a, b, order);
    forall k: FieldNum ensures Get(Overwrite(a, b, order), k) == Get(Merge(a, b), k) {
      OverwriteGet(a, b, order, k);
      MergeGet(a, b, k);
    }
    SameFields(Overwrite(a, b, order), Merge(a, b));
  }

  lemma {:induction false} MergeZero(m: Status)
    ensures Merge(ZERO, m) == m
  {}

  lemma {:induction false} AllListed()
    ensures forall k: FieldNum :: k in FIELD_ORDER
  {
    assert FIELD_ORDER[0] == 1 && FIELD_ORDER[1] == 2 && FIELD_ORDER[2] == 3;
    assert FIELD_ORDER[3] == 4 && FIELD_ORDER[4] == 5 && FIELD_ORDER[5] == 6;
    assert FIELD_ORDER[6] == 7 && FIELD_ORDER[7] == 8 && FIELD_ORDER[8] == 9;
  }

  /** Field order does not matter. */
  lemma {:induction false} AnyOrderDecodes(m: Status, order: seq<FieldNum>)
    requires forall k: FieldNum :: k in order
    ensures DecodeFrom(ZERO, EncodeFields(m, order)) == Outcome(m, None)
  {
    AnyOrderMerges(ZERO, m, order);
    MergeZero(m);
  }

  /** Unmarshal undoes Marshal. */
  lemma {:induction false} RoundTrip(m: Status)
    ensures DecodeFrom(ZERO, Message.Encode(m)) == Outcome(m, None)
  {
    AllListed();
    AnyOrderDecodes(m, FIELD_ORDER);
  }

  lemma {:induction false} EncodeInjective(a: Status, b: Status)
    requires Message.Encode(a) == Message.Encode(b)
    ensures a == b
  {
    RoundTrip(a);
    RoundTrip(b);
  }

  /** Two messages back to back decode to their merge, over whatever was there. */
  lemma {:induction false} BackToBackMerges(m: Status, a: Status, b: Status)
    ensures DecodeFrom(m, Message.Encode(a) + Message.Encode(b)) == Outcome(Merge(Merge(m, a), b), None)
  {
    hide DecodeField, EncodeFields, Merge;
    AllListed();
    AnyOrderMerges(m, a, FIELD_ORDER);
    AnyOrderMerges(Merge(m, a), b, FIELD_ORDER);
    DecodeConcat(m, Message.Encode(a), Message.Encode(b));
  }
}
