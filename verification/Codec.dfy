/** The methods of *MemberStatus in clusterpb.pb.go, working in place on byte buffers and on the
    fields of the struct, each proved against the encoding and decoding functions. */
module Codec {
  import opened Wire
  import opened Bits
  import opened Message
  import opened Varint
  import opened Skip
  import opened Decode
  import opened Grammar
  import opened Language
  import opened FieldView

  class StatusMessage {
    var name: Text
    var id: Text
    var endpoint: Text
    var isLeader: bool
    var state: Text
    var stateTxt: Text
    var dbSize: Uint64
    var dbSizeTxt: Text
    var hash: Uint32

    /** The value the struct holds. */
    ghost function Contents(): Status
      reads this
    {
      MemberStatus(name, id, endpoint, isLeader, state, stateTxt, dbSize, dbSizeTxt, hash)
    }

    /** A zero message. */
    constructor ()
      ensures Contents() == ZERO
    {
      name, id, endpoint, isLeader, state := [], [], [], false, [];
      stateTxt, dbSize, dbSizeTxt, hash := [], 0, [], 0;
    }

    // -------------------------------------------------------------- Size

    method Size() returns (n: nat)
      ensures n == SizeOf(Contents()) == |Message.Encode(Contents())|
    {
      hide SizeOf, Message.Encode;
      n := 0;
      n := AddTextSize(n, name);
      n := AddTextSize(n, id);
      n := AddTextSize(n, endpoint);
      if isLeader { n := n + 2; }
      n := AddTextSize(n, state);
      n := AddTextSize(n, stateTxt);
      if dbSize != 0 { var l := SovVarint(dbSize); n := n + 1 + l; }
      n := AddTextSize(n, dbSizeTxt);
      if hash != 0 { var l := SovVarint(hash); n := n + 1 + l; }
      SizeIsSum(Contents());
      SizeIsLength(Contents());
    }

    // -------------------------------------------------------------- Marshal

    method Marshal() returns (dAtA: array<Byte>)
      ensures fresh(dAtA) && dAtA[..] == Message.Encode(Contents())
      ensures Says(dAtA[..], name, id, endpoint, isLeader, state, stateTxt, dbSize, dbSizeTxt, hash)
    {
      hide Says, Message.Encode, SizeOf;
      var size := Size();
      dAtA := new Byte[size](_ => 0);
      var n := MarshalTo(dAtA);
      assert dAtA[..n] == dAtA[..];
    }

    /** Fills the front of the buffer and leaves the rest of it alone. */
    method MarshalTo(dAtA: array<Byte>) returns (i: nat)
      requires SizeOf(Contents()) <= dAtA.Length
      modifies dAtA
      ensures i == SizeOf(Contents())
      ensures dAtA[..] == Message.Encode(Contents()) + old(dAtA[i..])
      ensures Says(dAtA[..i], name, id, endpoint, isLeader, state, stateTxt, dbSize, dbSizeTxt, hash)
    {
      hide Written, SizeOf, Message.Encode, Says;
      ghost var m, orig := Contents(), dAtA[..];
      NothingWritten(m, orig);
      i := 0;
      i := PutText(dAtA, i, 0xa, name, m, 1, orig);
      i := PutText(dAtA, i, 0x12, id, m, 2, orig);
      i := PutText(dAtA, i, 0x1a, endpoint, m, 3, orig);
      i := PutBool(dAtA, i, 0x20, isLeader, m, 4, orig);
      i := PutText(dAtA, i, 0x2a, state, m, 5, orig);
      i := PutText(dAtA, i, 0x32, stateTxt, m, 6, orig);
      i := PutUint(dAtA, i, 0x38, dbSize, m, 7, orig);
      i := PutText(dAtA, i, 0x42, dbSizeTxt, m, 8, orig);
      i := PutUint(dAtA, i, 0x48, hash, m, 9, orig);
      AllWritten(dAtA[..], i, m, orig);
      SizeIsLength(m);
      assert dAtA[..i] == Message.Encode(m);
      EncodeSays(m);
    }

    // -------------------------------------------------------------- Unmarshal

    /** Decodes the input over the struct. The struct ends up as decoding leaves it even when an
        error is returned. */
    method Unmarshal(dAtA: array<Byte>) returns (err: Option<Error>)
      requires dAtA.Length <= MAX_ALLOC
      modifies this
      ensures var o := DecodeFrom(old(Contents()), dAtA[..]);
              && Contents() == o.m
              && err == (if o.error.Some? then Some(Report(o.error.value, dAtA.Length)) else None)
      ensures err == None <==> exists fs :: AllAccepted(fs) && FlattenAll(fs) == dAtA[..]
      ensures err == None ==>
                exists fs ::
                  && AllAccepted(fs) && FlattenAll(fs) == dAtA[..]
                  && name == LastText(fs, 1, old(name))
                  && id == LastText(fs, 2, old(id))
                  && endpoint == LastText(fs, 3, old(endpoint))
                  && isLeader == (LastNumber(fs, 4, if old(isLeader) then 1 else 0) % TWO_64 != 0)
                  && state == LastText(fs, 5, old(state))
                  && stateTxt == LastText(fs, 6, old(stateTxt))
                  && dbSize == LastNumber(fs, 7, old(dbSize)) % TWO_64
                  && dbSizeTxt == LastText(fs, 8, old(dbSizeTxt))
                  && hash == LastNumber(fs, 9, old(hash)) % TWO_32
    {
      hide AllAccepted, FlattenAll, LastText, LastNumber, DecodeField, Report;
      var l := dAtA.Length;
      var iNdEx := 0;
      ghost var input := dAtA[..];
      DecodedReads(Contents(), input);
      assert dAtA[0..] == input;
      while iNdEx < l
        invariant 0 <= iNdEx <= l
        invariant DecodeFrom(old(Contents()), input) == DecodeFrom(Contents(), dAtA[iNdEx..])
      {
        ghost var step := DecodeField(Contents(), dAtA[iNdEx..]);
        var next;
        next, err := UnmarshalField(dAtA, iNdEx);
        if err.Some? { return; }
        assert dAtA[iNdEx..][step.n..] == dAtA[next..];
        iNdEx := next;
      }
      assert iNdEx == l;   // the check after the loop never fires
      return None;
    }

    /** The body of the loop of Unmarshal, from index start on. */
    method UnmarshalField(dAtA: array<Byte>, start: nat) returns (next: nat, err: Option<Error>)
      requires start < dAtA.Length <= MAX_ALLOC
      modifies this
      ensures match DecodeField(old(Contents()), dAtA[start..])
              case Next(m, n) => Contents() == m && err == None && next == start + n
              case Stop(m, e) => Contents() == m && err == Some(Report(e, dAtA.Length))
    {
      hide ScanFrom, SkipField, Int32, WireType, And, Shr, DecodeKnown, DecodeUnknown;
      ghost var s := dAtA[start..];
      ScanErrorIsPlain(s);
      var wire, iNdEx, e := ReadUint64(dAtA, start);
      next := iNdEx;
      if e.Some? { return next, e; }
      assert s[iNdEx - start..] == dAtA[iNdEx..];
      TagOfWire(ScanVarint(s).raw);
      var fieldNum := Int32(Shr(wire, 3));
      var wireType := And(wire, 0x7);
      if wireType == 4 { return next, Some(EndGroup); }
      if fieldNum <= 0 { return next, Some(IllegalTag(fieldNum)); }
      if fieldNum > 9 {
        next, err := PassUnknown(dAtA, start);
      } else {
        next, err := UnmarshalKnown(dAtA, iNdEx, fieldNum, wireType, start);
      }
    }

    /** The nine cases of the switch on the field number: the tag read from `start` on ends at iNdEx. */
    method UnmarshalKnown(dAtA: array<Byte>, iNdEx: nat, fieldNum: FieldNum, wireType: nat, ghost start: nat)
      returns (next: nat, err: Option<Error>)
      requires start <= iNdEx <= dAtA.Length <= MAX_ALLOC
      modifies this
      ensures wireType != WireTypeOf(fieldNum) ==>
                Contents() == old(Contents()) && err == Some(WrongWireType(fieldNum, wireType))
      ensures wireType == WireTypeOf(fieldNum) ==>
                match DecodeKnown(old(Contents()), fieldNum, dAtA[iNdEx..], iNdEx - start)
                case Next(m, n) => Contents() == m && err == None && next == start + n
                case Stop(m, e) => Contents() == m && err == Some(Report(e, dAtA.Length))
    {
      hide ScanFrom, DecodeText, Report;
      ScanErrorIsPlain(dAtA[iNdEx..]);
      next := iNdEx;
      match fieldNum {
        case 1 =>
          if wireType != 2 { return next, Some(WrongWireType(1, wireType)); }
          name, next, err := UnmarshalText(dAtA, iNdEx, name);
        case 2 =>
          if wireType != 2 { return next, Some(WrongWireType(2, wireType)); }
          id, next, err := UnmarshalText(dAtA, iNdEx, id);
        case 3 =>
          if wireType != 2 { return next, Some(WrongWireType(3, wireType)); }
          endpoint, next, err := UnmarshalText(dAtA, iNdEx, endpoint);
        case 4 =>
          if wireType != 0 { return next, Some(WrongWireType(4, wireType)); }
          var v;
          v, next, err := ReadUint64(dAtA, iNdEx);
          if err == None { isLeader := v != 0; }
        case 5 =>
          if wireType != 2 { return next, Some(WrongWireType(5, wireType)); }
          state, next, err := UnmarshalText(dAtA, iNdEx, state);
        case 6 =>
          if wireType != 2 { return next, Some(WrongWireType(6, wireType)); }
          stateTxt, next, err := UnmarshalText(dAtA, iNdEx, stateTxt);
        case 7 =>
          if wireType != 0 { return next, Some(WrongWireType(7, wireType)); }
          dbSize, next, err := ReadUint64(dAtA, iNdEx);
        case 8 =>
          if wireType != 2 { return next, Some(WrongWireType(8, wireType)); }
          dbSizeTxt, next, err := UnmarshalText(dAtA, iNdEx, dbSizeTxt);
        case _ =>
          if wireType != 0 { return next, Some(WrongWireType(9, wireType)); }
          hash, next, err := ReadUint32(dAtA, iNdEx);
      }
    }
  }

  // ---------------------------------------------------------------- sizing

  method AddTextSize(n: nat, text: Text) returns (r: nat)
    ensures r == n + FieldSize(Str(text))
  {
    r := n;
    var l := |text|;
    if l > 0 {
      var s := SovVarint(l);
      r := n + (1 + l + s);
    }
  }

  lemma {:induction false} SizeIsSum(m: Status)
    ensures SizeOf(m) == FieldSize(Str(m.name)) + FieldSize(Str(m.id)) + FieldSize(Str(m.endpoint))
                         + FieldSize(Bool(m.isLeader)) + FieldSize(Str(m.state)) + FieldSize(Str(m.stateTxt))
                         + FieldSize(Uint(m.dbSize)) + FieldSize(Str(m.dbSizeTxt)) + FieldSize(Uint(m.hash))
  {
    hide FieldSize, SizeUpTo, SizeOf, EncodeUpTo;
    PrefixEnds(m);
    SizeStep(m, 1);
    SizeStep(m, 2);
    SizeStep(m, 3);
    SizeStep(m, 4);
    SizeStep(m, 5);
    SizeStep(m, 6);
    SizeStep(m, 7);
    SizeStep(m, 8);
    SizeStep(m, 9);
  }

  lemma {:induction false} SizeIsLength(m: Status)
    ensures SizeOf(m) == |Message.Encode(m)|
  {
    SizeOfFieldsIsLength(m, FIELD_ORDER);
  }

  /** The size of the first j fields of m, and their encoding. */
  ghost function SizeUpTo(m: Status, j: nat): nat
    requires j <= 9
  {
    SizeOfFields(m, FIELD_ORDER[..j])
  }

  ghost function EncodeUpTo(m: Status, j: nat): Bytes
    requires j <= 9
  {
    EncodeFields(m, FIELD_ORDER[..j])
  }

  lemma {:induction false} PrefixEnds(m: Status)
    ensures SizeUpTo(m, 0) == 0 && EncodeUpTo(m, 0) == []
    ensures SizeUpTo(m, 9) == SizeOf(m) && EncodeUpTo(m, 9) == Message.Encode(m)
  {
    hide SizeOfFields, EncodeFields;
    assert FIELD_ORDER[..9] == FIELD_ORDER;
    EmptyOrder(m, FIELD_ORDER[..0]);
  }

  lemma {:induction false} EmptyOrder(m: Status, order: seq<FieldNum>)
    requires order == []
    ensures SizeOfFields(m, order) == 0 && EncodeFields(m, order) == []
  {}

  /** The k-th field of the canonical order is field k. */
  lemma {:induction false} PrefixStep(m: Status, k: FieldNum)
    ensures SizeUpTo(m, k) == SizeUpTo(m, k - 1) + FieldSize(Get(m, k)) <= SizeOf(m)
    ensures EncodeUpTo(m, k) == EncodeUpTo(m, k - 1) + EncodeField(k, Get(m, k))
    ensures |EncodeUpTo(m, k - 1)| == SizeUpTo(m, k - 1)
  {
    hide FieldSize, Get, EncodeField, EncodeFields, SizeOfFields;
    assert FIELD_ORDER[..k] == FIELD_ORDER[..k - 1] + [k];
    EncodeFieldsConcat(m, FIELD_ORDER[..k - 1], [k]);
    SizeOfFieldsConcat(m, FIELD_ORDER[..k - 1], [k]);
    EncodeFieldsSingle(m, k);
    assert FIELD_ORDER == FIELD_ORDER[..k] + FIELD_ORDER[k..];
    SizeOfFieldsConcat(m, FIELD_ORDER[..k], FIELD_ORDER[k..]);
    SizeOfFieldsIsLength(m, FIELD_ORDER[..k - 1]);
  }

  lemma {:induction false} SizeStep(m: Status, k: FieldNum)
    ensures SizeUpTo(m, k) == SizeUpTo(m, k - 1) + FieldSize(Get(m, k))
  {
    hide FieldSize, Get, SizeUpTo;
    PrefixStep(m, k);
  }

  // ---------------------------------------------------------------- filling the buffer

  /** The first j fields of m have been written to the front of a buffer that held orig. */
  ghost predicate Written(buffer: Bytes, i: nat, m: Status, j: nat, orig: Bytes)
    requires j <= 9
  {
    i == SizeUpTo(m, j) && i <= |orig| && buffer == EncodeUpTo(m, j) + orig[i..]
  }

  lemma {:induction false} NothingWritten(m: Status, orig: Bytes)
    ensures Written(orig, 0, m, 0, orig)
  {
    PrefixEnds(m);
  }

  lemma {:induction false} AllWritten(buffer: Bytes, i: nat, m: Status, orig: Bytes)
    requires Written(buffer, i, m, 9, orig)
    ensures i == SizeOf(m) <= |orig| && buffer == Message.Encode(m) + orig[i..]
  {
    PrefixEnds(m);
  }

  /** Go's copy(dAtA[at:], src). */
  method Copy(dAtA: array<Byte>, at: nat, src: Bytes) returns (n: nat)
    requires at <= dAtA.Length
    modifies dAtA
    ensures n == if dAtA.Length - at < |src| then dAtA.Length - at else |src|
    ensures dAtA[..] == old(dAtA[..at]) + src[..n] + old(dAtA[at + n..])
  {
    n := if dAtA.Length - at < |src| then dAtA.Length - at else |src|;
    forall j | 0 <= j < n { dAtA[at + j] := src[j]; }
  }

  /** A tag byte and a varint. */
  method AppendUint(dAtA: array<Byte>, at: nat, tag: Byte, v: Uint64) returns (i: nat)
    requires at + 1 + Sov(v) <= dAtA.Length
    modifies dAtA
    ensures i == at + 1 + Sov(v) == at + 1 + |Varint.Encode(v)|
    ensures dAtA[..] == old(dAtA[..at]) + ([tag] + Varint.Encode(v)) + old(dAtA[i..])
  {
    hide Varint.Encode, Sov;
    EncodeLength(v);
    dAtA[at] := tag;
    assert dAtA[..at + 1] == old(dAtA[..at]) + [tag];
    i := EncodeVarint(dAtA, at + 1, v);
    assert dAtA[..] == dAtA[..at + 1] + dAtA[at + 1..i] + dAtA[i..];
  }

  /** A tag byte, a length and as many bytes; copy never truncates. */
  method AppendText(dAtA: array<Byte>, at: nat, tag: Byte, text: Text) returns (i: nat)
    requires at + 1 + Sov(|text|) + |text| <= dAtA.Length
    modifies dAtA
    ensures i == at + 1 + Sov(|text|) + |text| == at + 1 + |Varint.Encode(|text|)| + |text|
    ensures dAtA[..] == old(dAtA[..at]) + ([tag] + Varint.Encode(|text|) + text) + old(dAtA[i..])
  {
    hide Varint.Encode, Sov;
    i := AppendUint(dAtA, at, tag, |text|);
    ghost var head := [tag] + Varint.Encode(|text|);
    assert dAtA[..i] == old(dAtA[..at]) + head;
    var copied := Copy(dAtA, i, text);
    assert copied == |text|;
    i := i + copied;
  }

  /** Writing field k behind the first k - 1 makes the first k. */
  lemma {:induction false} WrittenNext(before: Bytes, at: nat, m: Status, k: FieldNum, orig: Bytes)
    requires Written(before, at, m, k - 1, orig) && SizeOf(m) <= |orig|
    ensures |before| == |orig| && at + FieldSize(Get(m, k)) <= |orig|
    ensures var field := EncodeField(k, Get(m, k));
            var i := at + |field|;
            |field| == FieldSize(Get(m, k)) && Written(before[..at] + field + before[i..], i, m, k, orig)
  {
    hide SizeUpTo, EncodeUpTo, SizeOf, FieldSize, EncodeField, Get;
    PrefixStep(m, k);
    FieldSizeIsLength(k, Get(m, k));
    var i := at + |EncodeField(k, Get(m, k))|;
    assert before[i..] == orig[i..];
  }

  method PutText(dAtA: array<Byte>, at: nat, tag: Byte, text: Text,
                 ghost m: Status, ghost k: FieldNum, ghost orig: Bytes) returns (i: nat)
    requires tag == Tag(k) && Get(m, k) == Str(text)
    requires SizeOf(m) <= dAtA.Length == |orig|
    requires Written(dAtA[..], at, m, k - 1, orig)
    modifies dAtA
    ensures Written(dAtA[..], i, m, k, orig)
  {
    hide SizeOf, Written, Varint.Encode, Sov, Get;
    ghost var before := dAtA[..];
    WrittenNext(before, at, m, k, orig);
    i := at;
    if |text| > 0 {
      EncodeLength(|text|);
      i := AppendText(dAtA, i, tag, text);
      assert EncodeField(k, Str(text)) == [tag] + Varint.Encode(|text|) + text;
    }
    assert dAtA[..] == before[..at] + EncodeField(k, Str(text)) + before[i..];
  }

  method PutBool(dAtA: array<Byte>, at: nat, tag: Byte, flag: bool,
                 ghost m: Status, ghost k: FieldNum, ghost orig: Bytes) returns (i: nat)
    requires tag == Tag(k) && Get(m, k) == Bool(flag)
    requires SizeOf(m) <= dAtA.Length == |orig|
    requires Written(dAtA[..], at, m, k - 1, orig)
    modifies dAtA
    ensures Written(dAtA[..], i, m, k, orig)
  {
    hide SizeOf, Written, Varint.Encode, Sov, Get;
    ghost var before := dAtA[..];
    WrittenNext(before, at, m, k, orig);
    i := at;
    if flag {
      dAtA[i] := tag;
      i := i + 1;
      dAtA[i] := 1;   // the test is repeated here in the source: its other branch is dead
      i := i + 1;
    }
    assert dAtA[..] == before[..at] + EncodeField(k, Bool(flag)) + before[i..];
  }

  method PutUint(dAtA: array<Byte>, at: nat, tag: Byte, num: Uint64,
                 ghost m: Status, ghost k: FieldNum, ghost orig: Bytes) returns (i: nat)
    requires tag == Tag(k) && Get(m, k) == Uint(num)
    requires SizeOf(m) <= dAtA.Length == |orig|
    requires Written(dAtA[..], at, m, k - 1, orig)
    modifies dAtA
    ensures Written(dAtA[..], i, m, k, orig)
  {
    hide SizeOf, Written, Varint.Encode, Sov, Get;
    ghost var before := dAtA[..];
    WrittenNext(before, at, m, k, orig);
    i := at;
    if num != 0 {
      i := AppendUint(dAtA, i, tag, num);
    }
    assert dAtA[..] == before[..at] + EncodeField(k, Uint(num)) + before[i..];
  }

  // ---------------------------------------------------------------- reading one field

  lemma {:induction false} ScanErrorIsPlain(s: Bytes)
    ensures var e := ScanVarint(s).error; e.Some? ==> forall l: nat :: Report(e.value, l) == e.value
  {
    ScanErrors(s, 0);
  }

  lemma {:induction false} TagOfWire(raw: nat)
    ensures Int32(Shr(raw % TWO_64, 3)) == FieldNumber(raw)
    ensures And(raw % TWO_64, 0x7) == WireType(raw)
  {
    hide Int32;
    assert Pow2(3) == 8;
    WireTypeOfTag(raw);
  }

  /** The bodies of the string cases: a length and as many bytes, which replace the field's present
      text unless an error comes first. The sum iNdEx + length may wrap. */
  method UnmarshalText(dAtA: array<Byte>, start: nat, present: Text)
    returns (text: Text, next: nat, err: Option<Error>)
    requires start <= dAtA.Length <= MAX_ALLOC
    ensures match DecodeText(dAtA[start..])
            case Payload(t, n) => text == t && err == None && next == start + n
            case NoPayload(e) => text == present && err == Some(Report(e, dAtA.Length))
  {
    hide ScanFrom;
    text := present;
    ghost var s := dAtA[start..];
    ScanErrorIsPlain(s);
    var stringLen, iNdEx, e := ReadUint64(dAtA, start);
    next := iNdEx;
    if e.Some? { return text, next, e; }
    Int64OfLow(ScanVarint(s).raw);
    var intStringLen := Int64(stringLen);
    if intStringLen < 0 { return text, next, Some(InvalidLength); }
    var postIndex := Int64(iNdEx + intStringLen);
    if postIndex > dAtA.Length { return text, next, Some(UnexpectedEOF); }
    if postIndex < iNdEx { return text, next, Some(OutOfBounds); }   // dAtA[iNdEx:postIndex]
    text := dAtA[iNdEx..postIndex];
    return text, postIndex, None;
  }

  /** The `default` case: passes over the field whose tag is at start. */
  method PassUnknown(dAtA: array<Byte>, start: nat) returns (next: nat, err: Option<Error>)
    requires start < dAtA.Length <= MAX_ALLOC
    ensures forall m :: match DecodeUnknown(m, dAtA[start..])
                        case Next(m', n) => m' == m && err == None && next == start + n
                        case Stop(m', e) => m' == m && err == Some(Report(e, dAtA.Length))
    ensures match SkipField(dAtA[start..])
            case Bad(e) => err == Some(e)
            case Len(n) =>
              if n >= TWO_63 then err == Some(InvalidLength)
              else if start + n >= TWO_63 then err == Some(OutOfBounds)
              else if start + n > dAtA.Length then err == Some(UnexpectedEOF)
              else err == None && next == start + n
  {
    ghost var s := dAtA[start..];
    next := start;
    SkipErrorIsPlain(s);
    SkipFieldBound(s);
    var skippy, e := SkipClusterpb(dAtA, start);
    if e.Some? { return next, e; }
    if skippy < 0 { return next, Some(InvalidLength); }
    var sum := Int64(start + skippy);
    if sum > dAtA.Length { return next, Some(UnexpectedEOF); }
    if sum < 0 { return next, Some(OutOfBounds); }   // the next read, dAtA[iNdEx]
    return sum, None;
  }

  lemma {:induction false} SkipErrorIsPlain(s: Bytes)
    ensures SkipField(s).Bad? ==> forall l: nat :: Report(SkipField(s).error, l) == SkipField(s).error
  {
    SkipNotPastEnd(s);
  }
}
