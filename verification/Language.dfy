/** The language that Unmarshal accepts, as trees, and what it makes of each sentence. */
module Language {
  import opened Wire
  import opened Message
  import opened Varint
  import opened Skip
  import opened Grammar
  import opened Decode

  function NumberOf(f: Field): int {
    FieldNumber(DigitSum(f.tag))
  }

  /** A well-formed field with a positive number, and with its own wire type if it is one of the nine. */
  predicate Accepted(f: Field) {
    WellFormed(f) && NumberOf(f) > 0 && (NumberOf(f) <= 9 ==> WireType(DigitSum(f.tag)) == WireTypeOf(NumberOf(f)))
  }

  predicate AllAccepted(fs: FieldList) {
    fs.Cons? ==> Accepted(fs.head) && AllAccepted(fs.tail)
  }

  /** What an accepted field does to the message: one of the nine replaces its value, others do nothing. */
  function Interpret(m: Status, f: Field): Status
    requires Accepted(f)
  {
    var k := NumberOf(f);
    if k > 9 then m
    else
      IsText(f);
      match f
      case BytesField(_, _, payload) => Set(m, k, Str(payload))
      case VarintField(_, value) => Set(m, k, NumberValue(k, DigitSum(value)))
      case _ => m
  }

  lemma {:induction false} IsText(f: Field)
    requires WellFormed(f)
    ensures WireType(DigitSum(f.tag)) == 0 <==> f.VarintField?
    ensures WireType(DigitSum(f.tag)) == 2 <==> f.BytesField?
    ensures f.BytesField? ==> |f.payload| < TWO_63
  {
    hide DigitSum, IsVarint, WireType;
  }

  function InterpretAll(m: Status, fs: FieldList): Status
    requires AllAccepted(fs)
    decreases fs
  {
    match fs
    case Nil => m
    case Cons(f, tail) => InterpretAll(Interpret(m, f), tail)
  }

  // ---------------------------------------------------------------- one field

  /** An accepted field is read to its end, whatever follows, and does what it stands for. */
  lemma {:induction false} ReadsField(m: Status, f: Field, rest: Bytes)
    requires Accepted(f) && |Flatten(f)| < TWO_63
    ensures DecodeField(m, Flatten(f) + rest) == Next(Interpret(m, f), |Flatten(f)|)
  {
    hide ScanFrom, FieldNumber, SkipField, DigitSum, IsVarint, WireType, DecodeKnown, Set;
    var s := Flatten(f) + rest;
    TreeTag(f, rest);
    IsText(f);
    if NumberOf(f) > 9 {
      SkipsTree(f, rest);
    } else {
      ReadsKnown(m, f, rest);
    }
  }

  lemma {:induction false} ReadsKnown(m: Status, f: Field, rest: Bytes)
    requires Accepted(f) && NumberOf(f) <= 9
    ensures DecodeKnown(m, NumberOf(f), (Flatten(f) + rest)[|f.tag|..], |f.tag|)
            == Next(Interpret(m, f), |Flatten(f)|)
  {
    hide ScanFrom, FieldNumber, DigitSum, IsVarint, WireType, Set, NumberValue, DecodeText;
    IsText(f);
    match f {
      case VarintField(tag, value) =>
        AfterTag(tag, value, rest);
        ScanPrefix(value, rest);
      case BytesField(tag, length, payload) =>
        AfterTag(tag, length + payload, rest);
        ReadsText(length, payload, rest);
      case _ =>
    }
  }

  lemma {:induction false} AfterTag(tag: Bytes, body: Bytes, rest: Bytes)
    ensures ((tag + body) + rest)[|tag|..] == body + rest
  {}

  lemma {:induction false} ReadsText(length: Bytes, payload: Bytes, rest: Bytes)
    requires IsVarint(length) && Int64(DigitSum(length)) == |payload|
    ensures DecodeText((length + payload) + rest) == Payload(payload, |length| + |payload|)
  {
    hide ScanFrom, DigitSum, IsVarint, Int64;
    var s := (length + payload) + rest;
    assert s == length + (payload + rest);
    ScanPrefix(length, payload + rest);
    assert s[|length|..|length| + |payload|] == payload;
  }

  /** Only accepted fields are read to their end. */
  lemma {:induction false} ParsesField(m: Status, s: Bytes) returns (f: Field)
    requires DecodeField(m, s).Next?
    ensures Accepted(f) && Flatten(f) == s[..DecodeField(m, s).n]
  {
    hide ScanFrom, FieldNumber, SkipField, DigitSum, IsVarint, WireType, Int64, Set;
    ScanSplits(s);
    var n := DecodeField(m, s).n;
    if FieldNumber(ScanVarint(s).raw) <= 9 {
      f := ParsesKnown(m, s);
    } else {
      f := ParsesTree(s, n);
      assert s == Flatten(f) + s[n..];
      TreeTag(f, s[n..]);
    }
  }

  lemma {:induction false} ParsesKnown(m: Status, s: Bytes) returns (f: Field)
    requires DecodeField(m, s).Next? && FieldNumber(ScanVarint(s).raw) <= 9
    ensures Accepted(f) && Flatten(f) == s[..DecodeField(m, s).n]
  {
    hide ScanFrom, FieldNumber, DigitSum, IsVarint, WireType, Int64, Set, NumberValue, SkipField;
    ScanSplits(s);
    var t := ScanVarint(s).n;
    var tag, body, n := s[..t], s[t..], DecodeField(m, s).n;
    ScanSplits(body);
    var k := ScanVarint(body).n;
    if WireType(DigitSum(tag)) == 0 {
      f := VarintField(tag, body[..k]);
    } else {
      f := BytesField(tag, body[..k], s[t + k..n]);
    }
    Pieces(s, t, k, n);
  }

  /** A field read completely is read the same when the input ends with it. */
  lemma {:induction false} DecodeFieldExact(m: Status, s: Bytes)
    requires DecodeField(m, s).Next? && |s| < TWO_63
    ensures var step := DecodeField(m, s); DecodeField(m, s[..step.n]) == step
  {
    hide DecodeField, Accepted, Interpret, Flatten;
    var n := DecodeField(m, s).n;
    var f := ParsesField(m, s);
    ReadsField(m, f, s[n..]);
    ReadsField(m, f, []);
    assert s == Flatten(f) + s[n..] && s[..n] == Flatten(f) + [];
  }

  // ---------------------------------------------------------------- whole inputs

  /** Every sentence decodes, to what its fields stand for, one after the other. */
  lemma {:induction false} ReadsAll(m: Status, fs: FieldList)
    requires AllAccepted(fs) && |FlattenAll(fs)| < TWO_63
    ensures DecodeFrom(m, FlattenAll(fs)) == Outcome(InterpretAll(m, fs), None)
    decreases fs
  {
    hide DecodeField, Accepted, Interpret, Flatten;
    match fs
    case Nil =>
    case Cons(f, tail) =>
      var rest := FlattenAll(tail);
      ReadsField(m, f, rest);
      assert (Flatten(f) + rest)[|Flatten(f)|..] == rest;
      ReadsAll(Interpret(m, f), tail);
  }

  lemma {:induction false} ParsesAll(m: Status, s: Bytes) returns (fs: FieldList)
    requires DecodeFrom(m, s).error.None?
    ensures AllAccepted(fs) && FlattenAll(fs) == s
    decreases |s|
  {
    hide DecodeField, Accepted, Flatten;
    if s == [] {
      fs := Nil;
    } else {
      var f := ParsesField(m, s);
      var step := DecodeField(m, s);
      var tail := ParsesAll(step.m, s[step.n..]);
      fs := Cons(f, tail);
    }
  }

  /** Over m, the input decodes to `result` exactly when it is a sequence of accepted fields that
      stands for it. */
  lemma {:induction false} DecodesIff(m: Status, s: Bytes, result: Status)
    requires |s| < TWO_63
    ensures DecodeFrom(m, s) == Outcome(result, None)
            <==> exists fs :: AllAccepted(fs) && FlattenAll(fs) == s && InterpretAll(m, fs) == result
  {
    hide DecodeFrom, InterpretAll;
    if DecodeFrom(m, s).error.None? {
      var fs := ParsesAll(m, s);
      ReadsAll(m, fs);
    }
    if fs :| AllAccepted(fs) && FlattenAll(fs) == s && InterpretAll(m, fs) == result {
      ReadsAll(m, fs);
    }
  }

  /** Unmarshal accepts exactly the sequences of accepted fields, whatever it decodes over. */
  lemma {:induction false} AcceptedIff(m: Status, s: Bytes)
    requires |s| < TWO_63
    ensures DecodeFrom(m, s).error.None? <==> exists fs :: AllAccepted(fs) && FlattenAll(fs) == s
  {
    hide DecodeFrom;
    if DecodeFrom(m, s).error.None? {
      var fs := ParsesAll(m, s);
    }
    if fs :| AllAccepted(fs) && FlattenAll(fs) == s {
      ReadsAll(m, fs);
    }
  }
}
