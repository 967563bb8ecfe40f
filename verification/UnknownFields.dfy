/** Unknown fields, of any kind and depth, leave no trace in the decoded message. */
module UnknownFields {
  import opened Wire
  import opened Message
  import opened Varint
  import opened Skip
  import opened Grammar
  import opened Decode

  /** A well-formed field whose number is positive as an int32 and not one of the nine. */
  predicate Unknown(f: Field) {
    WellFormed(f) && FieldNumber(DigitSum(f.tag)) > 9
  }

  predicate AllUnknown(fs: FieldList) {
    fs.Cons? ==> Unknown(fs.head) && AllUnknown(fs.tail)
  }

  /** On a field that is not one of the nine, decoding goes on exactly when the grammar matches,
      and then the message is unchanged. */
  lemma {:induction false} UnknownIffTree(m: Status, s: Bytes, n: nat)
    requires n <= |s| < TWO_63
    requires ScanVarint(s).error.None? && FieldNumber(ScanVarint(s).raw) > 9
    ensures DecodeField(m, s) == Next(m, n) <==> exists f :: WellFormed(f) && Flatten(f) == s[..n]
  {
    hide ScanFrom, FieldNumber, SkipField;
    SkipIffTree(s, n);
    if f :| WellFormed(f) && Flatten(f) == s[..n] {
      assert s == Flatten(f) + s[n..];
      TreeTag(f, s[n..]);
    }
  }

  lemma {:induction false} SkipsUnknown(m: Status, f: Field, rest: Bytes)
    requires Unknown(f) && |Flatten(f) + rest| < TWO_63
    ensures DecodeField(m, Flatten(f) + rest) == Next(m, |Flatten(f)|)
  {
    hide ScanFrom, FieldNumber, SkipField;
    TreeTag(f, rest);
    SkipsTree(f, rest);
  }

  lemma {:induction false} SkipsAllUnknown(m: Status, fs: FieldList, rest: Bytes)
    requires AllUnknown(fs) && |FlattenAll(fs) + rest| < TWO_63
    ensures DecodeFrom(m, FlattenAll(fs) + rest) == DecodeFrom(m, rest)
    decreases fs
  {
    hide DecodeField, Flatten;
    match fs
    case Nil =>
      assert FlattenAll(fs) + rest == rest;
    case Cons(f, tail) =>
      var more := FlattenAll(tail) + rest;
      assert FlattenAll(fs) + rest == Flatten(f) + more;
      SkipsUnknown(m, f, more);
      assert (Flatten(f) + more)[|Flatten(f)|..] == more;
      SkipsAllUnknown(m, tail, rest);
  }

  /** Splicing unknown fields in at a field boundary changes nothing in what decoding leads to. */
  lemma {:induction false} SpliceUnknown(m: Status, x: Bytes, fs: FieldList, y: Bytes)
    requires DecodeFrom(m, x).error.None?
    requires AllUnknown(fs) && |FlattenAll(fs) + y| < TWO_63
    ensures DecodeFrom(m, x + (FlattenAll(fs) + y)) == DecodeFrom(m, x + y)
  {
    hide DecodeFrom;
    DecodeConcat(m, x, FlattenAll(fs) + y);
    DecodeConcat(m, x, y);
    SkipsAllUnknown(DecodeFrom(m, x).m, fs, y);
  }
}
