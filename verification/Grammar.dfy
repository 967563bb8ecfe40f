/** The wire grammar of a field, as trees, and the proof that skipClusterpb accepts exactly
    its sentences. */
module Grammar {
  import opened Wire
  import opened Varint
  import opened Skip

  /** A field of any kind; tags and lengths are kept as bytes, so over-long varints count too. */
  datatype Field =
    | VarintField(tag: Bytes, value: Bytes)
    | Fixed64Field(tag: Bytes, payload: Bytes)
    | BytesField(tag: Bytes, length: Bytes, payload: Bytes)
    | GroupField(tag: Bytes, fields: FieldList, end: Bytes)
    | Fixed32Field(tag: Bytes, payload: Bytes)

  datatype FieldList = Nil | Cons(head: Field, tail: FieldList)

  predicate IsTag(bs: Bytes, wireType: nat) {
    IsVarint(bs) && WireType(DigitSum(bs)) == wireType
  }

  predicate WellFormed(f: Field) {
    match f
    case VarintField(tag, value) => IsTag(tag, 0) && IsVarint(value)
    case Fixed64Field(tag, payload) => IsTag(tag, 1) && |payload| == 8
    case BytesField(tag, length, payload) =>
      IsTag(tag, 2) && IsVarint(length) && Int64(DigitSum(length)) == |payload|
    case GroupField(tag, fields, end) => IsTag(tag, 3) && AllWellFormed(fields) && IsTag(end, 4)
    case Fixed32Field(tag, payload) => IsTag(tag, 5) && |payload| == 4
  }

  predicate AllWellFormed(fs: FieldList) {
    fs.Cons? ==> WellFormed(fs.head) && AllWellFormed(fs.tail)
  }

  function Flatten(f: Field): Bytes {
    match f
    case VarintField(tag, value) => tag + value
    case Fixed64Field(tag, payload) => tag + payload
    case BytesField(tag, length, payload) => tag + (length + payload)
    case GroupField(tag, fields, end) => tag + (FlattenAll(fields) + end)
    case Fixed32Field(tag, payload) => tag + payload
  }

  function FlattenAll(fs: FieldList): Bytes {
    match fs
    case Nil => []
    case Cons(head, tail) => Flatten(head) + FlattenAll(tail)
  }

  // ---------------------------------------------------------------- reading one varint

  lemma {:induction false} ScanPrefix(bs: Bytes, rest: Bytes)
    requires IsVarint(bs)
    ensures ScanVarint(bs + rest) == Scan(DigitSum(bs), |bs|, None)
    ensures (bs + rest)[|bs|..] == rest
  {
    var s := bs + rest;
    assert s[..|bs|] == bs;
    ScanAccepts(s, |bs|, 0);
  }

  lemma {:induction false} ScanSplits(s: Bytes)
    requires ScanVarint(s).error.None?
    ensures var n := ScanVarint(s).n;
            n <= |s| && IsVarint(s[..n]) && DigitSum(s[..n]) == ScanVarint(s).raw && s == s[..n] + s[n..]
  {
    ScanAccepts(s, ScanVarint(s).n, 0);
  }

  // ---------------------------------------------------------------- every tree is skipped

  lemma {:induction false} SkipsTree(f: Field, rest: Bytes)
    requires WellFormed(f)
    ensures SkipField(Flatten(f) + rest) == Len(|Flatten(f)|)
    decreases f, 0
  {
    hide ScanFrom, DigitSum, IsVarint, WireType;
    match f {
      case VarintField(tag, value) =>
        SkipTagged(tag, value, rest);
        ScanPrefix(value, rest);
      case BytesField(tag, length, payload) =>
        SkipTagged(tag, length + payload, rest);
        ScanPrefix(length, payload + rest);
        assert (length + payload) + rest == length + (payload + rest);
      case GroupField(tag, fields, end) =>
        SkipTagged(tag, FlattenAll(fields) + end, rest);
        SkipsTrees(fields, end, rest, |tag|);
        assert (FlattenAll(fields) + end) + rest == FlattenAll(fields) + (end + rest);
      case Fixed64Field(tag, payload) =>
        SkipTagged(tag, payload, rest);
      case Fixed32Field(tag, payload) =>
        SkipTagged(tag, payload, rest);
    }
  }

  lemma {:induction false} SkipTagged(tag: Bytes, body: Bytes, rest: Bytes)
    requires IsVarint(tag)
    ensures SkipField((tag + body) + rest) == SkipBody(WireType(DigitSum(tag)), body + rest, |tag|)
  {
    hide ScanFrom, DigitSum, WireType, SkipBody;
    assert (tag + body) + rest == tag + (body + rest);
    ScanPrefix(tag, body + rest);
  }

  lemma {:induction false} SkipsTrees(fs: FieldList, end: Bytes, rest: Bytes, at: nat)
    requires AllWellFormed(fs) && IsTag(end, 4)
    ensures SkipGroup(FlattenAll(fs) + (end + rest), at) == Len(at + |FlattenAll(fs)| + |end|)
    decreases fs, 1
  {
    hide ScanFrom, DigitSum, IsVarint, WireType, Int64;
    match fs
    case Nil =>
      assert FlattenAll(fs) + (end + rest) == end + rest;
      ScanPrefix(end, rest);
    case Cons(f, tail) =>
      var more := FlattenAll(tail) + (end + rest);
      var s := FlattenAll(fs) + (end + rest);
      assert s == Flatten(f) + more && s[|Flatten(f)|..] == more;
      SkipsTree(f, more);
      SkipsTrees(tail, end, rest, at + |Flatten(f)|);
      TreeTag(f, more);
  }

  /** A tree starts with its tag, which is no end-group tag. */
  lemma {:induction false} TreeTag(f: Field, rest: Bytes)
    requires WellFormed(f)
    ensures ScanVarint(Flatten(f) + rest) == Scan(DigitSum(f.tag), |f.tag|, None)
    ensures WireType(DigitSum(f.tag)) != 4
  {
    var body := Flatten(f)[|f.tag|..];
    assert Flatten(f) + rest == f.tag + (body + rest);
    ScanPrefix(f.tag, body + rest);
  }

  lemma {:induction false} GroupPasses(f: Field, rest: Bytes, at: nat)
    requires WellFormed(f)
    ensures |Flatten(f)| >= 1
    ensures SkipGroup(Flatten(f) + rest, at) == SkipGroup(rest, at + |Flatten(f)|)
  {
    hide ScanFrom, WireType, Flatten, WellFormed, SkipField;
    var s := Flatten(f) + rest;
    SkipsTree(f, rest);
    TreeTag(f, rest);
    assert s[|Flatten(f)|..] == rest;
  }

  // ---------------------------------------------------------------- only trees are skipped

  /** The first n bytes, cut at t, and the rest of them cut again after k more. */
  lemma {:induction false} Pieces(s: Bytes, t: nat, k: nat, n: nat)
    requires t + k <= n <= |s|
    ensures s[..t] + s[t..n] == s[..n] && s[..t] + s[t..][..n - t] == s[..n]
    ensures s[..t] + (s[t..][..k] + s[t + k..n]) == s[..n]
  {}

  lemma {:induction false} SkipIsBody(s: Bytes)
    requires SkipField(s).Len?
    ensures ScanVarint(s).error.None? && ScanVarint(s).n <= |s|
    ensures SkipField(s) == SkipBody(WireType(ScanVarint(s).raw), s[ScanVarint(s).n..], ScanVarint(s).n)
  {
    hide ScanFrom, SkipBody;
    ScanBounds(s, 0);
  }

  lemma {:induction false} Joined(a: Bytes, b: Bytes, c: Bytes, s: Bytes, n: nat)
    requires |a| <= n <= |s| && a == s[..|a|] && b + c == s[|a|..][..n - |a|]
    ensures (a + b) + c == s[..n]
  {
    assert (a + b) + c == a + (b + c);
  }

  lemma {:induction false} ParsesTree(s: Bytes, n: nat) returns (f: Field)
    requires SkipField(s) == Len(n) && n <= |s| && WireType(ScanVarint(s).raw) != 4
    ensures WellFormed(f) && Flatten(f) == s[..n]
    decreases |s|, 0
  {
    hide ScanFrom, DigitSum, IsVarint, WireType, Int64, SkipField, SkipGroup;
    SkipIsBody(s);
    ScanSplits(s);
    var t := ScanVarint(s).n;
    var tag, body := s[..t], s[t..];
    match WireType(ScanVarint(s).raw) {
      case 0 =>
        ScanSplits(body);
        f := VarintField(tag, body[..n - t]);
        Pieces(s, t, 0, n);
      case 1 =>
        f := Fixed64Field(tag, s[t..n]);
        Pieces(s, t, 0, n);
      case 2 =>
        ScanSplits(body);
        var k := ScanVarint(body).n;
        f := BytesField(tag, body[..k], s[t + k..n]);
        Pieces(s, t, k, n);
      case 3 =>
        SkipGroupBound(body, t);
        var fields, end := ParsesTrees(body, t, n);
        f := GroupField(tag, fields, end);
        Pieces(s, t, 0, n);
      case _ =>
        f := Fixed32Field(tag, s[t..n]);
        Pieces(s, t, 0, n);
    }
  }

  lemma {:induction false} ParsesTrees(s: Bytes, at: nat, n: nat) returns (fs: FieldList, end: Bytes)
    requires SkipGroup(s, at) == Len(n)
    ensures at <= n <= at + |s| && AllWellFormed(fs) && IsTag(end, 4)
    ensures FlattenAll(fs) + end == s[..n - at]
    decreases |s|, 1
  {
    hide ScanFrom, DigitSum, IsVarint, WireType, SkipField, Flatten, WellFormed;
    SkipGroupBound(s, at);
    ScanSplits(s);
    if WireType(ScanVarint(s).raw) == 4 {
      fs, end := Nil, s[..ScanVarint(s).n];
    } else {
      var k := SkipField(s).n;
      var f := ParsesTree(s, k);
      var tail;
      tail, end := ParsesTrees(s[k..], at + k, n);
      fs := Cons(f, tail);
      Joined(Flatten(f), FlattenAll(tail), end, s, n - at);
    }
  }

  /** skipClusterpb accepts a first field of n bytes exactly when those bytes are a sentence of
      the grammar (a lone end-group tag, which Unmarshal rejects before skipping, aside). */
  lemma {:induction false} SkipIffTree(s: Bytes, n: nat)
    requires n <= |s|
    ensures (SkipField(s) == Len(n) && WireType(ScanVarint(s).raw) != 4)
            <==> exists f :: WellFormed(f) && Flatten(f) == s[..n]
  {
    if SkipField(s) == Len(n) && WireType(ScanVarint(s).raw) != 4 {
      var f := ParsesTree(s, n);
    }
    if f :| WellFormed(f) && Flatten(f) == s[..n] {
      assert s == Flatten(f) + s[n..];
      SkipsTree(f, s[n..]);
      TreeTag(f, s[n..]);
    }
  }
}
