/** When decoding runs into Go's own bounds checks: exactly when it meets a field whose declared
    end is no int. */
module RuntimeSafety {
  import opened Wire
  import opened Message
  import opened Varint
  import opened Skip
  import opened Grammar
  import opened Decode
  import opened Language

  /** The errors that are not errors of the Go program but run-time failures. */
  predicate RuntimeFailure(e: Error, l: nat) {
    Report(e, l) == OutOfBounds || Report(e, l) == Unreachable
  }

  // ---------------------------------------------------------------- fields that end beyond the ints

  /** The declared length at the front of s, if there is one. */
  predicate HasLength(s: Bytes) {
    ScanVarint(s).error.None? && Int64(ScanVarint(s).raw) >= 0
  }

  /** Where the value that follows the declared length ends, counted from the length on. */
  function LengthEnd(s: Bytes): nat
    requires HasLength(s)
  {
    ScanVarint(s).n + Int64(ScanVarint(s).raw)
  }

  /** The rest of a group, `at` bytes into it, holds well-formed fields and then one whose end,
      counted from the start of the group, is no int. */
  ghost predicate GroupOverruns(s: Bytes, at: nat)
    decreases |s|, 1
  {
    exists fs: FieldList ::
      AllWellFormed(fs) && FlattenAll(fs) <= s && InnerOverruns(s[|FlattenAll(fs)|..], at + |FlattenAll(fs)|)
  }

  /** A field of a group: it is length-delimited and ends past the ints, or it is a group that
      holds such a field. */
  ghost predicate InnerOverruns(s: Bytes, at: nat)
    decreases |s|, 0
  {
    ScanBounds(s, 0);
    var tag := ScanVarint(s);
    var body := s[tag.n..];
    tag.error.None?
    && match WireType(tag.raw)
       case 2 => HasLength(body) && at + tag.n + LengthEnd(body) >= TWO_63
       case 3 => GroupOverruns(body, tag.n)
       case _ => false
  }

  /** A field that starts at index `at` of the input: it is a string whose end is past the ints, an
      unknown length-delimited field with a length of its own that is an int but an end that is not,
      or an unknown group that holds an overrunning field. */
  ghost predicate FieldOverruns(s: Bytes, at: nat) {
    ScanBounds(s, 0);
    var tag := ScanVarint(s);
    var num, body := FieldNumber(tag.raw), s[tag.n..];
    tag.error.None? && num > 0
    && match WireType(tag.raw)
       case 2 => && (num <= 9 ==> WireTypeOf(num) == 2)
                 && HasLength(body) && at + tag.n + LengthEnd(body) >= TWO_63
                 && (num > 9 ==> tag.n + LengthEnd(body) < TWO_63)
       case 3 => num > 9 && GroupOverruns(body, tag.n)
       case _ => false
  }

  // ---------------------------------------------------------------- groups

  /** A skip that fails on a bound is a skip of a group. */
  lemma {:induction false} SkipOverrun(s: Bytes)
    requires |s| <= MAX_ALLOC && SkipField(s) == Bad(OutOfBounds)
    ensures var tag := ScanVarint(s);
            tag.error.None? && 1 <= tag.n <= |s| && WireType(tag.raw) == 3
            && SkipGroup(s[tag.n..], tag.n) == Bad(OutOfBounds)
  {
    hide ScanFrom, WireType, Int64;
    ScanErrors(s, 0);
    ScanBounds(s, 0);
    ScanErrors(s[ScanVarint(s).n..], 0);
  }

  /** A field that claims an end past the ints is length-delimited. */
  lemma {:induction false} LongSkip(s: Bytes, at: nat)
    requires at + |s| <= MAX_ALLOC && SkipField(s).Len? && at + SkipField(s).n >= TWO_63
    ensures var tag := ScanVarint(s);
            tag.error.None? && tag.n <= |s| && WireType(tag.raw) == 2 && HasLength(s[tag.n..])
            && SkipField(s).n == tag.n + LengthEnd(s[tag.n..])
  {
    hide ScanFrom, WireType, Int64;
    ScanBounds(s, 0);
    var tag := ScanVarint(s);
    ScanBounds(s[tag.n..], 0);
    SkipGroupBound(s[tag.n..], tag.n);
  }

  /** Skipping a group fails on a bound only at an overrunning field behind well-formed ones. */
  lemma {:induction false} OverrunFound(s: Bytes, at: nat) returns (fs: FieldList)
    requires at + |s| <= MAX_ALLOC && SkipGroup(s, at) == Bad(OutOfBounds)
    ensures AllWellFormed(fs) && FlattenAll(fs) <= s
    ensures InnerOverruns(s[|FlattenAll(fs)|..], at + |FlattenAll(fs)|)
    decreases |s|
  {
    hide ScanFrom, WireType, HasLength, LengthEnd, SkipField, Flatten, WellFormed;
    ScanErrors(s, 0);
    ScanBounds(s, 0);
    var tag, field := ScanVarint(s), SkipField(s);
    if field.Bad? {
      SkipOverrun(s);
      var inner := OverrunFound(s[tag.n..], tag.n);
      fs := Nil;
      assert s[0..] == s;
    } else if field.n > |s| {
      LongSkip(s, at);
      fs := Nil;
      assert s[0..] == s;
    } else {
      var f := ParsesTree(s, field.n);
      var tail := OverrunFound(s[field.n..], at + field.n);
      fs := Cons(f, tail);
      ConsPrefix(f, tail, s);
    }
  }

  lemma {:induction false} ConsPrefix(f: Field, tail: FieldList, s: Bytes)
    requires Flatten(f) <= s && FlattenAll(tail) <= s[|Flatten(f)|..]
    ensures FlattenAll(Cons(f, tail)) <= s
    ensures s[|FlattenAll(Cons(f, tail))|..] == s[|Flatten(f)|..][|FlattenAll(tail)|..]
  {
    hide Flatten;
    assert s == Flatten(f) + s[|Flatten(f)|..];
  }

  /** And it does fail there. */
  lemma {:induction false} OverrunFails(fs: FieldList, s: Bytes, at: nat)
    requires at + |s| <= MAX_ALLOC && AllWellFormed(fs) && FlattenAll(fs) <= s
    requires InnerOverruns(s[|FlattenAll(fs)|..], at + |FlattenAll(fs)|)
    ensures SkipGroup(s, at) == Bad(OutOfBounds)
    decreases |s|, fs
  {
    hide ScanFrom, WireType, Flatten, FlattenAll, WellFormed, SkipGroup, HasLength, LengthEnd;
    match fs
    case Nil =>
      assert FlattenAll(fs) == [] && s[0..] == s by { EmptyList(); }
      ScanBounds(s, 0);
      var tag := ScanVarint(s);
      if WireType(tag.raw) == 3 {
        var inner: FieldList :| AllWellFormed(inner) && FlattenAll(inner) <= s[tag.n..]
          && InnerOverruns(s[tag.n..][|FlattenAll(inner)|..], tag.n + |FlattenAll(inner)|);
        OverrunFails(inner, s[tag.n..], tag.n);
        NestedFails(s, at);
      } else {
        LengthFails(s, at);
      }
    case Cons(f, tail) =>
      var rest := PrefixSplits(f, tail, s);
      GroupPasses(f, rest, at);
      OverrunFails(tail, rest, at + |Flatten(f)|);
  }

  lemma {:induction false} PrefixSplits(f: Field, tail: FieldList, s: Bytes) returns (rest: Bytes)
    requires FlattenAll(Cons(f, tail)) <= s
    ensures s == Flatten(f) + rest && FlattenAll(tail) <= rest
    ensures s[|FlattenAll(Cons(f, tail))|..] == rest[|FlattenAll(tail)|..]
    ensures |FlattenAll(Cons(f, tail))| == |Flatten(f)| + |FlattenAll(tail)|
  {
    hide Flatten;
    rest := s[|Flatten(f)|..];
    ConsPrefix(f, tail, s);
  }

  lemma {:induction false} EmptyList()
    ensures FlattenAll(Nil) == []
  {}

  lemma {:induction false} NestedFails(s: Bytes, at: nat)
    requires ScanVarint(s).error.None? && WireType(ScanVarint(s).raw) == 3 && 1 <= ScanVarint(s).n <= |s|
    requires SkipGroup(s[ScanVarint(s).n..], ScanVarint(s).n) == Bad(OutOfBounds)
    ensures SkipGroup(s, at) == Bad(OutOfBounds)
  {
    hide ScanFrom, WireType;
    assert SkipField(s) == Bad(OutOfBounds);
  }

  lemma {:induction false} LengthFails(s: Bytes, at: nat)
    requires at + |s| <= MAX_ALLOC
    requires ScanVarint(s).error.None? && WireType(ScanVarint(s).raw) == 2 && 1 <= ScanVarint(s).n <= |s|
    requires HasLength(s[ScanVarint(s).n..]) && at + ScanVarint(s).n + LengthEnd(s[ScanVarint(s).n..]) >= TWO_63
    ensures SkipGroup(s, at) == Bad(OutOfBounds)
  {
    hide ScanFrom, WireType, Int64;
    assert SkipField(s) == Len(ScanVarint(s).n + LengthEnd(s[ScanVarint(s).n..]));
  }

  lemma {:induction false} GroupFailsIff(s: Bytes, at: nat)
    requires at + |s| <= MAX_ALLOC
    ensures SkipGroup(s, at) == Bad(OutOfBounds) <==> GroupOverruns(s, at)
  {
    hide SkipGroup, InnerOverruns;
    if SkipGroup(s, at) == Bad(OutOfBounds) {
      var fs := OverrunFound(s, at);
    }
    if GroupOverruns(s, at) {
      var fs: FieldList :| AllWellFormed(fs) && FlattenAll(fs) <= s
        && InnerOverruns(s[|FlattenAll(fs)|..], at + |FlattenAll(fs)|);
      OverrunFails(fs, s, at);
    }
  }

  // ---------------------------------------------------------------- one field

  /** Reading the field at index `at` of the input fails at run time exactly when it overruns. */
  lemma {:induction false} FieldFailsIff(m: Status, s: Bytes, at: nat)
    requires s != [] && at + |s| <= MAX_ALLOC
    ensures var step := DecodeField(m, s);
            (step.Stop? && RuntimeFailure(step.error, at + |s|)) <==> FieldOverruns(s, at)
  {
    hide ScanFrom, WireType, Int64, FieldNumber, SkipField, DecodeKnown, GroupOverruns;
    ScanErrors(s, 0);
    ScanBounds(s, 0);
    var tag := ScanVarint(s);
    if tag.error.None? {
      var num, body := FieldNumber(tag.raw), s[tag.n..];
      if WireType(tag.raw) == 4 || num <= 0 {
      } else if num > 9 {
        UnknownFailsIff(m, s, at);
      } else {
        KnownFailsIff(m, num, body, tag.n, at);
      }
    }
  }

  lemma {:induction false} KnownFailsIff(m: Status, k: FieldNum, s: Bytes, tag: nat, at: nat)
    requires at + tag + |s| <= MAX_ALLOC
    ensures var step := DecodeKnown(m, k, s, tag);
            (step.Stop? && RuntimeFailure(step.error, at + tag + |s|))
            <==> (WireTypeOf(k) == 2 && HasLength(s) && at + tag + LengthEnd(s) >= TWO_63)
  {
    hide ScanFrom, Int64, Set, NumberValue;
    ScanErrors(s, 0);
    ScanBounds(s, 0);
  }

  lemma {:induction false} UnknownFailsIff(m: Status, s: Bytes, at: nat)
    requires s != [] && at + |s| <= MAX_ALLOC
    requires ScanVarint(s).error.None? && FieldNumber(ScanVarint(s).raw) > 9 && WireType(ScanVarint(s).raw) != 4
    ensures var step := DecodeUnknown(m, s);
            (step.Stop? && RuntimeFailure(step.error, at + |s|)) <==> FieldOverruns(s, at)
  {
    hide ScanFrom, WireType, Int64, FieldNumber, GroupOverruns;
    SkipNotPastEnd(s);
    SkipNotUnreachable(s);
    ScanBounds(s, 0);
    var tag := ScanVarint(s);
    var body := s[tag.n..];
    ScanErrors(body, 0);
    ScanBounds(body, 0);
    SkipGroupBound(body, tag.n);
    GroupFailsIff(body, tag.n);
  }

  // ---------------------------------------------------------------- whole inputs

  /** Unmarshal fails at run time exactly when what precedes some field decodes and that field
      overruns. On every other input it returns, with or without an error. */
  lemma {:induction false} RuntimeFailureIff(m: Status, s: Bytes)
    requires |s| <= MAX_ALLOC
    ensures var e := DecodeFrom(m, s).error;
            (e.Some? && RuntimeFailure(e.value, |s|))
            <==> exists k :: 0 <= k < |s| && DecodeFrom(m, s[..k]).error.None? && FieldOverruns(s[k..], k)
  {
    hide DecodeField, DecodeFrom, RuntimeFailure, FieldOverruns;
    var e := DecodeFrom(m, s).error;
    if e.Some? && RuntimeFailure(e.value, |s|) {
      var k := FailureAt(m, s, 0);
    }
    if k :| 0 <= k < |s| && DecodeFrom(m, s[..k]).error.None? && FieldOverruns(s[k..], k) {
      FailsAt(m, s, k);
    }
  }

  lemma {:induction false} FailsAt(m: Status, s: Bytes, k: nat)
    requires k < |s| <= MAX_ALLOC && DecodeFrom(m, s[..k]).error.None? && FieldOverruns(s[k..], k)
    ensures var e := DecodeFrom(m, s).error; e.Some? && RuntimeFailure(e.value, |s|)
  {
    hide DecodeField, RuntimeFailure, FieldOverruns;
    var m' := DecodeFrom(m, s[..k]).m;
    assert s == s[..k] + s[k..];
    DecodeConcat(m, s[..k], s[k..]);
    FieldFailsIff(m', s[k..], k);
  }

  /** The failing field of an input that starts at index `at` of the whole one. */
  lemma {:induction false} FailureAt(m: Status, s: Bytes, at: nat) returns (k: nat)
    requires at + |s| <= MAX_ALLOC
    requires DecodeFrom(m, s).error.Some? && RuntimeFailure(DecodeFrom(m, s).error.value, at + |s|)
    ensures k < |s| && DecodeFrom(m, s[..k]).error.None? && FieldOverruns(s[k..], at + k)
    decreases |s|
  {
    hide DecodeField, RuntimeFailure, FieldOverruns;
    var step := DecodeField(m, s);
    if step.Stop? {
      k := 0;
      FieldFailsIff(m, s, at);
      assert s[0..] == s;
    } else {
      var n := step.n;
      var k' := FailureAt(step.m, s[n..], at + n);
      k := n + k';
      DecodeFieldExact(m, s);
      DecodeFieldLocal(m, s[..n], s[n..][..k']);
      assert s[..k] == s[..n] + s[n..][..k'] && s[..k][n..] == s[n..][..k'];
      assert s[k..] == s[n..][k'..];
    }
  }

  /** The panic that ends skipClusterpb is unreachable from Unmarshal whatever the input. */
  lemma {:induction false} PanicUnreachable(m: Status, s: Bytes)
    ensures DecodeFrom(m, s).error != Some(Unreachable)
    decreases |s|
  {
    hide DecodeField;
    if s != [] {
      FieldNotUnreachable(m, s);
      var step := DecodeField(m, s);
      if step.Next? { PanicUnreachable(step.m, s[step.n..]); }
    }
  }

  lemma {:induction false} FieldNotUnreachable(m: Status, s: Bytes)
    requires s != []
    ensures DecodeField(m, s).Stop? ==> DecodeField(m, s).error != Unreachable
  {
    hide ScanFrom, SkipField, Int64, FieldNumber, Set, WireType;
    ScanErrors(s, 0);
    ScanBounds(s, 0);
    ScanErrors(s[ScanVarint(s).n..], 0);
    SkipNotUnreachable(s);
  }

  lemma {:induction false} SkipNotUnreachable(s: Bytes)
    ensures SkipField(s) == Bad(Unreachable) <==> s == []
    decreases |s|, 0
  {
    hide ScanFrom;
    ScanErrors(s, 0);
    ScanBounds(s, 0);
    if s != [] {
      var t := ScanVarint(s);
      ScanErrors(s[t.n..], 0);
      if t.n > 0 { GroupNotUnreachable(s[t.n..], t.n); }
    }
  }

  lemma {:induction false} GroupNotUnreachable(s: Bytes, at: nat)
    ensures SkipGroup(s, at) != Bad(Unreachable)
    decreases |s|, 1
  {
    hide ScanFrom;
    ScanErrors(s, 0);
    if s != [] {
      SkipNotUnreachable(s);
      var r := SkipField(s);
      if r.Len? && r.n <= |s| { GroupNotUnreachable(s[r.n..], at + r.n); }
    }
  }

  // ---------------------------------------------------------------- string fields

  /** A string field at index `at` of the input, with any tag and length varints: its outcome depends
      on where the declared end lies, within the input, past it but still an int, or beyond the ints. */
  lemma {:induction false} TextFieldOutcome(m: Status, k: FieldNum, tag: Bytes, length: Bytes, rest: Bytes, at: nat)
    requires IsTag(tag, 2) && FieldNumber(DigitSum(tag)) == k && WireTypeOf(k) == 2 && IsVarint(length)
    requires at + |tag| + |length| + |rest| <= MAX_ALLOC
    ensures var s := tag + (length + rest);
            var len := Int64(DigitSum(length));
            var end := at + |tag| + |length| + len;
            var r := DecodeField(m, s);
            && (r.Next? <==> 0 <= len && end <= at + |s|)
            && (r.Next? ==> r == Next(Set(m, k, Str(rest[..len])), end - at))
            && (r.Stop? ==> r.m == m && Report(r.error, at + |s|) == if len < 0 then InvalidLength
                                                                    else if end >= TWO_63 then OutOfBounds
                                                                    else UnexpectedEOF)
  {
    hide ScanFrom, FieldNumber, WireType, IsVarint, DigitSum, Int64, Set;
    var body := length + rest;
    ScanPrefix(tag, body);
    ScanPrefix(length, rest);
    var len := Int64(DigitSum(length));
    if 0 <= len <= |rest| { assert body[|length|..|length| + len] == rest[..len]; }
  }

  /** So Unmarshal's check of the end of a string can be passed by a sum that wrapped, here in ten
      bytes that declare the largest length. */
  lemma {:induction false} DeclaredEndCanWrap(m: Status)
    ensures var s := [Tag(1)] + Varint.Encode(TWO_63 - 1);
            DecodeFrom(m, s) == Outcome(m, Some(PastEnd(TWO_63 - 1)))
            && Report(PastEnd(TWO_63 - 1), |s|) == OutOfBounds && FieldOverruns(s, 0)
  {
    hide ScanFrom, FieldNumber, WireType, Varint.Encode, Set, FieldOverruns;
    var length := Varint.Encode(TWO_63 - 1);
    var s := [Tag(1)] + length;
    TagParts(1);
    TagScan(Tag(1), length);
    ScanEncoded(TWO_63 - 1, []);
    assert length + [] == length && s[1..] == length;
    EncodeLength(TWO_63 - 1);
    SovUint64(TWO_63 - 1);
    FieldFailsIff(m, s, 0);
  }
}
