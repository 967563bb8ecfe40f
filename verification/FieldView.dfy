/** What a list of fields says of each field number, in the struct's own names: of the bytes that
    Marshal writes, and of the struct that Unmarshal leaves. */
module FieldView {
  import opened Wire
  import opened Message
  import opened Varint
  import opened Skip
  import opened Grammar
  import opened Decode
  import opened Language

  /** A field with number k occurs. */
  predicate Present(fs: FieldList, k: int) {
    fs.Cons? && (NumberOf(fs.head) == k || Present(fs.tail, k))
  }

  function NextText(f: Field, k: int, before: Bytes): Bytes {
    if NumberOf(f) == k && f.BytesField? then f.payload else before
  }

  function NextNumber(f: Field, k: int, before: nat): nat {
    if NumberOf(f) == k && f.VarintField? then DigitSum(f.value) else before
  }

  /** The payload of the last length-delimited field with number k; `before` if there is none. */
  function LastText(fs: FieldList, k: int, before: Bytes): Bytes {
    match fs
    case Nil => before
    case Cons(f, tail) => LastText(tail, k, NextText(f, k, before))
  }

  /** The digit sum of the last varint field with number k; `before` if there is none. */
  function LastNumber(fs: FieldList, k: int, before: nat): nat {
    match fs
    case Nil => before
    case Cons(f, tail) => LastNumber(tail, k, NextNumber(f, k, before))
  }

  /** Strictly ascending numbers, above lo and up to hi. */
  predicate Ascending(fs: FieldList, lo: int, hi: int) {
    fs.Cons? ==> lo < NumberOf(fs.head) <= hi && Ascending(fs.tail, NumberOf(fs.head), hi)
  }

  /** The bytes are accepted fields in ascending order, one for each part that is not zero, with its value. */
  ghost predicate Says(s: Bytes, name: Text, id: Text, endpoint: Text, isLeader: bool, state: Text,
                       stateTxt: Text, dbSize: Uint64, dbSizeTxt: Text, hash: Uint32) {
    exists fs ::
      && AllAccepted(fs) && FlattenAll(fs) == s && Ascending(fs, 0, 9)
      && (Present(fs, 1) <==> name != []) && LastText(fs, 1, []) == name
      && (Present(fs, 2) <==> id != []) && LastText(fs, 2, []) == id
      && (Present(fs, 3) <==> endpoint != []) && LastText(fs, 3, []) == endpoint
      && (Present(fs, 4) <==> isLeader) && LastNumber(fs, 4, 0) == (if isLeader then 1 else 0)
      && (Present(fs, 5) <==> state != []) && LastText(fs, 5, []) == state
      && (Present(fs, 6) <==> stateTxt != []) && LastText(fs, 6, []) == stateTxt
      && (Present(fs, 7) <==> dbSize != 0) && LastNumber(fs, 7, 0) == dbSize
      && (Present(fs, 8) <==> dbSizeTxt != []) && LastText(fs, 8, []) == dbSizeTxt
      && (Present(fs, 9) <==> hash != 0) && LastNumber(fs, 9, 0) == hash
  }

  // ---------------------------------------------------------------- what Marshal writes

  /** The tree of one field as MarshalTo emits it. */
  ghost function TreeOf(k: FieldNum, v: Value): Field {
    match v
    case Str(text) => BytesField([Tag(k)], Varint.Encode(|text|), text)
    case _ => VarintField([Tag(k)], EncodeValue(v))
  }

  ghost function TreesOf(m: Status, order: seq<FieldNum>): FieldList
    decreases |order|
  {
    if order == [] then Nil
    else
      var v := Get(m, order[0]);
      if IsZero(v) then TreesOf(m, order[1..]) else Cons(TreeOf(order[0], v), TreesOf(m, order[1..]))
  }

  /** The canonical varint is a well-formed one of at most ten bytes whose digits sum to the value. */
  lemma {:induction false} EncodedDigits(v: Uint64)
    ensures IsVarint(Varint.Encode(v)) && DigitSum(Varint.Encode(v)) == v
  {
    hide ScanFrom, Varint.Encode, DigitSum, IsVarint;
    var bs := Varint.Encode(v);
    ScanEncoded(v, []);
    assert bs + [] == bs;
    ScanSplits(bs);
    assert bs[..|bs|] == bs;
  }

  lemma {:induction false} OneByte(b: Byte)
    requires b < 128
    ensures IsVarint([b]) && DigitSum([b]) == b
  {
    hide DigitSum;
    DigitSumFirst([b]);
    DigitSumEmpty([b][1..]);
  }

  lemma {:induction false} TreeAccepted(k: FieldNum, v: Value)
    requires Fits(k, v) && !IsZero(v)
    ensures Accepted(TreeOf(k, v)) && NumberOf(TreeOf(k, v)) == k
    ensures Flatten(TreeOf(k, v)) == EncodeField(k, v)
  {
    hide DigitSum, IsVarint, Varint.Encode, FieldNumber, WireType, Int64;
    TagParts(k);
    OneByte(Tag(k));
    match v
    case Str(text) => EncodedDigits(|text|);
    case Bool(flag) => OneByte(1);
    case Uint(num) => EncodedDigits(num);
  }

  lemma {:induction false} TreesFlatten(m: Status, order: seq<FieldNum>)
    ensures AllAccepted(TreesOf(m, order)) && FlattenAll(TreesOf(m, order)) == EncodeFields(m, order)
    decreases |order|
  {
    hide Get, Accepted, TreeOf, Flatten, EncodeField;
    if order != [] {
      var k, v := order[0], Get(m, order[0]);
      TreesFlatten(m, order[1..]);
      if IsZero(v) { ZeroEncodesEmpty(k, v); } else { TreeAccepted(k, v); }
    }
  }

  lemma {:induction false} TreesAscend(m: Status, order: seq<FieldNum>, lo: int)
    requires forall i, j :: 0 <= i < j < |order| ==> order[i] < order[j]
    requires order != [] ==> lo < order[0]
    ensures Ascending(TreesOf(m, order), lo, 9)
    decreases |order|
  {
    hide Get, Accepted, TreeOf, NumberOf;
    if order != [] {
      var k, v := order[0], Get(m, order[0]);
      if IsZero(v) {
        TreesAscend(m, order[1..], lo);
      } else {
        TreeAccepted(k, v);
        TreesAscend(m, order[1..], k);
      }
    }
  }

  /** What the trees say of number k: the value of field k if it is listed and not zero. */
  lemma {:induction false} TreesSay(m: Status, order: seq<FieldNum>, k: FieldNum, text: Bytes, num: nat)
    requires forall i, j :: 0 <= i < j < |order| ==> order[i] < order[j]
    ensures var fs, v := TreesOf(m, order), Get(m, k);
            && (Present(fs, k) <==> k in order && !IsZero(v))
            && (v.Str? ==> LastText(fs, k, text) == if Present(fs, k) then v.text else text)
            && (v.Uint? ==> LastNumber(fs, k, num) == if Present(fs, k) then v.num else num)
            && (v.Bool? ==> LastNumber(fs, k, num) == if Present(fs, k) then 1 else num)
    decreases |order|
  {
    hide Get, Accepted, NumberOf, TreeOf, DigitSum, EncodeValue, IsZero, NextText, NextNumber;
    if order != [] {
      var j, v := order[0], Get(m, order[0]);
      HeadOnce(order, k);
      if IsZero(v) {
        TreesSay(m, order[1..], k, text, num);
      } else {
        TreeAccepted(j, v);
        TreeSays(j, v, k, text, num);
        var f := TreeOf(j, v);
        TreesSay(m, order[1..], k, NextText(f, k, text), NextNumber(f, k, num));
      }
    }
  }

  lemma {:induction false} HeadOnce(order: seq<FieldNum>, k: FieldNum)
    requires order != [] && forall i, j :: 0 <= i < j < |order| ==> order[i] < order[j]
    ensures k in order <==> k == order[0] || k in order[1..]
    ensures order[0] !in order[1..]
  {
    assert order == [order[0]] + order[1..];
  }

  lemma {:induction false} TreeSays(j: FieldNum, v: Value, k: FieldNum, text: Bytes, num: nat)
    requires Fits(j, v) && !IsZero(v) && NumberOf(TreeOf(j, v)) == j
    ensures var f := TreeOf(j, v);
            && NextText(f, k, text) == (if j == k && v.Str? then v.text else text)
            && NextNumber(f, k, num) == if j != k || v.Str? then num else if v.Bool? then 1 else v.num
  {
    hide DigitSum, NumberOf;
    match v
    case Str(_) =>
    case Bool(_) => OneByte(1);
    case Uint(num) => EncodedDigits(num);
  }

  ghost function Trees(m: Status): FieldList {
    TreesOf(m, FIELD_ORDER)
  }

  lemma {:induction false} TreesWhole(m: Status)
    ensures AllAccepted(Trees(m)) && FlattenAll(Trees(m)) == Message.Encode(m) && Ascending(Trees(m), 0, 9)
  {
    hide TreesOf, AllAccepted, FlattenAll, Ascending, EncodeFields;
    TreesFlatten(m, FIELD_ORDER);
    TreesAscend(m, FIELD_ORDER, 0);
  }

  lemma {:induction false} TextSaid(m: Status, k: FieldNum, text: Text)
    requires Get(m, k) == Str(text)
    ensures (Present(Trees(m), k) <==> text != []) && LastText(Trees(m), k, []) == text
  {
    hide TreesOf, Get, Present, LastText, LastNumber;
    AllListed();
    TreesSay(m, FIELD_ORDER, k, [], 0);
  }

  lemma {:induction false} NumberSaid(m: Status, k: FieldNum, num: Uint64)
    requires Get(m, k) == Uint(num)
    ensures (Present(Trees(m), k) <==> num != 0) && LastNumber(Trees(m), k, 0) == num
  {
    hide TreesOf, Get, Present, LastText, LastNumber;
    AllListed();
    TreesSay(m, FIELD_ORDER, k, [], 0);
  }

  lemma {:induction false} FlagSaid(m: Status, k: FieldNum, flag: bool)
    requires Get(m, k) == Bool(flag)
    ensures (Present(Trees(m), k) <==> flag) && LastNumber(Trees(m), k, 0) == if flag then 1 else 0
  {
    hide TreesOf, Get, Present, LastText, LastNumber;
    AllListed();
    TreesSay(m, FIELD_ORDER, k, [], 0);
  }

  /** Marshal writes each part of the struct that is not zero, under its own number and in order. */
  lemma {:induction false} EncodeSays(m: Status)
    ensures Says(Message.Encode(m), m.name, m.id, m.endpoint, m.isLeader, m.state, m.stateTxt,
                 m.dbSize, m.dbSizeTxt, m.hash)
  {
    hide Trees, AllAccepted, FlattenAll, Ascending, Present, LastText, LastNumber, Message.Encode;
    TreesWhole(m);
    TextSaid(m, 1, m.name);
    TextSaid(m, 2, m.id);
    TextSaid(m, 3, m.endpoint);
    FlagSaid(m, 4, m.isLeader);
    TextSaid(m, 5, m.state);
    TextSaid(m, 6, m.stateTxt);
    NumberSaid(m, 7, m.dbSize);
    TextSaid(m, 8, m.dbSizeTxt);
    NumberSaid(m, 9, m.hash);
  }

  // ---------------------------------------------------------------- what Unmarshal leaves

  /** after is what before becomes when each part takes the last value that the fields give it. */
  ghost predicate Reads(fs: FieldList, before: Status, after: Status) {
    && after.name == LastText(fs, 1, before.name)
    && after.id == LastText(fs, 2, before.id)
    && after.endpoint == LastText(fs, 3, before.endpoint)
    && after.isLeader == (LastNumber(fs, 4, if before.isLeader then 1 else 0) % TWO_64 != 0)
    && after.state == LastText(fs, 5, before.state)
    && after.stateTxt == LastText(fs, 6, before.stateTxt)
    && after.dbSize == LastNumber(fs, 7, before.dbSize) % TWO_64
    && after.dbSizeTxt == LastText(fs, 8, before.dbSizeTxt)
    && after.hash == LastNumber(fs, 9, before.hash) % TWO_32
  }

  lemma {:induction false} InterpretReads(m: Status, fs: FieldList)
    requires AllAccepted(fs)
    ensures Reads(fs, m, InterpretAll(m, fs))
    decreases fs
  {
    hide Accepted, Interpret, NumberOf, DigitSum;
    match fs
    case Nil =>
    case Cons(f, tail) =>
      InterpretReads(Interpret(m, f), tail);
      InterpretTexts(m, f);
      InterpretNumbers(m, f);
      ReadsOn(m, f, tail, InterpretAll(m, fs));
  }

  lemma {:induction false} InterpretTexts(m: Status, f: Field)
    requires Accepted(f)
    ensures TextsRead(f, m, Interpret(m, f))
  {
    hide DigitSum, IsVarint, WireType, NumberOf, NumberValue;
    TypeOfNumber(f);
  }

  lemma {:induction false} InterpretNumbers(m: Status, f: Field)
    requires Accepted(f)
    ensures NumbersRead(f, m, Interpret(m, f))
  {
    hide DigitSum, IsVarint, WireType, NumberOf;
    TypeOfNumber(f);
    SmallNumber(m.dbSize, TWO_64);
    SmallNumber(m.hash, TWO_32);
  }

  lemma {:induction false} SmallNumber(x: nat, m: nat)
    requires x < m
    ensures x % m == x
  {}

  lemma {:induction false} TypeOfNumber(f: Field)
    requires Accepted(f)
    ensures NumberOf(f) > 0 && (NumberOf(f) in {4, 7, 9} ==> f.VarintField?)
    ensures NumberOf(f) in {1, 2, 3, 5, 6, 8} ==> f.BytesField?
  {
    hide DigitSum, IsVarint, WireType;
    IsText(f);
  }

  /** What one field makes of the texts, and of the numbers. */
  ghost predicate TextsRead(f: Field, before: Status, after: Status) {
    && after.name == NextText(f, 1, before.name)
    && after.id == NextText(f, 2, before.id)
    && after.endpoint == NextText(f, 3, before.endpoint)
    && after.state == NextText(f, 5, before.state)
    && after.stateTxt == NextText(f, 6, before.stateTxt)
    && after.dbSizeTxt == NextText(f, 8, before.dbSizeTxt)
  }

  ghost predicate NumbersRead(f: Field, before: Status, after: Status) {
    && after.isLeader == (NextNumber(f, 4, if before.isLeader then 1 else 0) % TWO_64 != 0)
    && after.dbSize == NextNumber(f, 7, before.dbSize) % TWO_64
    && after.hash == NextNumber(f, 9, before.hash) % TWO_32
  }

  lemma {:induction false} ReadsOn(m: Status, f: Field, tail: FieldList, after: Status)
    requires Accepted(f) && Reads(tail, Interpret(m, f), after)
    requires TextsRead(f, m, Interpret(m, f)) && NumbersRead(f, m, Interpret(m, f))
    ensures Reads(Cons(f, tail), m, after)
  {
    hide Accepted, Interpret, NumberOf, DigitSum, NextText, NextNumber;
    var mid := Interpret(m, f);
    EitherStart(tail, 4, NextNumber(f, 4, if m.isLeader then 1 else 0), if mid.isLeader then 1 else 0);
    EitherStart(tail, 7, NextNumber(f, 7, m.dbSize), mid.dbSize);
    EitherStart(tail, 9, NextNumber(f, 9, m.hash), mid.hash);
  }

  /** The fields leave what was there before, or what was there does not matter. */
  lemma {:induction false} EitherStart(fs: FieldList, k: int, x: nat, y: nat)
    ensures (LastNumber(fs, k, x) == x && LastNumber(fs, k, y) == y) || LastNumber(fs, k, x) == LastNumber(fs, k, y)
  {
    hide NumberOf, DigitSum;
    match fs
    case Nil =>
    case Cons(f, tail) => if !(NumberOf(f) == k && f.VarintField?) { EitherStart(tail, k, x, y); }
  }

  /** Unmarshal succeeds exactly on sequences of accepted fields, and reads what they say. */
  lemma {:induction false} DecodedReads(m: Status, s: Bytes)
    requires |s| < TWO_63
    ensures DecodeFrom(m, s).error.None? <==> exists fs :: AllAccepted(fs) && FlattenAll(fs) == s
    ensures DecodeFrom(m, s).error.None? ==>
              exists fs :: AllAccepted(fs) && FlattenAll(fs) == s && Reads(fs, m, DecodeFrom(m, s).m)
  {
    hide DecodeFrom, AllAccepted, FlattenAll, InterpretAll, Reads;
    AcceptedIff(m, s);
    if DecodeFrom(m, s).error.None? {
      var fs := ParsesAll(m, s);
      ReadsAll(m, fs);
      InterpretReads(m, fs);
    }
  }
}
