/** MemberStatus, its nine fields by number, and its canonical encoding as a value. */
module Message {
  import opened Wire
  import Varint

  /** The struct, for any representation of strings: bytes on the wire, `string` in the cluster. */
  datatype MemberStatus<+S> = MemberStatus(
    name: S, id: S, endpoint: S, isLeader: bool, state: S, stateTxt: S,
    dbSize: Uint64, dbSizeTxt: S, hash: Uint32)

  type Status = MemberStatus<Text>

  const ZERO: Status := MemberStatus([], [], [], false, [], [], 0, [], 0)

  type FieldNum = k: int | 1 <= k <= 9 witness 1

  datatype Value = Str(text: Text) | Bool(flag: bool) | Uint(num: Uint64)

  // ---------------------------------------------------------------- fields by number

  function Get(m: Status, k: FieldNum): (v: Value)
    ensures Fits(k, v)
  {
    match k
    case 1 => Str(m.name)
    case 2 => Str(m.id)
    case 3 => Str(m.endpoint)
    case 4 => Bool(m.isLeader)
    case 5 => Str(m.state)
    case 6 => Str(m.stateTxt)
    case 7 => Uint(m.dbSize)
    case 8 => Str(m.dbSizeTxt)
    case _ => Uint(m.hash)
  }

  /** v is of the type of field k. */
  predicate Fits(k: FieldNum, v: Value) {
    match v
    case Str(_) => k !in {4, 7, 9}
    case Bool(_) => k == 4
    case Uint(n) => k == 7 || (k == 9 && n < TWO_32)
  }

  function Set(m: Status, k: FieldNum, v: Value): (r: Status)
    requires Fits(k, v)
    ensures Get(r, k) == v
    ensures forall j: FieldNum :: j != k ==> Get(r, j) == Get(m, j)
  {
    match k
    case 1 => m.(name := v.text)
    case 2 => m.(id := v.text)
    case 3 => m.(endpoint := v.text)
    case 4 => m.(isLeader := v.flag)
    case 5 => m.(state := v.text)
    case 6 => m.(stateTxt := v.text)
    case 7 => m.(dbSize := v.num)
    case 8 => m.(dbSizeTxt := v.text)
    case _ => m.(hash := v.num)
  }

  predicate IsZero(v: Value) {
    v == Str([]) || v == Bool(false) || v == Uint(0)
  }

  lemma {:induction false} SameFields(a: Status, b: Status)
    requires forall k: FieldNum :: Get(a, k) == Get(b, k)
    ensures a == b
  {
    assert Get(a, 1) == Get(b, 1) && Get(a, 2) == Get(b, 2) && Get(a, 3) == Get(b, 3);
    assert Get(a, 4) == Get(b, 4) && Get(a, 5) == Get(b, 5) && Get(a, 6) == Get(b, 6);
    assert Get(a, 7) == Get(b, 7) && Get(a, 8) == Get(b, 8) && Get(a, 9) == Get(b, 9);
  }

  // ---------------------------------------------------------------- canonical encoding

  function WireTypeOf(k: FieldNum): nat {
    if k in {4, 7, 9} then 0 else 2
  }

  function Tag(k: FieldNum): Byte {
    8 * k + WireTypeOf(k)
  }

  function EncodeValue(v: Value): Bytes {
    match v
    case Str(text) => Varint.Encode(|text|) + text
    case Bool(flag) => [if flag then 1 else 0]
    case Uint(num) => Varint.Encode(num)
  }

  /** One field as MarshalTo emits it: nothing at all when the value is zero. */
  function EncodeField(k: FieldNum, v: Value): Bytes {
    if IsZero(v) then [] else [Tag(k)] + EncodeValue(v)
  }

  /** The encodings of the listed fields of m, in the listed order. */
  function EncodeFields(m: Status, order: seq<FieldNum>): Bytes {
    if order == [] then []
    else EncodeField(order[0], Get(m, order[0])) + EncodeFields(m, order[1..])
  }

  const FIELD_ORDER: seq<FieldNum> := [1, 2, 3, 4, 5, 6, 7, 8, 9]

  function Encode(m: Status): Bytes {
    EncodeFields(m, FIELD_ORDER)
  }

  /** What Size adds for one field. */
  function FieldSize(v: Value): nat {
    if IsZero(v) then 0
    else match v
      case Str(text) => 1 + |text| + Varint.Sov(|text|)
      case Bool(_) => 2
      case Uint(num) => 1 + Varint.Sov(num)
  }

  function SizeOfFields(m: Status, order: seq<FieldNum>): nat {
    if order == [] then 0 else FieldSize(Get(m, order[0])) + SizeOfFields(m, order[1..])
  }

  function SizeOf(m: Status): nat {
    SizeOfFields(m, FIELD_ORDER)
  }

  lemma {:induction false} FieldSizeIsLength(k: FieldNum, v: Value)
    ensures |EncodeField(k, v)| == FieldSize(v)
  {
    match v
    case Str(text) => Varint.EncodeLength(|text|);
    case Bool(_) =>
    case Uint(num) => Varint.EncodeLength(num);
  }

  lemma {:induction false} SizeOfFieldsIsLength(m: Status, order: seq<FieldNum>)
    ensures |EncodeFields(m, order)| == SizeOfFields(m, order)
  {
    if order != [] {
      FieldSizeIsLength(order[0], Get(m, order[0]));
      SizeOfFieldsIsLength(m, order[1..]);
    }
  }

  lemma {:induction false} EncodeFieldsConcat(m: Status, a: seq<FieldNum>, b: seq<FieldNum>)
    ensures EncodeFields(m, a + b) == EncodeFields(m, a) + EncodeFields(m, b)
  {
    hide EncodeField, Get;
    if a == [] {
      assert a + b == b;
    } else {
      EncodeFieldsConcat(m, a[1..], b);
      assert (a + b)[1..] == a[1..] + b && (a + b)[0] == a[0];
      var head := EncodeField(a[0], Get(m, a[0]));
      ConcatAssoc(head, EncodeFields(m, a[1..]), EncodeFields(m, b));
    }
  }

  lemma {:induction false} ConcatAssoc(a: Bytes, b: Bytes, c: Bytes)
    ensures a + (b + c) == (a + b) + c
  {}

  lemma {:induction false} SizeOfFieldsConcat(m: Status, a: seq<FieldNum>, b: seq<FieldNum>)
    ensures SizeOfFields(m, a + b) == SizeOfFields(m, a) + SizeOfFields(m, b)
  {
    hide Get, FieldSize;
    if a == [] {
      assert a + b == b;
    } else {
      SizeOfFieldsConcat(m, a[1..], b);
      assert (a + b)[1..] == a[1..] + b && (a + b)[0] == a[0];
    }
  }

  lemma {:induction false} EncodeFieldsSingle(m: Status, k: FieldNum)
    ensures EncodeFields(m, [k]) == EncodeField(k, Get(m, k))
    ensures SizeOfFields(m, [k]) == FieldSize(Get(m, k))
  {
    assert [k][1..] == [];
    assert EncodeFields(m, []) == [];
  }

  /** Replacing one field changes the size by the difference of the two field sizes. */
  lemma {:induction false} SizeOfSet(m: Status, k: FieldNum, v: Value, order: seq<FieldNum>)
    requires Fits(k, v)
    requires forall i, j :: 0 <= i < j < |order| ==> order[i] != order[j]
    ensures SizeOfFields(Set(m, k, v), order)
            == SizeOfFields(m, order) + (if k in order then FieldSize(v) - FieldSize(Get(m, k)) else 0)
  {
    if order != [] {
      SizeOfSet(m, k, v, order[1..]);
      assert order == [order[0]] + order[1..];
    }
  }
}
