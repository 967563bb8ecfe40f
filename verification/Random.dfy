/** randBytes, multiRandStrings and multiRandKeyValues of backend/web/utils.go. */
module Random {
  import opened Bits
  import Decimal

  const LETTERS: string := "abcdefghijklmnopqrstuvwxyzABCDEFGHIJKLMNOPQRSTUVWXYZ"

  const LETTER_IDX_BITS: nat := 6
  const LETTER_IDX_MAX: nat := 10   // 63 / letterIdxBits

  /** What src.Int63() answers. */
  type Int63 = x: nat | x < 0x8000_0000_0000_0000

  // ---------------------------------------------------------------- specification

  /** The n low 6-bit digits of a draw, lowest first. */
  function Digits(draw: nat, n: nat): seq<nat> {
    if n == 0 then [] else [draw % 64] + Digits(draw / 64, n - 1)
  }

  function DigitStream(draws: seq<Int63>): seq<nat> {
    if draws == [] then [] else Digits(draws[0], LETTER_IDX_MAX) + DigitStream(draws[1..])
  }

  /** The digits that index a letter, as letters. */
  function Letters(digits: seq<nat>): string {
    if digits == [] then []
    else (if digits[0] < |LETTERS| then [LETTERS[digits[0]]] else []) + Letters(digits[1..])
  }

  function Reverse(s: string): string {
    if s == [] then [] else Reverse(s[1..]) + [s[0]]
  }

  /** The draws hold enough accepted digits for bytesN letters; the first is always made. */
  predicate Enough(bytesN: nat, draws: seq<Int63>) {
    |draws| >= 1 && |Letters(DigitStream(draws))| >= bytesN
  }

  /** The text randBytes makes of a stream of draws: filled from the last byte to the first. */
  function Drawn(bytesN: nat, draws: seq<Int63>): string
    requires Enough(bytesN, draws)
  {
    Reverse(Letters(DigitStream(draws))[..bytesN])
  }

  /** The stream by position: ten digits a draw, the j-th of them its bits from 6 * j on. */
  lemma {:induction false} StreamAt(draws: seq<Int63>, i: nat, j: nat)
    requires i < |draws| && j < 10
    ensures |DigitStream(draws)| == 10 * |draws|
    ensures DigitStream(draws)[10 * i + j] == (draws[i] / Pow2(6 * j)) % 64
    decreases |draws|
  {
    hide Digits, Pow2;
    StreamLength(draws);
    DigitsAt(draws[0], 10, j);
    if i > 0 { StreamAt(draws[1..], i - 1, j); }
  }

  lemma {:induction false} StreamLength(draws: seq<Int63>)
    ensures |DigitStream(draws)| == 10 * |draws|
  {
    hide Digits;
    if draws != [] {
      DigitsLength(draws[0], 10);
      StreamLength(draws[1..]);
    }
  }

  lemma {:induction false} DigitsLength(draw: nat, n: nat)
    ensures |Digits(draw, n)| == n
    decreases n
  {
    if n > 0 { DigitsLength(draw / 64, n - 1); }
  }

  lemma {:induction false} DigitsAt(draw: nat, n: nat, j: nat)
    requires j < n
    ensures |Digits(draw, n)| == n && Digits(draw, n)[j] == (draw / Pow2(6 * j)) % 64
    decreases n
  {
    hide Pow2;
    DigitsLength(draw, n);
    Pow2Small();
    if j > 0 {
      DigitsAt(draw / 64, n - 1, j - 1);
      Pow2Sum(6, 6 * (j - 1));
      assert 6 + 6 * (j - 1) == 6 * j;
      DivDiv(draw, 64, Pow2(6 * (j - 1)));
    }
  }

  lemma {:induction false} DivDiv(x: nat, a: nat, b: nat)
    requires a > 0 && b > 0
    ensures a * b > 0 && (x / a) / b == x / (a * b)
  {
    var q, r := x / a, x % a;
    var p, t := q / b, q % b;
    assert x == (p * b + t) * a + r;
    MulAdd(p * b, t, a);
    MulAssoc(p, b, a);
    assert b * a == a * b;
    assert t * a + r < a * b by { MulSub(b, t, a); MulBound(b - t, a); }
    assert t * a >= 0 by { MulNonNegative(t, a); }
    DivModUnique(a * b, p, t * a + r);
  }

  /** Which digits are kept, and as which letter; and kept letters stay in order. */
  lemma {:induction false} LetterOf(d: nat)
    ensures d < 26 ==> Letters([d]) == [('a' as int + d) as char]
    ensures 26 <= d < 52 ==> Letters([d]) == [('A' as int + (d - 26)) as char]
    ensures d >= 52 ==> Letters([d]) == []
  {
    assert [d][1..] == [] && Letters([d][1..]) == [];
    if d < 52 { LetterAt(d); }
  }

  lemma {:induction false} LetterAt(d: nat)
    requires d < 52
    ensures |LETTERS| == 52
    ensures LETTERS[d] == (if d < 26 then 'a' as int + d else 'A' as int + (d - 26)) as char
  {
    Halves(LETTERS);
    if d < 26 { Lower(LETTERS[..26], d); } else { Upper(LETTERS[26..], d - 26); }
  }

  lemma {:induction false} Halves(s: string)
    requires s == "abcdefghijklmnopqrstuvwxyzABCDEFGHIJKLMNOPQRSTUVWXYZ"
    ensures s[..26] == "abcdefghijklmnopqrstuvwxyz" && s[26..] == "ABCDEFGHIJKLMNOPQRSTUVWXYZ"
  {}

  lemma {:induction false} Lower(s: string, i: nat)
    requires s == "abcdefghijklmnopqrstuvwxyz" && i < 26
    ensures s[i] as int == 'a' as int + i
  {}

  lemma {:induction false} Upper(s: string, i: nat)
    requires s == "ABCDEFGHIJKLMNOPQRSTUVWXYZ" && i < 26
    ensures s[i] as int == 'A' as int + i
  {}

  lemma {:induction false} NoLetters()
    ensures Letters([]) == []
  {}

  lemma {:induction false} LettersCons(d: nat, rest: seq<nat>)
    ensures Letters([d] + rest) == Letters([d]) + Letters(rest)
  {
    assert [d][1..] == [] && ([d] + rest)[1..] == rest;
  }

  lemma {:induction false} ConcatAssoc(a: string, b: string, c: string)
    ensures a + (b + c) == (a + b) + c
  {}

  lemma {:induction false} LettersConcat(a: seq<nat>, b: seq<nat>)
    ensures Letters(a + b) == Letters(a) + Letters(b)
  {
    hide Letters;
    if a == [] {
      assert a + b == b && Letters(a) == [] by { NoLetters(); }
    } else {
      LettersConcat(a[1..], b);
      assert (a + b)[1..] == a[1..] + b && (a + b)[0] == a[0];
      ConcatAssoc(Letters([a[0]]), Letters(a[1..]), Letters(b));
      LettersCons(a[0], a[1..]);
      LettersCons(a[0], a[1..] + b);
      assert a == [a[0]] + a[1..] && a + b == [a[0]] + (a[1..] + b);
    }
  }

  lemma {:induction false} ReverseLength(s: string)
    ensures |Reverse(s)| == |s|
  {
    if s != [] { ReverseLength(s[1..]); }
  }

  lemma {:induction false} ReverseAt(s: string, k: nat)
    requires k < |s|
    ensures |Reverse(s)| == |s| && Reverse(s)[|s| - 1 - k] == s[k]
  {
    ReverseLength(s[1..]);
    if k > 0 { ReverseAt(s[1..], k - 1); }
  }

  /** Reading the result from last to first gives the accepted letters in order, and only letters. */
  lemma {:induction false} DrawnBackwards(bytesN: nat, draws: seq<Int63>, k: nat)
    requires Enough(bytesN, draws) && k < bytesN
    ensures |Drawn(bytesN, draws)| == bytesN
    ensures Drawn(bytesN, draws)[bytesN - 1 - k] == Letters(DigitStream(draws))[k]
  {
    ReverseAt(Letters(DigitStream(draws))[..bytesN], k);
  }

  // ---------------------------------------------------------------- randBytes

  /** The digits still to come: `remain` of the cached draw, then those of the draws from `next` on. */
  ghost function Upcoming(cache: nat, remain: nat, draws: seq<Int63>, next: nat): seq<nat>
    requires next <= |draws|
  {
    Digits(cache, remain) + DigitStream(draws[next..])
  }

  method RandBytes(bytesN: nat, draws: seq<Int63>) returns (b: array<char>)
    requires Enough(bytesN, draws)
    ensures fresh(b) && b[..] == Drawn(bytesN, draws)
  {
    hide And, Shr, Letters, DigitStream, Upcoming, Drawn;
    ghost var all := Letters(DigitStream(draws));
    b := new char[bytesN](_ => 'a');
    var i, cache, remain := bytesN - 1, draws[0], LETTER_IDX_MAX;
    var next := 1;   // the draws made so far
    ghost var done: string := [];
    FirstDraw(draws);
    while i >= 0
      invariant -1 <= i < bytesN && 1 <= next <= |draws|
      invariant |done| == bytesN - 1 - i
      invariant forall k :: 0 <= k < |done| ==> b[bytesN - 1 - k] == done[k]
      invariant all == done + Letters(Upcoming(cache, remain, draws, next))
      decreases |draws| - next, remain
    {
      if remain == 0 {
        NextDraw(cache, draws, next);
        cache, remain := draws[next], LETTER_IDX_MAX;
        next := next + 1;
      }
      NextDigit(cache, remain, draws, next);
      MaskAndShift(cache);
      var idx := And(cache, 63);
      if idx < |LETTERS| {
        ghost var rest := Letters(Upcoming(cache / 64, remain - 1, draws, next));
        assert done + ([LETTERS[idx]] + rest) == (done + [LETTERS[idx]]) + rest;
        b[i] := LETTERS[idx];
        done := done + [LETTERS[idx]];
        i := i - 1;
      }
      cache := Shr(cache, LETTER_IDX_BITS);
      remain := remain - 1;
    }
    FilledFromTheEnd(bytesN, draws, done, b[..]);
  }

  lemma {:induction false} FirstDraw(draws: seq<Int63>)
    requires draws != []
    ensures DigitStream(draws) == Upcoming(draws[0], LETTER_IDX_MAX, draws, 1)
  {}

  /** When letters are still to come, an exhausted draw is followed by another. */
  lemma {:induction false} NextDraw(cache: nat, draws: seq<Int63>, next: nat)
    requires next <= |draws| && Letters(Upcoming(cache, 0, draws, next)) != []
    ensures next < |draws|
    ensures Upcoming(cache, 0, draws, next) == Upcoming(draws[next], LETTER_IDX_MAX, draws, next + 1)
  {
    var rest := draws[next..];
    assert Upcoming(cache, 0, draws, next) == DigitStream(rest);
    assert rest != [] ==> rest[1..] == draws[next + 1..];
  }

  /** The lowest digit of the cached draw, kept if it indexes a letter, comes before the others. */
  lemma {:induction false} NextDigit(cache: nat, remain: nat, draws: seq<Int63>, next: nat)
    requires next <= |draws| && remain > 0
    ensures var d := cache % 64;
            Letters(Upcoming(cache, remain, draws, next))
            == (if d < |LETTERS| then [LETTERS[d]] else []) + Letters(Upcoming(cache / 64, remain - 1, draws, next))
  {
    var digits := Upcoming(cache, remain, draws, next);
    assert digits[1..] == Upcoming(cache / 64, remain - 1, draws, next);
  }

  lemma {:induction false} FilledFromTheEnd(bytesN: nat, draws: seq<Int63>, done: string, b: string)
    requires Enough(bytesN, draws) && |done| == |b| == bytesN && done <= Letters(DigitStream(draws))
    requires forall k :: 0 <= k < bytesN ==> b[bytesN - 1 - k] == done[k]
    ensures b == Drawn(bytesN, draws)
  {
    hide Letters, DigitStream, Drawn;
    DrawnLength(bytesN, draws);
    forall k | 0 <= k < bytesN ensures b[k] == Drawn(bytesN, draws)[k] {
      DrawnBackwards(bytesN, draws, bytesN - 1 - k);
    }
  }

  lemma {:induction false} MaskAndShift(cache: nat)
    ensures And(cache, 63) == cache % 64 && Shr(cache, LETTER_IDX_BITS) == cache / 64
  {
    Pow2Values();
    AndMask(cache, 6);
  }

  // ---------------------------------------------------------------- multiRandStrings

  /** fmt.Sprintf("%s%s%d", prefix, b, n). */
  function Numbered(prefix: string, b: string, n: int): string {
    prefix + b + Decimal.ToString(n)
  }

  /** The counter sits at a fixed offset, so differently numbered strings differ. */
  lemma {:induction false} NumberedDiffer(prefix: string, b: string, c: string, i: int, j: int)
    requires |b| == |c| && i != j
    ensures Numbered(prefix, b, i) != Numbered(prefix, c, j)
  {
    if Numbered(prefix, b, i) == Numbered(prefix, c, j) {
      var at := |prefix| + |b|;
      assert Numbered(prefix, b, i)[at..] == Decimal.ToString(i);
      assert Numbered(prefix, c, j)[at..] == Decimal.ToString(j);
      Decimal.ToStringInjective(i, j);
    }
  }

  /** draws[k] is the source that the k-th call of randBytes makes. One call per string suffices:
      the duplicate test never rejects. */
  method MultiRandStrings(bytesN: nat, sliceN: nat, prefix: string, draws: seq<seq<Int63>>)
    returns (rs: seq<string>, calls: nat)
    requires |draws| >= sliceN && forall k :: 0 <= k < sliceN ==> Enough(bytesN, draws[k])
    ensures |rs| == sliceN == calls
    ensures forall k :: 0 <= k < sliceN ==> rs[k] == prefix + Drawn(bytesN, draws[k]) + Decimal.ToString(k + 1)
    ensures forall j, k :: 0 <= j < k < sliceN ==> rs[j] != rs[k]
  {
    hide Drawn, Numbered, Enough;
    var m: set<string> := {};
    rs, calls := [], 0;
    while |rs| != sliceN
      invariant |rs| == calls <= sliceN
      invariant m == set s | s in rs
      invariant forall k :: 0 <= k < |rs| ==> rs[k] == Numbered(prefix, Drawn(bytesN, draws[k]), k + 1)
      invariant forall j, k :: 0 <= j < k < |rs| ==> rs[j] != rs[k]
      decreases sliceN - |rs|
    {
      var n := |rs|;
      var b := RandBytes(bytesN, draws[calls]);
      calls := calls + 1;
      var s := Numbered(prefix, b[..], n + 1);
      forall j | 0 <= j < n ensures rs[j] != s {
        DrawnLength(bytesN, draws[j]);
        DrawnLength(bytesN, draws[n]);
        NumberedDiffer(prefix, Drawn(bytesN, draws[j]), b[..], j + 1, n + 1);
      }
      if s !in m {
        rs := rs + [s];
        m := m + {s};
      }
    }
    forall k | 0 <= k < sliceN ensures rs[k] == prefix + Drawn(bytesN, draws[k]) + Decimal.ToString(k + 1) {
      NumberedText(prefix, Drawn(bytesN, draws[k]), k + 1);
    }
  }

  lemma {:induction false} NumberedText(prefix: string, b: string, n: int)
    ensures Numbered(prefix, b, n) == prefix + b + Decimal.ToString(n)
  {}

  lemma {:induction false} DrawnLength(bytesN: nat, draws: seq<Int63>)
    requires Enough(bytesN, draws)
    ensures |Drawn(bytesN, draws)| == bytesN
  {
    ReverseLength(Letters(DigitStream(draws))[..bytesN]);
  }

  // ---------------------------------------------------------------- multiRandKeyValues

  datatype KeyValue = KeyValue(key: string, value: string)

  method MultiRandKeyValues(keyPrefix: string, valPrefix: string, bytesN: nat, sliceN: nat,
                            keyDraws: seq<seq<Int63>>, valDraws: seq<seq<Int63>>)
    returns (kvs: seq<KeyValue>)
    requires |keyDraws| >= sliceN && forall k :: 0 <= k < sliceN ==> Enough(bytesN, keyDraws[k])
    requires |valDraws| >= sliceN && forall k :: 0 <= k < sliceN ==> Enough(bytesN, valDraws[k])
    ensures |kvs| == sliceN
    ensures forall k :: 0 <= k < sliceN ==>
              && kvs[k].key == keyPrefix + Drawn(bytesN, keyDraws[k]) + Decimal.ToString(k + 1)
              && kvs[k].value == valPrefix + Drawn(bytesN, valDraws[k]) + Decimal.ToString(k + 1)
    ensures forall j, k :: 0 <= j < k < sliceN ==> kvs[j].key != kvs[k].key && kvs[j].value != kvs[k].value
  {
    hide Drawn, Enough;
    var keys, _ := MultiRandStrings(bytesN, sliceN, keyPrefix, keyDraws);
    var vals, _ := MultiRandStrings(bytesN, sliceN, valPrefix, valDraws);
    kvs := [];
    for i := 0 to sliceN
      invariant |kvs| == i
      invariant forall k :: 0 <= k < i ==> kvs[k] == KeyValue(keys[k], vals[k])
    {
      kvs := kvs + [KeyValue(keys[i], vals[i])];
    }
  }
}
