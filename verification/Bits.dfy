/** Go's bitwise operators on unsigned integers, and the arithmetic they amount to
    in the places where the codec and the random generator use them. */
module Bits {

  function Pow2(e: nat): (p: nat)
    ensures p > 0
  {
    if e == 0 then 1 else 2 * Pow2(e - 1)
  }

  /** x | y, one bit at a time. */
  function Or(x: nat, y: nat): nat {
    if x == 0 && y == 0 then 0
    else (if x % 2 == 1 || y % 2 == 1 then 1 else 0) + 2 * Or(x / 2, y / 2)
  }

  /** x & y, one bit at a time. */
  function And(x: nat, y: nat): nat {
    if x == 0 || y == 0 then 0
    else (if x % 2 == 1 && y % 2 == 1 then 1 else 0) + 2 * And(x / 2, y / 2)
  }

  /** x << s on an unsigned integer of the given width: bits above the width are lost. */
  function Shl(x: nat, s: nat, width: nat): nat {
    (x * Pow2(s)) % Pow2(width)
  }

  /** x >> s on an unsigned integer. */
  function Shr(x: nat, s: nat): nat {
    DivNonNegative(x, Pow2(s));
    x / Pow2(s)
  }

  predicate Bit(x: nat, i: nat) {
    if i == 0 then x % 2 == 1 else Bit(x / 2, i - 1)
  }

  /** A bit is set in x | y if it is in either, and in x & y if it is in both. */
  lemma {:induction false} BitsOf(x: nat, y: nat, i: nat)
    ensures Bit(Or(x, y), i) <==> Bit(x, i) || Bit(y, i)
    ensures Bit(And(x, y), i) <==> Bit(x, i) && Bit(y, i)
    decreases i
  {
    if x == 0 { NoBits(i); }
    if y == 0 { NoBits(i); }
    if i > 0 { BitsOf(x / 2, y / 2, i - 1); }
  }

  lemma {:induction false} NoBits(i: nat)
    ensures !Bit(0, i)
  {
    if i > 0 { NoBits(i - 1); }
  }

  lemma {:induction false} DivNonNegative(x: nat, m: nat)
    requires m > 0
    ensures x / m >= 0
  {}

  lemma {:induction false} Pow2Values()
    ensures Pow2(6) == 64
    ensures Pow2(7) == 128
    ensures Pow2(32) == 0x1_0000_0000
    ensures Pow2(64) == 0x1_0000_0000_0000_0000
    ensures Pow2(70) == 0x40_0000_0000_0000_0000
  {
    hide Pow2;
    Pow2Small();
    Pow2Sum(8, 8);
    Pow2Sum(16, 16);
    Pow2Sum(32, 32);
    Pow2Sum(64, 6);
  }

  lemma {:induction false} Pow2Small()
    ensures Pow2(0) == 1 && Pow2(3) == 8 && Pow2(6) == 64 && Pow2(7) == 128 && Pow2(8) == 256
  {}

  lemma {:induction false} Pow2Sum(a: nat, b: nat)
    ensures Pow2(a + b) == Pow2(a) * Pow2(b)
  {
    if a > 0 {
      Pow2Sum(a - 1, b);
      assert Pow2(a + b) == 2 * Pow2(a - 1 + b);
      MulAssoc(2, Pow2(a - 1), Pow2(b));
    }
  }

  lemma {:induction false} Pow2Monotone(a: nat, b: nat)
    requires a <= b
    ensures Pow2(a) <= Pow2(b)
    decreases b
  {
    if a < b { Pow2Monotone(a, b - 1); }
  }

  lemma {:induction false} MulAssoc(a: int, b: int, c: int)
    ensures (a * b) * c == a * (b * c)
  {}

  /** The one way to read quotient and remainder off a sum. */
  lemma {:induction false} DivModUnique(m: nat, q: int, r: nat)
    requires r < m
    ensures (q * m + r) / m == q
    ensures (q * m + r) % m == r
  {
    var x := q * m + r;
    var q', r' := x / m, x % m;
    assert x == q' * m + r';
    MulSub(q, q', m);
    MulBound(q - q', m);
  }

  lemma {:induction false} MulBound(k: int, m: nat)
    ensures k >= 1 ==> k * m >= m
    ensures k <= -1 ==> k * m + m <= 0
  {}

  lemma {:induction false} MulSub(a: int, b: int, m: int)
    ensures (a - b) * m == a * m - b * m
  {}

  lemma {:induction false} MulAdd(a: int, b: int, m: int)
    ensures (a + b) * m == a * m + b * m
  {}

  /** OR is addition when the operands share no bits. */
  lemma {:induction false} OrDisjoint(a: nat, c: nat, s: nat)
    requires a < Pow2(s)
    ensures Or(a, c * Pow2(s)) == a + c * Pow2(s)
  {
    if s == 0 {
      OrZeroLeft(c);
    } else {
      var y := c * Pow2(s - 1);
      assert c * Pow2(s) == 2 * y by { MulAssoc(2, c, Pow2(s - 1)); }
      OrDisjoint(a / 2, c, s - 1);
      assert (2 * y) / 2 == y && (2 * y) % 2 == 0;
    }
  }

  lemma {:induction false} OrZeroLeft(c: nat)
    ensures Or(0, c) == c
  {
    if c > 0 { OrZeroLeft(c / 2); }
  }

  lemma {:induction false} OrZeroRight(a: nat)
    ensures Or(a, 0) == a
  {
    if a > 0 { OrZeroRight(a / 2); }
  }

  /** Masking with the low s bits is remainder by 2^s. */
  lemma {:induction false} AndMask(x: nat, s: nat)
    ensures And(x, Pow2(s) - 1) == x % Pow2(s)
  {
    if s == 0 {
      DivModUnique(1, x, 0);
    } else if x == 0 {
      SmallMod(0, Pow2(s));
    } else {
      var h := Pow2(s - 1);
      AndMask(x / 2, s - 1);
      DoubleMod(x, h);
      AndOdd(x, h - 1);
      assert Pow2(s) - 1 == 2 * (h - 1) + 1;
      assert And(x, Pow2(s) - 1) == x % 2 + 2 * ((x / 2) % h);
    }
  }

  lemma {:induction false} AndOdd(x: nat, y: nat)
    requires x > 0
    ensures And(x, 2 * y + 1) == x % 2 + 2 * And(x / 2, y)
  {
    assert (2 * y + 1) / 2 == y && (2 * y + 1) % 2 == 1;
  }

  lemma {:induction false} DoubleMod(x: nat, h: nat)
    requires h > 0
    ensures x % (2 * h) == 2 * ((x / 2) % h) + x % 2
  {
    var q, r := (x / 2) / h, (x / 2) % h;
    MulAssoc(q, 2, h);
    assert x == q * (2 * h) + (2 * r + x % 2);
    DivModUnique(2 * h, q, 2 * r + x % 2);
  }

  lemma {:induction false} ShiftedDigit(d: nat, s: nat, width: nat)
    requires s <= width
    ensures Shl(d, s, width) == (d % Pow2(width - s)) * Pow2(s)
    ensures Shl(d, s, width) + Pow2(s) <= Pow2(width)
  {
    Pow2Sum(width - s, s);
    ModScale(d, Pow2(width - s), Pow2(s));
  }

  lemma {:induction false} ModScale(d: nat, m: nat, p: nat)
    requires m > 0 && p > 0
    ensures m * p > 0
    ensures (d * p) % (m * p) == (d % m) * p
    ensures (d % m) * p + p <= m * p
  {
    var q, r := d / m, d % m;
    assert d * p == q * (m * p) + r * p by { MulAdd(q * m, r, p); MulAssoc(q, m, p); }
    assert r * p + p <= m * p by { MulSub(m, r, p); MulBound(m - r, p); }
    assert r * p >= 0 by { MulNonNegative(r, p); }
    DivModUnique(m * p, q, r * p);
  }

  lemma {:induction false} MulNonNegative(a: nat, b: nat)
    ensures a * b >= 0
  {}

  lemma {:induction false} ShiftedOut(d: nat, s: nat, width: nat)
    requires width <= s
    ensures Shl(d, s, width) == 0
  {
    Pow2Sum(s - width, width);
    MulAssoc(d, Pow2(s - width), Pow2(width));
    DivModUnique(Pow2(width), d * Pow2(s - width), 0);
  }

  /** One step of the varint loops: ORing the next seven bits into an accumulator of
      the given width is adding them to the unbounded sum, modulo 2^width. */
  lemma {:induction false} OrStep(raw: nat, d: nat, s: nat, width: nat)
    requires raw < Pow2(s)
    ensures Or(raw % Pow2(width), Shl(d, s, width)) == (raw + d * Pow2(s)) % Pow2(width)
  {
    if s <= width {
      OrStepInside(raw, d, s, width);
    } else {
      ShiftedOut(d, s, width);
      OrZeroRight(raw % Pow2(width));
      ModAbsorb(d * Pow2(s), raw, Pow2(width));
    }
  }

  lemma {:induction false} OrStepInside(raw: nat, d: nat, s: nat, width: nat)
    requires raw < Pow2(s) && s <= width
    ensures Or(raw % Pow2(width), Shl(d, s, width)) == (raw + d * Pow2(s)) % Pow2(width)
  {
    var w, hi := Pow2(width), Shl(d, s, width);
    Pow2Monotone(s, width);
    ShiftedDigit(d, s, width);
    SmallMod(raw, w);
    OrDisjoint(raw, d % Pow2(width - s), s);
    ModAbsorb(d * Pow2(s), raw, w);
    SmallMod(raw + hi, w);
  }

  lemma {:induction false} SmallMod(x: nat, m: nat)
    requires x < m
    ensures x % m == x
  {
    DivModUnique(m, 0, x);
  }

  /** A summand may be reduced before adding. */
  lemma {:induction false} ModAbsorb(x: nat, y: nat, m: nat)
    requires m > 0
    ensures (x + y) % m == (x % m + y) % m
  {
    var q, z := x / m, x % m + y;
    var q', r := z / m, z % m;
    MulAdd(q, q', m);
    assert x + y == (q + q') * m + r;
    DivModUnique(m, q + q', r);
  }
}
