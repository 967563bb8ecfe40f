/** Decimal printing, fmt's %d. */
module Decimal {

  function Digit(d: nat): char
    requires d < 10
  {
    ('0' as int + d) as char
  }

  function NatToString(n: nat): string {
    if n < 10 then [Digit(n)] else NatToString(n / 10) + [Digit(n % 10)]
  }

  function ToString(n: int): string {
    if n < 0 then "-" + NatToString(-n) else NatToString(n)
  }

  /** Reading decimal digits, most significant first. */
  function Value(s: string): int {
    if s == "" then 0 else 10 * Value(s[..|s| - 1]) + (s[|s| - 1] as int - '0' as int)
  }

  /** Printing writes decimal digits without leading zeros that read back as the number. */
  lemma {:induction false} ReadsBack(n: nat)
    ensures |NatToString(n)| >= 1 && Value(NatToString(n)) == n
    ensures NatToString(n)[0] == '0' ==> n == 0
  {
    var s := NatToString(n);
    var i := |s| - 1;
    if n < 10 {
      assert s[..i] == "";
    } else {
      ReadsBack(n / 10);
      assert s[..i] == NatToString(n / 10);
      assert s[0] == NatToString(n / 10)[0];
    }
  }

  /** A negative number is printed as a minus sign and its absolute value. */
  lemma {:induction false} SignedReadsBack(n: int)
    ensures var s := ToString(n);
            if n < 0 then |s| >= 2 && s[0] == '-' && Value(s[1..]) == -n else Value(s) == n
  {
    ReadsBack(if n < 0 then -n else n);
    if n < 0 { assert ToString(n)[1..] == NatToString(-n); }
  }

  lemma {:induction false} DigitsOnly(n: nat)
    ensures |NatToString(n)| >= 1
    ensures forall c :: c in NatToString(n) ==> '0' <= c <= '9'
  {
    if n >= 10 { DigitsOnly(n / 10); }
  }

  lemma {:induction false} NatToStringInjective(a: nat, b: nat)
    requires NatToString(a) == NatToString(b)
    ensures a == b
  {
    var s := NatToString(a);
    DigitsOnly(a / 10);
    DigitsOnly(b / 10);
    if a >= 10 && b >= 10 {
      var i := |s| - 1;
      assert s[..i] == NatToString(a / 10) == NatToString(b / 10);
      NatToStringInjective(a / 10, b / 10);
      assert s[i] == Digit(a % 10) == Digit(b % 10);
    }
  }

  /** Different integers print differently. */
  lemma {:induction false} ToStringInjective(a: int, b: int)
    requires ToString(a) == ToString(b)
    ensures a == b
  {
    var x, y := if a < 0 then -a else a, if b < 0 then -b else b;
    DigitsOnly(x);
    DigitsOnly(y);
    assert NatToString(x)[0] in NatToString(x) && NatToString(y)[0] in NatToString(y);
    assert ToString(a)[0] == ToString(b)[0];
    if a < 0 && b < 0 {
      assert ToString(a)[1..] == NatToString(x) && ToString(b)[1..] == NatToString(y);
      NatToStringInjective(x, y);
    } else if a >= 0 && b >= 0 {
      NatToStringInjective(x, y);
    }
  }
}
