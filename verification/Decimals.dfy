/** Numbers written in decimal. */
module Decimals {
  function Digit(d: nat): char
    requires d < 10
  {
    '0' + d as char
  }

  predicate IsDigit(c: char) {
    '0' <= c <= '9'
  }

  predicate AllDigits(s: string) {
    forall c :: c in s ==> IsDigit(c)
  }

  function Decimal(n: nat): string {
    if n < 10 then [Digit(n)] else Decimal(n / 10) + [Digit(n % 10)]
  }

  function DecimalValue(s: string): nat
    requires AllDigits(s)
  {
    if s == "" then 0
    else
      assert IsDigit(s[|s| - 1]);
      10 * DecimalValue(s[..|s| - 1]) + (s[|s| - 1] as int - '0' as int)
  }

  function Pow10(d: nat): (r: nat)
    ensures r >= 1
  {
    if d == 0 then 1 else 10 * Pow10(d - 1)
  }

  lemma {:induction false} DecimalShape(n: nat, d: nat)
    requires d >= 1 && n < Pow10(d)
    ensures 1 <= |Decimal(n)| <= d && AllDigits(Decimal(n)) && DecimalValue(Decimal(n)) == n
    decreases d
  {
    if n >= 10 {
      assert d >= 2 by { assert Pow10(1) == 10 * Pow10(0) == 10; }
      DecimalShape(n / 10, d - 1);
      var head := Decimal(n / 10);
      assert (head + [Digit(n % 10)])[..|head|] == head;
    } else {
      assert Decimal(n)[..0] == "";
    }
  }
}
