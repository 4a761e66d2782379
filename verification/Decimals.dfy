/** Decimal rendering of integers, as `%d` prints them. */
module Decimals {

  function Digit(d: nat): char
    requires d < 10
  {
    (48 + d) as char
  }

  function Digits(n: nat): (s: string)
    ensures s != ""
  {
    if n < 10 then [Digit(n)] else Digits(n / 10) + [Digit(n % 10)]
  }

  function Decimal(z: int): string {
    if z < 0 then "-" + Digits(-z) else Digits(z)
  }

  lemma {:induction false} DigitsAreDigits(n: nat)
    ensures forall c :: c in Digits(n) ==> '0' <= c <= '9'
  {
    if n >= 10 {
      DigitsAreDigits(n / 10);
    }
  }

  lemma {:induction false} DigitsInjective(m: nat, n: nat)
    requires Digits(m) == Digits(n)
    ensures m == n
  {
    var s, t := Digits(m), Digits(n);
    assert s[|s| - 1] == Digit(m % 10) && t[|t| - 1] == Digit(n % 10);
    assert m % 10 == n % 10;
    assert |s| > 1 <==> m >= 10;
    assert |t| > 1 <==> n >= 10;
    if m >= 10 && n >= 10 {
      assert s[..|s| - 1] == Digits(m / 10) && t[..|t| - 1] == Digits(n / 10);
      DigitsInjective(m / 10, n / 10);
    }
  }

  lemma DecimalInjective(y: int, z: int)
    requires Decimal(y) == Decimal(z)
    ensures y == z
  {
    DecimalSign(y);
    DecimalSign(z);
    if y < 0 && z < 0 {
      assert Decimal(y)[1..] == Digits(-y) && Decimal(z)[1..] == Digits(-z);
      DigitsInjective(-y, -z);
    } else if y >= 0 && z >= 0 {
      DigitsInjective(y, z);
    }
  }

  lemma DecimalSign(z: int)
    ensures Decimal(z) != "" && (Decimal(z)[0] == '-' <==> z < 0)
  {
    DigitsAreDigits(if z < 0 then -z else z);
    if z >= 0 {
      assert Digits(z)[0] in Digits(z);
    }
  }

  lemma DecimalHasNoBar(z: int)
    ensures '|' !in Decimal(z)
  {
    DigitsAreDigits(if z < 0 then -z else z);
  }

  /** The number that a string of digits stands for. */
  function Value(s: string): int {
    if s == "" then 0 else Value(s[..|s| - 1]) * 10 + (s[|s| - 1] as int - '0' as int)
  }

  /** Reading a number back gives it again, and only zero begins with a zero. */
  lemma {:induction false} DigitsValue(n: nat)
    ensures Value(Digits(n)) == n && (Digits(n)[0] == '0' <==> n == 0)
  {
    if n >= 10 {
      DigitsValue(n / 10);
      assert Digits(n)[..|Digits(n)| - 1] == Digits(n / 10);
    } else {
      assert Digits(n) == [Digit(n)] && Value("") == 0;
      assert [Digit(n)][..0] == "";
    }
  }

  lemma DecimalValue(z: int)
    ensures z >= 0 ==> Value(Decimal(z)) == z
    ensures z < 0 ==> Decimal(z)[0] == '-' && Value(Decimal(z)[1..]) == -z
  {
    DigitsValue(if z < 0 then -z else z);
  }
}
