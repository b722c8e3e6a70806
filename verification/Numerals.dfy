// Decimal numerals as printf writes them.
module Numerals {

  function Digit(d: nat): char
    requires d < 10
  {
    '0' + d as char
  }

  predicate IsDigit(c: char) {
    '0' <= c <= '9'
  }

  function DigitValue(c: char): (d: nat)
    requires IsDigit(c)
    ensures d < 10 && Digit(d) == c
  {
    c as int - '0' as int
  }

  // The text of "%d" for a number that is not negative.
  function Decimal(n: nat): (s: string)
    ensures s != [] && forall i | 0 <= i < |s| :: IsDigit(s[i])
  {
    if n < 10 then [Digit(n)] else Decimal(n / 10) + [Digit(n % 10)]
  }

  // The number a text of digits stands for.
  function ValueOf(s: string): nat
    requires forall i | 0 <= i < |s| :: IsDigit(s[i])
  {
    if s == [] then 0 else 10 * ValueOf(s[..|s| - 1]) + DigitValue(s[|s| - 1])
  }

  lemma {:induction false} DecimalValue(n: nat)
    ensures ValueOf(Decimal(n)) == n
  {
    if n < 10 {
      assert Decimal(n)[..0] == [];
    } else {
      DecimalValue(n / 10);
      assert Decimal(n)[..|Decimal(n)| - 1] == Decimal(n / 10);
    }
  }

  // The text of "%0<width>d".
  function Padded(n: nat, width: nat): (s: string)
    ensures s != [] && forall i | 0 <= i < |s| :: IsDigit(s[i])
  {
    Zeros(width, |Decimal(n)|) + Decimal(n)
  }

  function Zeros(width: nat, taken: nat): (s: string)
    ensures forall i | 0 <= i < |s| :: s[i] == '0'
    decreases width - taken
  {
    if width <= taken then [] else ['0'] + Zeros(width, taken + 1)
  }

  lemma {:induction false} LeadingZeros(z: string, s: string)
    requires (forall i | 0 <= i < |z| :: z[i] == '0') && forall i | 0 <= i < |s| :: IsDigit(s[i])
    ensures ValueOf(z + s) == ValueOf(s)
    decreases |z| + |s|
  {
    if s == [] {
      assert z + s == z;
      if z != [] { LeadingZeros(z[..|z| - 1], []); assert z[..|z| - 1] + [] == z[..|z| - 1]; }
    } else {
      assert (z + s)[..|z + s| - 1] == z + s[..|s| - 1];
      LeadingZeros(z, s[..|s| - 1]);
    }
  }

  // Different numbers have different numerals, padded or not.
  lemma {:induction false} PaddedInjective(a: nat, b: nat, width: nat)
    requires Padded(a, width) == Padded(b, width)
    ensures a == b
  {
    LeadingZeros(Zeros(width, |Decimal(a)|), Decimal(a));
    LeadingZeros(Zeros(width, |Decimal(b)|), Decimal(b));
    DecimalValue(a);
    DecimalValue(b);
  }
}
