// Facts about products, quotients and powers of two that the solver does not find alone.
module Arithmetic {

  function Pow2(n: nat): (p: nat)
    ensures p >= 1
  {
    if n == 0 then 1 else 2 * Pow2(n - 1)
  }

  lemma {:induction false} MulGrows(m: int, d: int)
    requires m > 0
    ensures d >= 1 ==> m * d >= m
    ensures d <= -1 ==> m * d <= -m
  {
  }

  // Quotient and remainder are determined.
  lemma {:induction false} DivUnique(a: int, m: int, q: int, r: int)
    requires m > 0 && a == m * q + r && 0 <= r < m
    ensures a / m == q && a % m == r
  {
    var d := a / m - q;
    assert m * d == m * (a / m) - m * q;
    MulGrows(m, d);
  }

  lemma {:induction false} DivBounds(a: nat, b: nat)
    requires b > 0
    ensures a == b * (a / b) + a % b && 0 <= a % b < b && a / b >= 0
  {
  }

  lemma {:induction false} MulMono(x: nat, a: nat, b: nat)
    requires a <= b
    ensures x * a <= x * b
  {
  }

  lemma {:induction false} Distribute(x: int, a: int, b: int)
    ensures x * (a + b) == x * a + x * b
  {
  }

  // A digit of weight s below w, and a rest below s.
  lemma {:induction false} MixedRadix(l: nat, w: nat, r: nat, s: nat)
    requires l < w && r < s
    ensures 0 <= l * s + r < w * s
  {
    MulMono(s, l + 1, w);
    Distribute(s, l, 1);
    MulMono(s, 0, l);
  }

  lemma {:induction false} Associate(x: int, a: int, b: int)
    ensures x * (a * b) == (x * a) * b
  {
  }

  // Dividing twice is dividing by the product.
  lemma {:induction false} DivDiv(a: nat, b: nat, c: nat)
    requires b > 0 && c > 0
    ensures b * c > 0 && a / (b * c) == (a / b) / c
  {
    MulGrows(b, c);
    var q := a / b;
    var q', r' := q / c, q % c;
    DivBounds(a, b);
    DivBounds(q, c);
    Distribute(b, c * q', r');
    Associate(b, c, q');
    MulMono(b, r', c - 1);
    Distribute(b, c, -1);
    DivUnique(a, b * c, q', b * r' + a % b);
  }

  lemma {:induction false} HalfShift(d: nat, i: nat)
    ensures d / Pow2(i + 1) == (d / 2) / Pow2(i)
  {
    DivDiv(d, 2, Pow2(i));
  }

  lemma {:induction false} ModStep(d: nat, m: nat)
    requires m > 0
    ensures d % (2 * m) == d % 2 + 2 * ((d / 2) % m)
  {
    var h := d / 2;
    DivBounds(h, m);
    Associate(2, m, h / m);
    DivUnique(d, 2 * m, h / m, d % 2 + 2 * (h % m));
  }
}
