/** The few facts about products and quotients the proofs need, one at a time. */
module Arith {

  function Min(x: nat, y: nat): nat { if x <= y then x else y }

  function Quotient(x: nat, d: nat): nat
    requires d > 0
  {
    x / d
  }

  lemma MulOrder(x: int, y: int, d: nat)
    requires d > 0
    ensures x <= y <==> x * d <= y * d
  {
    assert y * d - x * d == (y - x) * d;
  }

  lemma MulGrows(x: int, y: int, d: nat)
    requires x <= y
    ensures x * d <= y * d
  {
    assert y * d - x * d == (y - x) * d;
  }

  lemma DivMod(x: int, d: nat)
    requires d > 0
    ensures x == x / d * d + x % d && 0 <= x % d < d
  {}

  /** A quotient between two bounds, given the bounds times the divisor. */
  lemma DivideBetween(x: int, d: nat, lo: int, hi: int)
    requires d > 0 && lo * d <= x <= hi * d
    ensures lo <= x / d <= hi
  {
    var q := x / d;
    DivMod(x, d);
    assert (q + 1) * d == q * d + d;
    MulOrder(q + 1, lo, d);
    MulOrder(q, hi, d);
  }

  lemma DivideMonotone(x: int, y: int, d: nat)
    requires d > 0 && x <= y
    ensures x / d <= y / d
  {
    var p, q := x / d, y / d;
    DivMod(x, d);
    DivMod(y, d);
    assert (q + 1) * d == q * d + d;
    MulOrder(q + 1, p, d);
  }

  lemma QuotientBelow(x: nat, b: nat, d: nat)
    requires d > 0 && x < b * d
    ensures x / d < b
  {
    DivMod(x, d);
    MulOrder(b, x / d, d);
  }

  /** The quotient and remainder of a number written as one. */
  lemma DivModIs(q: int, r: int, d: nat)
    requires 0 <= r < d
    ensures (q * d + r) / d == q && (q * d + r) % d == r
  {
    var x := q * d + r;
    DivMod(x, d);
    var q' := x / d;
    assert (q + 1) * d == q * d + d && (q' + 1) * d == q' * d + d;
    MulOrder(q + 1, q', d);
    MulOrder(q' + 1, q, d);
  }

  /** Dividing twice is dividing by the product. */
  lemma DivideTwice(x: nat, a: nat, b: nat)
    requires a > 0 && b > 0
    ensures a * b > 0 && x / a / b == x / (a * b)
  {
    var q, r := x / a, x % a;
    var p, s := q / b, q % b;
    DivMod(x, a);
    DivMod(q, b);
    MulGrows(s, b - 1, a);
    assert (b - 1) * a == a * b - a;
    assert (p * b + s) * a == p * (a * b) + s * a;
    DivModIs(p, s * a + r, a * b);
  }
}
