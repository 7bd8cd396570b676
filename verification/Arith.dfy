/** Products and quotients that the solver is not left alone with. */
module Arith {

  lemma Distribute(i: int, d: int, m: int)
    ensures i * m - d * m == (i - d) * m
  {
  }

  lemma Nonneg(a: nat, b: nat)
    ensures a * b >= 0
  {
  }

  lemma Commute(a: int, b: int)
    ensures a * b == b * a
  {
  }

  lemma Scale(d: nat, a: int, b: int)
    requires a <= b
    ensures d * a <= d * b && a * d <= b * d
  {
    Distribute(b, a, d);
    Nonneg(b - a, d);
    Commute(d, a);
    Commute(d, b);
  }

  lemma Multiple(b: int, d: int)
    requires b > 0 && -b < b * d < b
    ensures d == 0
  {
  }

  /** Quotient and remainder are the only ones. */
  lemma DivUnique(x: int, b: int, q: int, r: int)
    requires b > 0 && x == b * q + r && 0 <= r < b
    ensures x / b == q && x % b == r
  {
    var d := x / b - q;
    assert b * d == r - x % b by {
      assert b * (x / b) + x % b == b * q + r;
      Distribute(x / b, q, b);
      Commute(b, d);
      Commute(b, x / b);
      Commute(b, q);
    }
    Multiple(b, d);
  }

  lemma DivPlus(x: nat, b: nat)
    requires b > 0
    ensures (x + b) / b == x / b + 1
  {
    var q, r := x / b, x % b;
    assert x + b == b * (q + 1) + r;
    DivUnique(x + b, b, q + 1, r);
  }

  lemma FloorAtLeast(n: nat, d: nat, q: nat)
    requires d > 0 && n >= d * q
    ensures n / d >= q
  {
    if n / d < q {
      Scale(d, n / d + 1, q);
      assert false;
    }
  }

  lemma FloorAtMost(n: nat, d: nat, q: nat)
    requires d > 0 && n <= d * q
    ensures n / d <= q
  {
    if n / d > q {
      Scale(d, q + 1, n / d);
      assert false;
    }
  }

  lemma FloorSplits(x: nat, y: nat, d: nat)
    requires d > 0
    ensures x / d + y / d <= (x + y) / d
  {
    var a, b := x / d, y / d;
    Quotient(x, d);
    Quotient(y, d);
    SumOfProducts(d, a, b);
    FloorAtLeast(x + y, d, a + b);
  }

  lemma Quotient(x: nat, d: nat)
    requires d > 0
    ensures d * (x / d) <= x && 0 <= x / d
  {
  }

  lemma SumOfProducts(d: int, a: int, b: int)
    ensures d * a + d * b == d * (a + b)
  {
  }
}
