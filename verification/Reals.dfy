/** Real arithmetic, one product at a time. */
module Reals {

  function Min(x: real, y: real): real { if x < y then x else y }

  function Max(x: real, y: real): real { if x < y then y else x }

  /** A product by name, so that facts about it carry over to equal factors. */
  function Times(x: real, y: real): real { x * y }

  lemma Sign(x: real, y: real)
    ensures x > 0.0 && y > 0.0 ==> Times(x, y) > 0.0
    ensures x > 0.0 && y < 0.0 ==> Times(x, y) < 0.0
    ensures x < 0.0 && y < 0.0 ==> Times(x, y) > 0.0
    ensures x < 0.0 && y > 0.0 ==> Times(x, y) < 0.0
    ensures x == 0.0 || y == 0.0 ==> Times(x, y) == 0.0
  {
  }

  lemma SignOfThree(d: real, x: real, y: real)
    requires d > 0.0 && x >= y
    ensures Times(d, Times(x, y)) <= 0.0 <==> x >= 0.0 >= y
    ensures Times(d, Times(x, y)) < 0.0 <==> x > 0.0 > y
  {
    Sign(x, y);
    Sign(d, Times(x, y));
  }

  lemma Monotone(x: real, y: real, m: real)
    requires x < y && m > 0.0
    ensures Times(x, m) < Times(y, m)
  {
    Sign(y - x, m);
    assert Times(y - x, m) == Times(y, m) - Times(x, m);
  }

  lemma Cancel(d: real, x: real, y: real)
    requires d != 0.0 && Times(d, x) == Times(d, y)
    ensures x == y
  {
    Sign(d, x - y);
    assert Times(d, x - y) == Times(d, x) - Times(d, y);
  }

  lemma Quotient(x: real, n: real)
    requires n > 0.0
    ensures Times(n, x / n) == x
    ensures x > 0.0 ==> x / n > 0.0
    ensures x >= 0.0 ==> x / n >= 0.0
    ensures x < n <==> x / n < 1.0
  {
    var y := x / n;
    assert n * y == x;
    Sign(n, y);
    Sign(n, y - 1.0);
    assert Times(n, y - 1.0) == x - n;
  }
}
