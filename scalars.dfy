/** Scalar arithmetic shared by the renderer: Python's `x ** 2` and `x ** 0.5`
    over exact reals, and the sign facts the geometry proofs rest on. */
module Scalars {

  /** Python's `x ** 2`. */
  function Sq(x: real): real {
    x * x
  }

  /** A product, named so that facts about it keep their shape. */
  function Mul(p: real, q: real): real {
    p * q
  }

  /** The square root behind Python's `x ** 0.5`. Dafny's reals have no square
      root, so every member that takes one receives it as the parameter `sqrt`,
      and this predicate says what it must satisfy. */
  ghost predicate IsSquareRoot(sqrt: real -> real) {
    forall x: real :: 0.0 <= x ==> 0.0 <= sqrt(x) && Sq(sqrt(x)) == x
  }

  /** The sign of a product follows from the signs of its factors. */
  lemma ProductSign(p: real, q: real)
    ensures 0.0 <= p && 0.0 <= q ==> 0.0 <= Mul(p, q)
    ensures 0.0 < p && 0.0 < q ==> 0.0 < Mul(p, q)
    ensures p < 0.0 && q < 0.0 ==> 0.0 < Mul(p, q)
    ensures p < 0.0 && 0.0 < q ==> Mul(p, q) < 0.0
    ensures 0.0 < p && q < 0.0 ==> Mul(p, q) < 0.0
  {
  }

  /** A product is zero only if one of its factors is. */
  lemma ZeroProduct(p: real, q: real)
    requires Mul(p, q) == 0.0
    ensures p == 0.0 || q == 0.0
  {
    ProductSign(p, q);
  }

  /** Multiplying by a positive factor preserves order. */
  lemma MulMonotone(a: real, s: real, t: real)
    requires 0.0 < a
    requires Mul(a, s) <= Mul(a, t)
    ensures s <= t
  {
    assert Mul(a, s - t) == Mul(a, s) - Mul(a, t);
    ProductSign(a, s - t);
  }

  lemma SqNonNegative(x: real)
    ensures 0.0 <= Sq(x)
    ensures x != 0.0 ==> 0.0 < Sq(x)
  {
    ProductSign(x, x);
  }

  /** Two numbers with the same square are equal up to sign. */
  lemma SqEqual(u: real, w: real)
    requires Sq(u) == Sq(w)
    ensures u == w || u == -w
  {
    assert Mul(u - w, u + w) == Sq(u) - Sq(w);
    ZeroProduct(u - w, u + w);
  }

  /** Among non-negative numbers, squaring keeps order. */
  lemma SqMonotone(u: real, w: real)
    requires 0.0 <= u && 0.0 <= w
    requires Sq(u) <= Sq(w)
    ensures u <= w
  {
    assert Mul(u - w, u + w) == Sq(u) - Sq(w);
    ProductSign(u - w, u + w);
  }

  /** A number whose square is at most one lies in `[-1, 1]`. */
  lemma SqAtMostOne(u: real)
    requires Sq(u) <= 1.0
    ensures -1.0 <= u <= 1.0
  {
    var a := if u < 0.0 then -u else u;
    assert Sq(a) == Sq(u);
    assert Sq(1.0) == 1.0;
    SqMonotone(a, 1.0);
  }

  /** On a perfect square the square root is determined: `sqrt(y ** 2) == |y|`
      for `y >= 0`. */
  lemma SqrtOfSq(sqrt: real -> real, y: real)
    requires IsSquareRoot(sqrt)
    requires 0.0 <= y
    ensures sqrt(Sq(y)) == y
  {
    SqNonNegative(y);
    var s := sqrt(Sq(y));
    assert 0.0 <= s && Sq(s) == Sq(y);
    SqEqual(s, y);
  }

  /** The square root of a scaled square: `sqrt(s^2 x) == s sqrt(x)` for
      `s >= 0`. */
  lemma SqrtScale(sqrt: real -> real, s: real, x: real)
    requires IsSquareRoot(sqrt)
    requires 0.0 <= s && 0.0 <= x
    ensures sqrt(Mul(Sq(s), x)) == Mul(s, sqrt(x))
  {
    var y := Mul(s, sqrt(x));
    ProductSign(s, sqrt(x));
    assert Sq(y) == Mul(Sq(s), Sq(sqrt(x)));
    SqrtOfSq(sqrt, y);
  }

  /** A common non-zero factor cancels from a product and a divisor. */
  lemma CancelFactor(x: real, s: real, d: real)
    requires s != 0.0 && d != 0.0
    ensures (x * s) * (1.0 / Mul(s, d)) == x * (1.0 / d)
  {
    assert Mul(s, d) != 0.0;
    assert (x * s) / (s * d) == x / d;
  }

  /** Dividing by a non-zero number and multiplying back is the identity. */
  lemma DivMul(x: real, a: real)
    requires a != 0.0
    ensures Mul(x / a, a) == x
  {
  }

  /** Dividing by a positive number keeps the sign. */
  lemma DivSign(x: real, a: real)
    requires 0.0 < a
    ensures x < 0.0 ==> x / a < 0.0
    ensures 0.0 < x ==> 0.0 < x / a
  {
    DivMul(x, a);
    ProductSign(x / a, a);
  }
}
