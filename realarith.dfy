/** Facts about products and quotients of reals. Each product is passed in as a
    named quantity, so that callers can apply the facts to squares. */
module RealArith {

  lemma ProductPositive(a: real, b: real, p: real)
    requires 0.0 < a && 0.0 < b && p == a * b
    ensures 0.0 < p
  {
  }

  lemma ProductNonNegative(a: real, b: real, p: real)
    requires 0.0 <= a && 0.0 <= b && p == a * b
    ensures 0.0 <= p
  {
  }

  lemma ProductNonPositive(a: real, b: real, p: real)
    requires 0.0 <= a && b <= 0.0 && p == a * b
    ensures p <= 0.0
  {
  }

  lemma SquarePositive(b: real, p: real)
    requires b != 0.0 && p == b * b
    ensures 0.0 < p
  {
    if 0.0 < b {
      ProductPositive(b, b, p);
    } else {
      ProductPositive(-b, -b, p);
    }
  }

  lemma SquareNonNegative(b: real, p: real)
    requires p == b * b
    ensures 0.0 <= p
  {
    if 0.0 <= b {
      ProductNonNegative(b, b, p);
    } else {
      ProductNonNegative(-b, -b, p);
    }
  }

  /** Products of non-negative factors grow strictly with both factors. */
  lemma ProductLess(x1: real, x2: real, y1: real, y2: real, p: real, q: real)
    requires 0.0 <= x1 < y1 && 0.0 <= x2 < y2 && p == x1 * x2 && q == y1 * y2
    ensures p < q
  {
    assert x1 * x2 <= y1 * x2;
    assert y1 * x2 < y1 * y2;
  }

  /** Two non-negative reals with the same square are equal. */
  lemma SameSquare(y: real, r: real, p: real)
    requires 0.0 <= y && 0.0 <= r && p == y * y && p == r * r
    ensures y == r
  {
    if y < r {
      ProductLess(y, y, r, r, p, p);
    }
    if r < y {
      ProductLess(r, r, y, y, p, p);
    }
  }

  lemma DivMul(n: real, a: real, q: real)
    requires a != 0.0 && q == n / a
    ensures a * q == n
  {
  }

  /** Multiplying by a positive factor keeps the order, in both directions. */
  lemma ScalePositive(a: real, u: real, t: real, p: real, q: real)
    requires 0.0 < a && p == a * u && q == a * t
    ensures p <= q <==> u <= t
  {
    if u <= t {
      assert a * u <= a * t;
    } else {
      assert a * t < a * u;
    }
  }

  /** Of the solutions of `a u + b = +-s`, the one with `+s` is the largest and the
      one with `-s` the smallest. */
  lemma CompareRoots(a: real, b: real, s: real, u: real, t: real)
    requires 0.0 < a && 0.0 <= s
    requires a * u + b == s || a * u + b == -s
    ensures a * t + b == s ==> u <= t
    ensures a * t + b == -s ==> t <= u
  {
    ScalePositive(a, u, t, a * u, a * t);
    ScalePositive(a, t, u, a * t, a * u);
  }
}
