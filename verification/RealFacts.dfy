/** Facts about products and quotients of reals that the solver needs one at a time. */
module RealFacts {
  lemma ProductPositive(x: real, y: real)
    requires x > 0.0 && y > 0.0
    ensures x * y > 0.0
  {
  }

  lemma SquareOfNegation(x: real, y: real)
    requires y == -x
    ensures y * y == x * x
  {
    assert x * x + x * y == x * (x + y);
    assert y * y + x * y == y * (x + y);
  }

  lemma SquareSign(x: real, square: real)
    requires square == x * x
    ensures square >= 0.0
    ensures square == 0.0 ==> x == 0.0
  {
    if x != 0.0 {
      assert square / x == x;
    }
  }

  lemma SquareNonNegative(x: real)
    ensures x * x >= 0.0
    ensures x * x == 0.0 ==> x == 0.0
  {
    SquareSign(x, x * x);
  }

  lemma SquareStrict(x: real, y: real)
    requires 0.0 <= x < y
    ensures x * x < y * y
  {
    ProductPositive(y - x, y + x);
    assert (y - x) * (y + x) == y * y - x * x;
  }

  lemma SquareInjective(x: real, y: real)
    requires x >= 0.0 && y >= 0.0 && x * x == y * y
    ensures x == y
  {
    if x < y {
      SquareStrict(x, y);
    } else if y < x {
      SquareStrict(y, x);
    }
  }

  lemma SquareWithin(c: real, d: real)
    requires d >= 0.0 && c * c <= d * d
    ensures -d <= c <= d
  {
    var e := -c;
    SquareOfNegation(c, e);
    if c > d {
      SquareStrict(d, c);
    } else if e > d {
      SquareStrict(d, e);
    }
  }

  lemma QuotientBetween(c: real, d: real)
    requires d > 0.0 && -d <= c <= d
    ensures -1.0 <= c / d <= 1.0
  {
    var q := c / d;
    assert q * d == c;
  }

  lemma QuotientWithin(c: real, d: real)
    requires d > 0.0 && c * c <= d * d
    ensures -1.0 <= c / d <= 1.0
  {
    SquareWithin(c, d);
    QuotientBetween(c, d);
  }

  lemma UnitQuotient(c: real, d: real)
    requires d > 0.0
    ensures c / d == 1.0 || c / d == -1.0 <==> c * c == d * d
  {
    assert c / d * d == c;
    var e := if c < 0.0 then -c else c;
    assert e * e == c * c;
    if c * c == d * d {
      SquareInjective(e, d);
    }
  }

  lemma SameQuotient(c: real, d: real, scale: real)
    requires d > 0.0 && scale > 0.0
    ensures scale * d > 0.0 && scale * c / (scale * d) == c / d
  {
    var q := c / d;
    assert q * d == c;
    ProductPositive(scale, d);
    assert q * (scale * d) == scale * c;
  }

  lemma OppositeQuotient(c: real, d: real)
    requires d > 0.0
    ensures (-c) / d == -(c / d)
  {
    var q := c / d;
    assert q * d == c;
    assert (-q) * d == -c;
  }

  /** Scaling a quotient's parts, the divisor by the absolute value: the sign of the factor remains. */
  lemma QuotientRescaled(c: real, d: real, c2: real, d2: real, scale: real)
    requires d > 0.0 && scale != 0.0 && c2 == Times(scale, c) && d2 == Times(Abs(scale), d)
    ensures d2 > 0.0 && c2 / d2 == if scale > 0.0 then c / d else -(c / d)
  {
    if scale > 0.0 {
      SameQuotient(c, d, scale);
    } else {
      var positive := -scale;
      assert c2 == positive * -c && d2 == positive * d;
      SameQuotient(-c, d, positive);
      OppositeQuotient(c, d);
    }
  }

  lemma QuotientAffine(t: real, n: real, scale: real, shift: real, sum: real)
    requires n > 0.0 && sum == scale * t + n * shift
    ensures sum / n == Affine(scale, t / n, shift)
  {
    var q := t / n;
    assert q * n == t;
    assert (scale * q + shift) * n == scale * (q * n) + n * shift;
  }

  // ----- Products by name, so that a proof can leave their meaning aside -----

  function Times(x: real, y: real): real { x * y }

  function Abs(x: real): real { if x < 0.0 then -x else x }

  function Square(x: real): real { Times(x, x) }

  function Affine(scale: real, x: real, shift: real): real { scale * x + shift }

  /** How far the point (x, y) is from the line with slope q / p through the origin, scaled by p. */
  function Residual(p: real, q: real, x: real, y: real): real { p * y - q * x }

  /** The sum of the squared residuals, from the sums of squares and products of the points. */
  function Expansion(p: real, q: real, va: real, vb: real, c: real): real {
    p * p * vb - 2.0 * p * q * c + q * q * va
  }

  lemma ExpansionStep(p: real, q: real, x: real, y: real, va: real, vb: real, c: real)
    ensures Expansion(p, q, va, vb, c) + Square(Residual(p, q, x, y))
         == Expansion(p, q, va + Square(x), vb + Square(y), c + Times(x, y))
  {
    Expand(p, q, x, y, va, vb, c);
  }

  lemma Expand(p: real, q: real, x: real, y: real, va: real, vb: real, c: real)
    ensures p * p * vb - 2.0 * p * q * c + q * q * va + (p * y - q * x) * (p * y - q * x)
         == p * p * (vb + y * y) - 2.0 * p * q * (c + x * y) + q * q * (va + x * x)
  {
  }

  lemma EmptyExpansion(p: real, q: real)
    ensures Expansion(p, q, 0.0, 0.0, 0.0) == 0.0
  {
  }

  lemma SquareFacts(x: real)
    ensures Square(x) >= 0.0 && (Square(x) == 0.0 <==> x == 0.0)
  {
    SquareNonNegative(x);
  }

  lemma TimesZero(y: real)
    ensures Times(0.0, y) == 0.0
  {
  }

  lemma TimesCommutes(x: real, y: real)
    ensures Times(x, y) == Times(y, x)
  {
  }

  /** Moving and scaling two series scales the product of their deviations. */
  lemma DeviationProduct(x: real, mx: real, s: real, u: real, y: real, my: real, t: real, v: real, c: real)
    ensures Times(Times(s, t), c) + Times(Affine(s, x, u) - Affine(s, mx, u), Affine(t, y, v) - Affine(t, my, v))
         == Times(Times(s, t), c + Times(x - mx, y - my))
  {
    var dx, dy := x - mx, y - my;
    assert Affine(s, x, u) - Affine(s, mx, u) == s * dx && Affine(t, y, v) - Affine(t, my, v) == t * dy;
    assert (s * dx) * (t * dy) == s * t * (dx * dy);
    assert s * t * (c + dx * dy) == s * t * c + s * t * (dx * dy);
  }

  lemma SquareOfAbs(x: real)
    ensures Abs(x) >= 0.0 && Times(Abs(x), Abs(x)) == Times(x, x)
  {
  }

  lemma SquareOfProduct(x: real, y: real)
    ensures Square(Times(x, y)) == Times(Times(x, x), Times(y, y))
  {
    assert (x * y) * (x * y) == (x * x) * (y * y);
  }

  lemma NonNegativeProduct(x: real, y: real)
    requires x >= 0.0 && y >= 0.0
    ensures Times(x, y) >= 0.0
  {
    if x > 0.0 && y > 0.0 {
      ProductPositive(x, y);
    }
  }

  lemma Interchange(a: real, b: real, x: real, y: real)
    ensures Times(Times(a, b), Times(x, y)) == Times(Times(a, x), Times(b, y))
  {
    assert (a * b) * (x * y) == (a * x) * (b * y);
  }

  /** If d is the root of va * vb, then |s * t| * d is the root of (s^2 * va) * (t^2 * vb). */
  lemma ProductRescaled(d: real, s: real, t: real, va: real, vb: real)
    requires d >= 0.0 && Square(d) == Times(va, vb)
    ensures Times(Abs(Times(s, t)), d) >= 0.0
    ensures Square(Times(Abs(Times(s, t)), d)) == Times(Times(Times(s, s), va), Times(Times(t, t), vb))
  {
    hide Times;
    hide Abs;
    var st := Times(s, t);
    SquareOfAbs(st);
    NonNegativeProduct(Abs(st), d);
    SquareOfProduct(Abs(st), d);
    SquareOfProduct(s, t);
    Interchange(Times(s, s), Times(t, t), va, vb);
  }

  lemma Discriminant(va: real, vb: real, c: real)
    requires va >= 0.0 && Expansion(va, c, va, vb, c) >= 0.0
    requires va == 0.0 ==> c == 0.0
    ensures Square(c) <= Times(va, vb)
    ensures va > 0.0 ==> (Expansion(va, c, va, vb, c) == 0.0 <==> Square(c) == Times(va, vb))
  {
    var defect := va * vb - c * c;
    assert Expansion(va, c, va, vb, c) == va * defect;
    if va > 0.0 {
      ProductSign(va, defect, va * defect);
    }
  }

  lemma ProductSign(x: real, y: real, product: real)
    requires x > 0.0 && product == x * y
    ensures product >= 0.0 <==> y >= 0.0
    ensures product == 0.0 <==> y == 0.0
  {
    assert product / x == y;
  }
}
