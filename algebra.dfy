/** Small facts of real arithmetic, each proved in a context of its own so
    that the solver's non-linear reasoning stays cheap. */
module RealAlgebra {

  lemma DivIsMul(a: real, p: real)
    requires p != 0.0
    ensures a / p == a * (1.0 / p)
  {
  }

  lemma InvSquare(p: real)
    requires p != 0.0
    ensures 1.0 / (p * p) == (1.0 / p) * (1.0 / p)
  {
  }

  lemma HalfInverse(p: real)
    requires p != 0.0
    ensures (1.0 / p) / 2.0 == 1.0 / (2.0 * p)
  {
  }

  /** 1/p for p >= 1 lies in (0, 1], and in (0, 1/2] for p >= 2. */
  lemma InvBounds(p: real)
    requires p >= 1.0
    ensures 0.0 < 1.0 / p <= 1.0
    ensures p >= 2.0 ==> 1.0 / p <= 0.5
    ensures p >= 4.0 ==> 1.0 / p <= 0.25
  {
  }

  /** (x + qy)^2 - (y + qx)^2 == f (x^2 - y^2) where f == 1 - q^2. */
  lemma HypUp(x: real, y: real, q: real, f: real)
    requires f == 1.0 - q * q
    ensures (x + y * q) * (x + y * q) - (y + x * q) * (y + x * q) == f * (x * x - y * y)
  {
  }

  /** (x - qy)^2 - (y - qx)^2 == f (x^2 - y^2) where f == 1 - q^2. */
  lemma HypDown(x: real, y: real, q: real, f: real)
    requires f == 1.0 - q * q
    ensures (x - y * q) * (x - y * q) - (y - x * q) * (y - x * q) == f * (x * x - y * y)
  {
  }

  /** a * c, kept behind a function symbol so that a product of two compound
      terms is matched as a whole rather than expanded. */
  function Mul(a: real, c: real): real {
    a * c
  }

  lemma PositiveProduct(a: real, c: real)
    requires a > 0.0 && c > 0.0
    ensures Mul(a, c) > 0.0
  {
  }

  lemma NonNegativeProduct(a: real, c: real)
    requires a >= 0.0 && c >= 0.0
    ensures Mul(a, c) >= 0.0
  {
  }

  /** With 0 < q <= 1, the map (x, y) -> (x + qy, y + qx) scales x - y by
      1 - q and x + y by 1 + q, so it keeps the sign of x + y, and keeps
      x > y when q < 1. */
  lemma SectorUp(x: real, y: real, q: real)
    requires 0.0 < q <= 1.0
    ensures q < 1.0 && x > y ==> x + y * q > y + x * q
    ensures x + y > 0.0 ==> (x + y * q) + (y + x * q) > 0.0
    ensures x + y >= 0.0 ==> (x + y * q) + (y + x * q) >= 0.0
  {
    if q < 1.0 && x > y {
      PositiveProduct(x - y, 1.0 - q);
    }
    if x + y > 0.0 {
      PositiveProduct(x + y, 1.0 + q);
    }
    if x + y >= 0.0 {
      NonNegativeProduct(x + y, 1.0 + q);
    }
  }

  /** With 0 < q <= 1, the map (x, y) -> (x - qy, y - qx) scales x - y by
      1 + q and x + y by 1 - q, so it keeps x > y and x + y >= 0, and keeps
      x + y > 0 when q < 1. */
  lemma SectorDown(x: real, y: real, q: real)
    requires 0.0 < q <= 1.0
    ensures x > y ==> x - y * q > y - x * q
    ensures q < 1.0 && x + y > 0.0 ==> (x - y * q) + (y - x * q) > 0.0
    ensures x + y >= 0.0 ==> (x - y * q) + (y - x * q) >= 0.0
  {
    if x > y {
      PositiveProduct(x - y, 1.0 + q);
    }
    if q < 1.0 && x + y > 0.0 {
      PositiveProduct(x + y, 1.0 - q);
    }
    if x + y >= 0.0 {
      NonNegativeProduct(x + y, 1.0 - q);
    }
  }

  /** Multiplying by s twice is multiplying by s^2. */
  lemma MulTwice(a: real, s: real)
    ensures Mul(Mul(a, s), s) == Mul(a, Mul(s, s))
  {
  }

  /** Equal factors give equal products. */
  lemma SameProduct(d: real, p: real, q: real)
    requires p == q
    ensures d * p == d * q
  {
  }

  /** A product of a number in (0, 1] with one in (0, 1) lies in (0, 1). */
  lemma ProductBelow(g: real, f: real)
    requires 0.0 < g <= 1.0 && 0.0 < f < 1.0
    ensures 0.0 < Mul(g, f) < 1.0
  {
    assert g * f < g * 1.0;
  }

  lemma Double(a: real, b: real)
    ensures 2.0 * (a * b) == a * (2.0 * b)
  {
  }

  /** Multiplying a positive square root of g by a positive square root of f
      gives a positive square root of g * f. */
  lemma RootProduct(a: real, s: real, g: real, f: real)
    requires a > 0.0 && Mul(a, a) == g
    requires s > 0.0 && Mul(s, s) == f
    ensures Mul(a, s) > 0.0 && Mul(Mul(a, s), Mul(a, s)) == Mul(g, f)
  {
    assert (a * s) * (a * s) == (a * a) * (s * s);
  }

  /** A non-negative square root of a positive number is positive. */
  lemma PositiveRoot(s: real, f: real)
    requires s >= 0.0 && s * s == f && f > 0.0
    ensures s > 0.0
  {
    assert s * s != 0.0 * 0.0;
  }

  /** A positive number whose square is below 1 is itself below 1. */
  lemma BelowOne(a: real, q: real)
    requires a > 0.0 && Mul(a, a) == q && q < 1.0
    ensures a < 1.0
  {
  }

  /** A positive number divided by a positive number is positive. */
  lemma PositiveQuotient(x: real, g: real)
    requires x > 0.0 && g > 0.0
    ensures x / g > 0.0
  {
  }
}
