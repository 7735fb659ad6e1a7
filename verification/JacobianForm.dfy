// Points held as (X, Y, Z) with x = X/Z^2 and y = Y/Z^3, and the polynomial identities that
// make the division-free formulas of ecdsa.c compute the affine sum.

module JacobianForm {
  import opened Field
  import opened PrimeField
  import opened Curves

  ghost predicate Represents(c: Curve, X: int, Y: int, Z: int, q: Point)
    requires c.p > 0
  {
    && q.Affine? && InField(c, q) && Z % c.p != 0
    && Cong(X, q.x * (Z * Z), c.p) && Cong(Y, q.y * (Z * Z * Z), c.p)
  }

  // (X, Y, Z) and (X, Y, -Z) stand for opposite points, and so do (X, Y, Z) and (X, -Y, Z).
  lemma NegatedZ(c: Curve, X: int, Y: int, Z: int, q: Point, Z': int)
    requires ValidCurve(c) && Represents(c, X, Y, Z, q) && Cong(Z', -Z, c.p)
    ensures Represents(c, X, Y, Z', Neg(c, q))
  {
    var p, y := c.p, (-q.y) % c.p;
    CongSelf(-q.y, p);
    NonzeroCong(-Z, Z', p) by { NonzeroNeg(Z, p); CongSym(Z', -Z, p); }
    hide Cong, IsPrime;
    CongMul(Z', -Z, Z', -Z, p);
    CongMul(Z' * Z', (-Z) * (-Z), Z', -Z, p);
    CongRefl(q.x, p);
    CongMul(q.x, q.x, Z' * Z', (-Z) * (-Z), p);
    CongMul(y, -q.y, Z' * Z' * Z', (-Z) * (-Z) * (-Z), p);
    NegPowers(q.x, q.y, Z);
    CongSym(q.x * (Z' * Z'), q.x * (Z * Z), p);
    CongTrans(X, q.x * (Z * Z), q.x * (Z' * Z'), p);
    CongSym(y * (Z' * Z' * Z'), q.y * (Z * Z * Z), p);
    CongTrans(Y, q.y * (Z * Z * Z), y * (Z' * Z' * Z'), p);
  }

  lemma NegatedY(c: Curve, X: int, Y: int, Z: int, q: Point, Y': int)
    requires ValidCurve(c) && Represents(c, X, Y, Z, q) && Cong(Y', -Y, c.p)
    ensures Represents(c, X, Y', Z, Neg(c, q))
  {
    var p, y := c.p, (-q.y) % c.p;
    CongSelf(-q.y, p);
    hide Cong, IsPrime;
    CongRefl(0, p);
    CongAdd(0, 0, Y, q.y * (Z * Z * Z), p);
    CongRefl(Z * Z * Z, p);
    CongMul(y, -q.y, Z * Z * Z, Z * Z * Z, p);
    NegProduct(q.y, Z * Z * Z);
    CongSym(y * (Z * Z * Z), 0 - q.y * (Z * Z * Z), p);
    CongTrans(Y', -Y, 0 - q.y * (Z * Z * Z), p);
    CongTrans(Y', 0 - q.y * (Z * Z * Z), y * (Z * Z * Z), p);
  }

  lemma NegProduct(a: int, b: int)
    ensures (-a) * b == 0 - a * b
  {
  }

  lemma NegPowers(x: int, y: int, z: int)
    ensures x * ((-z) * (-z)) == x * (z * z)
    ensures (-y) * ((-z) * (-z) * (-z)) == y * (z * z * z)
  {
    SquareNegated(z);
    assert (z * z) * (-z) == -(z * z * z);
    assert (-y) * (-(z * z * z)) == y * (z * z * z);
  }

  lemma NonzeroNeg(z: int, p: int)
    requires p > 0 && z % p != 0
    ensures (-z) % p != 0
  {
    if (-z) % p == 0 {
      SmallMod(0, p);
      CongAdd(0, 0, -z, 0, p);
    }
  }

  lemma NonzeroCong(a: int, b: int, p: int)
    requires p > 0 && a % p != 0 && Cong(a, b, p)
    ensures b % p != 0
  {
  }

  // ---------------------------------------------------------------- the common denominator

  lemma TailX(p: int, r: int, l: int, h: int, z: int, s: int, xs: int, x3: int, t: int)
    requires p > 0 && Cong(r, l * (h * z), p) && Cong(xs, s * (z * z), p)
    requires Cong(x3, r * r - xs * (h * h), p) && Cong(t, l * l - s, p)
    ensures Cong(x3, t * ((h * z) * (h * z)), p)
  {
    hide Cong;
    var w := h * z;
    CongMul(r, l * w, r, l * w, p);
    CongRefl(h * h, p);
    CongMul(xs, s * (z * z), h * h, h * h, p);
    CongAdd(r * r, (l * w) * (l * w), xs * (h * h), s * (z * z) * (h * h), p);
    CongRefl(w * w, p);
    CongMul(t, l * l - s, w * w, w * w, p);
    TailXTerms(l, h, z, s);
    CongTrans(x3, r * r - xs * (h * h), (l * l - s) * (w * w), p);
    CongSym(t * (w * w), (l * l - s) * (w * w), p);
    CongTrans(x3, (l * l - s) * (w * w), t * (w * w), p);
  }

  lemma TailXTerms(l: int, h: int, z: int, s: int)
    ensures (l * (h * z)) * (l * (h * z)) - s * (z * z) * (h * h) == (l * l - s) * ((h * z) * (h * z))
  {
    var w := h * z;
    assert (l * w) * (l * w) == (l * l) * (w * w);
    assert w * w == (z * z) * (h * h);
    assert s * (z * z) * (h * h) == s * ((z * z) * (h * h));
  }

  lemma TailY(p: int, r: int, l: int, h: int, z: int, s: int, u: int, xs: int, ys: int, x3: int, y3: int, t: int)
    requires p > 0 && Cong(r, l * (h * z), p) && Cong(xs, s * (z * z), p) && Cong(ys, u * (z * z * z), p)
    requires Cong(x3, t * ((h * z) * (h * z)), p)
    requires Cong(2 * y3, r * (xs * (h * h) - x3 - x3) - ys * (h * h * h), p)
    ensures Cong(2 * y3, (l * (s - 2 * t) - u) * ((h * z) * (h * z) * (h * z)), p)
  {
    hide Cong;
    var w := h * z;
    CongRefl(h * h, p);
    CongRefl(h * h * h, p);
    CongMul(xs, s * (z * z), h * h, h * h, p);
    CongMul(ys, u * (z * z * z), h * h * h, h * h * h, p);
    CongAdd(xs * (h * h), s * (z * z) * (h * h), x3, t * (w * w), p);
    CongAdd(xs * (h * h) - x3, s * (z * z) * (h * h) - t * (w * w), x3, t * (w * w), p);
    var d := s * (z * z) * (h * h) - t * (w * w) - t * (w * w);
    CongMul(r, l * w, xs * (h * h) - x3 - x3, d, p);
    CongAdd(r * (xs * (h * h) - x3 - x3), (l * w) * d, ys * (h * h * h), u * (z * z * z) * (h * h * h), p);
    TailYTerms(l, h, z, s, u, t);
    CongTrans(2 * y3, r * (xs * (h * h) - x3 - x3) - ys * (h * h * h), (l * w) * d - u * (z * z * z) * (h * h * h), p);
  }

  lemma TailYTerms(l: int, h: int, z: int, s: int, u: int, t: int)
    ensures var w := h * z;
      (l * w) * (s * (z * z) * (h * h) - t * (w * w) - t * (w * w)) - u * (z * z * z) * (h * h * h)
      == (l * (s - 2 * t) - u) * (w * w * w)
  {
    var w := h * z;
    Cubes(h, z);
    assert s * (z * z) * (h * h) == s * (w * w);
    assert u * (z * z * z) * (h * h * h) == u * (w * w * w);
    Factored(l, w, w * w, s, t, u);
  }

  lemma Cubes(h: int, z: int)
    ensures (z * z) * (h * h) == (h * z) * (h * z) && (z * z * z) * (h * h * h) == (h * z) * (h * z) * (h * z)
  {
    assert (z * z) * (h * h) == (h * z) * (h * z);
    assert (z * z * z) * (h * h * h) == ((z * z) * (h * h)) * (h * z);
  }

  lemma Factored(l: int, w: int, v: int, s: int, t: int, u: int)
    ensures (l * w) * (s * v - t * v - t * v) - u * (v * w) == (l * (s - 2 * t) - u) * (v * w)
  {
    assert s * v - t * v - t * v == (s - 2 * t) * v;
    assert (l * w) * ((s - 2 * t) * v) == (l * (s - 2 * t)) * (v * w);
  }

  // ---------------------------------------------------------------- sums

  // The residues point_jacobian_add computes first: r / (h*z) will be the slope, xs and ys the
  // sums of the coordinates over the common denominator.
  datatype Fraction = Fraction(r: int, h: int, xs: int, ys: int)

  function Tangent(c: Curve, X: int, zz: int): int
    requires c.p > 0
  {
    var m := Mul(3, Mul(X, X, c.p), c.p);
    if c.a != 0 then Sub(m, Mul(-c.a, Mul(zz, zz, c.p), c.p), c.p) else m
  }

  function AddFraction(c: Curve, x1: int, y1: int, X: int, Y: int, Z: int): Fraction
    requires c.p > 0
  {
    var zz := Mul(Z, Z, c.p);
    var x, y := Mul(x1, zz, c.p), Mul(y1, Mul(zz, Z, c.p), c.p);
    var h, ys := Sub(x, X, c.p), Add(y, Y, c.p);
    if h == 0 then Fraction(Tangent(c, X, zz), ys, Add(x, X, c.p), ys)
    else Fraction(Sub(y, Y, c.p), h, Add(x, X, c.p), ys)
  }

  ghost predicate FractionOf(c: Curve, q: Point, r: Point, l: int, Z: int, f: Fraction)
    requires c.p > 0 && q.Affine? && r.Affine?
  {
    && Cong(f.r, l * (f.h * Z), c.p) && f.h % c.p != 0
    && Cong(f.xs, (q.x + r.x) * (Z * Z), c.p) && Cong(f.ys, (q.y + r.y) * (Z * Z * Z), c.p)
  }

  // Both coordinates over the denominators Z^2 and Z^3.
  lemma CommonDenominator(p: int, x1: int, y1: int, Z: int)
    requires p > 0
    ensures var zz := Mul(Z, Z, p);
      && Cong(zz, Z * Z, p)
      && Cong(Mul(x1, zz, p), x1 * (Z * Z), p)
      && Cong(Mul(y1, Mul(zz, Z, p), p), y1 * (Z * Z * Z), p)
  {
    hide Cong, Mul;
    CongRefl(Z, p);
    CongRefl(x1, p);
    CongRefl(y1, p);
    MulCong(Z, Z, Z, Z, p);
    var zz := Mul(Z, Z, p);
    MulCong(zz, Z * Z, Z, Z, p);
    MulCong(x1, x1, zz, Z * Z, p);
    MulCong(y1, y1, Mul(zz, Z, p), Z * Z * Z, p);
  }

  lemma ScaledDifference(p: int, a: int, b: int, w: int, s: int, t: int)
    requires p > 0 && Cong(s, a * w, p) && Cong(t, b * w, p)
    ensures Cong(Sub(s, t, p), (a - b) * w, p) && Cong(Add(s, t, p), (a + b) * w, p)
  {
    hide Cong, Add, Sub;
    SumCong(s, a * w, t, b * w, p);
    assert (a - b) * w == a * w - b * w && (a + b) * w == a * w + b * w;
  }

  lemma DifferenceZero(p: int, a: int, b: int, w: int, d: int)
    requires IsPrime(p) && 0 <= a < p && 0 <= b < p && w % p != 0 && Cong(d, (a - b) * w, p)
    ensures d % p == 0 <==> a == b
  {
    if a == b {
      assert (a - b) * w == 0;
      SmallMod(0, p);
    } else {
      DifferenceNonzero(a, b, p);
      NoZeroDivisors(a - b, w, p);
    }
  }

  // The chord: r = (y1 - y2)*Z^3 and h = (x1 - x2)*Z^2.
  lemma ChordFraction(p: int, l: int, dx: int, dy: int, Z: int, r: int, h: int)
    requires p > 0 && Cong(l * dx, dy, p) && Cong(r, dy * (Z * Z * Z), p) && Cong(h, dx * (Z * Z), p)
    ensures Cong(r, l * (h * Z), p)
  {
    hide Cong;
    CongRefl(Z * Z * Z, p);
    CongRefl(l * Z, p);
    CongMul(l * dx, dy, Z * Z * Z, Z * Z * Z, p);
    CongMul(h, dx * (Z * Z), l * Z, l * Z, p);
    ChordTerms(l, dx, Z, h);
    CongSym(h * (l * Z), (dx * (Z * Z)) * (l * Z), p);
    CongSym((l * dx) * (Z * Z * Z), dy * (Z * Z * Z), p);
    CongTrans(r, dy * (Z * Z * Z), (l * dx) * (Z * Z * Z), p);
    CongTrans(r, (dx * (Z * Z)) * (l * Z), h * (l * Z), p);
  }

  lemma ChordTerms(l: int, dx: int, Z: int, h: int)
    ensures (l * dx) * (Z * Z * Z) == (dx * (Z * Z)) * (l * Z) && h * (l * Z) == l * (h * Z)
  {
    assert (dx * (Z * Z)) * (l * Z) == (dx * l) * ((Z * Z) * Z);
  }

  // The tangent's numerator over Z^4.
  lemma TangentScaled(c: Curve, x: int, X: int, zz: int, Z: int)
    requires c.p > 0 && Cong(X, x * (Z * Z), c.p) && Cong(zz, Z * Z, c.p)
    ensures Cong(Tangent(c, X, zz), (3 * x * x + c.a) * ((Z * Z) * (Z * Z)), c.p)
  {
    var p, w := c.p, Z * Z;
    hide Cong, Mul, Sub;
    CongRefl(3, p);
    CongRefl(-c.a, p);
    MulCong(X, x * w, X, x * w, p);
    MulCong(3, 3, Mul(X, X, p), (x * w) * (x * w), p);
    MulCong(zz, w, zz, w, p);
    MulCong(-c.a, -c.a, Mul(zz, zz, p), w * w, p);
    SumCong(Mul(3, Mul(X, X, p), p), 3 * ((x * w) * (x * w)), Mul(-c.a, Mul(zz, zz, p), p), (-c.a) * (w * w), p);
    TangentTerms(x, c.a, w);
  }

  lemma TangentTerms(x: int, a: int, w: int)
    ensures 3 * ((x * w) * (x * w)) - (-a) * (w * w) == (3 * x * x + a) * (w * w)
    ensures a == 0 ==> 3 * ((x * w) * (x * w)) == (3 * x * x + a) * (w * w)
  {
    assert (x * w) * (x * w) == (x * x) * (w * w);
    assert (-a) * (w * w) == -(a * (w * w));
  }

  // r = (3*x^2 + a)*Z^4 and h = 2*y*Z^3.
  lemma TangentFraction(p: int, l: int, n: int, y: int, Z: int, r: int, h: int)
    requires p > 0 && Cong(l * (2 * y), n, p) && Cong(r, n * ((Z * Z) * (Z * Z)), p)
    requires Cong(h, (y + y) * (Z * Z * Z), p)
    ensures Cong(r, l * (h * Z), p)
  {
    hide Cong;
    var w := (Z * Z) * (Z * Z);
    CongRefl(w, p);
    CongRefl(l * Z, p);
    CongMul(l * (2 * y), n, w, w, p);
    CongMul(h, (y + y) * (Z * Z * Z), l * Z, l * Z, p);
    TangentEnds(l, y, Z, h);
    CongSym(h * (l * Z), ((y + y) * (Z * Z * Z)) * (l * Z), p);
    CongSym((l * (2 * y)) * w, n * w, p);
    CongTrans(r, n * w, (l * (2 * y)) * w, p);
    CongTrans(r, ((y + y) * (Z * Z * Z)) * (l * Z), h * (l * Z), p);
  }

  lemma TangentEnds(l: int, y: int, Z: int, h: int)
    ensures (l * (2 * y)) * ((Z * Z) * (Z * Z)) == ((y + y) * (Z * Z * Z)) * (l * Z)
    ensures h * (l * Z) == l * (h * Z)
  {
    var v := Z * Z * Z;
    assert (Z * Z) * (Z * Z) == v * Z;
    assert ((y + y) * v) * (l * Z) == (l * (y + y)) * (v * Z);
  }

  // The branch-free choice between chord and tangent: is_doubling is exactly x1 = x2.
  lemma FractionCorrect(c: Curve, q: Point, r: Point, X: int, Y: int, Z: int, l: int)
    requires ValidCurve(c) && InField(c, q) && q.Affine? && Represents(c, X, Y, Z, r)
    requires q.x == r.x ==> q.y == r.y && q.y != 0
    requires IsSlope(c, q, r, l)
    ensures FractionOf(c, q, r, l, Z, AddFraction(c, q.x, q.y, X, Y, Z))
  {
    var p, zz := c.p, Mul(Z, Z, c.p);
    var x, y := Mul(q.x, zz, p), Mul(q.y, Mul(zz, Z, p), p);
    CommonDenominator(p, q.x, q.y, Z);
    ScaledDifference(p, q.x, r.x, Z * Z, x, X);
    ScaledDifference(p, q.y, r.y, Z * Z * Z, y, Y);
    TangentScaled(c, r.x, X, zz, Z);
    PowersNonzero(Z, p);
    DifferenceZero(p, q.x, r.x, Z * Z, Sub(x, X, p));
    SubSmall(x, X, p);
    hide Cong, Mul, Sub, Add, Tangent, IsPrime;
    if q.x == r.x {
      DoubledNonzero(q.y, Z, Add(y, Y, p), p);
      TangentFraction(p, l, 3 * q.x * q.x + c.a, q.y, Z, Tangent(c, X, zz), Add(y, Y, p));
    } else {
      ChordFraction(p, l, q.x - r.x, q.y - r.y, Z, Sub(y, Y, p), Sub(x, X, p));
    }
  }

  // Opposite points: the sum h of the two y coordinates vanishes.
  lemma FractionVanishes(c: Curve, q: Point, r: Point, X: int, Y: int, Z: int)
    requires ValidCurve(c) && InField(c, q) && q.Affine? && Represents(c, X, Y, Z, r)
    requires q.x == r.x && Cong(q.y + r.y, 0, c.p)
    ensures AddFraction(c, q.x, q.y, X, Y, Z).h == 0
  {
    var p, zz := c.p, Mul(Z, Z, c.p);
    var x, y := Mul(q.x, zz, p), Mul(q.y, Mul(zz, Z, p), p);
    CommonDenominator(p, q.x, q.y, Z);
    ScaledDifference(p, q.x, r.x, Z * Z, x, X);
    ScaledDifference(p, q.y, r.y, Z * Z * Z, y, Y);
    PowersNonzero(Z, p);
    DifferenceZero(p, q.x, r.x, Z * Z, Sub(x, X, p));
    SubSmall(x, X, p);
    CongSelf(y + Y, p);
    SmallMod(0, p);
    CongMul(q.y + r.y, 0, Z * Z * Z, Z * Z * Z, p);
    assert 0 * (Z * Z * Z) == 0;
    CongSmall(Add(y, Y, p), 0, p);
  }

  lemma SubSmall(x: int, y: int, p: int)
    requires p > 0
    ensures Sub(x, y, p) % p == Sub(x, y, p)
  {
    CongSelf(x - y, p);
  }

  lemma PowersNonzero(Z: int, p: int)
    requires IsPrime(p) && Z % p != 0
    ensures (Z * Z) % p != 0 && (Z * Z * Z) % p != 0
  {
    NoZeroDivisors(Z, Z, p);
    NoZeroDivisors(Z * Z, Z, p);
  }

  lemma DoubledNonzero(y: int, Z: int, h: int, p: int)
    requires IsPrime(p) && p > 3 && 0 < y < p && Z % p != 0 && Cong(h, (y + y) * (Z * Z * Z), p)
    ensures h % p != 0
  {
    PowersNonzero(Z, p);
    TwiceNonzero(y, p);
    NoZeroDivisors(y + y, Z * Z * Z, p);
  }

  // The point the code leaves: x3, y3, z3 computed from the fraction.
  ghost predicate AddResult(p: int, f: Fraction, Z: int, x3: int, y3: int, z3: int)
    requires p > 0
  {
    var hx := Mul(f.xs, Mul(f.h, f.h, p), p);
    && z3 == Mul(f.h, Z, p)
    && x3 == Sub(Mul(f.r, f.r, p), hx, p)
    && Cong(2 * y3, Sub(Mul(f.r, Sub(Sub(hx, x3, p), x3, p), p), Mul(f.ys, Mul(Mul(f.h, f.h, p), f.h, p), p), p), p)
  }

  lemma ResultCongs(p: int, f: Fraction, Z: int, x3: int, y3: int, z3: int)
    requires p > 0 && AddResult(p, f, Z, x3, y3, z3)
    ensures Cong(z3, f.h * Z, p) && Cong(x3, f.r * f.r - f.xs * (f.h * f.h), p)
    ensures Cong(2 * y3, f.r * (f.xs * (f.h * f.h) - x3 - x3) - f.ys * (f.h * f.h * f.h), p)
  {
    hide Cong, Mul, Sub;
    var r, h := f.r, f.h;
    CongRefl(r, p);
    CongRefl(h, p);
    CongRefl(Z, p);
    CongRefl(f.xs, p);
    CongRefl(f.ys, p);
    CongRefl(x3, p);
    MulCong(h, h, Z, Z, p);
    MulCong(h, h, h, h, p);
    MulCong(r, r, r, r, p);
    MulCong(f.xs, f.xs, Mul(h, h, p), h * h, p);
    MulCong(Mul(h, h, p), h * h, h, h, p);
    MulCong(f.ys, f.ys, Mul(Mul(h, h, p), h, p), h * h * h, p);
    var hx, hy := Mul(f.xs, Mul(h, h, p), p), Mul(f.ys, Mul(Mul(h, h, p), h, p), p);
    SumCong(Mul(r, r, p), r * r, hx, f.xs * (h * h), p);
    SumCong(hx, f.xs * (h * h), x3, x3, p);
    SumCong(Sub(hx, x3, p), f.xs * (h * h) - x3, x3, x3, p);
    var d := Sub(Sub(hx, x3, p), x3, p);
    MulCong(r, r, d, f.xs * (h * h) - x3 - x3, p);
    SumCong(Mul(r, d, p), r * (f.xs * (h * h) - x3 - x3), hy, f.ys * (h * h * h), p);
    CongTrans(2 * y3, Sub(Mul(r, d, p), hy, p), r * (f.xs * (h * h) - x3 - x3) - f.ys * (h * h * h), p);
  }

  // The reflected third point, twice its y coordinate written symmetrically.
  lemma TwiceY(c: Curve, q: Point, r: Point, l: int)
    requires c.p > 0 && q.Affine? && r.Affine? && IsSlope(c, q, r, l) && (q.x == r.x ==> q.y == r.y)
    ensures var s := Third(c, q, r, l);
      Cong(2 * s.y, l * (q.x + r.x - 2 * s.x) - (q.y + r.y), c.p)
  {
    var s, p := Third(c, q, r, l), c.p;
    var v := l * (q.x - s.x) - q.y;
    CongSelf(v, p);
    CongMul(2, 2, s.y, v, p);
    var e, d := l * (q.x - r.x), q.y - r.y;
    assert Cong(e, d, p) by {
      if q.x == r.x {
        assert e == 0;
      }
    }
    CongAdd(2 * v, 2 * v, e, d, p);
    CongAdd(2 * v - e, 2 * v - d, d, d, p);
    TwiceYTerms(l, q.x, r.x, s.x, q.y, r.y);
  }

  lemma TwiceYTerms(l: int, x1: int, x2: int, x: int, y1: int, y2: int)
    ensures 2 * (l * (x1 - x) - y1) - l * (x1 - x2) + (y1 - y2) == l * (x1 + x2 - 2 * x) - (y1 + y2)
  {
    assert l * (x1 + x2 - 2 * x) == 2 * (l * (x1 - x)) - l * (x1 - x2);
  }

  lemma AddCorrect(c: Curve, q: Point, r: Point, l: int, Z: int, f: Fraction, x3: int, y3: int, z3: int)
    requires ValidCurve(c) && InField(c, q) && InField(c, r) && q.Affine? && r.Affine? && Z % c.p != 0
    requires q.x == r.x ==> q.y == r.y
    requires IsSlope(c, q, r, l) && FractionOf(c, q, r, l, Z, f) && AddResult(c.p, f, Z, x3, y3, z3)
    ensures Represents(c, x3, y3, z3, Third(c, q, r, l))
  {
    var p, s := c.p, Third(c, q, r, l);
    CongSelf(l * l - q.x - r.x, p);
    CongSelf(l * (q.x - s.x) - q.y, p);
    hide Cong, IsSlope, AddResult, IsPrime, Third;
    ResultCongs(p, f, Z, x3, y3, z3);
    TwiceY(c, q, r, l);
    NoZeroDivisors(f.h, Z, p);
    TailX(p, f.r, l, f.h, Z, q.x + r.x, f.xs, x3, s.x);
    TailY(p, f.r, l, f.h, Z, q.x + r.x, q.y + r.y, f.xs, f.ys, x3, y3, s.x);
    HalveY(p, s.y, l * (q.x + r.x - 2 * s.x) - (q.y + r.y), f.h * Z, y3);
    ChangeZ(p, s.x, s.y, f.h * Z, z3, x3, y3);
  }

  lemma HalveY(p: int, y: int, d: int, w: int, y3: int)
    requires IsPrime(p) && p > 3 && Cong(2 * y, d, p) && Cong(2 * y3, d * (w * w * w), p)
    ensures Cong(y3, y * (w * w * w), p)
  {
    SmallMod(2, p);
    hide Cong, IsPrime;
    CongRefl(w * w * w, p);
    CongMul(2 * y, d, w * w * w, w * w * w, p);
    assert (2 * y) * (w * w * w) == 2 * (y * (w * w * w));
    CongSym(2 * (y * (w * w * w)), d * (w * w * w), p);
    CongTrans(2 * y3, d * (w * w * w), 2 * (y * (w * w * w)), p);
    Cancel(2, y3, y * (w * w * w), p);
  }

  lemma ChangeZ(p: int, x: int, y: int, w: int, z: int, x3: int, y3: int)
    requires p > 0 && w % p != 0 && Cong(z, w, p) && Cong(x3, x * (w * w), p) && Cong(y3, y * (w * w * w), p)
    ensures z % p != 0 && Cong(x3, x * (z * z), p) && Cong(y3, y * (z * z * z), p)
  {
    CongMul(w, z, w, z, p);
    CongMul(w * w, z * z, w, z, p);
    CongMul(x, x, w * w, z * z, p);
    CongMul(y, y, w * w * w, z * z * z, p);
  }

  // ---------------------------------------------------------------- doubling

  // What point_jacobian_double leaves, m being half the tangent's numerator.
  ghost predicate DoubleResult(p: int, m: int, X: int, Y: int, Z: int, x3: int, y3: int, z3: int)
    requires p > 0
  {
    var ysq := Mul(Y, Y, p);
    var xysq := Mul(ysq, X, p);
    && z3 == Mul(Y, Z, p)
    && x3 == Sub(Mul(m, m, p), Mul(2, xysq, p), p)
    && y3 == Sub(Mul(m, Sub(xysq, x3, p), p), Mul(ysq, ysq, p), p)
  }

  lemma DoubleCongs(p: int, m: int, X: int, Y: int, Z: int, x3: int, y3: int, z3: int)
    requires p > 0 && DoubleResult(p, m, X, Y, Z, x3, y3, z3)
    ensures Cong(z3, Y * Z, p) && Cong(x3, m * m - 2 * ((Y * Y) * X), p)
    ensures Cong(y3, m * ((Y * Y) * X - x3) - (Y * Y) * (Y * Y), p)
  {
    hide Cong, Mul, Sub;
    CongRefl(m, p);
    CongRefl(X, p);
    CongRefl(Y, p);
    CongRefl(Z, p);
    CongRefl(2, p);
    CongRefl(x3, p);
    var ysq := Mul(Y, Y, p);
    var xysq := Mul(ysq, X, p);
    MulCong(Y, Y, Z, Z, p);
    MulCong(Y, Y, Y, Y, p);
    MulCong(ysq, Y * Y, X, X, p);
    MulCong(ysq, Y * Y, ysq, Y * Y, p);
    MulCong(m, m, m, m, p);
    MulCong(2, 2, xysq, (Y * Y) * X, p);
    SumCong(Mul(m, m, p), m * m, Mul(2, xysq, p), 2 * ((Y * Y) * X), p);
    SumCong(xysq, (Y * Y) * X, x3, x3, p);
    MulCong(m, m, Sub(xysq, x3, p), (Y * Y) * X - x3, p);
    SumCong(Mul(m, Sub(xysq, x3, p), p), m * ((Y * Y) * X - x3), Mul(ysq, ysq, p), (Y * Y) * (Y * Y), p);
  }

  // m / (Y*Z) is the slope of the tangent.
  lemma DoubleSlope(c: Curve, q: Point, l: int, m: int, X: int, Y: int, Z: int)
    requires ValidCurve(c) && q.Affine? && IsSlope(c, q, q, l) && Represents(c, X, Y, Z, q)
    requires Cong(2 * m, (3 * q.x * q.x + c.a) * ((Z * Z) * (Z * Z)), c.p)
    ensures Cong(m, l * (Y * Z), c.p)
  {
    var p := c.p;
    SmallMod(2, p);
    hide Cong, IsPrime;
    CongRefl(2, p);
    CongMul(2, 2, Y, q.y * (Z * Z * Z), p);
    assert 2 * (q.y * (Z * Z * Z)) == (q.y + q.y) * (Z * Z * Z);
    TangentFraction(p, l, 3 * q.x * q.x + c.a, q.y, Z, 2 * m, 2 * Y);
    assert l * ((2 * Y) * Z) == 2 * (l * (Y * Z));
    Cancel(2, m, l * (Y * Z), p);
  }

  lemma DoubleX(p: int, l: int, x: int, m: int, X: int, Y: int, Z: int, x3: int, t: int)
    requires p > 0 && Cong(m, l * (Y * Z), p) && Cong(X, x * (Z * Z), p)
    requires Cong(x3, m * m - 2 * ((Y * Y) * X), p) && Cong(t, l * l - x - x, p)
    ensures Cong((Y * Y) * X, x * ((Y * Z) * (Y * Z)), p)
    ensures Cong(x3, t * ((Y * Z) * (Y * Z)), p)
  {
    hide Cong;
    var w := Y * Z;
    CongRefl(Y * Y, p);
    CongRefl(2, p);
    CongRefl(w * w, p);
    CongMul(Y * Y, Y * Y, X, x * (Z * Z), p);
    Cubes(Y, Z);
    assert (Y * Y) * (x * (Z * Z)) == x * (w * w);
    CongMul(m, l * w, m, l * w, p);
    CongMul(2, 2, (Y * Y) * X, x * (w * w), p);
    CongAdd(m * m, (l * w) * (l * w), 2 * ((Y * Y) * X), 2 * (x * (w * w)), p);
    CongMul(t, l * l - x - x, w * w, w * w, p);
    DoubleXTerms(l, w, x);
    CongTrans(x3, m * m - 2 * ((Y * Y) * X), (l * l - x - x) * (w * w), p);
    CongSym(t * (w * w), (l * l - x - x) * (w * w), p);
    CongTrans(x3, (l * l - x - x) * (w * w), t * (w * w), p);
  }

  lemma DoubleXTerms(l: int, w: int, x: int)
    ensures (l * w) * (l * w) - 2 * (x * (w * w)) == (l * l - x - x) * (w * w)
  {
    assert (l * w) * (l * w) == (l * l) * (w * w);
  }

  lemma DoubleY(p: int, l: int, x: int, y: int, m: int, X: int, Y: int, Z: int, x3: int, y3: int, t: int, u: int)
    requires p > 0 && Cong(m, l * (Y * Z), p) && Cong(Y, y * (Z * Z * Z), p)
    requires Cong((Y * Y) * X, x * ((Y * Z) * (Y * Z)), p) && Cong(x3, t * ((Y * Z) * (Y * Z)), p)
    requires Cong(y3, m * ((Y * Y) * X - x3) - (Y * Y) * (Y * Y), p) && Cong(u, l * (x - t) - y, p)
    ensures Cong(y3, u * ((Y * Z) * (Y * Z) * (Y * Z)), p)
  {
    hide Cong;
    var w := Y * Z;
    CongAdd((Y * Y) * X, x * (w * w), x3, t * (w * w), p);
    CongMul(m, l * w, (Y * Y) * X - x3, x * (w * w) - t * (w * w), p);
    CongRefl((Y * Y) * Y, p);
    CongMul((Y * Y) * Y, (Y * Y) * Y, Y, y * (Z * Z * Z), p);
    Cubes(Y, Z);
    assert ((Y * Y) * Y) * Y == (Y * Y) * (Y * Y);
    assert ((Y * Y) * Y) * (y * (Z * Z * Z)) == y * (w * w * w);
    var d := x * (w * w) - t * (w * w);
    CongAdd(m * ((Y * Y) * X - x3), (l * w) * d, (Y * Y) * (Y * Y), y * (w * w * w), p);
    CongRefl(w * w * w, p);
    CongMul(u, l * (x - t) - y, w * w * w, w * w * w, p);
    DoubleYTerms(l, w, w * w, x, t, y);
    CongTrans(y3, m * ((Y * Y) * X - x3) - (Y * Y) * (Y * Y), (l * (x - t) - y) * (w * w * w), p);
    CongSym(u * (w * w * w), (l * (x - t) - y) * (w * w * w), p);
    CongTrans(y3, (l * (x - t) - y) * (w * w * w), u * (w * w * w), p);
  }

  lemma DoubleYTerms(l: int, w: int, v: int, x: int, t: int, y: int)
    ensures (l * w) * (x * v - t * v) - y * (v * w) == (l * (x - t) - y) * (v * w)
  {
    assert x * v - t * v == (x - t) * v;
    assert (l * w) * ((x - t) * v) == (l * (x - t)) * (v * w);
  }

  lemma DoubleCorrect(c: Curve, q: Point, l: int, m: int, X: int, Y: int, Z: int, x3: int, y3: int, z3: int)
    requires ValidCurve(c) && q.Affine? && q.y != 0 && IsSlope(c, q, q, l) && Represents(c, X, Y, Z, q)
    requires Cong(2 * m, (3 * q.x * q.x + c.a) * ((Z * Z) * (Z * Z)), c.p)
    requires DoubleResult(c.p, m, X, Y, Z, x3, y3, z3)
    ensures Represents(c, x3, y3, z3, Third(c, q, q, l))
  {
    var p, s := c.p, Third(c, q, q, l);
    DoubleCongs(p, m, X, Y, Z, x3, y3, z3);
    CongSelf(l * l - q.x - q.x, p);
    CongSelf(l * (q.x - s.x) - q.y, p);
    YNonzero(p, q.y, Z, Y);
    NoZeroDivisors(Y, Z, p);
    DoubleSlope(c, q, l, m, X, Y, Z);
    hide Cong, IsSlope, DoubleResult, IsPrime, Third;
    DoubleX(p, l, q.x, m, X, Y, Z, x3, s.x);
    DoubleY(p, l, q.x, q.y, m, X, Y, Z, x3, y3, s.x, s.y);
    ChangeZ(p, s.x, s.y, Y * Z, z3, x3, y3);
  }

  lemma YNonzero(p: int, y: int, Z: int, Y: int)
    requires IsPrime(p) && 0 < y < p && Z % p != 0 && Cong(Y, y * (Z * Z * Z), p)
    ensures Y % p != 0
  {
    PowersNonzero(Z, p);
    SmallMod(y, p);
    NoZeroDivisors(y, Z * Z * Z, p);
  }
}
