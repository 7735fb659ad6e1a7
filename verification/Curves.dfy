// The curve y^2 = x^3 + a*x + b over a prime field, and its chord-and-tangent addition.

module Curves {
  import opened Field
  import opened PrimeField

  datatype Curve = Curve(p: int, a: int, b: int)

  datatype Point = Infinity | Affine(x: int, y: int)

  // The parameters ecdsa.c handles: -3 <= a <= 0, and (0, 0) off the curve because it stands
  // for the point at infinity.
  ghost predicate ValidCurve(c: Curve) {
    IsPrime(c.p) && c.p > 3 && -3 <= c.a <= 0 && c.b % c.p != 0
  }

  ghost predicate InField(c: Curve, q: Point) {
    q.Affine? ==> 0 <= q.x < c.p && 0 <= q.y < c.p
  }

  ghost predicate OnCurve(c: Curve, q: Point)
    requires c.p > 0
  {
    InField(c, q) && (q.Affine? ==> Cong(q.y * q.y, q.x * q.x * q.x + c.a * q.x + c.b, c.p))
  }

  lemma OriginOffCurve(c: Curve)
    requires ValidCurve(c)
    ensures !OnCurve(c, Affine(0, 0))
  {
    SmallMod(0, c.p);
    assert c.a * 0 == 0;
  }

  function Neg(c: Curve, q: Point): Point
    requires c.p > 0
  {
    match q
    case Infinity => Infinity
    case Affine(x, y) => Affine(x, (-y) % c.p)
  }

  // The slope of the chord through two points, or of the tangent when they coincide.
  ghost predicate IsSlope(c: Curve, q: Point, r: Point, l: int)
    requires c.p > 0 && q.Affine? && r.Affine?
  {
    if q.x == r.x then Cong(l * (2 * q.y), 3 * q.x * q.x + c.a, c.p) else Cong(l * (q.x - r.x), q.y - r.y, c.p)
  }

  ghost function Slope(c: Curve, q: Point, r: Point): (l: int)
    requires ValidCurve(c) && InField(c, q) && InField(c, r) && q.Affine? && r.Affine?
    requires q.x == r.x ==> q.y == r.y && q.y != 0
    ensures IsSlope(c, q, r, l)
  {
    if q.x == r.x then
      TwiceNonzero(q.y, c.p);
      DivideOut(2 * q.y, 3 * q.x * q.x + c.a, c.p);
      (3 * q.x * q.x + c.a) * Inverse(2 * q.y, c.p)
    else
      DifferenceNonzero(q.x, r.x, c.p);
      DivideOut(q.x - r.x, q.y - r.y, c.p);
      (q.y - r.y) * Inverse(q.x - r.x, c.p)
  }

  lemma TwiceNonzero(y: int, p: int)
    requires IsPrime(p) && p > 3 && 0 < y < p
    ensures (2 * y) % p != 0
  {
    SmallMod(2, p);
    SmallMod(y, p);
    NoZeroDivisors(2, y, p);
  }

  lemma DifferenceNonzero(x: int, y: int, p: int)
    requires 0 <= x < p && 0 <= y < p && x != y
    ensures (x - y) % p != 0
  {
    if (x - y) % p == 0 {
      SmallMod(0, p);
      CongAdd(x - y, 0, y, y, p);
      CongSmall(x, y, p);
    }
  }

  lemma DivideOut(d: int, n: int, p: int)
    requires IsPrime(p) && d % p != 0
    ensures Cong((n * Inverse(d, p)) * d, n, p)
  {
    CongMul(d * Inverse(d, p), 1, n, n, p);
    assert (n * Inverse(d, p)) * d == (d * Inverse(d, p)) * n;
  }

  // The third point of the line through q with slope l, reflected.
  function Third(c: Curve, q: Point, r: Point, l: int): (s: Point)
    requires c.p > 0 && q.Affine? && r.Affine?
    ensures s.Affine?
  {
    var x := (l * l - q.x - r.x) % c.p;
    Affine(x, (l * (q.x - x) - q.y) % c.p)
  }

  ghost function Sum(c: Curve, q: Point, r: Point): (s: Point)
    requires ValidCurve(c) && InField(c, q) && InField(c, r)
    ensures InField(c, s)
  {
    if q.Infinity? then r
    else if r.Infinity? then q
    else if q.x == r.x && (q.y != r.y || q.y == 0) then Infinity
    else
      Third(c, q, r, Slope(c, q, r))
  }

  // Any slope will do.
  lemma SumBySlope(c: Curve, q: Point, r: Point, l: int)
    requires ValidCurve(c) && InField(c, q) && InField(c, r) && q.Affine? && r.Affine?
    requires q.x == r.x ==> q.y == r.y && q.y != 0
    requires IsSlope(c, q, r, l)
    ensures Sum(c, q, r) == Third(c, q, r, l)
  {
    var m := Slope(c, q, r);
    var d := if q.x == r.x then 2 * q.y else q.x - r.x;
    if q.x == r.x {
      TwiceNonzero(q.y, c.p);
    } else {
      DifferenceNonzero(q.x, r.x, c.p);
    }
    assert l * d == d * l && m * d == d * m;
    Cancel(d, l, m, c.p);
    ThirdCong(c, q, r, l, m);
  }

  lemma ThirdCong(c: Curve, q: Point, r: Point, l: int, m: int)
    requires c.p > 0 && q.Affine? && r.Affine? && Cong(l, m, c.p)
    ensures Third(c, q, r, l) == Third(c, q, r, m)
  {
    CongMul(l, m, l, m, c.p);
    CongAdd(l * l, m * m, -q.x - r.x, -q.x - r.x, c.p);
    var x := (l * l - q.x - r.x) % c.p;
    CongMul(l, m, q.x - x, q.x - x, c.p);
    CongAdd(l * (q.x - x), m * (q.x - x), q.y, q.y, c.p);
  }

  // ---------------------------------------------------------------- the group

  lemma SumInverse(c: Curve, q: Point)
    requires ValidCurve(c) && InField(c, q)
    ensures InField(c, Neg(c, q)) && Sum(c, q, Neg(c, q)) == Infinity
    ensures Sum(c, q, Infinity) == q && Sum(c, Infinity, q) == q
  {
    match q
    case Infinity =>
    case Affine(x, y) =>
      CongSelf(-y, c.p);
      if y == (-y) % c.p {
        CongAdd(y, -y, y, y, c.p);
        TwiceZero(y, c.p);
      }
  }

  lemma TwiceZero(y: int, p: int)
    requires IsPrime(p) && p > 3 && 0 <= y < p && Cong(y + y, -y + y, p)
    ensures y == 0
  {
    SmallMod(0, p);
    if y != 0 {
      TwiceNonzero(y, p);
    }
  }

  lemma NegOnCurve(c: Curve, q: Point)
    requires ValidCurve(c) && OnCurve(c, q)
    ensures OnCurve(c, Neg(c, q))
  {
    match q
    case Infinity =>
    case Affine(x, y) =>
      NegSquare(y, c.p);
  }

  lemma NegSquare(y: int, p: int)
    requires p > 0
    ensures 0 <= (-y) % p < p && Cong(((-y) % p) * ((-y) % p), y * y, p)
  {
    CongSelf(-y, p);
    hide Cong;
    CongMul((-y) % p, -y, (-y) % p, -y, p);
    SquareNegated(y);
  }

  lemma SquareNegated(y: int)
    ensures (-y) * (-y) == y * y
  {
  }

  // Two points of the curve with the same x are equal or opposite.
  lemma SameX(c: Curve, q: Point, r: Point)
    requires ValidCurve(c) && OnCurve(c, q) && OnCurve(c, r) && q.Affine? && r.Affine? && q.x == r.x
    ensures r == q || r == Neg(c, q)
  {
    if r.y != q.y {
      OppositeRoots(r.y, q.y, c.p);
    }
  }

  lemma OppositeRoots(y: int, z: int, p: int)
    requires IsPrime(p) && 0 <= y < p && 0 <= z < p && y != z && Cong(y * y, z * z, p)
    ensures y == (-z) % p
  {
    DifferenceNonzero(y, z, p);
    CongSelf(-z, p);
    hide Cong, IsPrime;
    CongRefl(z * z, p);
    CongAdd(y * y, z * z, z * z, z * z, p);
    assert (y - z) * (y + z) == y * y - z * z && (y - z) * 0 == z * z - z * z;
    Cancel(y - z, y + z, 0, p);
    CongRefl(z, p);
    CongAdd(y + z, 0, z, z, p);
    CongSym((-z) % p, -z, p);
    CongTrans(y, -z, (-z) % p, p);
    CongSmall(y, (-z) % p, p);
  }

  lemma SlopeSymmetric(c: Curve, q: Point, r: Point, l: int)
    requires c.p > 0 && q.Affine? && r.Affine? && IsSlope(c, q, r, l) && (q.x == r.x ==> q.y == r.y)
    ensures IsSlope(c, r, q, l) && Third(c, q, r, l) == Third(c, r, q, l)
  {
    if q.x != r.x {
      CongAdd(0, 0, l * (q.x - r.x), q.y - r.y, c.p);
      assert l * (r.x - q.x) == 0 - l * (q.x - r.x);
      var x := (l * l - q.x - r.x) % c.p;
      CongAdd(l * (r.x - x) - r.y, l * (r.x - x) - r.y, l * (q.x - r.x), q.y - r.y, c.p);
      ChordEnds(l, q.x, r.x, x, q.y, r.y);
      CongAdd(l * (q.x - x) - r.y, l * (r.x - x) - r.y + (q.y - r.y), q.y - r.y, q.y - r.y, c.p);
    }
  }

  lemma ChordEnds(l: int, x1: int, x2: int, x: int, y1: int, y2: int)
    ensures l * (x2 - x) - y2 + l * (x1 - x2) == l * (x1 - x) - y2
  {
  }

  lemma Commutative(c: Curve, q: Point, r: Point)
    requires ValidCurve(c) && InField(c, q) && InField(c, r)
    ensures Sum(c, q, r) == Sum(c, r, q)
  {
    if q.Affine? && r.Affine? && (q.x == r.x ==> q.y == r.y && q.y != 0) {
      var l := Slope(c, q, r);
      SlopeSymmetric(c, q, r, l);
      SumBySlope(c, r, q, l);
    }
  }

  // The cubic minus the squared line, and its quotient by t - x1.
  function OnLine(c: Curve, x1: int, y1: int, l: int, t: int): int {
    t * t * t + c.a * t + c.b - (y1 + l * (t - x1)) * (y1 + l * (t - x1))
  }

  function Cofactor(c: Curve, x1: int, y1: int, l: int, t: int): int {
    t * t + t * x1 + x1 * x1 + c.a - 2 * l * y1 - l * l * (t - x1)
  }

  lemma LineFactors(c: Curve, x1: int, y1: int, l: int, t: int)
    ensures OnLine(c, x1, y1, l, t) == OnLine(c, x1, y1, l, x1) + (t - x1) * Cofactor(c, x1, y1, l, t)
  {
    var d, w := t - x1, l * (t - x1);
    LineTerms(x1, y1, l, t, d, w);
  }

  lemma LineTerms(x1: int, y1: int, l: int, t: int, d: int, w: int)
    requires d == t - x1 && w == l * d
    ensures (y1 + w) * (y1 + w) == y1 * y1 + 2 * y1 * w + w * w
    ensures d * (t * t + t * x1 + x1 * x1) == t * t * t - x1 * x1 * x1
    ensures d * (2 * l * y1) == 2 * y1 * w && d * (l * l * d) == w * w
  {
  }

  lemma CofactorFactors(c: Curve, x1: int, y1: int, l: int, t: int, u: int)
    ensures Cofactor(c, x1, y1, l, t) == Cofactor(c, x1, y1, l, u) + (t - u) * (t + u + x1 - l * l)
  {
    assert (t - u) * (t + u + x1) == t * t + t * x1 - u * u - u * x1;
    assert (t - u) * (l * l) == l * l * (t - x1) - l * l * (u - x1);
  }

  // The line through q and r meets the curve where the cofactor vanishes.
  lemma CofactorRoot(c: Curve, q: Point, r: Point, l: int)
    requires ValidCurve(c) && OnCurve(c, q) && OnCurve(c, r) && q.Affine? && r.Affine?
    requires IsSlope(c, q, r, l) && (q.x == r.x ==> q.y == r.y)
    ensures Cong(Cofactor(c, q.x, q.y, l, r.x), 0, c.p)
  {
    if q.x == r.x {
      TangentRoot(c, q.x, q.y, l);
    } else {
      DifferenceNonzero(r.x, q.x, c.p);
      ChordEnd(c, q, r, l);
      LineStart(c, q, l);
      LineFactors(c, q.x, q.y, l, r.x);
      CongAdd(OnLine(c, q.x, q.y, l, r.x), 0, OnLine(c, q.x, q.y, l, q.x), 0, c.p);
      hide OnLine, Cofactor, OnCurve, IsSlope, Cong;
      assert (r.x - q.x) * 0 == 0;
      Cancel(r.x - q.x, Cofactor(c, q.x, q.y, l, r.x), 0, c.p);
    }
  }

  lemma TangentRoot(c: Curve, x: int, y: int, l: int)
    requires c.p > 0 && Cong(l * (2 * y), 3 * x * x + c.a, c.p)
    ensures Cong(Cofactor(c, x, y, l, x), 0, c.p)
  {
    var s := 3 * x * x + c.a;
    CongAdd(s, s, l * (2 * y), s, c.p);
    assert Cofactor(c, x, y, l, x) == s - l * (2 * y);
  }

  lemma LineStart(c: Curve, q: Point, l: int)
    requires ValidCurve(c) && OnCurve(c, q) && q.Affine?
    ensures Cong(OnLine(c, q.x, q.y, l, q.x), 0, c.p)
  {
    CongAdd(q.x * q.x * q.x + c.a * q.x + c.b, q.y * q.y, q.y * q.y, q.y * q.y, c.p);
    assert l * (q.x - q.x) == 0;
  }

  lemma ChordEnd(c: Curve, q: Point, r: Point, l: int)
    requires ValidCurve(c) && OnCurve(c, r) && q.Affine? && r.Affine?
    requires q.x != r.x && IsSlope(c, q, r, l)
    ensures Cong(OnLine(c, q.x, q.y, l, r.x), 0, c.p)
  {
    var y := q.y + l * (r.x - q.x);
    CongAdd(q.y, q.y, l * (q.x - r.x), q.y - r.y, c.p);
    assert y == q.y - l * (q.x - r.x);
    CongMul(y, r.y, y, r.y, c.p);
    CongAdd(r.x * r.x * r.x + c.a * r.x + c.b, r.y * r.y, y * y, r.y * r.y, c.p);
  }

  lemma Closed(c: Curve, q: Point, r: Point)
    requires ValidCurve(c) && OnCurve(c, q) && OnCurve(c, r)
    ensures OnCurve(c, Sum(c, q, r))
  {
    if q.Affine? && r.Affine? && (q.x == r.x ==> q.y == r.y && q.y != 0) {
      var l := Slope(c, q, r);
      CofactorRoot(c, q, r, l);
      LineStart(c, q, l);
      ThirdOnCurve(c, q, r, l);
    }
  }

  lemma ThirdOnCurve(c: Curve, q: Point, r: Point, l: int)
    requires ValidCurve(c) && q.Affine? && r.Affine?
    requires Cong(Cofactor(c, q.x, q.y, l, r.x), 0, c.p) && Cong(OnLine(c, q.x, q.y, l, q.x), 0, c.p)
    ensures OnCurve(c, Third(c, q, r, l))
  {
    hide Cofactor, OnLine, Cong;
    var s := Third(c, q, r, l);
    CongSelf(l * l - q.x - r.x, c.p);
    CongSelf(l * (q.x - s.x) - q.y, c.p);
    LineVanishes(c, q, r, l, s.x);
    Reflected(c, q.x, q.y, l, s.x, s.y);
  }

  lemma Reflected(c: Curve, x1: int, y1: int, l: int, x: int, y: int)
    requires c.p > 0 && Cong(OnLine(c, x1, y1, l, x), 0, c.p) && Cong(y, l * (x1 - x) - y1, c.p)
    ensures Cong(y * y, x * x * x + c.a * x + c.b, c.p)
  {
    var v, f := l * (x1 - x) - y1, x * x * x + c.a * x + c.b;
    LineSquare(x1, y1, l, x);
    CongMul(y, v, y, v, c.p);
    CongAdd(f - v * v, 0, v * v, v * v, c.p);
  }

  lemma LineSquare(x1: int, y1: int, l: int, x: int)
    ensures (y1 + l * (x - x1)) * (y1 + l * (x - x1)) == (l * (x1 - x) - y1) * (l * (x1 - x) - y1)
  {
    assert y1 + l * (x - x1) == -(l * (x1 - x) - y1);
    SquareNegated(l * (x1 - x) - y1);
  }

  lemma LineVanishes(c: Curve, q: Point, r: Point, l: int, x: int)
    requires ValidCurve(c) && q.Affine? && r.Affine? && Cong(x, l * l - q.x - r.x, c.p)
    requires Cong(Cofactor(c, q.x, q.y, l, r.x), 0, c.p) && Cong(OnLine(c, q.x, q.y, l, q.x), 0, c.p)
    ensures Cong(OnLine(c, q.x, q.y, l, x), 0, c.p)
  {
    CofactorFactors(c, q.x, q.y, l, x, r.x);
    LineFactors(c, q.x, q.y, l, x);
    hide OnLine, Cofactor;
    var t := l * l - q.x - r.x;
    CongAdd(x, t, t, t, c.p);
    CongMul(x - r.x, x - r.x, x - t, 0, c.p);
    CongAdd(Cofactor(c, q.x, q.y, l, r.x), 0, (x - r.x) * (x - t), 0, c.p);
    CongMul(x - q.x, x - q.x, Cofactor(c, q.x, q.y, l, x), 0, c.p);
    CongAdd(OnLine(c, q.x, q.y, l, q.x), 0, (x - q.x) * Cofactor(c, q.x, q.y, l, x), 0, c.p);
  }
}
