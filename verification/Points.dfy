// ecdsa.c: affine points and their addition and doubling.

module Points {
  import opened Bignum
  import BignumAdd
  import opened BignumMultiply
  import opened Field
  import opened PrimeField
  import opened Curves
  import BignumInverse

  // The struct curve_point.
  class CurvePoint {
    const x: Bignum256
    const y: Bignum256

    constructor (vx: Limbs9, vy: Limbs9)
      ensures fresh(x) && fresh(y) && x != y && x.val == vx && y.val == vy
    {
      x := new Bignum256(vx);
      y := new Bignum256(vy);
    }
  }

  // The curve of the parameters held in limbs.
  ghost predicate Represented(c: Curve, p: seq<int>) {
    && Modulus(p) && V(p) == c.p && p[0] % 2 == 1 && -c.a <= p[0]
    && ValidCurve(c)
  }

  // The point two coordinates stand for; both zero is the internal form of infinity.
  function PointOf(x: seq<int>, y: seq<int>): Point {
    if V(x) == 0 && V(y) == 0 then Infinity else Affine(V(x), V(y))
  }

  ghost predicate Coordinates(c: Curve, x: seq<int>, y: seq<int>) {
    c.p > 0 && Reduced(x, c.p) && Reduced(y, c.p) && OnCurve(c, PointOf(x, y))
  }

  lemma PointBounds(c: Curve, x: seq<int>, y: seq<int>)
    requires |x| == |y| == 9 && Coordinates(c, x, y)
    ensures Normalized(x) && Normalized(y) && 0 <= V(x) < c.p && 0 <= V(y) < c.p
    ensures Fe(x, c.p) == V(x) && Fe(y, c.p) == V(y)
    ensures InField(c, PointOf(x, y))
  {
    Range(x);
    Range(y);
    SmallMod(V(x), c.p);
    SmallMod(V(y), c.p);
  }

  // point_is_infinity
  method IsInfinity(p: CurvePoint) returns (r: bool)
    requires Normalized(p.x.val) && Normalized(p.y.val)
    ensures r <==> PointOf(p.x.val, p.y.val) == Infinity
  {
    var zx := IsZero(p.x);
    var zy := IsZero(p.y);
    r := zx && zy;
  }

  // point_set_infinity
  method SetInfinity(p: CurvePoint)
    modifies p.x, p.y
    ensures PointOf(p.x.val, p.y.val) == Infinity && Normalized(p.x.val) && Normalized(p.y.val)
  {
    p.x.val := ZERO;
    p.y.val := ZERO;
    ZeroVal(p.x.val);
  }

  // point_is_equal
  method IsEqualPoint(p: CurvePoint, q: CurvePoint) returns (r: bool)
    requires Normalized(p.x.val) && Normalized(p.y.val) && Normalized(q.x.val) && Normalized(q.y.val)
    ensures r <==> V(p.x.val) == V(q.x.val) && V(p.y.val) == V(q.y.val)
  {
    var ex := IsEqual(p.x, q.x);
    var ey := IsEqual(p.y, q.y);
    r := ex && ey;
  }

  // point_is_negative_of: on two affine points of a curve it tells the opposite one, except that a
  // point with y = 0, its own opposite, is left to the comparison of equal points.
  method IsNegativeOf(p: CurvePoint, q: CurvePoint, ghost c: Curve) returns (r: bool)
    requires Normalized(p.x.val) && Normalized(p.y.val) && Normalized(q.x.val) && Normalized(q.y.val)
    ensures r <==> V(p.x.val) == V(q.x.val) && V(p.y.val) != 0 && V(p.y.val) != V(q.y.val)
    ensures ValidCurve(c) && Coordinates(c, p.x.val, p.y.val) && Coordinates(c, q.x.val, q.y.val) ==>
      var P, Q := PointOf(p.x.val, p.y.val), PointOf(q.x.val, q.y.val);
      P.Affine? && Q.Affine? ==> (r <==> Q == Neg(c, P) && Q != P)
  {
    NegativePoint(c, p.x.val, p.y.val, q.x.val, q.y.val);
    var ex := IsEqual(p.x, q.x);
    if !ex {
      return false;
    }
    var zero := IsZero(p.y);
    if zero {
      return false;
    }
    var ey := IsEqual(p.y, q.y);
    r := !ey;
  }

  lemma NegativePoint(c: Curve, x: seq<int>, y: seq<int>, x': seq<int>, y': seq<int>)
    requires |x| == |y| == |x'| == |y'| == 9
    ensures ValidCurve(c) && Coordinates(c, x, y) && Coordinates(c, x', y') ==>
      var P, Q := PointOf(x, y), PointOf(x', y');
      P.Affine? && Q.Affine? ==>
        (V(x) == V(x') && V(y) != 0 && V(y) != V(y') <==> Q == Neg(c, P) && Q != P)
  {
    if ValidCurve(c) && Coordinates(c, x, y) && Coordinates(c, x', y') {
      var P, Q := PointOf(x, y), PointOf(x', y');
      SmallMod(0, c.p);
      if P.Affine? && Q.Affine? && V(x) == V(x') {
        SameX(c, P, Q);
      }
    }
  }

  // The residues a slope l gives for the third point.
  function ThirdX(p: int, l: int, x1: int, x2: int): int
    requires p > 0
  {
    Sub(Mul(l, l, p), Add(x1, x2, p), p)
  }

  function ThirdY(p: int, l: int, x1: int, y1: int, x: int): int
    requires p > 0
  {
    Sub(Mul(l, Sub(x1, x, p), p), y1, p)
  }

  lemma ThirdResidues(c: Curve, q: Point, r: Point, l: int)
    requires c.p > 0 && q.Affine? && r.Affine?
    ensures var x := ThirdX(c.p, l, q.x, r.x);
      Third(c, q, r, l) == Affine(x, ThirdY(c.p, l, q.x, q.y, x))
  {
    var p, t := c.p, l * l - q.x - r.x;
    var x := ThirdX(p, l, q.x, r.x);
    CongSelf(l * l, p);
    CongSelf(q.x + r.x, p);
    CongAdd(Mul(l, l, p), l * l, Add(q.x, r.x, p), q.x + r.x, p);
    CongSelf(q.x - x, p);
    CongMul(l, l, Sub(q.x, x, p), q.x - x, p);
    CongSelf(l * Sub(q.x, x, p), p);
    CongAdd(Mul(l, Sub(q.x, x, p), p), l * (q.x - x), q.y, q.y, p);
  }

  lemma ChordSlope(c: Curve, q: Point, r: Point, inverse: int, l: int)
    requires c.p > 0 && q.Affine? && r.Affine? && q.x != r.x
    requires Cong(inverse * Sub(r.x, q.x, c.p), 1, c.p) && l == Mul(inverse, Sub(r.y, q.y, c.p), c.p)
    ensures IsSlope(c, q, r, l)
  {
    var p, dx, dy := c.p, r.x - q.x, r.y - q.y;
    CongSelf(dx, p);
    CongSelf(dy, p);
    CongSelf(inverse * Sub(r.y, q.y, p), p);
    hide Cong;
    CongRefl(inverse, p);
    CongMul(inverse, inverse, Sub(r.x, q.x, p), dx, p);
    CongMul(inverse, inverse, Sub(r.y, q.y, p), dy, p);
    CongTrans(l, inverse * Sub(r.y, q.y, p), inverse * dy, p);
    CongSym(inverse * Sub(r.x, q.x, p), inverse * dx, p);
    CongTrans(inverse * dx, inverse * Sub(r.x, q.x, p), 1, p);
    QuotientSlope(p, inverse, dx, dy, l);
    NegSides(p, l, dx, dy);
  }

  // l = n / d solves l * d = n.
  lemma QuotientSlope(p: int, inverse: int, d: int, n: int, l: int)
    requires p > 0 && Cong(inverse * d, 1, p) && Cong(l, inverse * n, p)
    ensures Cong(l * d, n, p)
  {
    hide Cong;
    CongRefl(d, p);
    CongRefl(n, p);
    CongMul(l, inverse * n, d, d, p);
    CongMul(inverse * d, 1, n, n, p);
    assert (inverse * n) * d == (inverse * d) * n;
    CongTrans(l * d, (inverse * d) * n, n, p);
  }

  lemma NegSides(p: int, l: int, d: int, n: int)
    requires p > 0 && Cong(l * d, n, p)
    ensures Cong(l * (-d), -n, p)
  {
    hide Cong;
    CongRefl(0, p);
    CongAdd(0, 0, l * d, n, p);
    assert l * (-d) == 0 - l * d;
  }

  // "xr = lambda^2 - x1 - x2", fully reduced; xs holds x1 + x2.
  method ThirdXCoordinate(lambda: Bignum256, xs: Bignum256, xr: Bignum256, prime: Bignum256)
    requires Modulus(prime.val) && prime != xr && xr !in {lambda, xs}
    requires PartlyReduced(lambda.val, V(prime.val)) && PartlyReduced(xs.val, V(prime.val))
    modifies xr
    ensures Reduced(xr.val, V(prime.val))
    ensures V(xr.val) == Fe(xr.val, V(prime.val))
    ensures V(xr.val) == Sub(Mul(Fe(lambda.val, V(prime.val)), Fe(lambda.val, V(prime.val)), V(prime.val)),
                             Fe(xs.val, V(prime.val)), V(prime.val))
  {
    ghost var p := V(prime.val);
    Range(lambda.val);
    hide V, Fe, Normalized, Modulus, Mul, Sub;
    xr.val := lambda.val;
    Multiply(xr, xr, prime);
    BignumAdd.SubtractMod(xr, xs, xr, prime);
    FastMod(xr, prime);
    BignumAdd.Mod(xr, prime);
  }

  // "yr = lambda (x1 - xr) - y1", fully reduced.
  method ThirdYCoordinate(x1: Bignum256, y1: Bignum256, xr: Bignum256, lambda: Bignum256, yr: Bignum256, prime: Bignum256)
    requires Modulus(prime.val) && prime != yr && yr !in {x1, y1, xr, lambda}
    requires Reduced(x1.val, V(prime.val)) && Reduced(y1.val, V(prime.val)) && Reduced(xr.val, V(prime.val))
    requires PartlyReduced(lambda.val, V(prime.val))
    modifies yr
    ensures Reduced(yr.val, V(prime.val))
    ensures V(yr.val) == ThirdY(V(prime.val), Fe(lambda.val, V(prime.val)), Fe(x1.val, V(prime.val)),
                                Fe(y1.val, V(prime.val)), Fe(xr.val, V(prime.val)))
  {
    ghost var p := V(prime.val);
    Range(x1.val);
    Range(xr.val);
    hide V, Fe, Normalized, Modulus, Mul, Sub;
    BignumAdd.SubtractMod(x1, xr, yr, prime);
    Multiply(lambda, yr, prime);
    BignumAdd.SubtractMod(yr, y1, yr, prime);
    FastMod(yr, prime);
    BignumAdd.Mod(yr, prime);
  }

  // Both new coordinates from the slope; yr comes in holding x1 + x2.
  method ThirdPoint(cp1: CurvePoint, cp: CurvePoint, lambda: Bignum256, yr: Bignum256, prime: Bignum256)
    requires Modulus(prime.val) && cp.x != cp.y && prime != cp.x && prime != cp.y && lambda != cp.x && lambda != cp.y
    requires yr != cp1.x && yr != cp1.y && yr != prime && yr != cp.x && yr != cp.y && yr != lambda
    requires Reduced(cp1.x.val, V(prime.val)) && Reduced(cp1.y.val, V(prime.val))
    requires PartlyReduced(lambda.val, V(prime.val)) && PartlyReduced(yr.val, V(prime.val))
    modifies cp.x, cp.y, yr
    ensures Reduced(cp.x.val, V(prime.val)) && Reduced(cp.y.val, V(prime.val))
    ensures var p, l := V(prime.val), Fe(lambda.val, V(prime.val));
      && V(cp.x.val) == Sub(Mul(l, l, p), old(Fe(yr.val, p)), p)
      && V(cp.y.val) == ThirdY(p, l, old(Fe(cp1.x.val, p)), old(Fe(cp1.y.val, p)), V(cp.x.val))
  {
    hide V, Fe, Normalized, Modulus, Mul, Sub, ThirdY;
    var xr := new Bignum256(ZERO);
    ThirdXCoordinate(lambda, yr, xr, prime);
    ThirdYCoordinate(cp1.x, cp1.y, xr, lambda, yr, prime);
    cp.x.val := xr.val;
    cp.y.val := yr.val;
  }

  // The contract of bn_inverse on residues.
  lemma InverseResidue(b: int, a: int, p: int)
    requires p > 1 && (b * a) % p == 1
    ensures Cong((b % p) * (a % p), 1, p)
  {
    MulMod(b, a, p);
    CongSelf((b % p) * (a % p), p);
    SmallMod(1, p);
  }

  lemma AffineOf(c: Curve, x: seq<int>, y: seq<int>)
    requires ValidCurve(c) && Reduced(x, c.p) && Reduced(y, c.p) && OnCurve(c, Affine(V(x), V(y)))
    ensures PointOf(x, y) == Affine(V(x), V(y)) && Coordinates(c, x, y)
  {
    OriginOffCurve(c);
  }

  lemma ChordFinished(c: Curve, q: Point, r: Point, inverse: int, l: int, x: seq<int>, y: seq<int>)
    requires ValidCurve(c) && OnCurve(c, q) && OnCurve(c, r) && q.Affine? && r.Affine? && q.x != r.x
    requires Cong(inverse * Sub(r.x, q.x, c.p), 1, c.p) && l == Mul(inverse, Sub(r.y, q.y, c.p), c.p)
    requires Reduced(x, c.p) && Reduced(y, c.p)
    requires V(x) == Sub(Mul(l, l, c.p), Add(q.x, r.x, c.p), c.p) && V(y) == ThirdY(c.p, l, q.x, q.y, V(x))
    ensures Coordinates(c, x, y) && PointOf(x, y) == Sum(c, q, r)
  {
    ChordSlope(c, q, r, inverse, l);
    SumBySlope(c, q, r, l);
    ThirdResidues(c, q, r, l);
    Closed(c, q, r);
    hide OnCurve, Coordinates, ThirdX, ThirdY, Sum, Third, PointOf, V;
    AffineOf(c, x, y);
  }

  // The slope of the chord: lambda = (y2 - y1) / (x2 - x1).
  method ChordLambda(cp1: CurvePoint, cp2: CurvePoint, lambda: Bignum256, prime: Bignum256) returns (ghost inverse: int)
    requires Modulus(prime.val) && IsPrime(V(prime.val)) && lambda !in {cp1.x, cp1.y, cp2.x, cp2.y, prime}
    requires Reduced(cp1.x.val, V(prime.val)) && Reduced(cp1.y.val, V(prime.val))
    requires Reduced(cp2.x.val, V(prime.val)) && Reduced(cp2.y.val, V(prime.val))
    requires Sub(Fe(cp2.x.val, V(prime.val)), Fe(cp1.x.val, V(prime.val)), V(prime.val)) != 0
    modifies lambda
    ensures PartlyReduced(lambda.val, V(prime.val))
    ensures Cong(inverse * Sub(Fe(cp2.x.val, V(prime.val)), Fe(cp1.x.val, V(prime.val)), V(prime.val)), 1, V(prime.val))
    ensures Fe(lambda.val, V(prime.val)) ==
            Mul(inverse, Sub(Fe(cp2.y.val, V(prime.val)), Fe(cp1.y.val, V(prime.val)), V(prime.val)), V(prime.val))
  {
    ghost var p := V(prime.val);
    Range(cp1.x.val);
    Range(cp2.x.val);
    Range(cp1.y.val);
    Range(cp2.y.val);
    hide V, Fe, Normalized, Modulus, Mul, Sub, IsPrime, Cong;
    var inv := new Bignum256(ZERO);
    BignumAdd.SubtractMod(cp2.x, cp1.x, inv, prime);
    Invert(inv, prime);
    inverse := Fe(inv.val, p);
    BignumAdd.SubtractMod(cp2.y, cp1.y, lambda, prime);
    Multiply(inv, lambda, prime);
  }

  // The general case of point_add.
  method ChordSum(cp1: CurvePoint, cp2: CurvePoint, prime: Bignum256, ghost c: Curve)
    requires Represented(c, prime.val) && cp2.x != cp2.y
    requires cp1.x !in {cp2.x, cp2.y} && cp1.y !in {cp2.x, cp2.y} && prime !in {cp2.x, cp2.y}
    requires Coordinates(c, cp1.x.val, cp1.y.val) && Coordinates(c, cp2.x.val, cp2.y.val)
    requires PointOf(cp1.x.val, cp1.y.val).Affine? && PointOf(cp2.x.val, cp2.y.val).Affine?
    requires V(cp1.x.val) != V(cp2.x.val)
    modifies cp2.x, cp2.y
    ensures Coordinates(c, cp2.x.val, cp2.y.val)
    ensures PointOf(cp2.x.val, cp2.y.val) == Sum(c, PointOf(cp1.x.val, cp1.y.val), old(PointOf(cp2.x.val, cp2.y.val)))
  {
    ghost var p, q, r := c.p, PointOf(cp1.x.val, cp1.y.val), PointOf(cp2.x.val, cp2.y.val);
    PointBounds(c, cp1.x.val, cp1.y.val);
    PointBounds(c, cp2.x.val, cp2.y.val);
    DifferenceNonzero(r.x, q.x, p);
    SubSame(r.x, q.x, p);
    hide V, Fe, Normalized, Modulus, Mul, Sub, Add, Cong, ThirdX, ThirdY, IsPrime, Coordinates, PointOf, OnCurve, Sum;
    var lambda := new Bignum256(ZERO);
    var yr := new Bignum256(ZERO);
    ghost var inverse := ChordLambda(cp1, cp2, lambda, prime);
    yr.val := cp1.x.val;
    BignumAdd.AddMod(yr, cp2.x, prime);
    ThirdPoint(cp1, cp2, lambda, yr, prime);
    ChordFinished(c, q, r, inverse, Fe(lambda.val, p), cp2.x.val, cp2.y.val);
  }

  lemma SubSame(x: int, y: int, p: int)
    requires p > 0
    ensures Sub(x, y, p) == (x - y) % p
  {
  }

  // bn_inverse, read on residues.
  method Invert(x: Bignum256, prime: Bignum256)
    requires Modulus(prime.val) && IsPrime(V(prime.val)) && x != prime
    requires Fe(x.val, V(prime.val)) != 0
    modifies x
    ensures Reduced(x.val, V(prime.val))
    ensures Cong(Fe(x.val, V(prime.val)) * old(Fe(x.val, V(prime.val))), 1, V(prime.val))
  {
    ghost var a := V(x.val);
    BignumInverse.Inverse(x, prime);
    InverseResidue(V(x.val), a, V(prime.val));
  }

  // The slope of the tangent: lambda = (3 x^2 + a) / (2 y).
  method TangentLambda(cp: CurvePoint, a: int, lambda: Bignum256, prime: Bignum256) returns (ghost inverse: int)
    requires Modulus(prime.val) && IsPrime(V(prime.val)) && lambda !in {cp.x, cp.y, prime}
    requires -3 <= a <= 0 && -a <= prime.val[0]
    requires Reduced(cp.x.val, V(prime.val)) && Reduced(cp.y.val, V(prime.val))
    requires Mul(2, Fe(cp.y.val, V(prime.val)), V(prime.val)) != 0
    modifies lambda
    ensures PartlyReduced(lambda.val, V(prime.val))
    ensures Cong(inverse * Mul(2, Fe(cp.y.val, V(prime.val)), V(prime.val)), 1, V(prime.val))
    ensures var x, p := Fe(cp.x.val, V(prime.val)), V(prime.val);
      Fe(lambda.val, p) == Mul(Sub(Mul(3, Mul(x, x, p), p), -a, p), inverse, p)
  {
    ghost var p := V(prime.val);
    Range(cp.x.val);
    Range(cp.y.val);
    hide V, Fe, Normalized, Modulus, Mul, Sub, IsPrime, Cong;
    lambda.val := cp.y.val;
    BignumAdd.MultK(lambda, 2, prime);
    Invert(lambda, prime);
    inverse := Fe(lambda.val, p);
    var xr := new Bignum256(ZERO);
    xr.val := cp.x.val;
    Multiply(xr, xr, prime);
    BignumAdd.MultK(xr, 3, prime);
    BignumAdd.SubI(xr, -a, prime);
    Multiply(xr, lambda, prime);
  }

  lemma TangentSlope(c: Curve, q: Point, inverse: int, l: int)
    requires c.p > 0 && q.Affine? && Cong(inverse * Mul(2, q.y, c.p), 1, c.p)
    requires l == Mul(Sub(Mul(3, Mul(q.x, q.x, c.p), c.p), -c.a, c.p), inverse, c.p)
    ensures IsSlope(c, q, q, l)
  {
    var p, n := c.p, 3 * q.x * q.x + c.a;
    var m := Sub(Mul(3, Mul(q.x, q.x, p), p), -c.a, p);
    hide Cong, Mul, Sub;
    CongRefl(q.x, p);
    CongRefl(q.y, p);
    CongRefl(2, p);
    CongRefl(3, p);
    CongRefl(-c.a, p);
    CongRefl(inverse, p);
    MulCong(q.x, q.x, q.x, q.x, p);
    MulCong(3, 3, Mul(q.x, q.x, p), q.x * q.x, p);
    SumCong(Mul(3, Mul(q.x, q.x, p), p), 3 * (q.x * q.x), -c.a, -c.a, p);
    MulCong(2, 2, q.y, q.y, p);
    CongMul(inverse, inverse, Mul(2, q.y, p), 2 * q.y, p);
    CongSym(inverse * Mul(2, q.y, p), inverse * (2 * q.y), p);
    CongTrans(inverse * (2 * q.y), inverse * Mul(2, q.y, p), 1, p);
    assert 3 * (q.x * q.x) - -c.a == n;
    MulCong(m, n, inverse, inverse, p);
    assert n * inverse == inverse * n;
    QuotientSlope(p, inverse, 2 * q.y, n, l);
  }

  lemma TangentFinished(c: Curve, q: Point, inverse: int, l: int, x: seq<int>, y: seq<int>)
    requires ValidCurve(c) && OnCurve(c, q) && q.Affine? && q.y != 0
    requires Cong(inverse * Mul(2, q.y, c.p), 1, c.p)
    requires l == Mul(Sub(Mul(3, Mul(q.x, q.x, c.p), c.p), -c.a, c.p), inverse, c.p)
    requires Reduced(x, c.p) && Reduced(y, c.p)
    requires V(x) == Sub(Mul(l, l, c.p), Add(q.x, q.x, c.p), c.p) && V(y) == ThirdY(c.p, l, q.x, q.y, V(x))
    ensures Coordinates(c, x, y) && PointOf(x, y) == Sum(c, q, q)
  {
    TangentSlope(c, q, inverse, l);
    SumBySlope(c, q, q, l);
    ThirdResidues(c, q, q, l);
    Closed(c, q, q);
    hide OnCurve, Coordinates, ThirdX, ThirdY, Sum, Third, PointOf, V;
    AffineOf(c, x, y);
  }

  // The general case of point_double.
  method TangentSum(cp: CurvePoint, prime: Bignum256, ghost c: Curve, a: int)
    requires Represented(c, prime.val) && a == c.a && cp.x != cp.y && prime !in {cp.x, cp.y}
    requires Coordinates(c, cp.x.val, cp.y.val)
    requires PointOf(cp.x.val, cp.y.val).Affine? && V(cp.y.val) != 0
    modifies cp.x, cp.y
    ensures Coordinates(c, cp.x.val, cp.y.val)
    ensures PointOf(cp.x.val, cp.y.val) == Sum(c, old(PointOf(cp.x.val, cp.y.val)), old(PointOf(cp.x.val, cp.y.val)))
  {
    ghost var p, q := c.p, PointOf(cp.x.val, cp.y.val);
    PointBounds(c, cp.x.val, cp.y.val);
    TwiceNonzero(q.y, p);
    DoubledResidue(q.y, q.x, p);
    hide V, Fe, Normalized, Modulus, Mul, Sub, Add, Cong, ThirdX, ThirdY, IsPrime, Coordinates, PointOf, OnCurve, Sum;
    var lambda := new Bignum256(ZERO);
    var yr := new Bignum256(ZERO);
    ghost var inverse := TangentLambda(cp, a, lambda, prime);
    yr.val := cp.x.val;
    DoubleX(yr, prime);
    ThirdPoint(cp, cp, lambda, yr, prime);
    TangentFinished(c, q, inverse, Fe(lambda.val, p), cp.x.val, cp.y.val);
  }

  lemma DoubledResidue(y: int, x: int, p: int)
    requires p > 0
    ensures Mul(2, y, p) == (2 * y) % p
  {
  }

  // bn_lshift, read on residues.
  method DoubleX(x: Bignum256, ghost prime: Bignum256)
    requires Modulus(prime.val) && Reduced(x.val, V(prime.val)) && x != prime
    modifies x
    ensures PartlyReduced(x.val, V(prime.val))
    ensures Fe(x.val, V(prime.val)) == Add(old(Fe(x.val, V(prime.val))), old(Fe(x.val, V(prime.val))), V(prime.val))
  {
    Range(x.val);
    Field.AddMod(V(x.val), V(x.val), V(prime.val));
    hide V;
    BignumAdd.LShift(x);
  }

  // point_double: cp = cp + cp
  method PointDouble(cp: CurvePoint, prime: Bignum256, ghost c: Curve, a: int)
    requires Represented(c, prime.val) && a == c.a && cp.x != cp.y && prime !in {cp.x, cp.y}
    requires Coordinates(c, cp.x.val, cp.y.val)
    modifies cp.x, cp.y
    ensures Coordinates(c, cp.x.val, cp.y.val)
    ensures PointOf(cp.x.val, cp.y.val) == Sum(c, old(PointOf(cp.x.val, cp.y.val)), old(PointOf(cp.x.val, cp.y.val)))
  {
    PointBounds(c, cp.x.val, cp.y.val);
    hide V, Fe, Normalized, IsPrime, OnCurve;
    var infinite := IsInfinity(cp);
    if infinite {
      return;
    }
    var zero := IsZero(cp.y);
    if zero {
      SetInfinity(cp);
      InfinityCoordinates(c, cp.x.val, cp.y.val);
      return;
    }
    TangentSum(cp, prime, c, a);
  }

  lemma InfinityCoordinates(c: Curve, x: seq<int>, y: seq<int>)
    requires c.p > 0 && Normalized(x) && Normalized(y) && PointOf(x, y) == Infinity
    ensures Coordinates(c, x, y)
  {
  }

  // point_add: cp2 = cp1 + cp2
  method PointAdd(cp1: CurvePoint, cp2: CurvePoint, prime: Bignum256, ghost c: Curve, a: int)
    requires Represented(c, prime.val) && a == c.a && cp2.x != cp2.y
    requires cp1.x !in {cp2.x, cp2.y} && cp1.y !in {cp2.x, cp2.y} && prime !in {cp2.x, cp2.y}
    requires Coordinates(c, cp1.x.val, cp1.y.val) && Coordinates(c, cp2.x.val, cp2.y.val)
    modifies cp2.x, cp2.y
    ensures Coordinates(c, cp2.x.val, cp2.y.val)
    ensures PointOf(cp2.x.val, cp2.y.val) == Sum(c, PointOf(cp1.x.val, cp1.y.val), old(PointOf(cp2.x.val, cp2.y.val)))
  {
    PointBounds(c, cp1.x.val, cp1.y.val);
    PointBounds(c, cp2.x.val, cp2.y.val);
    hide V, Fe, Normalized, IsPrime, OnCurve;
    var infinite := IsInfinity(cp1);
    if infinite {
      return;
    }
    infinite := IsInfinity(cp2);
    if infinite {
      cp2.x.val := cp1.x.val;
      cp2.y.val := cp1.y.val;
      return;
    }
    var equal := IsEqualPoint(cp1, cp2);
    if equal {
      PointDouble(cp2, prime, c, a);
      return;
    }
    var opposite := IsNegativeOf(cp1, cp2, c);
    if opposite {
      SetInfinity(cp2);
      InfinityCoordinates(c, cp2.x.val, cp2.y.val);
      return;
    }
    ghost var q, r := PointOf(cp1.x.val, cp1.y.val), PointOf(cp2.x.val, cp2.y.val);
    if q.x == r.x {
      SameX(c, q, r);
    }
    ChordSum(cp1, cp2, prime, c);
  }
}
