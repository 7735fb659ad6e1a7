// ecdsa.c: points in Jacobian coordinates.  Every method is stated by the affine point that the
// three coordinates represent.

module Jacobian {
  import opened Words
  import opened Limbs
  import opened Bignum
  import opened BignumMultiply
  import opened Field
  import opened PrimeField
  import opened Curves
  import opened Points
  import opened JacobianForm
  import BignumAdd

  // The struct jacobian_curve_point.
  class JacobianPoint {
    const x: Bignum256
    const y: Bignum256
    const z: Bignum256

    constructor ()
      ensures fresh(x) && fresh(y) && fresh(z) && x != y && x != z && y != z
    {
      x := new Bignum256(ZERO);
      y := new Bignum256(ZERO);
      z := new Bignum256(ZERO);
    }
  }

  ghost predicate Holds(c: Curve, x: seq<int>, y: seq<int>, z: seq<int>, q: Point) {
    && c.p > 0 && PartlyReduced(x, c.p) && PartlyReduced(y, c.p) && PartlyReduced(z, c.p)
    && Represents(c, Fe(x, c.p), Fe(y, c.p), Fe(z, c.p), q)
  }

  // What an addition leaves: the sum, or a denominator of zero when it is the point at infinity.
  ghost predicate HoldsSum(c: Curve, x: seq<int>, y: seq<int>, z: seq<int>, s: Point) {
    && c.p > 0 && PartlyReduced(x, c.p) && PartlyReduced(y, c.p) && PartlyReduced(z, c.p)
    && (s != Infinity ==> Holds(c, x, y, z, s)) && (s == Infinity ==> Fe(z, c.p) == 0)
  }

  // Bounds inside the range bn_multiply accepts.
  ghost predicate Below(s: seq<int>, k: int, p: int) {
    Normalized(s) && 0 <= V(s) < k * p
  }

  lemma PartlyBelow(s: seq<int>, p: int)
    requires |s| == 9 && PartlyReduced(s, p)
    ensures Below(s, 2, p)
  {
    Range(s);
  }

  // ---------------------------------------------------------------- conditional_negate

  lemma TopSmall(s: seq<int>)
    requires |s| == 9 && Normalized(s) && V(s) < 2 * B256
    ensures s[8] < 0x20000
  {
    ValSplit(s, 8, W30);
    assert Val(s[8..], W30) == s[8] by { assert s[8..] == [s[8]]; assert Val([s[8]], W30) == s[8]; }
    ValBounds(s[..8], W30);
    PowW30();
  }

  function NegatedLimbs(a: seq<int>, p: seq<int>): (out: seq<int>)
    requires |a| == |p| == 9
    ensures |out| == 9
  {
    Carried(BignumAdd.SubRaw(Const(9, 0), p, a), 1, W30)
  }

  lemma NegatedValue(a: seq<int>, p: seq<int>)
    requires |a| == 9 && Modulus(p) && PartlyReduced(a, V(p))
    ensures Normalized(NegatedLimbs(a, p)) && V(NegatedLimbs(a, p)) == 2 * V(p) - V(a)
  {
    Range(a);
    PowW30();
    ValConst(9, 0, W30);
    BignumAdd.SubExact(Const(9, 0), p, a, V(Const(9, 0)) + 2 * V(p) - V(a));
  }

  // One limb of the loop, whichever way cond selects.
  lemma NegateLimb(a: seq<uint32>, p: seq<int>, cond: uint32, j: nat, tmp: int)
    requires |a| == |p| == 9 && Normalized(a) && Normalized(p) && j < 9 && (cond == 0 || cond == W32 - 1)
    requires tmp == Carry(BignumAdd.SubRaw(Const(9, 0), p, a), 1, W30, j) && 0 <= tmp < 4
    ensures var t := tmp + (0x3FFFFFFF + 2 * p[j] - a[j]);
      && 0 <= t < W32 && 0 <= High(t, W30) < 4 && 0 <= Low(t, W30) < W30
      && High(t, W30) == Carry(BignumAdd.SubRaw(Const(9, 0), p, a), 1, W30, j + 1)
      && Or(And(Low(t, W30), cond), And(a[j], W32 - 1 - cond)) == if cond != 0 then NegatedLimbs(a, p)[j] else a[j]
  {
    var raw := BignumAdd.SubRaw(Const(9, 0), p, a);
    var t := tmp + (0x3FFFFFFF + 2 * p[j] - a[j]);
    assert t == raw[j] + tmp;
    hide Low, High, And, Or, Carry, Carried, Normalized, BignumAdd.SubRaw;
    CarryNext(raw, 1, W30, j);
    HighBound(t, W30, 3);
    Select(Low(t, W30), a[j], cond != 0);
  }

  // conditional_negate: 2*prime - a where cond is all ones.  The result is partly reduced
  // exactly when something is subtracted or nothing happens.
  method ConditionalNegate(cond: uint32, a: Bignum256, prime: Bignum256)
    requires cond == 0 || cond == W32 - 1
    requires Modulus(prime.val) && PartlyReduced(a.val, V(prime.val)) && a != prime
    modifies a
    ensures Normalized(a.val)
    ensures V(a.val) == if cond != 0 then 2 * V(prime.val) - old(V(a.val)) else old(V(a.val))
    ensures PartlyReduced(a.val, V(prime.val)) <==> cond == 0 || old(V(a.val)) != 0
    ensures a.val[8] < 0x20000
  {
    ghost var a0, p := a.val, prime.val;
    ghost var raw := BignumAdd.SubRaw(Const(9, 0), p, a0);
    TopSmall(a0);
    assert a.val[8] < 0x20000;
    NegatedValue(a0, p);
    CarryNext(raw, 1, W30, 0);
    hide V, Carry, Carried, NegatedLimbs, BignumAdd.SubRaw, Modulus, Low, High, And, Or;
    var tmp: uint32 := 1;
    var j := 0;
    while j < 9
      invariant 0 <= j <= 9 && tmp < 4
      invariant tmp == Carry(raw, 1, W30, j)
      invariant forall k :: 0 <= k < j ==> a.val[k] == if cond != 0 then NegatedLimbs(a0, p)[k] else a0[k]
      invariant forall k :: j <= k < 9 ==> a.val[k] == a0[k]
      invariant prime.val == p
    {
      NegateLimb(a0, p, cond, j, tmp);
      tmp := tmp + (0x3FFFFFFF + 2 * prime.val[j] - a.val[j]);
      a.val := a.val[j := Or(And(Low(tmp, W30), cond), And(a.val[j], W32 - 1 - cond))];
      tmp := High(tmp, W30);
      j := j + 1;
    }
    assert a.val == if cond != 0 then NegatedLimbs(a0, p) else a0;
    NegatedRange(a.val, a0, V(p), cond != 0);
  }

  lemma NegatedRange(s: seq<int>, a: seq<int>, p: int, negate: bool)
    requires |s| == |a| == 9 && Normalized(s) && PartlyReduced(a, p) && B256 - B224 < p < B256
    requires V(s) == if negate then 2 * p - V(a) else V(a)
    ensures PartlyReduced(s, p) <==> !negate || V(a) != 0
    ensures s[8] < 0x20000
  {
    Range(a);
    TopSmall(s);
  }

  // Negating z, or y, moves to the opposite point.
  lemma NegatedResidue(v: int, p: int)
    requires p > 0
    ensures Cong((2 * p - v) % p, -(v % p), p)
  {
    CongSelf(2 * p - v, p);
    CongSelf(v, p);
    CongWitness(2 * p - v, -v, 2, p);
    CongAdd(0, 0, v, v % p, p);
  }

  lemma ZNonzero(c: Curve, x: seq<int>, y: seq<int>, z: seq<int>, q: Point)
    requires |z| == 9 && Holds(c, x, y, z, q)
    ensures V(z) > 0
  {
    Range(z);
    if V(z) == 0 {
      SmallMod(0, c.p);
    }
  }

  lemma NegateByZ(c: Curve, x: seq<int>, y: seq<int>, z: seq<int>, q: Point, z': seq<int>)
    requires ValidCurve(c) && Holds(c, x, y, z, q)
    requires PartlyReduced(z', c.p) && V(z') == 2 * c.p - V(z)
    ensures Holds(c, x, y, z', Neg(c, q))
  {
    NegatedResidue(V(z), c.p);
    CongSelf(V(z), c.p);
    NegatedZ(c, Fe(x, c.p), Fe(y, c.p), Fe(z, c.p), q, Fe(z', c.p));
  }

  lemma NegateByY(c: Curve, x: seq<int>, y: seq<int>, z: seq<int>, q: Point, y': seq<int>)
    requires ValidCurve(c) && Holds(c, x, y, z, q)
    requires PartlyReduced(y', c.p) && V(y') == 2 * c.p - V(y)
    ensures Holds(c, x, y', z, Neg(c, q))
  {
    NegatedResidue(V(y), c.p);
    NegatedY(c, Fe(x, c.p), Fe(y, c.p), Fe(z, c.p), q, Fe(y', c.p));
  }

  // ---------------------------------------------------------------- changing representation

  // The random denominators curve_to_jacobian draws: limbs of 30 bits, the top one in [1, 2^15].
  ghost predicate Denominator(z: seq<int>) {
    |z| == 9 && Normalized(z) && 1 <= z[8] <= 0x8000
  }

  lemma DenominatorRange(z: seq<int>, p: int)
    requires Denominator(z) && B256 - B224 < p
    ensures 0 < V(z) < p && V(z) % p != 0
  {
    ValSplit(z, 8, W30);
    assert Val(z[8..], W30) == z[8] by { assert z[8..] == [z[8]]; assert Val([z[8]], W30) == z[8]; }
    ValBounds(z[..8], W30);
    PowW30();
    SmallMod(V(z), p);
  }

  lemma Denominators(c: Curve, q: Point, Z: int, X: int, Y: int)
    requires ValidCurve(c) && InField(c, q) && q.Affine? && Z % c.p != 0
    requires X == Mul(q.x, Mul(Z, Z, c.p), c.p) && Y == Mul(q.y, Mul(Z, Mul(Z, Z, c.p), c.p), c.p)
    ensures Represents(c, X, Y, Z, q)
  {
    hide Mul, Cong;
    CommonDenominator(c.p, q.x, q.y, Z);
    MulCommutes(Z, Mul(Z, Z, c.p), c.p);
  }

  lemma MulCommutes(a: int, b: int, p: int)
    requires p > 0
    ensures Mul(a, b, p) == Mul(b, a, p)
  {
    assert a * b == b * a;
  }

  // curve_to_jacobian, with the random limbs of z as the parameter.
  method CurveToJacobian(p: CurvePoint, jp: JacobianPoint, prime: Bignum256, random: Limbs9, ghost c: Curve)
    requires Represented(c, prime.val) && Denominator(random)
    requires Coordinates(c, p.x.val, p.y.val) && PointOf(p.x.val, p.y.val).Affine?
    requires jp.x != jp.y && jp.x != jp.z && jp.y != jp.z && p.x !in {jp.x, jp.y, jp.z} && p.y !in {jp.x, jp.y, jp.z}
    requires prime !in {jp.x, jp.y, jp.z}
    modifies jp.x, jp.y, jp.z
    ensures Holds(c, jp.x.val, jp.y.val, jp.z.val, PointOf(p.x.val, p.y.val))
  {
    ghost var m, q := c.p, PointOf(p.x.val, p.y.val);
    PointBounds(c, p.x.val, p.y.val);
    DenominatorRange(random, m);
    SmallMod(V(random), m);
    hide V, Fe, Mul, IsPrime, Coordinates, PointOf, OnCurve, Represents;
    jp.z.val := random;
    jp.x.val := jp.z.val;
    Multiply(jp.z, jp.x, prime);
    jp.y.val := jp.x.val;
    Multiply(jp.z, jp.y, prime);
    Multiply(p.x, jp.x, prime);
    Multiply(p.y, jp.y, prime);
    Denominators(c, q, Fe(jp.z.val, m), Fe(jp.x.val, m), Fe(jp.y.val, m));
  }

  // Dividing the denominators out again.
  lemma Dehomogenised(c: Curve, q: Point, X: int, Y: int, Z: int, i: int, x: int, y: int)
    requires ValidCurve(c) && Represents(c, X, Y, Z, q) && Cong(i * Z, 1, c.p)
    requires x == Mul(X, Mul(i, i, c.p), c.p) && y == Mul(Y, Mul(Mul(i, i, c.p), i, c.p), c.p)
    ensures q == Affine(x, y)
  {
    var p := c.p;
    CongSelf(X * Mul(i, i, p), p);
    CongSelf(Y * Mul(Mul(i, i, p), i, p), p);
    hide Cong, Mul;
    CongRefl(i, p);
    CongRefl(X, p);
    CongRefl(Y, p);
    MulCong(i, i, i, i, p);
    MulCong(Mul(i, i, p), i * i, i, i, p);
    MulCong(X, X, Mul(i, i, p), i * i, p);
    MulCong(Y, Y, Mul(Mul(i, i, p), i, p), i * i * i, p);
    UndoSquare(p, q.x, X, Z, i);
    UndoCube(p, q.y, Y, Z, i);
    CongTrans(x, X * (i * i), q.x, p);
    CongTrans(y, Y * (i * i * i), q.y, p);
    CongSmall(x, q.x, p) by { MulRange(X, Mul(i, i, p), p); }
    CongSmall(y, q.y, p) by { MulRange(Y, Mul(Mul(i, i, p), i, p), p); }
  }

  lemma MulRange(a: int, b: int, p: int)
    requires p > 0
    ensures 0 <= Mul(a, b, p) < p
  {
  }

  lemma UndoSquare(p: int, x: int, X: int, Z: int, i: int)
    requires p > 0 && Cong(X, x * (Z * Z), p) && Cong(i * Z, 1, p)
    ensures Cong(X * (i * i), x, p)
  {
    hide Cong;
    CongRefl(i * i, p);
    CongMul(X, x * (Z * Z), i * i, i * i, p);
    CongMul(i * Z, 1, i * Z, 1, p);
    CongRefl(x, p);
    CongMul(x, x, (i * Z) * (i * Z), 1, p);
    assert (x * (Z * Z)) * (i * i) == x * ((i * Z) * (i * Z)) by { assert (Z * Z) * (i * i) == (i * Z) * (i * Z); }
    CongTrans(X * (i * i), x * ((i * Z) * (i * Z)), x, p);
  }

  lemma UndoCube(p: int, y: int, Y: int, Z: int, i: int)
    requires p > 0 && Cong(Y, y * (Z * Z * Z), p) && Cong(i * Z, 1, p)
    ensures Cong(Y * (i * i * i), y, p)
  {
    hide Cong;
    var w := i * Z;
    CongRefl(i * i * i, p);
    CongMul(Y, y * (Z * Z * Z), i * i * i, i * i * i, p);
    CongMul(w, 1, w, 1, p);
    CongMul(w * w, 1, w, 1, p);
    CongRefl(y, p);
    CongMul(y, y, w * w * w, 1, p);
    Cubes(i, Z);
    assert (y * (Z * Z * Z)) * (i * i * i) == y * (w * w * w);
    CongTrans(Y * (i * i * i), y * (w * w * w), y, p);
  }

  // jacobian_to_curve
  method JacobianToCurve(jp: JacobianPoint, p: CurvePoint, prime: Bignum256, ghost c: Curve, ghost q: Point)
    requires Represented(c, prime.val) && OnCurve(c, q)
    requires Holds(c, jp.x.val, jp.y.val, jp.z.val, q)
    requires p.x != p.y && jp.x !in {p.x, p.y} && jp.y !in {p.x, p.y} && jp.z !in {p.x, p.y} && prime !in {p.x, p.y}
    modifies p.x, p.y
    ensures Coordinates(c, p.x.val, p.y.val) && PointOf(p.x.val, p.y.val) == q
  {
    ghost var m := c.p;
    SmallMod(V(jp.z.val), 2 * m) by { Range(jp.z.val); }
    PartlyBelow(jp.x.val, m);
    PartlyBelow(jp.y.val, m);
    FeSmall(jp.z.val, m);
    hide V, Fe, Mul, IsPrime, OnCurve, Represents, Cong;
    p.y.val := jp.z.val;
    Invert(p.y, prime);
    ghost var i := Fe(p.y.val, m);
    p.x.val := p.y.val;
    Range(p.y.val);
    Multiply(p.x, p.x, prime);
    Multiply(p.x, p.y, prime);
    Multiply(jp.x, p.x, prime);
    Multiply(jp.y, p.y, prime);
    BignumAdd.Mod(p.x, prime);
    BignumAdd.Mod(p.y, prime);
    Dehomogenised(c, q, Fe(jp.x.val, m), Fe(jp.y.val, m), Fe(jp.z.val, m), i, V(p.x.val), V(p.y.val));
    AffineOf(c, p.x.val, p.y.val);
  }

  lemma FeSmall(s: seq<int>, p: int)
    requires p > 0
    ensures Fe(s, p) % p == Fe(s, p) && 0 <= Fe(s, p) < p
  {
    CongSelf(V(s), p);
  }

  // ---------------------------------------------------------------- point_jacobian_add

  // "bring p1 to the same denominator": xz = z^2, yz = z^3 and az = -a*z^4.
  method PowersOfZ(z: Bignum256, a: int, xz: Bignum256, yz: Bignum256, az: Bignum256, prime: Bignum256)
    requires Modulus(prime.val) && PartlyReduced(z.val, V(prime.val)) && -3 <= a <= 0
    requires xz != yz && xz != az && yz != az && z !in {xz, yz, az} && prime !in {xz, yz, az}
    modifies xz, yz, az
    ensures PartlyReduced(xz.val, V(prime.val)) && PartlyReduced(yz.val, V(prime.val))
    ensures a != 0 ==> PartlyReduced(az.val, V(prime.val))
    ensures var p, Z := V(prime.val), Fe(z.val, V(prime.val));
      && Fe(xz.val, p) == Mul(Z, Z, p) && Fe(yz.val, p) == Mul(Mul(Z, Z, p), Z, p)
      && (a != 0 ==> Fe(az.val, p) == Mul(-a, Mul(Mul(Z, Z, p), Mul(Z, Z, p), p), p))
  {
    Range(z.val);
    hide V, Fe, Mul, Normalized, Modulus;
    xz.val := z.val;
    Multiply(xz, xz, prime);
    yz.val := z.val;
    Multiply(xz, yz, prime);
    if a != 0 {
      az.val := xz.val;
      Multiply(az, az, prime);
      BignumAdd.MultK(az, -a, prime);
    }
  }

  // One coordinate over the common denominator: s becomes v*s, d its difference with t, and
  // s then its sum with t.
  method SumAndDifference(v: Bignum256, t: Bignum256, s: Bignum256, d: Bignum256, prime: Bignum256)
    requires Modulus(prime.val) && s != d && v !in {s, d} && t !in {s, d} && prime !in {s, d}
    requires PartlyReduced(v.val, V(prime.val)) && PartlyReduced(t.val, V(prime.val)) && PartlyReduced(s.val, V(prime.val))
    modifies s, d
    ensures Below(s.val, 4, V(prime.val)) && Below(d.val, 4, V(prime.val)) && V(d.val) > 0
    ensures var p := V(prime.val);
      var w := Mul(Fe(v.val, p), old(Fe(s.val, p)), p);
      Fe(s.val, p) == Add(w, Fe(t.val, p), p) && Fe(d.val, p) == Sub(w, Fe(t.val, p), p)
  {
    ghost var p := V(prime.val);
    PartlyBelow(t.val, p);
    hide V, Fe, Mul, Normalized, Sub, Add, BignumAdd.AddInRange, BignumAdd.AddTotal;
    Multiply(v, s, prime);
    ghost var w := V(s.val);
    PartlyBelow(s.val, p);
    AddResidues(w, V(t.val), p);
    BignumAdd.SubtractMod(s, t, d, prime);
    BignumAdd.AddTotalNormalized(s.val, t.val);
    BignumAdd.Add(s, t);
    SumFe(s.val, w + V(t.val), p);
    SumFe(t.val, V(t.val), p);
  }

  lemma AddResidues(a: int, b: int, p: int)
    requires p > 0
    ensures Add(a % p, b % p, p) == (a + b) % p
  {
    Field.AddMod(a, b, p);
  }

  lemma SumFe(s: seq<int>, v: int, p: int)
    requires p > 0 && V(s) == v
    ensures Fe(s, p) == v % p
  {
  }

  // The numerator of the tangent: r2 = 3*x^2 + a*z^4, az holding -a*z^4.
  method TangentNumerator(x: Bignum256, az: Bignum256, a: int, r2: Bignum256, prime: Bignum256)
    requires Modulus(prime.val) && PartlyReduced(x.val, V(prime.val)) && x !in {r2} && az !in {r2} && prime !in {r2}
    requires a != 0 ==> PartlyReduced(az.val, V(prime.val))
    modifies r2
    ensures Below(r2.val, 4, V(prime.val))
    ensures var p, X := V(prime.val), Fe(x.val, V(prime.val));
      var m := Mul(3, Mul(X, X, p), p);
      Fe(r2.val, p) == if a != 0 then Sub(m, Fe(az.val, p), p) else m
  {
    PartlyBelow(x.val, V(prime.val));
    hide V, Fe, Mul, Normalized, Sub;
    r2.val := x.val;
    Multiply(r2, r2, prime);
    BignumAdd.MultK(r2, 3, prime);
    PartlyBelow(r2.val, V(prime.val));
    if a != 0 {
      PartlyBelow(az.val, V(prime.val));
      BignumAdd.SubtractMod(r2, az, r2, prime);
    }
  }

  ghost predicate FractionHeld(p: int, r: seq<int>, h: seq<int>, xz: seq<int>, yz: seq<int>, f: Fraction)
    requires p > 0
  {
    && Below(r, 4, p) && Below(h, 4, p) && Below(xz, 4, p) && Below(yz, 4, p)
    && Fe(r, p) == f.r && Fe(h, p) == f.h && Fe(xz, p) == f.xs && Fe(yz, p) == f.ys
  }

  // bn_fast_mod takes a positive multiple of the prime to the prime itself, never to zero, so
  // comparing h with the prime decides h = 0 modulo it.
  lemma MultipleIsPrime(h: seq<int>, p: int)
    requires p > 0 && PartlyReduced(h, p) && V(h) > 0
    ensures V(h) == p <==> Fe(h, p) == 0
  {
    BignumAdd.ReduceOnce(V(h), p);
  }

  // point_jacobian_add up to the conditional moves.
  method SlopeFraction(p1: CurvePoint, p2: JacobianPoint, a: int, prime: Bignum256,
                       r: Bignum256, h: Bignum256, xz: Bignum256, yz: Bignum256, ghost c: Curve)
    requires Represented(c, prime.val) && a == c.a
    requires Reduced(p1.x.val, c.p) && Reduced(p1.y.val, c.p)
    requires PartlyReduced(p2.x.val, c.p) && PartlyReduced(p2.y.val, c.p) && PartlyReduced(p2.z.val, c.p)
    requires r != h && r != xz && r != yz && h != xz && h != yz && xz != yz
    requires p1.x !in {r, h, xz, yz} && p1.y !in {r, h, xz, yz} && p2.x !in {r, h, xz, yz} && p2.y !in {r, h, xz, yz}
    requires p2.z !in {r, h, xz, yz} && prime !in {r, h, xz, yz}
    modifies r, h, xz, yz
    ensures FractionHeld(c.p, r.val, h.val, xz.val, yz.val,
      AddFraction(c, Fe(p1.x.val, c.p), Fe(p1.y.val, c.p), Fe(p2.x.val, c.p), Fe(p2.y.val, c.p), Fe(p2.z.val, c.p)))
  {
    ghost var p := c.p;
    hide V, Fe, Mul, Normalized, Sub, Add, IsPrime;
    var az := new Bignum256(ZERO);
    var r2 := new Bignum256(ZERO);
    PowersOfZ(p2.z, a, xz, yz, az, prime);
    SumAndDifference(p1.x, p2.x, xz, h, prime);
    FastMod(h, prime);
    MultipleIsPrime(h.val, p);
    PartlyBelow(h.val, p);
    var isDoubling := IsEqual(h, prime);
    SumAndDifference(p1.y, p2.y, yz, r, prime);
    TangentNumerator(p2.x, az, a, r2, prime);
    Cmov(r, isDoubling, r2, r);
    Cmov(h, isDoubling, yz, h);
  }

  // h^2*(x1 + x2) and h^3*(y1 + y2)
  method ScaledSums(h: Bignum256, xz: Bignum256, yz: Bignum256, hsqx: Bignum256, hcby: Bignum256, prime: Bignum256)
    requires Modulus(prime.val) && hsqx != hcby && h !in {hsqx, hcby} && xz !in {hsqx, hcby} && yz !in {hsqx, hcby}
    requires prime !in {hsqx, hcby}
    requires Below(h.val, 4, V(prime.val)) && Below(xz.val, 4, V(prime.val)) && Below(yz.val, 4, V(prime.val))
    modifies hsqx, hcby
    ensures PartlyReduced(hsqx.val, V(prime.val)) && PartlyReduced(hcby.val, V(prime.val))
    ensures var p, H := V(prime.val), Fe(h.val, V(prime.val));
      && Fe(hsqx.val, p) == Mul(Fe(xz.val, p), Mul(H, H, p), p)
      && Fe(hcby.val, p) == Mul(Fe(yz.val, p), Mul(Mul(H, H, p), H, p), p)
  {
    hide V, Fe, Mul, Normalized;
    hsqx.val := h.val;
    Multiply(hsqx, hsqx, prime);
    hcby.val := h.val;
    Multiply(hsqx, hcby, prime);
    Multiply(xz, hsqx, prime);
    Multiply(yz, hcby, prime);
  }

  // "x3 = r^2 - h^2 (x1 + x2)"
  method JacobianX(r: Bignum256, hsqx: Bignum256, x: Bignum256, prime: Bignum256)
    requires Modulus(prime.val) && x !in {r, hsqx, prime}
    requires Below(r.val, 4, V(prime.val)) && PartlyReduced(hsqx.val, V(prime.val))
    modifies x
    ensures PartlyReduced(x.val, V(prime.val))
    ensures var p, R := V(prime.val), Fe(r.val, V(prime.val));
      Fe(x.val, p) == Sub(Mul(R, R, p), Fe(hsqx.val, p), p)
  {
    hide V, Fe, Mul, Normalized, Sub;
    x.val := r.val;
    Multiply(x, x, prime);
    PartlyBelow(x.val, V(prime.val));
    BignumAdd.SubtractMod(x, hsqx, x, prime);
    FastMod(x, prime);
  }

  // "y3 = 1/2 (r*(h^2 (x1 + x2) - 2x3) - h^3 (y1 + y2))"
  method JacobianY(r: Bignum256, hsqx: Bignum256, hcby: Bignum256, x: Bignum256, y: Bignum256, prime: Bignum256)
    requires Modulus(prime.val) && prime.val[0] % 2 == 1 && y !in {r, hsqx, hcby, x, prime}
    requires Below(r.val, 4, V(prime.val)) && PartlyReduced(hsqx.val, V(prime.val))
    requires PartlyReduced(hcby.val, V(prime.val)) && PartlyReduced(x.val, V(prime.val))
    modifies y
    ensures PartlyReduced(y.val, V(prime.val))
    ensures var p, HX, X := V(prime.val), Fe(hsqx.val, V(prime.val)), Fe(x.val, V(prime.val));
      Cong(2 * Fe(y.val, p),
           Sub(Mul(Fe(r.val, p), Sub(Sub(HX, X, p), X, p), p), Fe(hcby.val, p), p), p)
  {
    ghost var p := V(prime.val);
    PartlyBelow(hsqx.val, p);
    PartlyBelow(x.val, p);
    BignumAdd.Parity(prime.val);
    hide V, Fe, Mul, Normalized, Sub, Cong, Field.Half;
    BignumAdd.SubtractMod(hsqx, x, y, prime);
    BignumAdd.SubtractMod(y, x, y, prime);
    Multiply(r, y, prime);
    PartlyBelow(y.val, p);
    BignumAdd.SubtractMod(y, hcby, y, prime);
    ghost var t := y.val;
    BignumAdd.MultHalf(y, prime);
    HalfTwice(t, y.val, p);
    FastMod(y, prime);
  }

  // bn_mult_half divides by two in the field.
  lemma HalfTwice(t: seq<int>, s: seq<int>, p: int)
    requires p > 0 && p % 2 == 1 && V(s) == Field.Half(V(t), p)
    ensures Cong(2 * Fe(s, p), Fe(t, p), p)
  {
    var v := V(t);
    CongSelf(V(s), p);
    CongSelf(v, p);
    CongMul(2, 2, Fe(s, p), V(s), p);
    CongWitness(2 * V(s), v, if v % 2 == 0 then 0 else 1, p);
  }

  lemma FractionOfSum(c: Curve, q: Point, r: Point, X: int, Y: int, Z: int, f: Fraction)
    requires ValidCurve(c) && OnCurve(c, q) && q.Affine? && OnCurve(c, r) && Represents(c, X, Y, Z, r)
    requires f == AddFraction(c, q.x, q.y, X, Y, Z)
    ensures forall x3, y3, z3 :: AddResult(c.p, f, Z, x3, y3, z3) ==>
      if Sum(c, q, r) != Infinity then Represents(c, x3, y3, z3, Sum(c, q, r)) else z3 == 0
  {
    if Sum(c, q, r) == Infinity {
      OppositeSum(c, q, r);
      FractionVanishes(c, q, r, X, Y, Z);
      ZeroTimes(Z, c.p);
      return;
    }
    var l := Slope(c, q, r);
    FractionCorrect(c, q, r, X, Y, Z, l);
    hide AddFraction, FractionOf, AddResult, Represents, IsSlope;
    forall x3, y3, z3 | AddResult(c.p, f, Z, x3, y3, z3)
      ensures Represents(c, x3, y3, z3, Sum(c, q, r))
    {
      AddCorrect(c, q, r, l, Z, f, x3, y3, z3) by { RepresentsNonzero(c, X, Y, Z, r); }
    }
  }

  lemma ZeroTimes(Z: int, p: int)
    requires p > 0
    ensures Mul(0, Z, p) == 0 && Mul(Z, 0, p) == 0
  {
    SmallMod(0, p);
    assert 0 * Z == 0 && Z * 0 == 0;
  }

  // Two affine points add up to infinity only when they are opposite.
  lemma OppositeSum(c: Curve, q: Point, r: Point)
    requires ValidCurve(c) && OnCurve(c, q) && OnCurve(c, r) && q.Affine? && r.Affine? && Sum(c, q, r) == Infinity
    ensures q.x == r.x && Cong(q.y + r.y, 0, c.p)
  {
    SameX(c, q, r);
    SmallMod(0, c.p);
    CongSelf(-q.y, c.p);
    CongAdd(q.y, q.y, (-q.y) % c.p, -q.y, c.p);
    if r == q {
      assert q.y == 0;
    }
  }

  lemma RepresentsNonzero(c: Curve, X: int, Y: int, Z: int, q: Point)
    requires c.p > 0 && Represents(c, X, Y, Z, q)
    ensures q.Affine? && Z % c.p != 0
  {
  }

  // point_jacobian_add from hsqx = h^2 on.
  method CombineFraction(r: Bignum256, h: Bignum256, xz: Bignum256, yz: Bignum256, p2: JacobianPoint,
                         prime: Bignum256, ghost f: Fraction)
    requires Modulus(prime.val) && prime.val[0] % 2 == 1
    requires FractionHeld(V(prime.val), r.val, h.val, xz.val, yz.val, f) && PartlyReduced(p2.z.val, V(prime.val))
    requires p2.x != p2.y && p2.x != p2.z && p2.y != p2.z && r !in {p2.x, p2.y, p2.z} && h !in {p2.x, p2.y, p2.z}
    requires xz !in {p2.x, p2.y, p2.z} && yz !in {p2.x, p2.y, p2.z} && prime !in {p2.x, p2.y, p2.z}
    modifies p2.x, p2.y, p2.z
    ensures var p := V(prime.val);
      && PartlyReduced(p2.x.val, p) && PartlyReduced(p2.y.val, p) && PartlyReduced(p2.z.val, p)
      && AddResult(p, f, old(Fe(p2.z.val, p)), Fe(p2.x.val, p), Fe(p2.y.val, p), Fe(p2.z.val, p))
  {
    hide V, Fe, Mul, Normalized, Sub, Cong;
    var hsqx := new Bignum256(ZERO);
    var hcby := new Bignum256(ZERO);
    ScaledSums(h, xz, yz, hsqx, hcby, prime);
    Multiply(h, p2.z, prime);
    JacobianX(r, hsqx, p2.x, prime);
    JacobianY(r, hsqx, hcby, p2.x, p2.y, prime);
  }

  // point_jacobian_add: p2 = p1 + p2.
  method JacobianAdd(p1: CurvePoint, p2: JacobianPoint, a: int, prime: Bignum256, ghost c: Curve, ghost q: Point)
    requires Represented(c, prime.val) && a == c.a
    requires Coordinates(c, p1.x.val, p1.y.val) && PointOf(p1.x.val, p1.y.val).Affine?
    requires OnCurve(c, q) && Holds(c, p2.x.val, p2.y.val, p2.z.val, q)
    requires p2.x != p2.y && p2.x != p2.z && p2.y != p2.z && p1.x !in {p2.x, p2.y, p2.z}
    requires p1.y !in {p2.x, p2.y, p2.z} && prime !in {p2.x, p2.y, p2.z}
    modifies p2.x, p2.y, p2.z
    ensures OnCurve(c, Sum(c, PointOf(p1.x.val, p1.y.val), q))
    ensures HoldsSum(c, p2.x.val, p2.y.val, p2.z.val, Sum(c, PointOf(p1.x.val, p1.y.val), q))
  {
    ghost var q1, p := PointOf(p1.x.val, p1.y.val), c.p;
    ghost var Z := Fe(p2.z.val, p);
    PointBounds(c, p1.x.val, p1.y.val);
    Closed(c, q1, q);
    ghost var f := AddFraction(c, q1.x, q1.y, Fe(p2.x.val, p), Fe(p2.y.val, p), Z);
    FractionOfSum(c, q1, q, Fe(p2.x.val, p), Fe(p2.y.val, p), Z, f);
    hide V, Fe, Mul, Normalized, Sub, Cong, IsPrime, OnCurve, Coordinates, PointOf, Sum, AddFraction, Represents;
    var r := new Bignum256(ZERO);
    var h := new Bignum256(ZERO);
    var xz := new Bignum256(ZERO);
    var yz := new Bignum256(ZERO);
    SlopeFraction(p1, p2, a, prime, r, h, xz, yz, c);
    CombineFraction(r, h, xz, yz, p2, prime, f);
  }

  // ---------------------------------------------------------------- point_jacobian_double

  // -a*z^4
  method ScaledFourthPower(z: Bignum256, a: int, az4: Bignum256, prime: Bignum256)
    requires Modulus(prime.val) && -3 <= a <= 0 && az4 !in {z, prime} && PartlyReduced(z.val, V(prime.val))
    modifies az4
    ensures PartlyReduced(az4.val, V(prime.val))
    ensures var p, Z := V(prime.val), Fe(z.val, V(prime.val));
      Fe(az4.val, p) == Mul(-a, Mul(Mul(Z, Z, p), Mul(Z, Z, p), p), p)
  {
    hide V, Fe, Mul, Normalized;
    az4.val := z.val;
    Multiply(az4, az4, prime);
    Multiply(az4, az4, prime);
    BignumAdd.MultK(az4, -a, prime);
  }

  // "m = (3 x^2 + a z^4) / 2"
  method HalfTangent(x: Bignum256, z: Bignum256, a: int, m: Bignum256, prime: Bignum256)
    requires Modulus(prime.val) && prime.val[0] % 2 == 1 && -3 <= a <= 0 && m !in {x, z, prime}
    requires PartlyReduced(x.val, V(prime.val)) && PartlyReduced(z.val, V(prime.val))
    modifies m
    ensures Below(m.val, 5, V(prime.val))
    ensures var p, X, Z := V(prime.val), Fe(x.val, V(prime.val)), Fe(z.val, V(prime.val));
      Cong(2 * Fe(m.val, p),
           Sub(Mul(3, Mul(X, X, p), p), Mul(-a, Mul(Mul(Z, Z, p), Mul(Z, Z, p), p), p), p), p)
  {
    ghost var p := V(prime.val);
    PartlyBelow(x.val, p);
    PartlyBelow(z.val, p);
    BignumAdd.Parity(prime.val);
    hide V, Fe, Mul, Normalized, Sub, Cong, Field.Half;
    m.val := x.val;
    Multiply(m, m, prime);
    BignumAdd.MultK(m, 3, prime);
    PartlyBelow(m.val, p);
    var az4 := new Bignum256(ZERO);
    ScaledFourthPower(z, a, az4, prime);
    PartlyBelow(az4.val, p);
    BignumAdd.SubtractMod(m, az4, m, prime);
    ghost var t := m.val;
    BignumAdd.MultHalf(m, prime);
    HalfTwice(t, m.val, p);
    HalfRange(V(t), p);
  }

  lemma HalfRange(t: int, p: int)
    requires p > 0 && 0 <= t < 4 * p
    ensures 0 <= Field.Half(t, p) < 5 * p
  {
  }

  // m^2, y^2, x*y^2 and z3 = y*z
  method DoubleProducts(p: JacobianPoint, m: Bignum256, msq: Bignum256, ysq: Bignum256, xysq: Bignum256, prime: Bignum256)
    requires Modulus(prime.val) && Below(m.val, 5, V(prime.val))
    requires PartlyReduced(p.x.val, V(prime.val)) && PartlyReduced(p.y.val, V(prime.val))
    requires PartlyReduced(p.z.val, V(prime.val))
    requires msq != ysq && msq != xysq && ysq != xysq && p.x !in {p.z, msq, ysq, xysq}
    requires p.y !in {p.z, msq, ysq, xysq} && m !in {p.z, msq, ysq, xysq} && prime !in {p.z, msq, ysq, xysq}
    requires p.z !in {msq, ysq, xysq}
    modifies msq, ysq, xysq, p.z
    ensures var n, X, Y := V(prime.val), Fe(p.x.val, V(prime.val)), Fe(p.y.val, V(prime.val));
      && PartlyReduced(msq.val, n) && PartlyReduced(ysq.val, n) && PartlyReduced(xysq.val, n) && PartlyReduced(p.z.val, n)
      && Fe(msq.val, n) == Mul(Fe(m.val, n), Fe(m.val, n), n)
      && Fe(ysq.val, n) == Mul(Y, Y, n) && Fe(xysq.val, n) == Mul(Fe(ysq.val, n), X, n)
      && Fe(p.z.val, n) == Mul(Y, old(Fe(p.z.val, n)), n)
  {
    hide V, Fe, Mul, Normalized;
    msq.val := m.val;
    Multiply(msq, msq, prime);
    ysq.val := p.y.val;
    Multiply(ysq, ysq, prime);
    xysq.val := p.x.val;
    Multiply(ysq, xysq, prime);
    Multiply(p.y, p.z, prime);
  }

  // point_jacobian_double after m.
  method DoubleByTangent(p: JacobianPoint, m: Bignum256, prime: Bignum256)
    requires Modulus(prime.val) && m !in {p.x, p.y, p.z, prime} && Below(m.val, 5, V(prime.val))
    requires PartlyReduced(p.x.val, V(prime.val)) && PartlyReduced(p.y.val, V(prime.val))
    requires PartlyReduced(p.z.val, V(prime.val))
    requires p.x != p.y && p.x != p.z && p.y != p.z && prime !in {p.x, p.y, p.z}
    modifies p.x, p.y, p.z
    ensures var n := V(prime.val);
      && PartlyReduced(p.x.val, n) && PartlyReduced(p.y.val, n) && PartlyReduced(p.z.val, n)
      && DoubleResult(n, Fe(m.val, n), old(Fe(p.x.val, n)), old(Fe(p.y.val, n)), old(Fe(p.z.val, n)),
                      Fe(p.x.val, n), Fe(p.y.val, n), Fe(p.z.val, n))
  {
    ghost var n := V(prime.val);
    hide V, Fe, Mul, Normalized, Sub;
    var msq := new Bignum256(ZERO);
    var ysq := new Bignum256(ZERO);
    var xysq := new Bignum256(ZERO);
    DoubleProducts(p, m, msq, ysq, xysq, prime);
    DoubleAndSubtract(xysq, msq, p.x, prime);
    DoubleY3(m, xysq, ysq, p.x, p.y, prime);
  }

  // "y3 = m*(xy^2 - x3) - y^4"
  method DoubleY3(m: Bignum256, xysq: Bignum256, ysq: Bignum256, x: Bignum256, y: Bignum256, prime: Bignum256)
    requires Modulus(prime.val) && y != ysq && m !in {y, ysq} && xysq !in {y, ysq} && x !in {y, ysq} && prime !in {y, ysq}
    requires Below(m.val, 5, V(prime.val)) && PartlyReduced(xysq.val, V(prime.val))
    requires PartlyReduced(ysq.val, V(prime.val)) && PartlyReduced(x.val, V(prime.val))
    modifies y, ysq
    ensures PartlyReduced(y.val, V(prime.val))
    ensures var p := V(prime.val);
      Fe(y.val, p) == Sub(Mul(Fe(m.val, p), Sub(Fe(xysq.val, p), Fe(x.val, p), p), p),
                          Mul(old(Fe(ysq.val, p)), old(Fe(ysq.val, p)), p), p)
  {
    ghost var p := V(prime.val);
    PartlyBelow(xysq.val, p);
    PartlyBelow(x.val, p);
    hide V, Fe, Mul, Normalized, Sub;
    BignumAdd.SubtractMod(xysq, x, y, prime);
    Multiply(m, y, prime);
    Multiply(ysq, ysq, prime);
    PartlyBelow(y.val, p);
    BignumAdd.SubtractMod(y, ysq, y, prime);
    FastMod(y, prime);
  }

  // "x3 = m^2 - 2*xy^2"
  method DoubleAndSubtract(xysq: Bignum256, msq: Bignum256, x: Bignum256, prime: Bignum256)
    requires Modulus(prime.val) && x !in {xysq, msq, prime}
    requires PartlyReduced(xysq.val, V(prime.val)) && PartlyReduced(msq.val, V(prime.val))
    modifies x
    ensures PartlyReduced(x.val, V(prime.val))
    ensures var p := V(prime.val);
      Fe(x.val, p) == Sub(Fe(msq.val, p), Mul(2, Fe(xysq.val, p), p), p)
  {
    ghost var p := V(prime.val);
    PartlyBelow(xysq.val, p);
    PartlyBelow(msq.val, p);
    BignumAdd.ScaledResidue(2, V(xysq.val), p);
    hide V, Mul, Normalized, Sub;
    x.val := xysq.val;
    BignumAdd.LShift(x);
    FastMod(x, prime);
    BignumAdd.SubtractMod(msq, x, x, prime);
    FastMod(x, prime);
  }

  lemma DoubleOfSum(c: Curve, q: Point, m: int, X: int, Y: int, Z: int)
    requires ValidCurve(c) && InField(c, q) && Represents(c, X, Y, Z, q) && 0 <= Y < c.p
    requires var p := c.p;
      Cong(2 * m, Sub(Mul(3, Mul(X, X, p), p), Mul(-c.a, Mul(Mul(Z, Z, p), Mul(Z, Z, p), p), p), p), p)
    ensures forall x3, y3, z3 :: DoubleResult(c.p, m, X, Y, Z, x3, y3, z3) ==>
      if Sum(c, q, q) != Infinity then Represents(c, x3, y3, z3, Sum(c, q, q)) else z3 == 0
  {
    if q.y == 0 {
      assert 0 * (Z * Z * Z) == 0;
      CongSmall(Y, 0, c.p);
      ZeroTimes(Z, c.p);
      return;
    }
    var l, p := Slope(c, q, q), c.p;
    AlwaysSubtracting(c, q.x, X, Z);
    CongTrans(2 * m, Sub(Mul(3, Mul(X, X, p), p), Mul(-c.a, Mul(Mul(Z, Z, p), Mul(Z, Z, p), p), p), p),
              (3 * q.x * q.x + c.a) * ((Z * Z) * (Z * Z)), p);
    hide DoubleResult, IsSlope, Cong, Mul, Sub;
    forall x3, y3, z3 | DoubleResult(c.p, m, X, Y, Z, x3, y3, z3)
      ensures Represents(c, x3, y3, z3, Sum(c, q, q))
    {
      DoubleCorrect(c, q, l, m, X, Y, Z, x3, y3, z3);
    }
  }

  // point_jacobian_double subtracts -a*z^4 even when a is zero.
  lemma AlwaysSubtracting(c: Curve, x: int, X: int, Z: int)
    requires c.p > 0 && Cong(X, x * (Z * Z), c.p)
    ensures var p := c.p;
      Cong(Sub(Mul(3, Mul(X, X, p), p), Mul(-c.a, Mul(Mul(Z, Z, p), Mul(Z, Z, p), p), p), p),
           (3 * x * x + c.a) * ((Z * Z) * (Z * Z)), p)
  {
    var p, w := c.p, Z * Z;
    hide Cong, Mul, Sub;
    CongRefl(3, p);
    CongRefl(Z, p);
    CongRefl(-c.a, p);
    var zz := Mul(Z, Z, p);
    MulCong(Z, Z, Z, Z, p);
    MulCong(X, x * w, X, x * w, p);
    MulCong(3, 3, Mul(X, X, p), (x * w) * (x * w), p);
    MulCong(zz, w, zz, w, p);
    MulCong(-c.a, -c.a, Mul(zz, zz, p), w * w, p);
    SumCong(Mul(3, Mul(X, X, p), p), 3 * ((x * w) * (x * w)), Mul(-c.a, Mul(zz, zz, p), p), (-c.a) * (w * w), p);
    TangentTerms(x, c.a, w);
  }

  // point_jacobian_double: p = p + p.
  method JacobianDouble(p: JacobianPoint, a: int, prime: Bignum256, ghost c: Curve, ghost q: Point)
    requires Represented(c, prime.val) && a == c.a
    requires OnCurve(c, q) && Holds(c, p.x.val, p.y.val, p.z.val, q)
    requires p.x != p.y && p.x != p.z && p.y != p.z && prime !in {p.x, p.y, p.z}
    modifies p.x, p.y, p.z
    ensures OnCurve(c, Sum(c, q, q)) && HoldsSum(c, p.x.val, p.y.val, p.z.val, Sum(c, q, q))
  {
    ghost var n := c.p;
    ghost var X, Y, Z := Fe(p.x.val, n), Fe(p.y.val, n), Fe(p.z.val, n);
    Closed(c, q, q);
    RepresentsNonzero(c, X, Y, Z, q);
    FeSmall(p.y.val, n);
    hide V, Fe, Mul, Normalized, Sub, Cong, IsPrime, OnCurve, Sum, Represents, DoubleResult;
    var m := new Bignum256(ZERO);
    HalfTangent(p.x, p.z, a, m, prime);
    DoubleOfSum(c, q, Fe(m.val, n), X, Y, Z);
    DoubleByTangent(p, m, prime);
  }
}
