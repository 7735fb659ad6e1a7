// ecdsa.c: decompressing and validating public keys.

module PublicKeys {
  import opened Words
  import opened Bignum
  import opened BignumMultiply
  import opened Field
  import opened PrimeField
  import opened Curves
  import opened Points
  import opened PointMultiply
  import opened Bytes
  import BignumAdd
  import BignumSqrt

  // Describes together with the coefficient b.
  ghost predicate DescribesB(curve: EcdsaCurve, c: Curve, n: int)
    reads curve.prime, curve.order, curve.b
  {
    Describes(curve, c, n) && Reduced(curve.b.val, c.p) && V(curve.b.val) == c.b
  }

  // x^3 + a*x + b
  function Cubic(c: Curve, x: int): int {
    x * x * x + c.a * x + c.b
  }

  function CubicResidue(c: Curve, x: int): int
    requires c.p > 0
  {
    Add(Mul(x, Sub(Mul(x, x, c.p), -c.a, c.p), c.p), c.b, c.p)
  }

  lemma CubicCong(c: Curve, x: int)
    requires c.p > 0
    ensures Cong(CubicResidue(c, x), Cubic(c, x), c.p)
  {
    var p := c.p;
    hide Cong, Mul, Sub, Add;
    CongRefl(x, p);
    CongRefl(-c.a, p);
    CongRefl(c.b, p);
    MulCong(x, x, x, x, p);
    SumCong(Mul(x, x, p), x * x, -c.a, -c.a, p);
    MulCong(x, x, Sub(Mul(x, x, p), -c.a, p), x * x - -c.a, p);
    SumCong(Mul(x, Sub(Mul(x, x, p), -c.a, p), p), x * (x * x - -c.a), c.b, c.b, p);
    CubicTerms(x, c.a);
  }

  lemma CubicTerms(x: int, a: int)
    ensures x * (x * x - -a) == x * x * x + a * x
  {
  }

  // y = x^3 + a*x + b, not yet fully reduced
  method CubicOf(curve: EcdsaCurve, x: Bignum256, y: Bignum256, ghost c: Curve, ghost n: int)
    requires DescribesB(curve, c, n) && PartlyReduced(x.val, c.p) && y !in {x, curve.prime, curve.b}
    modifies y
    ensures Normalized(y.val) && V(y.val) < 3 * c.p
    ensures Fe(y.val, c.p) == CubicResidue(c, Fe(x.val, c.p))
  {
    ghost var p := c.p;
    Range(x.val);
    Range(curve.b.val);
    BignumAdd.AddTotalNormalized(curve.b.val, curve.b.val);
    hide V, Fe, Mul, Sub, Normalized, IsPrime, BignumAdd.AddInRange, BignumAdd.AddTotal;
    y.val := x.val;
    Multiply(x, y, curve.prime);
    PositiveLimbs(y.val);
    BignumAdd.SubI(y, -curve.a, curve.prime);
    Multiply(x, y, curve.prime);
    PositiveLimbs(y.val);
    ghost var w := V(y.val);
    BignumAdd.AddTotalNormalized(y.val, curve.b.val);
    BignumAdd.Add(y, curve.b);
    SumResidue(y.val, w, c.b, p);
  }

  lemma PositiveLimbs(s: seq<int>)
    requires |s| == 9 && Normalized(s)
    ensures V(s) >= 0
  {
    Range(s);
  }

  lemma SumResidue(s: seq<int>, a: int, b: int, p: int)
    requires V(s) == a + b && 0 <= b < p
    ensures Fe(s, p) == Add(a % p, b, p)
  {
    Field.AddMod(a, b, p);
    SmallMod(b, p);
  }

  // The candidate square root and the choice of sign: y = p - y when the parity is wrong.
  ghost predicate Uncompressed(c: Curve, x: int, odd: bool, y: int)
    requires c.p > 0
  {
    var root := BignumSqrt.Root(CubicResidue(c, x), c.p);
    (y % 2 == 1) == odd && (y == root || y == c.p - root)
  }

  // uncompress_coords
  method UncompressCoords(curve: EcdsaCurve, odd: bool, x: Bignum256, y: Bignum256, ghost c: Curve, ghost n: int)
    requires DescribesB(curve, c, n) && PartlyReduced(x.val, c.p) && y !in {x, curve.prime, curve.b}
    modifies y
    ensures Normalized(y.val) && 0 <= V(y.val) <= c.p && Uncompressed(c, Fe(x.val, c.p), odd, V(y.val))
  {
    ghost var p := c.p;
    CubicOf(curve, x, y, c, n);
    BignumAdd.Parity(curve.prime.val);
    hide V, Fe, BignumSqrt.Root, Normalized, IsPrime, CubicResidue;
    PositiveLimbs(y.val);
    BignumSqrt.Sqrt(y, curve.prime);
    LimbParity(y.val);
    ghost var root := V(y.val);
    FlippedParity(root, p);
    if odd != (y.val[0] % 2 == 1) {
      BignumAdd.Subtract(curve.prime, y, y);
      assert V(y.val) == p - root;
    }
  }

  lemma FlippedParity(root: int, p: int)
    requires p % 2 == 1
    ensures (p - root) % 2 == 1 <==> root % 2 == 0
  {
  }

  lemma LimbParity(s: seq<int>)
    requires |s| == 9 && Normalized(s)
    ensures V(s) % 2 == s[0] % 2 && V(s) >= 0
  {
    BignumAdd.Parity(s);
    Range(s);
  }

  // Decompression finds the point of the curve that has this x and this parity of y.
  lemma UncompressedPoint(c: Curve, q: Point, y: int)
    requires ValidCurve(c) && c.p % 4 == 3 && OnCurve(c, q) && q.Affine? && q.y != 0
    requires Uncompressed(c, q.x, q.y % 2 == 1, y)
    ensures y == q.y
  {
    var p, s := c.p, CubicResidue(c, q.x);
    var root := BignumSqrt.Root(s, p);
    CubicCong(c, q.x);
    CongSelf(Mul(q.x, Sub(Mul(q.x, q.x, p), -c.a, p), p) + c.b, p);
    CongSym(s, Cubic(c, q.x), p);
    CongTrans(q.y * q.y, Cubic(c, q.x), s, p);
    BignumSqrt.RootOfSquare(q.y, s, p);
    CongSym(q.y * q.y, s, p);
    CongTrans(root * root, s, q.y * q.y, p);
    hide Cong, IsPrime, CubicResidue, BignumSqrt.Root, OnCurve;
    OddHalves(p);
    if root != q.y {
      OppositeRoots(root, q.y, p);
      DivModUnique(-q.y, p, -1, p - q.y);
    }
    ParityChoice(p, q.y, root, y);
  }

  lemma OddHalves(p: int)
    requires p % 4 == 3
    ensures p % 2 == 1
  {
    DivModUnique(p, 2, 2 * (p / 4) + 1, 1);
  }

  lemma ParityChoice(p: int, y: int, root: int, z: int)
    requires p % 2 == 1 && (root == y || root == p - y) && (z == root || z == p - root)
    requires z % 2 == 1 <==> y % 2 == 1
    ensures z == y
  {
    FlippedParity(y, p);
  }

  // What ecdsa_validate_pubkey accepts.
  ghost predicate ValidKey(c: Curve, x: int, y: int)
    requires c.p > 0
  {
    !(x == 0 && y == 0) && OnCurve(c, Affine(x, y))
  }

  // ecdsa_validate_pubkey
  method ValidatePubkey(curve: EcdsaCurve, pub: CurvePoint, ghost c: Curve, ghost n: int) returns (ok: bool)
    requires DescribesB(curve, c, n) && Normalized(pub.x.val) && Normalized(pub.y.val)
    ensures ok <==> ValidKey(c, V(pub.x.val), V(pub.y.val))
  {
    Range(pub.x.val);
    Range(pub.y.val);
    hide V, Normalized, IsPrime, Cong;
    var infinite := IsInfinity(pub);
    if infinite {
      return false;
    }
    var smallX := IsLess(pub.x, curve.prime);
    var smallY := IsLess(pub.y, curve.prime);
    if !smallX || !smallY {
      return false;
    }
    ok := OnCurveTest(curve, pub, c, n);
  }

  // The two sides of the curve equation, fully reduced.
  method OnCurveTest(curve: EcdsaCurve, pub: CurvePoint, ghost c: Curve, ghost n: int) returns (ok: bool)
    requires DescribesB(curve, c, n) && Reduced(pub.x.val, c.p) && Reduced(pub.y.val, c.p)
    ensures ok <==> Cong(V(pub.y.val) * V(pub.y.val), Cubic(c, V(pub.x.val)), c.p)
  {
    ghost var p, x, y := c.p, V(pub.x.val), V(pub.y.val);
    Range(pub.x.val);
    Range(pub.y.val);
    SidesEqual(c, x, y);
    SmallMod(x, p);
    SmallMod(y, p);
    hide V, Mul, Normalized, IsPrime, CubicResidue, Cubic, Cong;
    var y2 := new Bignum256(ZERO);
    var rhs := new Bignum256(ZERO);
    y2.val := pub.y.val;
    Multiply(pub.y, y2, curve.prime);
    BignumAdd.Mod(y2, curve.prime);
    RightSide(curve, pub.x, rhs, c, n);
    ok := IsEqual(rhs, y2);
  }

  // "x^3 + ax + b", fully reduced
  method RightSide(curve: EcdsaCurve, x: Bignum256, rhs: Bignum256, ghost c: Curve, ghost n: int)
    requires DescribesB(curve, c, n) && PartlyReduced(x.val, c.p) && rhs !in {x, curve.prime, curve.b}
    modifies rhs
    ensures Reduced(rhs.val, c.p) && V(rhs.val) == CubicResidue(c, Fe(x.val, c.p))
  {
    ghost var p := c.p;
    Range(x.val);
    Range(curve.b.val);
    SmallMod(c.b, p);
    hide V, Fe, Mul, Sub, Field.Add, Normalized, IsPrime;
    rhs.val := x.val;
    Multiply(x, rhs, curve.prime);
    PositiveLimbs(rhs.val);
    BignumAdd.SubI(rhs, -curve.a, curve.prime);
    Multiply(x, rhs, curve.prime);
    BignumAdd.AddMod(rhs, curve.b, curve.prime);
    FeOf(curve.b.val, p);
    BignumAdd.Mod(rhs, curve.prime);
  }

  lemma FeOf(s: seq<int>, p: int)
    requires p > 0
    ensures Fe(s, p) == V(s) % p
  {
  }

  lemma SidesEqual(c: Curve, x: int, y: int)
    requires c.p > 0
    ensures Mul(y, y, c.p) == CubicResidue(c, x) <==> Cong(y * y, Cubic(c, x), c.p)
  {
    var p := c.p;
    CubicCong(c, x);
    CongSelf(Mul(x, Sub(Mul(x, x, p), -c.a, p), p) + c.b, p);
    hide Mul, Sub, Cubic;
    SameResidue(CubicResidue(c, x), Cubic(c, x), y * y, p);
  }

  lemma SameResidue(r: int, a: int, b: int, p: int)
    requires p > 0 && 0 <= r < p && Cong(r, a, p)
    ensures b % p == r <==> Cong(b, a, p)
  {
    SmallMod(r, p);
  }

  // ---------------------------------------------------------------- ecdsa_read_pubkey

  // The point a serialised key denotes: 04 || x || y, or 02/03 || x with the parity of y.
  ghost predicate KeyBytes(c: Curve, bytes: seq<uint8>, q: Point)
    requires c.p > 0 && |bytes| >= 33 && (bytes[0] == 4 ==> |bytes| >= 65)
  {
    && q.Affine? && ValidKey(c, q.x, q.y) && q.x == BigEndian(bytes[1..33])
    && (bytes[0] == 4 || ((bytes[0] == 2 || bytes[0] == 3) && (q.y % 2 == 1 <==> bytes[0] == 3)))
    && (bytes[0] == 4 ==> q.y == BigEndian(bytes[33..65]))
  }

  // Decompression of the points with y = 0 as well.
  lemma UncompressedKey(c: Curve, q: Point, y: int)
    requires ValidCurve(c) && c.p % 4 == 3 && OnCurve(c, q) && q.Affine?
    requires Uncompressed(c, q.x, q.y % 2 == 1, y)
    ensures y == q.y
  {
    if q.y != 0 {
      UncompressedPoint(c, q, y);
    } else {
      var p, s := c.p, CubicResidue(c, q.x);
      CubicCong(c, q.x);
      CongSelf(Mul(q.x, Sub(Mul(q.x, q.x, p), -c.a, p), p) + c.b, p);
      SmallMod(0, p);
      SmallMod(s, p);
      BignumSqrt.RootOfZero(p);
      OddHalves(p);
    }
  }

  // ecdsa_read_pubkey
  method ReadPubkey(curve: EcdsaCurve, bytes: seq<uint8>, pub: CurvePoint, ghost c: Curve, ghost n: int) returns (ok: bool)
    requires DescribesB(curve, c, n) && c.p % 4 == 3
    requires |bytes| >= 33 && (bytes[0] == 4 ==> |bytes| >= 65)
    requires pub.x != pub.y && curve.prime !in {pub.x, pub.y} && curve.b !in {pub.x, pub.y}
    requires curve.order !in {pub.x, pub.y}
    modifies pub.x, pub.y
    ensures ok <==> exists q :: KeyBytes(c, bytes, q)
    ensures ok ==> Coordinates(c, pub.x.val, pub.y.val) && KeyBytes(c, bytes, PointOf(pub.x.val, pub.y.val))
  {
    ghost var v := BigEndian(bytes[1..33]);
    hide V, BigEndian, IsPrime, Normalized, Uncompressed, ValidKey, OnCurve, Cong, Fe;
    if bytes[0] == 4 {
      ReadBE(bytes[1..33], pub.x);
      ReadBE(bytes[33..65], pub.y);
      ok := ValidatePubkey(curve, pub, c, n);
    } else if bytes[0] == 2 || bytes[0] == 3 {
      ReadBE(bytes[1..33], pub.x);
      PartlyFromBytes(pub.x.val, c.p);
      UncompressCoords(curve, bytes[0] == 3, pub.x, pub.y, c, n);
      ok := ValidatePubkey(curve, pub, c, n);
      OnlyKey(c, bytes, v, V(pub.y.val), bytes[0] == 3);
    } else {
      ok := false;
    }
    if ok {
      KeyPoint(c, pub.x.val, pub.y.val);
    }
    KeyFound(c, bytes, v, V(pub.y.val), ok);
  }

  lemma PartlyFromBytes(s: seq<int>, p: int)
    requires Normalized(s) && V(s) < B256 && B256 - B224 < p
    ensures PartlyReduced(s, p)
  {
  }

  // A valid compressed key can only be the point that decompression produced.
  lemma OnlyKey(c: Curve, bytes: seq<uint8>, x: int, y: int, odd: bool)
    requires ValidCurve(c) && c.p % 4 == 3 && |bytes| >= 33 && (bytes[0] == 2 || bytes[0] == 3)
    requires x == BigEndian(bytes[1..33]) && odd == (bytes[0] == 3) && Uncompressed(c, x % c.p, odd, y)
    ensures y % 2 == 1 <==> odd
    ensures forall q :: KeyBytes(c, bytes, q) ==> q == Affine(x, y)
  {
    forall q | KeyBytes(c, bytes, q)
      ensures q == Affine(x, y)
    {
      SmallMod(x, c.p);
      UncompressedKey(c, q, y);
    }
  }

  lemma KeyPoint(c: Curve, x: seq<int>, y: seq<int>)
    requires ValidCurve(c) && Normalized(x) && Normalized(y) && ValidKey(c, V(x), V(y))
    ensures Coordinates(c, x, y) && PointOf(x, y) == Affine(V(x), V(y))
  {
  }

  lemma KeyFound(c: Curve, bytes: seq<uint8>, x: int, y: int, ok: bool)
    requires c.p > 0 && |bytes| >= 33 && (bytes[0] == 4 ==> |bytes| >= 65) && x == BigEndian(bytes[1..33])
    requires ok ==> KeyBytes(c, bytes, Affine(x, y))
    requires !ok && bytes[0] == 4 ==> y == BigEndian(bytes[33..65]) && !ValidKey(c, x, y)
    requires !ok && (bytes[0] == 2 || bytes[0] == 3) ==>
      !ValidKey(c, x, y) && forall q :: KeyBytes(c, bytes, q) ==> q == Affine(x, y)
    ensures ok <==> exists q :: KeyBytes(c, bytes, q)
  {
  }
}
