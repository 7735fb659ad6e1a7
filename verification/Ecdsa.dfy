// ecdsa.c: signing, verifying and recovering, stated against EcdsaSpec.

module Ecdsa {
  import opened Words
  import opened Bignum
  import opened BignumMultiply
  import opened Field
  import opened PrimeField
  import opened Curves
  import opened Multiples
  import opened MultiplySteps
  import opened Points
  import opened Jacobian
  import opened Scalars
  import opened PointMultiply
  import opened ScalarMultiply
  import opened EcdsaSpec
  import opened Bytes
  import opened PublicKeys
  import BignumAdd

  // The curve's constants, its generator G and the table of multiples of G.
  ghost predicate Parameters(curve: EcdsaCurve, c: Curve, n: int, G: Point)
    reads curve.prime, curve.order, curve.b, curve.orderHalf
  {
    && DescribesB(curve, c, n) && Normalized(curve.orderHalf.val) && V(curve.orderHalf.val) == n / 2
    && HasOrder(c, n, G) && CombTable(c, G, curve.cp)
  }

  lemma ParametersBasics(curve: EcdsaCurve, c: Curve, n: int, G: Point)
    requires Parameters(curve, c, n, G)
    ensures HasOrder(c, n, G) && GroupOrder(n) && IsPrime(n) && ValidCurve(c) && OnCurve(c, G) && 2 < n && c.p < 2 * n
    ensures n < B256
  {
    OrderRange(curve.order.val, n);
  }

  // ---------------------------------------------------------------- ecdsa_sign_digest

  // R = k*G and "r = (rx mod n)"; by collects the parity of y and whether x was reduced.
  method NoncePoint(curve: EcdsaCurve, k: Bignum256, R: CurvePoint, random: Limbs9,
                    ghost c: Curve, ghost n: int, ghost G: Point) returns (id: int)
    requires Parameters(curve, c, n, G) && Normalized(k.val) && 0 < V(k.val) < n && Denominator(random)
    requires R.x != R.y && curve.prime !in {R.x, R.y} && curve.order !in {R.x, R.y}
    modifies R.x, R.y
    ensures var P := Mult(c, old(V(k.val)), G);
      && P.Affine? && Reduced(R.x.val, n) && V(R.x.val) == P.x % n
      && id == (if P.y % 2 == 1 then 1 else 0) + (if P.x >= n then 2 else 0)
  {
    ghost var k0 := V(k.val);
    ghost var P := Mult(c, k0, G);
    ParametersBasics(curve, c, n, G);
    SmallMod(k0, n);
    MultOnCurve(c, n, k0, G);
    XOnce(P.x, c.p, n);
    hide V, HasOrder, CombTable, Denominator, IsPrime, OnCurve, Mult, Normalized;
    ScalarMultiply.ScalarMultiply(curve, k, R, random, c, n, G);
    LimbParity(R.y.val);
    id := R.y.val[0] % 2;
    var small := IsLess(R.x, curve.order);
    if !small {
      BignumAdd.Subtract(R.x, curve.order, R.x);
      id := id + 2;
    }
    RemainderRange(P.x, n);
  }

  lemma ShareResidue(n: int, kinv: int, k: int, r: int, d: int, w: int, z: int, t: int)
    requires IsPrime(n) && k % n != 0 && Cong(kinv * (k % n), 1, n)
    requires w % n == Mul(r % n, d % n, n) && t == w + z
    ensures Mul(kinv, t % n, n) == (Inverse(k, n) * (z + r * d)) % n
  {
    CongSelf(k, n);
    CongSelf(t, n);
    MulMod(r, d, n);
    CongMul(kinv, kinv, k % n, k, n);
    assert kinv * k == k * kinv;
    InverseUnique(k, kinv, n);
    CongAdd(w, r * d, z, z, n);
    hide Cong, IsPrime;
    CongTrans(t % n, t, r * d + z, n);
    CongMul(kinv, Inverse(k, n), t % n, r * d + z, n);
    CongEqual(kinv * (t % n), Inverse(k, n) * (z + r * d), n);
  }

  lemma CongEqual(a: int, b: int, n: int)
    requires n > 0 && Cong(a, b, n)
    ensures a % n == b % n
  {
  }

  // "k^-1 * (z + r * priv)" into s, which starts out holding the y coordinate of R.
  method SignatureShare(curve: EcdsaCurve, priv: seq<uint8>, z: Bignum256, k: Bignum256, r: Bignum256, s: Bignum256,
                        ghost c: Curve, ghost n: int, ghost G: Point)
    requires Parameters(curve, c, n, G) && |priv| == 32 && IsPrime(n) && V(k.val) % n != 0
    requires Normalized(z.val) && V(z.val) < B256 && Normalized(k.val) && 0 < V(k.val) < n && Reduced(r.val, n)
    requires k !in {curve.order, z, r, s} && s !in {curve.order, z, r}
    modifies k, s
    ensures Reduced(s.val, n)
    ensures V(s.val) == (Inverse(old(V(k.val)), n) * (V(z.val) + V(r.val) * BigEndian(priv))) % n
  {
    ghost var k0, z0, r0, d := V(k.val), V(z.val), V(r.val), BigEndian(priv);
    ParametersBasics(curve, c, n, G);
    SmallMod(k0, n);
    Range(z.val);
    Range(r.val);
    hide V, Fe, Mul, HasOrder, CombTable, IsPrime, OnCurve, Normalized, Cong, BigEndian, BignumAdd.AddInRange,
         BignumAdd.AddTotal;
    FeOf(k.val, n);
    FeOf(r.val, n);
    Invert(k, curve.order);
    ReadBE(priv, s);
    FeOf(s.val, n);
    PositiveLimbs(k.val);
    Multiply(r, s, curve.order);
    ghost var w := V(s.val);
    FeOf(s.val, n);
    PositiveLimbs(s.val);
    BignumAdd.AddTotalNormalized(s.val, z.val);
    BignumAdd.Add(s, z);
    FeOf(s.val, n);
    ShareResidue(n, Fe(k.val, n), k0, r0, d, w, z0, V(s.val));
    Multiply(k, s, curve.order);
    BignumAdd.Mod(s, curve.order);
  }

  // "if S > order/2 => S = -S"
  method LowS(curve: EcdsaCurve, s: Bignum256, id0: int, ghost c: Curve, ghost n: int, ghost G: Point) returns (id: int)
    requires Parameters(curve, c, n, G) && Reduced(s.val, n) && s !in {curve.order, curve.orderHalf}
    requires 0 <= id0 < 4
    modifies s
    ensures Reduced(s.val, n)
    ensures V(s.val) == (if old(V(s.val)) > n / 2 then n - old(V(s.val)) else old(V(s.val)))
    ensures id == if old(V(s.val)) > n / 2 then (if id0 % 2 == 1 then id0 - 1 else id0 + 1) else id0
  {
    ParametersBasics(curve, c, n, G);
    Range(s.val);
    hide V, HasOrder, CombTable, IsPrime, OnCurve, Normalized;
    id := id0;
    var high := IsLess(curve.orderHalf, s);
    if high {
      BignumAdd.Subtract(curve.order, s, s);
      id := if id0 % 2 == 1 then id0 - 1 else id0 + 1;
    }
  }

  lemma FlippedRecovery(y: int, large: bool, flipped: bool)
    ensures var id0 := (if y % 2 == 1 then 1 else 0) + if large then 2 else 0;
      && 0 <= id0 < 4
      && Recovery(y, large, flipped) == if flipped then (if id0 % 2 == 1 then id0 - 1 else id0 + 1) else id0
  {
  }

  // The 64 bytes of a signature.
  ghost predicate Encodes(bytes: seq<uint8>, r: int, s: int) {
    |bytes| == 64 && BigEndian(bytes[..32]) == r && BigEndian(bytes[32..]) == s
  }

  lemma EncodedOnce(a: seq<uint8>, b: seq<uint8>, r: int, s: int)
    requires Encodes(a, r, s) && Encodes(b, r, s)
    ensures a == b
  {
    BigEndianInjective(a[..32], b[..32]);
    BigEndianInjective(a[32..], b[32..]);
    assert a == a[..32] + a[32..] && b == b[..32] + b[32..];
  }

  // One round of the retry loop, for a nonce already in range.
  method SignOnce(curve: EcdsaCurve, priv: seq<uint8>, z: Bignum256, k: Bignum256, random: Limbs9,
                  ghost c: Curve, ghost n: int, ghost G: Point) returns (ok: bool, bytes: seq<uint8>, id: int)
    requires Parameters(curve, c, n, G) && |priv| == 32 && Denominator(random)
    requires Normalized(z.val) && V(z.val) < B256 && Normalized(k.val) && 0 < V(k.val) < n
    requires k !in {curve.prime, curve.order, curve.b, curve.orderHalf, z}
    modifies k
    ensures var a := Attempt(c, n, G, BigEndian(priv), V(z.val), old(V(k.val)));
      && (ok <==> a.Some?)
      && (ok ==> Encodes(bytes, a.value.r, a.value.s) && id == a.value.id)
  {
    ghost var k0, z0, d := V(k.val), V(z.val), BigEndian(priv);
    ghost var P := Mult(c, k0, G);
    ParametersBasics(curve, c, n, G);
    SmallMod(k0, n);
    FlippedRecovery(P.y, P.x >= n, false) by { MultOnCurve(c, n, k0, G); }
    FlippedRecovery(P.y, P.x >= n, true) by { MultOnCurve(c, n, k0, G); }
    hide V, HasOrder, CombTable, IsPrime, OnCurve, Normalized, Mult, Denominator, BigEndian, Recovery;
    ok, bytes := false, [];
    var R := new CurvePoint(ZERO, ZERO);
    id := NoncePoint(curve, k, R, random, c, n, G);
    var zero := IsZero(R.x);
    if zero {
      return;
    }
    SignatureShare(curve, priv, z, k, R.x, R.y, c, n, G);
    zero := IsZero(R.y);
    if zero {
      return;
    }
    id := LowS(curve, R.y, id, c, n, G);
    var r := WriteBE(R.x);
    var s := WriteBE(R.y);
    ok, bytes := true, r + s;
    assert bytes[..32] == r && bytes[32..] == s;
  }

  // The nonce k gives the signature (bytes, id), and the caller's filter takes it.
  ghost predicate Accepted(c: Curve, n: int, G: Point, d: int, z: int, k: int, isCanonical: (int, seq<uint8>) -> bool,
                           bytes: seq<uint8>, id: int)
    requires HasOrder(c, n, G)
  {
    var a := Attempt(c, n, G, d, z, k);
    a.Some? && Encodes(bytes, a.value.r, a.value.s) && id == a.value.id && isCanonical(id, bytes)
  }

  ghost predicate Rejected(c: Curve, n: int, G: Point, d: int, z: int, k: int, isCanonical: (int, seq<uint8>) -> bool)
    requires HasOrder(c, n, G)
  {
    forall bytes, id :: !Accepted(c, n, G, d, z, k, isCanonical, bytes, id)
  }

  lemma NotCanonical(c: Curve, n: int, G: Point, d: int, z: int, k: int, isCanonical: (int, seq<uint8>) -> bool,
                     bytes: seq<uint8>, id: int)
    requires HasOrder(c, n, G) && Attempt(c, n, G, d, z, k).Some?
    requires var a := Attempt(c, n, G, d, z, k).value; Encodes(bytes, a.r, a.s) && id == a.id
    requires !isCanonical(id, bytes)
    ensures Rejected(c, n, G, d, z, k, isCanonical)
  {
    var a := Attempt(c, n, G, d, z, k).value;
    forall b, e
      ensures !Accepted(c, n, G, d, z, k, isCanonical, b, e)
    {
      if Accepted(c, n, G, d, z, k, isCanonical, b, e) {
        EncodedOnce(bytes, b, a.r, a.s);
      }
    }
  }

  // What signing returns with the nonce k, in numbers, and that nothing of the kind is passed over.
  lemma AcceptedExact(c: Curve, n: int, G: Point, d: int, z: int, k: int, isCanonical: (int, seq<uint8>) -> bool,
                      bytes: seq<uint8>, id: int)
    requires HasOrder(c, n, G) && n > 2
    ensures OnCurve(c, G)
    ensures Accepted(c, n, G, d, z, k, isCanonical, bytes, id) <==>
      && |bytes| == 64 && isCanonical(id, bytes) && 0 < k < n && Mult(c, k, G).Affine?
      && var r, s := BigEndian(bytes[..32]), BigEndian(bytes[32..]);
         var y, large := Mult(c, k, G).y % 2, if Mult(c, k, G).x >= n then 2 else 0;
         && r == Mult(c, k, G).x % n && r != 0 && 0 < s <= n / 2
         && ((Cong(k * s, z + r * d, n) && id == y + large) || (Cong(k * s, -(z + r * d), n) && id == 1 - y + large))
    ensures Rejected(c, n, G, d, z, k, isCanonical) ==> !Accepted(c, n, G, d, z, k, isCanonical, bytes, id)
  {
    hide Attempt, Mult, IsPrime, Associative, OnCurve, Cong, BigEndian;
    if |bytes| == 64 {
      AttemptExact(c, n, G, d, z, k, BigEndian(bytes[..32]), BigEndian(bytes[32..]), id);
    } else {
      MultOnCurve(c, n, k, G);
    }
  }

  // The body of the retry loop.
  method SignRound(curve: EcdsaCurve, priv: seq<uint8>, z: Bignum256, nonce: seq<uint8>, random: Limbs9,
                   isCanonical: (int, seq<uint8>) -> bool, ghost c: Curve, ghost n: int, ghost G: Point)
    returns (ok: bool, bytes: seq<uint8>, id: int)
    requires Parameters(curve, c, n, G) && |priv| == 32 && |nonce| == 32 && Denominator(random)
    requires Normalized(z.val) && V(z.val) < B256
    ensures var d, k := BigEndian(priv), BigEndian(nonce);
      if ok then Accepted(c, n, G, d, V(z.val), k, isCanonical, bytes, id)
      else Rejected(c, n, G, d, V(z.val), k, isCanonical)
  {
    ghost var d, k0 := BigEndian(priv), BigEndian(nonce);
    ParametersBasics(curve, c, n, G);
    SmallMod(0, n);
    hide V, HasOrder, CombTable, IsPrime, OnCurve, Normalized, Mult, Denominator, BigEndian, Encodes;
    ok, bytes, id := false, [], 0;
    var k := new Bignum256(ZERO);
    ReadBE(nonce, k);
    var zero := IsZero(k);
    var small := IsLess(k, curve.order);
    if zero || !small {
      return;
    }
    hide Attempt;
    ok, bytes, id := SignOnce(curve, priv, z, k, random, c, n, G);
    if ok && !isCanonical(id, bytes) {
      NotCanonical(c, n, G, d, V(z.val), k0, isCanonical, bytes, id);
      ok := false;
    }
  }

  // ecdsa_sign_digest: the first acceptable nonce of at most 10000 signs.
  method SignDigest(curve: EcdsaCurve, priv: seq<uint8>, digest: seq<uint8>, nonces: seq<seq<uint8>>,
                    randoms: seq<Limbs9>, isCanonical: (int, seq<uint8>) -> bool,
                    ghost c: Curve, ghost n: int, ghost G: Point)
    returns (res: int, bytes: seq<uint8>, id: int, ghost used: nat)
    requires Parameters(curve, c, n, G) && |priv| == 32 && |digest| == 32
    requires |nonces| == |randoms| == 10000
    requires forall i :: 0 <= i < 10000 ==> |nonces[i]| == 32 && Denominator(randoms[i])
    ensures res == 0 || res == -1
    ensures var d, z := BigEndian(priv), BigEndian(digest);
      && (res == 0 ==> used < 10000 && Accepted(c, n, G, d, z, BigEndian(nonces[used]), isCanonical, bytes, id))
      && (forall j :: 0 <= j < (if res == 0 then used else 10000) ==>
            Rejected(c, n, G, d, z, BigEndian(nonces[j]), isCanonical))
  {
    hide V, HasOrder, CombTable, IsPrime, OnCurve, Normalized, Denominator, BigEndian, Accepted, Rejected, Parameters, GroupOrder,
         ValidCurve;
    ParametersBasics(curve, c, n, G);
    var z := new Bignum256(ZERO);
    ReadBE(digest, z);
    res, bytes, id, used := -1, [], 0, 0;
    var i := 0;
    while i < 10000
      invariant 0 <= i <= 10000 && Parameters(curve, c, n, G)
      invariant Normalized(z.val) && V(z.val) == BigEndian(digest) < B256
      invariant forall j :: 0 <= j < i ==>
        Rejected(c, n, G, BigEndian(priv), BigEndian(digest), BigEndian(nonces[j]), isCanonical)
    {
      var ok;
      ok, bytes, id := SignRound(curve, priv, z, nonces[i], randoms[i], isCanonical, c, n, G);
      if ok {
        res, used := 0, i;
        return;
      }
      i := i + 1;
    }
  }

  // ---------------------------------------------------------------- ecdsa_verify_digest

  // Cofactor one: every point of the curve but infinity has order n.
  ghost predicate OrderAt(c: Curve, n: int, q: Point)
    requires c.p > 0
  {
    OnCurve(c, q) && q != Infinity ==> HasOrder(c, n, q)
  }

  ghost predicate PrimeGroup(c: Curve, n: int)
    requires c.p > 0
  {
    forall q :: OrderAt(c, n, q)
  }

  lemma KeyOrder(c: Curve, n: int, bytes: seq<uint8>, q: Point)
    requires c.p > 0 && |bytes| >= 33 && (bytes[0] == 4 ==> |bytes| >= 65)
    requires PrimeGroup(c, n) && KeyBytes(c, bytes, q)
    ensures OnCurve(c, q) && HasOrder(c, n, q)
  {
    assert OrderAt(c, n, q);
  }

  // "z*s^-1" and "r*s^-1" modulo the order
  method Multipliers(curve: EcdsaCurve, r: Bignum256, s: Bignum256, z: Bignum256,
                     ghost c: Curve, ghost n: int, ghost G: Point)
    returns (ghost w: int)
    requires Parameters(curve, c, n, G) && r != s && r != z && s != z
    requires s !in {curve.prime, curve.order, curve.b, curve.orderHalf}
    requires z !in {curve.prime, curve.order, curve.b, curve.orderHalf}
    requires Reduced(r.val, n) && Reduced(s.val, n) && V(s.val) != 0 && Normalized(z.val) && V(z.val) < B256
    modifies s, z
    ensures Reduced(s.val, n) && Reduced(z.val, n) && Cong(old(V(s.val)) * w, 1, n)
    ensures V(z.val) == (old(V(z.val)) * w) % n && V(s.val) == (V(r.val) * w) % n
  {
    ghost var s0, z0, r0 := V(s.val), V(z.val), V(r.val);
    ParametersBasics(curve, c, n, G);
    Range(s.val);
    Range(z.val);
    Range(r.val);
    SmallMod(s0, n);
    hide V, Fe, Mul, HasOrder, CombTable, IsPrime, OnCurve, Normalized, Cong;
    FeOf(s.val, n);
    FeOf(z.val, n);
    FeOf(r.val, n);
    Invert(s, curve.order);
    w := Fe(s.val, n);
    PositiveLimbs(s.val);
    Multiply(s, z, curve.order);
    BignumAdd.Mod(z, curve.order);
    Multiply(r, s, curve.order);
    BignumAdd.Mod(s, curve.order);
    MultipliersResidue(n, s0, z0, r0, w);
  }

  lemma MultipliersResidue(n: int, s: int, z: int, r: int, w: int)
    requires n > 0 && s % n == s && Cong(w * s, 1, n)
    ensures Cong(s * w, 1, n) && Mul(w, z % n, n) == (z * w) % n && Mul(r % n, w, n) == (r * w) % n
  {
    assert s * w == w * s && z * w == w * z;
    CongSelf(z, n);
    CongSelf(r, n);
    CongMul(w, w, z % n, z, n);
    CongMul(r % n, r, w, w, n);
  }

  lemma MultReduced(c: Curve, n: int, a: int, q: Point)
    requires HasOrder(c, n, q)
    ensures n > 0 && Mult(c, a % n, q) == Mult(c, a, q)
  {
    MultMod(c, n, a, q);
  }

  // "pub = s*pub; res = z*G; res = pub + res", and the comparison of x modulo the order with r.
  method CheckSignature(curve: EcdsaCurve, pub: CurvePoint, r: Bignum256, u1: Bignum256, u2: Bignum256,
                        random1: Limbs9, random2: Limbs9,
                        ghost c: Curve, ghost n: int, ghost G: Point, ghost Q: Point) returns (ok: bool)
    requires Parameters(curve, c, n, G) && Denominator(random1) && Denominator(random2)
    requires Coordinates(c, pub.x.val, pub.y.val) && PointOf(pub.x.val, pub.y.val) == Q && HasOrder(c, n, Q)
    requires Reduced(u1.val, n) && Reduced(u2.val, n) && Reduced(r.val, n) && V(r.val) != 0
    requires pub.x != pub.y && pub.x !in {u1, u2, r} && pub.y !in {u1, u2, r}
    requires pub.x !in {curve.prime, curve.order, curve.b, curve.orderHalf}
    requires pub.y !in {curve.prime, curve.order, curve.b, curve.orderHalf}
    modifies pub.x, pub.y
    ensures var P := Plus(c, Mult(c, V(u2.val), Q), Mult(c, V(u1.val), G));
      ok <==> P.Affine? && P.x % n == V(r.val)
  {
    ghost var k1, k2, r0 := V(u1.val), V(u2.val), V(r.val);
    ParametersBasics(curve, c, n, G);
    MultOnCurve(c, n, k1, G);
    MultOnCurve(c, n, k2, Q);
    hide V, HasOrder, CombTable, IsPrime, OnCurve, Normalized, Mult, Denominator, Sum, Coordinates, PointOf;
    var res := new CurvePoint(ZERO, ZERO);
    ScalarMultiply.ScalarMultiply(curve, u1, res, random1, c, n, G);
    PointMultiply.PointMultiply(curve, u2, pub, pub, random2, c, n);
    PointAdd(pub, res, curve.prime, c, curve.a);
    ResultX(c, n, res.x.val, res.y.val);
    BignumAdd.Mod(res.x, curve.order);
    FeOf(res.x.val, n);
    ok := IsEqual(res.x, r);
  }

  // The x coordinate left by point_add, which is zero for the point at infinity.
  lemma ResultX(c: Curve, n: int, x: seq<int>, y: seq<int>)
    requires |x| == 9 && |y| == 9 && Coordinates(c, x, y) && n > 0 && c.p < 2 * n
    ensures var P := PointOf(x, y);
      && PartlyReduced(x, n)
      && Fe(x, n) == if P.Affine? then P.x % n else 0
  {
    SmallMod(0, n);
  }

  // What the code answers for the key Q: which of the error codes, or zero.
  ghost predicate Outcome(c: Curve, n: int, G: Point, Q: Point, r: int, s: int, z: int, result: int)
    requires HasOrder(c, n, G) && HasOrder(c, n, Q)
  {
    if r == 0 || s == 0 || r >= n || s >= n then result == 2
    else
      exists w :: Cong(s * w, 1, n) && Checked(c, n, G, Q, r, z, w, result)
  }

  ghost predicate Checked(c: Curve, n: int, G: Point, Q: Point, r: int, z: int, w: int, result: int)
    requires HasOrder(c, n, G) && HasOrder(c, n, Q)
  {
    if (z * w) % n == 0 then result == 3
    else result == if Verifies(c, n, G, Q, z, r, w) then 0 else 5
  }

  ghost predicate Verdict(c: Curve, n: int, G: Point, key: seq<uint8>, r: int, s: int, z: int, result: int)
    requires HasOrder(c, n, G) && |key| >= 33 && (key[0] == 4 ==> |key| >= 65)
  {
    if exists q :: KeyBytes(c, key, q)
    then exists q :: KeyBytes(c, key, q) && HasOrder(c, n, q) && Outcome(c, n, G, q, r, s, z, result)
    else result == 1
  }

  // ecdsa_verify_digest, once the key is read
  method VerifyWithKey(curve: EcdsaCurve, pub: CurvePoint, sig: seq<uint8>, digest: seq<uint8>,
                       random1: Limbs9, random2: Limbs9, ghost c: Curve, ghost n: int, ghost G: Point, ghost Q: Point)
    returns (result: int)
    requires Parameters(curve, c, n, G) && |sig| == 64 && |digest| == 32 && Denominator(random1) && Denominator(random2)
    requires Coordinates(c, pub.x.val, pub.y.val) && PointOf(pub.x.val, pub.y.val) == Q && HasOrder(c, n, Q)
    requires pub.x != pub.y && pub.x !in {curve.prime, curve.order, curve.b, curve.orderHalf}
    requires pub.y !in {curve.prime, curve.order, curve.b, curve.orderHalf}
    modifies pub.x, pub.y
    ensures Outcome(c, n, G, Q, BigEndian(sig[..32]), BigEndian(sig[32..]), BigEndian(digest), result)
  {
    ghost var r0, s0, z0 := BigEndian(sig[..32]), BigEndian(sig[32..]), BigEndian(digest);
    ParametersBasics(curve, c, n, G);
    hide V, HasOrder, CombTable, IsPrime, OnCurve, Normalized, Mult, Denominator, BigEndian, Coordinates, PointOf,
         Cong, Checked, Outcome;
    var r := new Bignum256(ZERO);
    var s := new Bignum256(ZERO);
    var z := new Bignum256(ZERO);
    ReadBE(sig[..32], r);
    ReadBE(sig[32..], s);
    ReadBE(digest, z);
    var inRange := BothInRange(r, s, curve.order);
    if !inRange {
      OutOfRange(c, n, G, Q, r0, s0, z0);
      return 2;
    }
    ghost var w;
    result, w := VerifyEquation(curve, pub, r, s, z, random1, random2, c, n, G, Q);
    WithinRange(c, n, G, Q, r0, s0, z0, w, result);
  }

  // A key is the bytes of one point.
  lemma KeyOnce(c: Curve, key: seq<uint8>, q: Point, q': Point)
    requires ValidCurve(c) && |key| >= 33 && (key[0] == 4 ==> |key| >= 65)
    requires KeyBytes(c, key, q) && KeyBytes(c, key, q')
    ensures q == q'
  {
    hide BigEndian, IsPrime;
    if key[0] != 4 {
      SameX(c, q, q');
      OddField(c.p);
      if q.y != 0 {
        NegatedParity(q.y, c.p);
      } else {
        SmallMod(0, c.p);
      }
    }
  }

  lemma OddField(p: int)
    requires IsPrime(p) && p > 3
    ensures p % 2 == 1
  {
  }

  // For the key d*G, every answer by the numbers alone: 0 exactly when some nonce gives r and s.
  lemma VerdictExact(c: Curve, n: int, G: Point, d: int, key: seq<uint8>, r: int, s: int, z: int, result: int)
    requires HasOrder(c, n, G) && d % n != 0 && |key| >= 33 && (key[0] == 4 ==> |key| >= 65) && 0 <= r && 0 <= s
    requires OnCurve(c, G) && KeyBytes(c, key, Mult(c, d, G)) && Verdict(c, n, G, key, r, s, z, result)
    ensures result == 2 <==> !(0 < r < n && 0 < s < n)
    ensures result == 3 <==> 0 < r < n && 0 < s < n && z % n == 0
    ensures result == 0 <==>
      && 0 < r < n && 0 < s < n && z % n != 0
      && exists k :: 0 < k < n && Cong(k * s, z + r * d, n) && Mult(c, k, G).Affine? && Mult(c, k, G).x % n == r
    ensures result == 5 <==>
      && 0 < r < n && 0 < s < n && z % n != 0
      && !exists k :: 0 < k < n && Cong(k * s, z + r * d, n) && Mult(c, k, G).Affine? && Mult(c, k, G).x % n == r
  {
    var Q := Mult(c, d, G);
    hide Mult, KeyBytes, IsPrime, Associative, OnCurve, Cong, Verifies;
    var q :| KeyBytes(c, key, q) && HasOrder(c, n, q) && Outcome(c, n, G, q, r, s, z, result);
    KeyOnce(c, key, q, Q);
    if 0 < r < n && 0 < s < n {
      var w :| Cong(s * w, 1, n) && Checked(c, n, G, Q, r, z, w, result);
      ZeroTimesInverse(s, w, z, n);
      VerifiesExact(c, n, G, d, z, r, s, w);
    }
  }

  // The answer 1 is for keys that are no point's bytes, and for these only.
  lemma UnreadableKey(c: Curve, n: int, G: Point, key: seq<uint8>, r: int, s: int, z: int, result: int)
    requires HasOrder(c, n, G) && |key| >= 33 && (key[0] == 4 ==> |key| >= 65)
    requires Verdict(c, n, G, key, r, s, z, result)
    ensures result == 1 <==> forall q :: !KeyBytes(c, key, q)
  {
    hide KeyBytes, HasOrder, Verifies;
  }

  lemma AnySigner(c: Curve, n: int, G: Point, key: seq<uint8>, r: int, s: int, z: int, result: int)
    requires HasOrder(c, n, G) && |key| >= 33 && (key[0] == 4 ==> |key| >= 65) && 0 <= r && 0 <= s
    requires OnCurve(c, G) && Verdict(c, n, G, key, r, s, z, result)
    ensures n > 0
    ensures forall d :: d % n != 0 && KeyBytes(c, key, Mult(c, d, G)) ==>
      (result == 0 <==>
        && 0 < r < n && 0 < s < n && z % n != 0
        && exists k :: 0 < k < n && Cong(k * s, z + r * d, n) && Mult(c, k, G).Affine? && Mult(c, k, G).x % n == r)
  {
    assert n > 0;
    hide Mult, KeyBytes, HasOrder, OnCurve, Cong, Verdict;
    forall d | d % n != 0 && KeyBytes(c, key, Mult(c, d, G))
      ensures result == 0 <==>
        && 0 < r < n && 0 < s < n && z % n != 0
        && exists k :: 0 < k < n && Cong(k * s, z + r * d, n) && Mult(c, k, G).Affine? && Mult(c, k, G).x % n == r
    {
      VerdictExact(c, n, G, d, key, r, s, z, result);
    }
  }

  // z * w vanishes exactly when z does.
  lemma ZeroTimesInverse(s: int, w: int, z: int, n: int)
    requires IsPrime(n) && Cong(s * w, 1, n)
    ensures (z * w) % n == 0 <==> z % n == 0
  {
    InverseNonzero(s, w, n);
    WholeProduct(w, z, n);
    assert z * w == w * z;
    if z % n != 0 {
      NoZeroDivisors(z, w, n);
    }
  }

  lemma InverseNonzero(s: int, w: int, n: int)
    requires n > 1 && Cong(s * w, 1, n)
    ensures w % n != 0
  {
    SmallMod(1, n);
    WholeProduct(s, w, n);
  }

  lemma WholeProduct(s: int, w: int, n: int)
    requires n > 0
    ensures w % n == 0 ==> (s * w) % n == 0
  {
    var q := w / n;
    if w % n == 0 {
      assert s * w == (s * q) * n by { assert w == q * n; assert s * (q * n) == (s * q) * n; }
      DivModUnique(s * w, n, s * q, 0);
    }
  }

  lemma OutOfRange(c: Curve, n: int, G: Point, Q: Point, r: nat, s: nat, z: int)
    requires HasOrder(c, n, G) && HasOrder(c, n, Q) && !(0 < r < n && 0 < s < n)
    ensures Outcome(c, n, G, Q, r, s, z, 2)
  {
  }

  lemma WithinRange(c: Curve, n: int, G: Point, Q: Point, r: int, s: int, z: int, w: int, result: int)
    requires HasOrder(c, n, G) && HasOrder(c, n, Q) && 0 < r < n && 0 < s < n
    requires Cong(s * w, 1, n) && Checked(c, n, G, Q, r, z, w, result)
    ensures Outcome(c, n, G, Q, r, s, z, result)
  {
  }

  // The rest of ecdsa_verify_digest, for r and s in range.
  method VerifyEquation(curve: EcdsaCurve, pub: CurvePoint, r: Bignum256, s: Bignum256, z: Bignum256,
                        random1: Limbs9, random2: Limbs9, ghost c: Curve, ghost n: int, ghost G: Point, ghost Q: Point)
    returns (result: int, ghost w: int)
    requires Parameters(curve, c, n, G) && Denominator(random1) && Denominator(random2)
    requires Coordinates(c, pub.x.val, pub.y.val) && PointOf(pub.x.val, pub.y.val) == Q && HasOrder(c, n, Q)
    requires Reduced(r.val, n) && V(r.val) != 0 && Reduced(s.val, n) && V(s.val) != 0
    requires Normalized(z.val) && V(z.val) < B256
    requires r != s && r != z && s != z && pub.x != pub.y && pub.x !in {r, s, z} && pub.y !in {r, s, z}
    requires s !in {curve.prime, curve.order, curve.b, curve.orderHalf}
    requires z !in {curve.prime, curve.order, curve.b, curve.orderHalf}
    requires pub.x !in {curve.prime, curve.order, curve.b, curve.orderHalf}
    requires pub.y !in {curve.prime, curve.order, curve.b, curve.orderHalf}
    modifies s, z, pub.x, pub.y
    ensures n > 0 && Cong(old(V(s.val)) * w, 1, n) && Checked(c, n, G, Q, V(r.val), old(V(z.val)), w, result)
  {
    ghost var z0, r0 := V(z.val), V(r.val);
    hide V, HasOrder, CombTable, IsPrime, OnCurve, Normalized, Mult, Denominator, Coordinates, PointOf, Cong;
    w := Multipliers(curve, r, s, z, c, n, G);
    var zero := IsZero(z);
    if zero {
      result := 3;
    } else {
      var ok := CheckSignature(curve, pub, r, z, s, random1, random2, c, n, G, Q);
      ReducedMultipliers(c, n, G, Q, z0, r0, w);
      result := if ok then 0 else 5;
    }
  }

  // ecdsa_verify_digest, the key read first
  method ReadAndVerify(curve: EcdsaCurve, key: seq<uint8>, sig: seq<uint8>, digest: seq<uint8>,
                       random1: Limbs9, random2: Limbs9, ghost c: Curve, ghost n: int, ghost G: Point)
    returns (result: int)
    requires Parameters(curve, c, n, G) && PrimeGroup(c, n) && c.p % 4 == 3
    requires |key| >= 33 && (key[0] == 4 ==> |key| >= 65) && |sig| == 64 && |digest| == 32
    requires Denominator(random1) && Denominator(random2)
    ensures Verdict(c, n, G, key, BigEndian(sig[..32]), BigEndian(sig[32..]), BigEndian(digest), result)
  {
    ParametersBasics(curve, c, n, G);
    hide V, HasOrder, CombTable, IsPrime, OnCurve, Normalized, Mult, Denominator, KeyBytes, BigEndian, PrimeGroup,
         Coordinates, PointOf, Cong, Outcome;
    var pub := new CurvePoint(ZERO, ZERO);
    var ok := ReadPubkey(curve, key, pub, c, n);
    if !ok {
      return 1;
    }
    ghost var Q := PointOf(pub.x.val, pub.y.val);
    KeyOrder(c, n, key, Q);
    result := VerifyWithKey(curve, pub, sig, digest, random1, random2, c, n, G, Q);
  }

  // For every d, a key that is the bytes of d*G is served exactly the signatures of d.
  method VerifyDigest(curve: EcdsaCurve, key: seq<uint8>, sig: seq<uint8>, digest: seq<uint8>,
                      random1: Limbs9, random2: Limbs9, ghost c: Curve, ghost n: int, ghost G: Point)
    returns (result: int)
    requires Parameters(curve, c, n, G) && PrimeGroup(c, n) && c.p % 4 == 3
    requires |key| >= 33 && (key[0] == 4 ==> |key| >= 65) && |sig| == 64 && |digest| == 32
    requires Denominator(random1) && Denominator(random2)
    ensures Verdict(c, n, G, key, BigEndian(sig[..32]), BigEndian(sig[32..]), BigEndian(digest), result)
    ensures result == 1 <==> forall q :: !KeyBytes(c, key, q)
    ensures n > 0 && OnCurve(c, G)
    ensures forall d :: d % n != 0 && KeyBytes(c, key, Mult(c, d, G)) ==>
      var r, s, z := BigEndian(sig[..32]), BigEndian(sig[32..]), BigEndian(digest);
      (result == 0 <==>
        && 0 < r < n && 0 < s < n && z % n != 0
        && exists k :: 0 < k < n && Cong(k * s, z + r * d, n) && Mult(c, k, G).Affine? && Mult(c, k, G).x % n == r)
  {
    hide *;
    ParametersBasics(curve, c, n, G);
    result := ReadAndVerify(curve, key, sig, digest, random1, random2, c, n, G);
    AnySigner(c, n, G, key, BigEndian(sig[..32]), BigEndian(sig[32..]), BigEndian(digest), result);
    UnreadableKey(c, n, G, key, BigEndian(sig[..32]), BigEndian(sig[32..]), BigEndian(digest), result);
  }

  method BothInRange(r: Bignum256, s: Bignum256, order: Bignum256) returns (ok: bool)
    requires Normalized(r.val) && Normalized(s.val) && Normalized(order.val)
    ensures ok <==> V(r.val) != 0 && V(s.val) != 0 && V(r.val) < V(order.val) && V(s.val) < V(order.val)
  {
    hide V, Normalized;
    var zr := IsZero(r);
    var zs := IsZero(s);
    var lr := IsLess(r, order);
    var ls := IsLess(s, order);
    ok := !zr && !zs && lr && ls;
  }

  lemma ReducedMultipliers(c: Curve, n: int, G: Point, Q: Point, z: int, r: int, w: int)
    requires HasOrder(c, n, G) && HasOrder(c, n, Q)
    ensures n > 0 && Mult(c, (r * w) % n, Q) == Mult(c, r * w, Q) && Mult(c, (z * w) % n, G) == Mult(c, z * w, G)
  {
    MultReduced(c, n, r * w, Q);
    MultReduced(c, n, z * w, G);
  }

  // ---------------------------------------------------------------- ecdsa_verify_digest_recover

  // The nonce point from r and the recovery byte.
  method NamedPoint(curve: EcdsaCurve, r: Bignum256, recid: int, cp: CurvePoint, ghost c: Curve, ghost n: int, ghost G: Point)
    returns (ok: bool)
    requires Parameters(curve, c, n, G) && c.p % 4 == 3 && Reduced(r.val, n) && 0 <= recid < 4
    requires cp.x != cp.y && r !in {cp.x, cp.y}
    requires cp.x !in {curve.prime, curve.order, curve.b, curve.orderHalf}
    requires cp.y !in {curve.prime, curve.order, curve.b, curve.orderHalf}
    modifies cp.x, cp.y
    ensures ok <==> exists q :: NamesPoint(c, n, V(r.val), recid, q)
    ensures ok ==> Coordinates(c, cp.x.val, cp.y.val) && NamesPoint(c, n, V(r.val), recid, PointOf(cp.x.val, cp.y.val))
  {
    ghost var r0 := V(r.val);
    ParametersBasics(curve, c, n, G);
    Range(r.val);
    Range(curve.order.val);
    hide V, Fe, HasOrder, CombTable, IsPrime, OnCurve, Normalized, Cong, Uncompressed, ValidKey, BignumAdd.AddInRange,
         BignumAdd.AddTotal;
    cp.x.val := r.val;
    if recid / 2 == 1 {
      BignumAdd.AddTotalNormalized(cp.x.val, curve.order.val);
      BignumAdd.Add(cp.x, curve.order);
      var small := IsLess(cp.x, curve.prime);
      if !small {
        return false;
      }
    }
    ghost var x := V(cp.x.val);
    FeOf(cp.x.val, c.p);
    UncompressCoords(curve, recid % 2 == 1, cp.x, cp.y, c, n);
    ok := ValidatePubkey(curve, cp, c, n);
    NamedFound(c, n, r0, recid, x, V(cp.y.val), ok);
    if ok {
      KeyPoint(c, cp.x.val, cp.y.val);
    }
  }

  lemma NamedFound(c: Curve, n: int, r: int, id: int, x: int, y: int, ok: bool)
    requires ValidCurve(c) && c.p % 4 == 3 && 0 <= id < 4 && x == r + (if id >= 2 then n else 0)
    requires Uncompressed(c, x % c.p, id % 2 == 1, y) && (ok <==> ValidKey(c, x, y))
    ensures ok ==> NamesPoint(c, n, r, id, Affine(x, y))
    ensures ok <==> exists q :: NamesPoint(c, n, r, id, q)
  {
    forall q | NamesPoint(c, n, r, id, q)
      ensures q == Affine(x, y) && ok
    {
      SmallMod(x, c.p);
      UncompressedKey(c, q, y);
      OriginOffCurve(c);
    }
    if ok {
      assert NamesPoint(c, n, r, id, Affine(x, y));
    }
  }

  // "e = -digest"
  method NegatedDigest(order: Bignum256, digest: seq<uint8>, e: Bignum256, ghost n: int)
    requires Modulus(order.val) && V(order.val) == n && n > 0 && |digest| == 32 && e != order
    modifies e
    ensures Reduced(e.val, n) && Cong(V(e.val), 0 - BigEndian(digest), n)
  {
    ghost var z := BigEndian(digest);
    NegatedResidueOf(n, z);
    hide V, Fe, Normalized, Cong, BigEndian, Sub;
    ReadBE(digest, e);
    FeOf(e.val, n);
    FeOf(order.val, n);
    BignumAdd.SubtractMod(order, e, e, order);
    FastMod(e, order);
    BignumAdd.Mod(e, order);
  }

  lemma NegatedResidueOf(n: int, z: int)
    requires n > 0
    ensures n % n == 0 && Cong(Sub(n % n, z % n, n), -z, n)
  {
    DivModUnique(n, n, 1, 0);
    CongSelf(z, n);
    CongSelf(0 - z % n, n);
    CongAdd(0, 0, z % n, z, n);
  }

  // r^-1 * (s*R - z*G), for the point R in cp.
  method RecoverKey(curve: EcdsaCurve, r: Bignum256, s: Bignum256, e: Bignum256, cp: CurvePoint, randoms: seq<Limbs9>,
                    ghost c: Curve, ghost n: int, ghost G: Point, ghost R: Point) returns (ghost i: int)
    requires Parameters(curve, c, n, G) && PrimeGroup(c, n)
    requires |randoms| == 3 && forall j :: 0 <= j < 3 ==> Denominator(randoms[j])
    requires Coordinates(c, cp.x.val, cp.y.val) && PointOf(cp.x.val, cp.y.val) == R && HasOrder(c, n, R)
    requires Reduced(r.val, n) && V(r.val) != 0 && Reduced(s.val, n) && Reduced(e.val, n)
    requires Plus(c, Mult(c, V(e.val), G), Mult(c, V(s.val), R)) != Infinity
    requires cp.x != cp.y && cp.x !in {r, s, e} && cp.y !in {r, s, e} && r !in {s, e}
    requires cp.x !in {curve.prime, curve.order, curve.b, curve.orderHalf}
    requires cp.y !in {curve.prime, curve.order, curve.b, curve.orderHalf}
    requires r !in {curve.prime, curve.order, curve.b, curve.orderHalf}
    modifies r, cp.x, cp.y
    ensures Cong(old(V(r.val)) * i, 1, n) && Coordinates(c, cp.x.val, cp.y.val)
    ensures PointOf(cp.x.val, cp.y.val) == Mult(c, i, Plus(c, Mult(c, V(e.val), G), Mult(c, V(s.val), R)))
  {
    ghost var e0, s0, r0 := V(e.val), V(s.val), V(r.val);
    ParametersBasics(curve, c, n, G);
    ghost var P := Plus(c, Mult(c, e0, G), Mult(c, s0, R));
    MultOnCurve(c, n, e0, G);
    MultOnCurve(c, n, s0, R);
    assert OrderAt(c, n, P);
    Range(r.val);
    SmallMod(r0, n);
    FeOf(r.val, n);
    var random0, random1, random2 := randoms[0], randoms[1], randoms[2];
    hide V, HasOrder, CombTable, IsPrime, OnCurve, Normalized, Mult, Denominator, Sum, Coordinates, PointOf, Cong, PrimeGroup;
    var cp2 := new CurvePoint(ZERO, ZERO);
    Invert(r, curve.order);
    i := V(r.val);
    InverseResidueOf(r.val, r0, n);
    PointMultiply.PointMultiply(curve, s, cp, cp, random0, c, n);
    ScalarMultiply.ScalarMultiply(curve, e, cp2, random1, c, n, G);
    PointAdd(cp2, cp, curve.prime, c, curve.a);
    PointMultiply.PointMultiply(curve, r, cp, cp, random2, c, n);
  }

  lemma InverseResidueOf(s: seq<int>, r: int, n: int)
    requires |s| == 9 && Reduced(s, n) && n > 0 && 0 <= r < n && Cong(Fe(s, n) * r, 1, n)
    ensures Cong(r * V(s), 1, n)
  {
    Range(s);
    SmallMod(V(s), n);
    assert r * V(s) == V(s) * r;
  }

  // The bytes of a key, as ecdsa_verify_digest_recover writes it.
  ghost predicate RecoveredBytes(c: Curve, bytes: seq<uint8>, q: Point)
    requires c.p > 0
  {
    |bytes| == 65 && bytes[0] == 4 && q == PointOfBytes(bytes) && OnCurve(c, q)
  }

  function PointOfBytes(bytes: seq<uint8>): Point
    requires |bytes| == 65
  {
    var x, y := BigEndian(bytes[1..33]), BigEndian(bytes[33..65]);
    if x == 0 && y == 0 then Infinity else Affine(x, y)
  }

  method WriteKey(cp: CurvePoint, ghost c: Curve) returns (bytes: seq<uint8>)
    requires ValidCurve(c) && c.p < B256 && Coordinates(c, cp.x.val, cp.y.val)
    ensures RecoveredBytes(c, bytes, PointOf(cp.x.val, cp.y.val))
  {
    hide V, Normalized, BigEndian, OnCurve;
    var x := WriteBE(cp.x);
    var y := WriteBE(cp.y);
    bytes := [4] + x + y;
    assert bytes[1..33] == x && bytes[33..65] == y;
  }

  // R is the point the signature names, e = -z and i = r^-1, and the key is i*(e*G + s*R).
  ghost predicate Recovered(c: Curve, n: int, G: Point, r: int, s: int, z: int, id: int, key: seq<uint8>,
                            R: Point, e: int, i: int)
    requires HasOrder(c, n, G)
  {
    && NamesPoint(c, n, r, id, R) && Cong(e, -z, n) && Cong(r * i, 1, n)
    && RecoveredBytes(c, key, Mult(c, i, Plus(c, Mult(c, e, G), Mult(c, s, R))))
  }

  // ecdsa_verify_digest_recover
  method VerifyDigestRecover(curve: EcdsaCurve, sig: seq<uint8>, digest: seq<uint8>, recid: int, randoms: seq<Limbs9>,
                             ghost c: Curve, ghost n: int, ghost G: Point)
    returns (result: int, key: seq<uint8>, ghost R: Point, ghost e: int, ghost i: int)
    requires Parameters(curve, c, n, G) && PrimeGroup(c, n) && c.p % 4 == 3 && c.p < B256
    requires |sig| == 64 && |digest| == 32 && 0 <= recid < 4
    requires |randoms| == 3 && forall j :: 0 <= j < 3 ==> Denominator(randoms[j])
    requires var r, s := BigEndian(sig[..32]), BigEndian(sig[32..]);
      0 < r < n && 0 < s < n ==> Recoverable(c, n, G, r, s, BigEndian(digest), recid)
    ensures result == 0 || result == 1
    ensures var r, s := BigEndian(sig[..32]), BigEndian(sig[32..]);
      result == 0 <==> 0 < r < n && 0 < s < n && exists q :: NamesPoint(c, n, r, recid, q)
    ensures result == 0 ==>
      Recovered(c, n, G, BigEndian(sig[..32]), BigEndian(sig[32..]), BigEndian(digest), recid, key, R, e, i)
  {
    ParametersBasics(curve, c, n, G);
    hide V, HasOrder, CombTable, IsPrime, OnCurve, Normalized, Mult, Denominator, BigEndian, PrimeGroup, Coordinates, PointOf,
         Cong, Recoverable, NamesPoint, RecoveredBytes, Recovered;
    result, key, R, e, i := 1, [], Infinity, 0, 0;
    var r := new Bignum256(ZERO);
    var s := new Bignum256(ZERO);
    ReadBE(sig[..32], r);
    ReadBE(sig[32..], s);
    var inRange := BothInRange(r, s, curve.order);
    if !inRange {
      return;
    }
    var cp := new CurvePoint(ZERO, ZERO);
    var ok := NamedPoint(curve, r, recid, cp, c, n, G);
    if ok {
      R := PointOf(cp.x.val, cp.y.val);
      key, e, i := FinishRecovery(curve, r, s, cp, digest, recid, randoms, c, n, G, R);
      result := 0;
    }
  }

  method FinishRecovery(curve: EcdsaCurve, r: Bignum256, s: Bignum256, cp: CurvePoint, digest: seq<uint8>, ghost id: int,
                        randoms: seq<Limbs9>, ghost c: Curve, ghost n: int, ghost G: Point, ghost R: Point)
    returns (key: seq<uint8>, ghost e: int, ghost i: int)
    requires Parameters(curve, c, n, G) && PrimeGroup(c, n) && c.p < B256 && |digest| == 32
    requires |randoms| == 3 && forall j :: 0 <= j < 3 ==> Denominator(randoms[j])
    requires Reduced(r.val, n) && V(r.val) != 0 && Reduced(s.val, n) && r != s
    requires Coordinates(c, cp.x.val, cp.y.val) && PointOf(cp.x.val, cp.y.val) == R
    requires NamesPoint(c, n, V(r.val), id, R) && Recoverable(c, n, G, V(r.val), V(s.val), BigEndian(digest), id)
    requires cp.x != cp.y && cp.x !in {r, s} && cp.y !in {r, s}
    requires cp.x !in {curve.prime, curve.order, curve.b, curve.orderHalf}
    requires cp.y !in {curve.prime, curve.order, curve.b, curve.orderHalf}
    requires r !in {curve.prime, curve.order, curve.b, curve.orderHalf}
    modifies r, cp.x, cp.y
    ensures Recovered(c, n, G, old(V(r.val)), V(s.val), BigEndian(digest), id, key, R, e, i)
  {
    ParametersBasics(curve, c, n, G);
    hide V, HasOrder, CombTable, IsPrime, OnCurve, Normalized, Mult, Denominator, BigEndian, PrimeGroup, Coordinates, PointOf,
         Cong, Recoverable, NamesPoint, RecoveredBytes;
    var d := new Bignum256(ZERO);
    NegatedDigest(curve.order, digest, d, n);
    e := V(d.val);
    NamedOrder(c, n, G, V(r.val), V(s.val), BigEndian(digest), id, R, e);
    i := RecoverKey(curve, r, s, d, cp, randoms, c, n, G, R);
    key := WriteKey(cp, c);
  }

  lemma NamedOrder(c: Curve, n: int, G: Point, r: int, s: int, z: int, id: int, q: Point, e: int)
    requires HasOrder(c, n, G) && PrimeGroup(c, n) && NamesPoint(c, n, r, id, q) && Cong(e, -z, n)
    requires Recoverable(c, n, G, r, s, z, id)
    ensures OnCurve(c, q) && HasOrder(c, n, q) && Plus(c, Mult(c, e, G), Mult(c, s, q)) != Infinity
  {
    assert OrderAt(c, n, q);
    InfiniteSum(c, n, G, s, z, q, e);
  }
}
