// Signing, verifying and recovering together: the promises of sections 4.1.3, 4.1.4 and 4.1.6 of
// SEC 1, for the three functions of ecdsa.c run one after the other.

module EcdsaRoundTrip {
  import opened Words
  import opened Bignum
  import opened Field
  import opened PrimeField
  import opened Curves
  import opened Multiples
  import opened MultiplySteps
  import opened Jacobian
  import opened PointMultiply
  import opened Bytes
  import opened EcdsaSpec
  import opened PublicKeys
  import opened Ecdsa

  // The uncompressed bytes of a key are read back as that key and no other.
  lemma OwnKey(c: Curve, key: seq<uint8>, Q: Point)
    requires ValidCurve(c) && RecoveredBytes(c, key, Q) && Q != Infinity
    ensures KeyBytes(c, key, Q)
    ensures forall q :: KeyBytes(c, key, q) ==> q == Q
  {
    OriginOffCurve(c);
  }

  lemma SameKeyBytes(c: Curve, a: seq<uint8>, b: seq<uint8>, Q: Point)
    requires c.p > 0 && RecoveredBytes(c, a, Q) && RecoveredBytes(c, b, Q) && Q != Infinity
    ensures a == b
  {
    BigEndianInjective(a[1..33], b[1..33]);
    BigEndianInjective(a[33..65], b[33..65]);
    assert a == [a[0]] + a[1..33] + a[33..65] && b == [b[0]] + b[1..33] + b[33..65];
  }

  // A digest that is not zero modulo the order is accepted under the signer's key.
  lemma AcceptedVerdict(c: Curve, n: int, G: Point, d: int, z: int, k: int, key: seq<uint8>, result: int)
    requires HasOrder(c, n, G) && d % n != 0 && z % n != 0 && Attempt(c, n, G, d, z, k).Some?
    requires OnCurve(c, G) && |key| == 65 && RecoveredBytes(c, key, Mult(c, d, G))
    requires var sig := Attempt(c, n, G, d, z, k).value; Verdict(c, n, G, key, sig.r, sig.s, z, result)
    ensures result == 0
  {
    var sig := Attempt(c, n, G, d, z, k).value;
    var Q := Mult(c, d, G);
    PublicKey(c, n, G, d);
    SignatureRange(c, n, G, d, z, k);
    OwnKey(c, key, Q);
    hide Attempt, Mult, KeyBytes, IsPrime, Associative, OnCurve, Cong, Verifies;
    assert KeyBytes(c, key, Q);
    var q :| KeyBytes(c, key, q) && HasOrder(c, n, q) && Outcome(c, n, G, q, sig.r, sig.s, z, result);
    var w :| Cong(sig.s * w, 1, n) && Checked(c, n, G, q, sig.r, z, w, result);
    SignatureVerifies(c, n, G, d, z, k, w);
    InverseNonzero(sig.s, w, n);
    NoZeroDivisors(z, w, n);
  }

  // The recovery byte of a signature always names a point from which recovery is safe.
  lemma SignatureRecoverable(c: Curve, n: int, G: Point, d: int, z: int, k: int)
    requires HasOrder(c, n, G) && n > 2 && c.p % 2 == 1 && c.p < 2 * n && d % n != 0
    requires Attempt(c, n, G, d, z, k).Some?
    ensures var sig := Attempt(c, n, G, d, z, k).value;
      Recoverable(c, n, G, sig.r, sig.s, z, sig.id) && exists q :: NamesPoint(c, n, sig.r, sig.id, q)
  {
    var sig := Attempt(c, n, G, d, z, k).value;
    var f := NonceNamed(c, n, G, d, z, k);
    SignatureRange(c, n, G, d, z, k);
    SmallMod(sig.r, n);
    var i := Inverse(sig.r, n);
    hide Attempt, Mult, NamesPoint, IsPrime, Associative, OnCurve, Cong;
    CongRefl(-z, n);
    forall q | NamesPoint(c, n, sig.r, sig.id, q)
      ensures Mult(c, sig.s, q) != Mult(c, z, G)
    {
      SignatureRecovers(c, n, G, d, z, k, q, -z, i);
      NamedOnCurve(c, n, sig.r, sig.id, q);
      InfiniteSum(c, n, G, sig.s, z, q, -z);
    }
  }

  lemma NamedOnCurve(c: Curve, n: int, r: int, id: int, q: Point)
    requires c.p > 0 && NamesPoint(c, n, r, id, q)
    ensures OnCurve(c, q)
  {
  }

  lemma RecoveredKey(c: Curve, n: int, G: Point, d: int, z: int, k: int, key: seq<uint8>, key': seq<uint8>,
                     R: Point, e: int, i: int)
    requires HasOrder(c, n, G) && n > 2 && c.p % 2 == 1 && c.p < 2 * n && d % n != 0
    requires OnCurve(c, G) && Attempt(c, n, G, d, z, k).Some? && RecoveredBytes(c, key, Mult(c, d, G))
    requires var sig := Attempt(c, n, G, d, z, k).value;
      Recovered(c, n, G, sig.r, sig.s, z, sig.id, key', R, e, i)
    ensures key' == key
  {
    var sig := Attempt(c, n, G, d, z, k).value;
    SignatureRecovers(c, n, G, d, z, k, R, e, i);
    MultOnCurve(c, n, d, G);
    SameKeyBytes(c, key, key', Mult(c, d, G));
  }

  // Sign a digest, then verify it and recover the key from it.
  method SignVerifyRecover(curve: EcdsaCurve, priv: seq<uint8>, key: seq<uint8>, digest: seq<uint8>,
                           nonces: seq<seq<uint8>>, randoms: seq<Limbs9>, extra: seq<Limbs9>,
                           isCanonical: (int, seq<uint8>) -> bool,
                           ghost c: Curve, ghost n: int, ghost G: Point)
    returns (signed: bool, verdict: int, recovery: int, recovered: seq<uint8>)
    requires Parameters(curve, c, n, G) && PrimeGroup(c, n) && c.p % 4 == 3 && c.p < B256
    requires |priv| == 32 && |digest| == 32 && n > 0 && OnCurve(c, G)
    requires BigEndian(priv) % n != 0 && BigEndian(digest) % n != 0
    requires |key| == 65 && RecoveredBytes(c, key, Mult(c, BigEndian(priv), G))
    requires |nonces| == |randoms| == 10000
    requires forall i :: 0 <= i < 10000 ==> |nonces[i]| == 32 && Denominator(randoms[i])
    requires |extra| == 3 && forall j :: 0 <= j < 3 ==> Denominator(extra[j])
    ensures signed ==> verdict == 0 && recovery == 0 && recovered == key
  {
    ghost var d, z := BigEndian(priv), BigEndian(digest);
    ParametersBasics(curve, c, n, G);
    OddHalves(c.p);
    var random1, random2 := extra[0], extra[1];
    hide Parameters, PrimeGroup, HasOrder, Mult, RecoveredBytes, Denominator, BigEndian, OnCurve, IsPrime, Attempt,
         Verdict, Recoverable, Recovered, NamesPoint, Rejected, ValidCurve;
    var res, sig, id;
    ghost var used;
    res, sig, id, used := SignDigest(curve, priv, digest, nonces, randoms, isCanonical, c, n, G);
    signed, verdict, recovery, recovered := res == 0, 1, 1, [];
    if signed {
      ghost var k := BigEndian(nonces[used]);
      SignatureRecoverable(c, n, G, d, z, k);
      SignatureRange(c, n, G, d, z, k);
      verdict := VerifyDigest(curve, key, sig, digest, random1, random2, c, n, G);
      AcceptedVerdict(c, n, G, d, z, k, key, verdict);
      ghost var R, e, i;
      recovery, recovered, R, e, i := VerifyDigestRecover(curve, sig, digest, id, extra, c, n, G);
      RecoveredKey(c, n, G, d, z, k, key, recovered, R, e, i);
    }
  }
}
