// Sections 4.1.3, 4.1.4 and 4.1.6 of SEC 1 over the group of Multiples: what a signature is, and
// why every one of them verifies and gives the signer's key back.

module EcdsaSpec {
  import opened Options
  import opened Words
  import opened Field
  import opened PrimeField
  import opened Curves
  import opened Multiples
  import opened MultiplySteps

  datatype Signature = Signature(r: int, s: int, id: int)

  // The recovery byte: bit 0 the parity of the y coordinate, bit 1 set when x is at least n.
  function Recovery(y: int, large: bool, flipped: bool): int {
    (if (y % 2 == 1) != flipped then 1 else 0) + if large then 2 else 0
  }

  // Signing with one nonce: nothing when the nonce is out of range or r or s is zero.
  ghost function Attempt(c: Curve, n: int, G: Point, d: int, z: int, k: int): (sig: Option<Signature>)
    requires HasOrder(c, n, G)
  {
    if k % n == 0 || k < 0 || k >= n then None
    else
      var R := Mult(c, k, G);
      if R.Infinity? || R.x % n == 0 then None
      else
        var r := R.x % n;
        var s := (Inverse(k, n) * (z + r * d)) % n;
        if s == 0 then None
        else Some(Signature(r, if s > n / 2 then n - s else s, Recovery(R.y, R.x >= n, s > n / 2)))
  }

  // The equation the verifier checks; w is the inverse of s.
  ghost predicate Verifies(c: Curve, n: int, G: Point, Q: Point, z: int, r: int, w: int)
    requires HasOrder(c, n, G) && HasOrder(c, n, Q)
  {
    var P := Plus(c, Mult(c, r * w, Q), Mult(c, z * w, G));
    P.Affine? && P.x % n == r
  }

  // The nonce point up to sign, from the two numbers of a signature.
  lemma NonceRelation(n: int, k: int, v: int, s: int)
    requires IsPrime(n) && k % n != 0 && s == (Inverse(k, n) * v) % n
    ensures Cong(k * s, v, n)
  {
    var i := Inverse(k, n);
    CongSelf(i * v, n);
    hide Cong, IsPrime;
    CongRefl(k, n);
    CongRefl(v, n);
    CongMul(k, k, s, i * v, n);
    CongMul(k * i, 1, v, v, n);
    assert k * (i * v) == (k * i) * v && 1 * v == v;
    CongTrans(k * s, (k * i) * v, v, n);
  }

  // w * (z + r*d) is the nonce, or its opposite when s was negated.
  lemma NonceFromInverse(n: int, k: int, s0: int, v: int, s: int, w: int)
    requires n > 0 && Cong(k * s0, v, n) && Cong(s * w, 1, n)
    ensures s == s0 ==> Cong(w * v, k, n)
    ensures s == n - s0 ==> Cong(w * v, -k, n)
  {
    hide Cong;
    CongRefl(w, n);
    CongRefl(k, n);
    CongSym(k * s0, v, n);
    CongMul(w, w, v, k * s0, n);
    CongMul(s * w, 1, k, k, n);
    if s == s0 {
      assert w * (k * s0) == (s * w) * k && 1 * k == k;
      CongTrans(w * v, (s * w) * k, k, n);
    }
    if s == n - s0 {
      CongWitness(w * (k * s0), -((s * w) * k), w * k, n) by { NegatedTerms(n, w, k, s0); }
      CongRefl(0, n);
      CongAdd(0, 0, (s * w) * k, k, n);
      CongTrans(w * v, w * (k * s0), 0 - (s * w) * k, n);
      CongTrans(w * v, 0 - (s * w) * k, 0 - k, n);
    }
  }

  lemma NegatedTerms(n: int, w: int, k: int, s0: int)
    ensures w * (k * s0) == -(((n - s0) * w) * k) + (w * k) * n
  {
    assert ((n - s0) * w) * k == (n * w) * k - (s0 * w) * k;
    assert (n * w) * k == (w * k) * n && (s0 * w) * k == w * (k * s0);
  }

  // The two multiples of the verifier add up to w * (z + r*d) times G.
  lemma CombinedMultiple(c: Curve, n: int, G: Point, d: int, z: int, r: int, w: int)
    requires HasOrder(c, n, G)
    ensures OnCurve(c, Mult(c, d, G))
    ensures Plus(c, Mult(c, r * w, Mult(c, d, G)), Mult(c, z * w, G)) == Mult(c, w * (z + r * d), G)
  {
    hide Associative, OnCurve, Mult, IsPrime, Plus;
    MultMult(c, r * w, d, G);
    MultAdd(c, (r * w) * d, z * w, G);
    CombinedTerms(r, w, d, z);
  }

  lemma CombinedTerms(r: int, w: int, d: int, z: int)
    ensures (r * w) * d + z * w == w * (z + r * d)
  {
  }

  lemma SameXNegated(c: Curve, n: int, k: int, j: int, G: Point)
    requires HasOrder(c, n, G) && k % n != 0 && (Cong(j, k, n) || Cong(j, -k, n))
    ensures Mult(c, k, G).Affine? && Mult(c, j, G).Affine? && Mult(c, j, G).x == Mult(c, k, G).x
  {
    MultOnCurve(c, n, k, G);
    NegStep(c, n, k, G);
    hide Associative, OnCurve, Mult, IsPrime;
    if Cong(j, k, n) {
      MultCong(c, n, j, k, G);
    } else {
      MultCong(c, n, j, -k, G);
    }
  }

  // A public key is as good a generator as the base point.
  lemma PublicKey(c: Curve, n: int, G: Point, d: int)
    requires HasOrder(c, n, G) && d % n != 0
    ensures OnCurve(c, G) && HasOrder(c, n, Mult(c, d, G))
  {
    MultOnCurve(c, n, d, G);
    hide Associative, OnCurve, Mult, IsPrime;
    WholeMultiple(n, d);
    MultMult(c, n, d, G);
    MultOnCurve(c, n, n * d, G);
  }

  lemma WholeMultiple(n: int, d: int)
    requires n > 0
    ensures (n * d) % n == 0
  {
    DivModUnique(n * d, n, d, 0);
  }

  // Every signature verifies under the signer's public key.
  lemma SignatureVerifies(c: Curve, n: int, G: Point, d: int, z: int, k: int, w: int)
    requires HasOrder(c, n, G) && d % n != 0 && Attempt(c, n, G, d, z, k).Some?
    requires Cong(Attempt(c, n, G, d, z, k).value.s * w, 1, n)
    ensures OnCurve(c, G) && HasOrder(c, n, Mult(c, d, G))
    ensures Verifies(c, n, G, Mult(c, d, G), z, Attempt(c, n, G, d, z, k).value.r, w)
  {
    var sig := Attempt(c, n, G, d, z, k).value;
    var R := Mult(c, k, G);
    var v := z + sig.r * d;
    var s0 := (Inverse(k, n) * v) % n;
    PublicKey(c, n, G, d);
    NonceRelation(n, k, v, s0);
    NonceFromInverse(n, k, s0, v, sig.s, w);
    CombinedMultiple(c, n, G, d, z, sig.r, w);
    hide Associative, OnCurve, Mult, IsPrime, Plus, Cong;
    SameXNegated(c, n, k, w * v, G);
  }

  // ---------------------------------------------------------------- what is accepted, and nothing else

  // w * v is the nonce of s, whatever v is.
  lemma NonceOf(n: int, s: int, w: int, v: int, k: int)
    requires n > 0 && Cong(s * w, 1, n)
    ensures Cong(k, w * v, n) <==> Cong(k * s, v, n)
  {
    hide Cong;
    CongRefl(v, n);
    CongRefl(k, n);
    CongRefl(s, n);
    CongRefl(w, n);
    CongMul(s * w, 1, v, v, n);
    CongMul(s * w, 1, k, k, n);
    if Cong(k, w * v, n) {
      CongMul(k, w * v, s, s, n);
      assert (w * v) * s == (s * w) * v && 1 * v == v;
      CongTrans(k * s, (s * w) * v, v, n);
    }
    if Cong(k * s, v, n) {
      CongMul(w, w, k * s, v, n);
      assert w * (k * s) == (s * w) * k && 1 * k == k;
      CongSym((s * w) * k, k, n);
      CongTrans(k, (s * w) * k, w * v, n);
    }
  }

  // The equation holds exactly for the numbers that some nonce gives under the signer's d.
  lemma VerifiesExact(c: Curve, n: int, G: Point, d: int, z: int, r: int, s: int, w: int)
    requires HasOrder(c, n, G) && d % n != 0 && 0 < r < n && Cong(s * w, 1, n)
    ensures OnCurve(c, G) && HasOrder(c, n, Mult(c, d, G))
    ensures Verifies(c, n, G, Mult(c, d, G), z, r, w) <==>
      exists k :: 0 < k < n && Cong(k * s, z + r * d, n) && Mult(c, k, G).Affine? && Mult(c, k, G).x % n == r
  {
    var v := z + r * d;
    PublicKey(c, n, G, d);
    CombinedMultiple(c, n, G, d, z, r, w);
    hide Associative, OnCurve, Mult, IsPrime, Plus, Cong;
    if Verifies(c, n, G, Mult(c, d, G), z, r, w) {
      var k := (w * v) % n;
      MultMod(c, n, w * v, G);
      MultOnCurve(c, n, w * v, G);
      CongSelf(w * v, n);
      NonceOf(n, s, w, v, k);
      assert 0 < k < n && Cong(k * s, v, n) && Mult(c, k, G).Affine? && Mult(c, k, G).x % n == r;
    }
    forall k | 0 < k < n && Cong(k * s, v, n) && Mult(c, k, G).Affine? && Mult(c, k, G).x % n == r
      ensures Verifies(c, n, G, Mult(c, d, G), z, r, w)
    {
      NonceOf(n, s, w, v, k);
      MultCong(c, n, k, w * v, G);
    }
  }

  // Signing with one nonce: r is the x of k*G, s the low one of the two roots of k*s = z + r*d up to
  // sign, and the recovery byte says which, together with the parity of y and whether x was reduced.
  lemma AttemptExact(c: Curve, n: int, G: Point, d: int, z: int, k: int, r: int, s: int, id: int)
    requires HasOrder(c, n, G) && n > 2
    ensures OnCurve(c, G)
    ensures Attempt(c, n, G, d, z, k) == Some(Signature(r, s, id)) <==>
      && 0 < k < n && Mult(c, k, G).Affine? && r == Mult(c, k, G).x % n && r != 0 && 0 < s <= n / 2
      && ((Cong(k * s, z + r * d, n) && id == Mult(c, k, G).y % 2 + (if Mult(c, k, G).x >= n then 2 else 0))
       || (Cong(k * s, -(z + r * d), n) && id == 1 - Mult(c, k, G).y % 2 + (if Mult(c, k, G).x >= n then 2 else 0)))
  {
    OddPrime(n);
    hide Associative, Mult, IsPrime, Cong;
    if 0 < k < n && Mult(c, k, G).Affine? && Mult(c, k, G).x % n != 0 {
      var R := Mult(c, k, G);
      MultOnCurve(c, n, k, G);
      SmallMod(k, n);
      var v := z + (R.x % n) * d;
      var s0 := (Inverse(k, n) * v) % n;
      NonceRelation(n, k, v, s0);
      LowRoots(n, k, v, s0, s);
    } else {
      assert k < 0 || k >= n || k % n == 0 || Mult(c, k, G).Infinity? || Mult(c, k, G).x % n == 0 by {
        if 0 < k < n {
          SmallMod(k, n);
        }
      }
    }
  }

  lemma OddPrime(n: int)
    requires IsPrime(n) && n > 2
    ensures n % 2 == 1
  {
  }

  // Of the two roots of k*s = v and k*s = -v one is at most half of n.
  lemma LowRoots(n: int, k: int, v: int, s0: int, s: int)
    requires IsPrime(n) && n > 2 && n % 2 == 1 && k % n != 0 && 0 <= s0 < n && Cong(k * s0, v, n)
    ensures 0 < s <= n / 2 ==> (Cong(k * s, v, n) <==> s == s0) && (Cong(k * s, -v, n) <==> n - s == s0)
    ensures 0 < s0 && s0 <= n / 2 ==> Cong(k * s0, v, n)
    ensures 0 < s0 && s0 > n / 2 ==> 0 < n - s0 <= n / 2 && Cong(k * (n - s0), -v, n)
  {
    Opposite(n, k, v, s0);
    hide Cong, IsPrime;
    if 0 < s <= n / 2 {
      if Cong(k * s, v, n) {
        CongSym(k * s0, v, n);
        CongTrans(k * s, v, k * s0, n);
        Cancel(k, s, s0, n);
        CongSmall(s, s0, n);
      }
      if Cong(k * s, -v, n) {
        Opposite(n, k, -v, s);
        CongSym(k * s0, v, n);
        CongTrans(k * (n - s), v, k * s0, n);
        Cancel(k, n - s, s0, n);
        CongSmall(n - s, s0, n);
      }
    }
  }

  lemma Opposite(n: int, k: int, v: int, s: int)
    requires n > 0 && Cong(k * s, v, n)
    ensures Cong(k * (n - s), -v, n)
  {
    CongWitness(k * (n - s), -(k * s), k, n) by { assert k * (n - s) == -(k * s) + k * n; }
    CongAdd(0, 0, k * s, v, n);
  }

  // The range of both numbers, and the low s the code insists on.
  lemma SignatureRange(c: Curve, n: int, G: Point, d: int, z: int, k: int)
    requires HasOrder(c, n, G) && Attempt(c, n, G, d, z, k).Some?
    ensures var sig := Attempt(c, n, G, d, z, k).value;
      0 < sig.r < n && 0 < sig.s <= n / 2 && 0 <= sig.id < 4
  {
    var R := Mult(c, k, G);
    var r := R.x % n;
    RemainderRange(R.x, n);
    RemainderRange(Inverse(k, n) * (z + r * d), n);
  }

  lemma RemainderRange(a: int, n: int)
    requires n > 0
    ensures 0 <= a % n < n
  {
  }

  // ---------------------------------------------------------------- recovery

  // The point a signature's r and recovery byte name: the nonce point, reflected when s was.
  ghost predicate NamesPoint(c: Curve, n: int, r: int, id: int, q: Point)
    requires c.p > 0
  {
    && q.Affine? && OnCurve(c, q) && q.x == r + (if id >= 2 then n else 0) && q.y % 2 == id % 2
  }

  lemma NonceNamed(c: Curve, n: int, G: Point, d: int, z: int, k: int) returns (f: int)
    requires HasOrder(c, n, G) && n > 2 && c.p % 2 == 1 && c.p < 2 * n && Attempt(c, n, G, d, z, k).Some?
    ensures (f == 1 || f == -1) && k % n != 0 && (f * k) % n != 0 && OnCurve(c, G)
    ensures var sig := Attempt(c, n, G, d, z, k).value;
      NamesPoint(c, n, sig.r, sig.id, Mult(c, f * k, G)) && Cong((f * k) * sig.s, z + sig.r * d, n)
  {
    var sig := Attempt(c, n, G, d, z, k).value;
    var R := Mult(c, k, G);
    var v := z + sig.r * d;
    var s0 := (Inverse(k, n) * v) % n;
    NonceRelation(n, k, v, s0);
    NonceParity(c, n, G, k);
    hide Associative, OnCurve, Mult, IsPrime, Cong, NamesPoint;
    NegNonzero(k, n);
    f := if s0 > n / 2 then -1 else 1;
    assert f * k == if s0 > n / 2 then -k else k;
    if s0 > n / 2 {
      NegatedS(n, k, s0, v);
    }
  }

  // The recovery byte names k*G, and with its parity flipped -k*G.
  lemma NonceParity(c: Curve, n: int, G: Point, k: int)
    requires HasOrder(c, n, G) && n > 2 && c.p % 2 == 1 && c.p < 2 * n && k % n != 0
    ensures OnCurve(c, G) && Mult(c, k, G).Affine?
    ensures var R := Mult(c, k, G);
      && NamesPoint(c, n, R.x % n, Recovery(R.y, R.x >= n, false), R)
      && NamesPoint(c, n, R.x % n, Recovery(R.y, R.x >= n, true), Mult(c, -k, G))
  {
    MultOnCurve(c, n, k, G);
    XOnce(Mult(c, k, G).x, c.p, n);
    Reflected(c, n, G, k);
    hide Associative, Mult, IsPrime, Cong;
  }

  // -k*G has the same x and the other parity of y.
  lemma Reflected(c: Curve, n: int, G: Point, k: int)
    requires HasOrder(c, n, G) && n > 2 && c.p % 2 == 1 && k % n != 0
    ensures OnCurve(c, Mult(c, -k, G)) && Mult(c, k, G).Affine? && Mult(c, -k, G).Affine?
    ensures Mult(c, -k, G).x == Mult(c, k, G).x && Mult(c, -k, G).y % 2 == 1 - Mult(c, k, G).y % 2
  {
    MultOnCurve(c, n, k, G);
    MultOnCurve(c, n, -k, G);
    YNotZero(c, n, k, G);
    hide Associative, OnCurve, Mult, IsPrime;
    NegStep(c, n, k, G);
    NegatedParity(Mult(c, k, G).y, c.p);
  }

  lemma XOnce(x: int, p: int, n: int)
    requires 0 <= x < p < 2 * n
    ensures x == x % n + if x >= n then n else 0
  {
    DivModUnique(x, n, if x >= n then 1 else 0, if x >= n then x - n else x);
  }

  lemma NegatedParity(y: int, p: int)
    requires p % 2 == 1 && 0 < y < p
    ensures (-y) % p == p - y && (p - y) % 2 == 1 - y % 2
  {
    DivModUnique(-y, p, -1, p - y);
  }

  lemma NegatedS(n: int, k: int, s0: int, v: int)
    requires n > 0 && Cong(k * s0, v, n)
    ensures Cong((-1 * k) * (n - s0), v, n)
  {
    hide Cong;
    assert (-1 * k) * (n - s0) == k * s0 + (-k) * n;
    CongWitness((-1 * k) * (n - s0), k * s0, -k, n);
    CongTrans((-1 * k) * (n - s0), k * s0, v, n);
  }

  // Two points of the curve with the same x and the same parity of y are the same.
  lemma NamedOnce(c: Curve, n: int, r: int, id: int, q: Point, q': Point)
    requires ValidCurve(c) && c.p % 2 == 1 && q.Affine? && q.y != 0
    requires NamesPoint(c, n, r, id, q) && NamesPoint(c, n, r, id, q')
    ensures q' == q
  {
    SameX(c, q, q');
    NegatedParity(q.y, c.p);
  }

  // r^-1 * (s*R - z*G) is the public key.
  lemma KeyRecovered(c: Curve, n: int, G: Point, d: int, z: int, e: int, r: int, s: int, j: int, i: int)
    requires HasOrder(c, n, G) && Cong(j * s, z + r * d, n) && Cong(e, -z, n) && Cong(r * i, 1, n)
    ensures OnCurve(c, Mult(c, j, G)) && OnCurve(c, Mult(c, e, G))
    ensures var P := Plus(c, Mult(c, e, G), Mult(c, s, Mult(c, j, G)));
      P == Mult(c, r * d, G) && Mult(c, i, P) == Mult(c, d, G)
  {
    hide Associative, OnCurve, Mult, IsPrime, Plus, Cong;
    MultMult(c, s, j, G);
    MultAdd(c, e, s * j, G);
    KeyArithmetic(n, d, z, e, r, s, j, i);
    MultMult(c, i, r * d, G);
    MultCong(c, n, e + s * j, r * d, G);
    MultCong(c, n, i * (r * d), d, G);
  }

  lemma KeyArithmetic(n: int, d: int, z: int, e: int, r: int, s: int, j: int, i: int)
    requires n > 0 && Cong(j * s, z + r * d, n) && Cong(e, -z, n) && Cong(r * i, 1, n)
    ensures Cong(e + s * j, r * d, n) && Cong(i * (r * d), d, n)
  {
    hide Cong;
    assert s * j == j * s;
    CongAdd(e, -z, j * s, z + r * d, n);
    CongRefl(d, n);
    CongMul(r * i, 1, d, d, n);
    assert i * (r * d) == (r * i) * d && 1 * d == d;
  }

  // Whatever point the recovery byte names, recovery returns the signer's key, and never passes
  // through the point at infinity.
  lemma SignatureRecovers(c: Curve, n: int, G: Point, d: int, z: int, k: int, q: Point, e: int, i: int)
    requires HasOrder(c, n, G) && n > 2 && c.p % 2 == 1 && c.p < 2 * n && d % n != 0
    requires Attempt(c, n, G, d, z, k).Some?
    requires var sig := Attempt(c, n, G, d, z, k).value;
      NamesPoint(c, n, sig.r, sig.id, q) && Cong(e, -z, n) && Cong(sig.r * i, 1, n)
    ensures var sig := Attempt(c, n, G, d, z, k).value;
      var P := Plus(c, Mult(c, e, G), Mult(c, sig.s, q));
      P != Infinity && Mult(c, i, P) == Mult(c, d, G)
  {
    var sig := Attempt(c, n, G, d, z, k).value;
    hide Associative, Mult, IsPrime, Plus, Cong, Attempt, NamesPoint;
    SignatureRange(c, n, G, d, z, k);
    var f := NonceNamed(c, n, G, d, z, k);
    RecoveredFrom(c, n, G, d, z, f * k, sig, q, e, i);
  }

  // The same for any nonce j and numbers that belong to it.
  lemma RecoveredFrom(c: Curve, n: int, G: Point, d: int, z: int, j: int, sig: Signature, q: Point, e: int, i: int)
    requires HasOrder(c, n, G) && n > 2 && c.p % 2 == 1 && d % n != 0 && j % n != 0 && 0 < sig.r < n && OnCurve(c, G)
    requires NamesPoint(c, n, sig.r, sig.id, Mult(c, j, G)) && NamesPoint(c, n, sig.r, sig.id, q)
    requires Cong(j * sig.s, z + sig.r * d, n) && Cong(e, -z, n) && Cong(sig.r * i, 1, n)
    ensures var P := Plus(c, Mult(c, e, G), Mult(c, sig.s, q));
      P != Infinity && Mult(c, i, P) == Mult(c, d, G)
  {
    YNotZero(c, n, j, G);
    NamedOnce(c, n, sig.r, sig.id, Mult(c, j, G), q);
    SmallMod(sig.r, n);
    NoZeroDivisors(sig.r, d, n);
    hide Associative, Mult, IsPrime, Plus, Cong, NamesPoint, OnCurve;
    KeyRecovered(c, n, G, d, z, e, sig.r, sig.s, j, i);
    MultOnCurve(c, n, sig.r * d, G);
  }

  // For any numbers, recovery from k*G returns the key of the d for which they are a signature with
  // the nonce k.
  lemma RecoveredSigner(c: Curve, n: int, G: Point, k: int, r: int, s: int, z: int, id: int, e: int, i: int)
    requires HasOrder(c, n, G) && 0 < r < n && Cong(e, -z, n) && Cong(r * i, 1, n)
    requires OnCurve(c, G) && NamesPoint(c, n, r, id, Mult(c, k, G))
    ensures var d := i * (s * k - z);
      && Mult(c, i, Plus(c, Mult(c, e, G), Mult(c, s, Mult(c, k, G)))) == Mult(c, d, G)
      && Cong(k * s, z + r * d, n) && Mult(c, k, G).x % n == r
  {
    NamedResidue(c, n, r, id, Mult(c, k, G));
    hide *;
    SignerArithmetic(n, r, s, z, k, i);
    KeyRecovered(c, n, G, i * (s * k - z), z, e, r, s, k, i);
  }

  lemma NamedResidue(c: Curve, n: int, r: int, id: int, q: Point)
    requires c.p > 0 && 0 < r < n && NamesPoint(c, n, r, id, q)
    ensures q.Affine? && q.x % n == r
  {
    DivModUnique(q.x, n, if id >= 2 then 1 else 0, r);
  }

  lemma SignerArithmetic(n: int, r: int, s: int, z: int, k: int, i: int)
    requires n > 0 && Cong(r * i, 1, n)
    ensures Cong(k * s, z + r * (i * (s * k - z)), n)
  {
    hide Cong;
    var u := s * k - z;
    CongRefl(u, n);
    CongRefl(z, n);
    CongMul(r * i, 1, u, u, n);
    SignerTerms(r, i, u);
    CongAdd(z, z, r * (i * u), u, n);
    CongSym(z + r * (i * u), z + u, n);
    assert k * s == z + u;
  }

  lemma SignerTerms(r: int, i: int, u: int)
    ensures (r * i) * u == r * (i * u) && 1 * u == u
  {
  }

  // ---------------------------------------------------------------- where recovery divides by zero

  // Recovery multiplies s*R - z*G by the inverse of r.  For s*R = z*G that is the point at infinity,
  // which the code represents by (0, 0) and multiplies like any other point.
  ghost predicate Recoverable(c: Curve, n: int, G: Point, r: int, s: int, z: int, id: int)
    requires HasOrder(c, n, G)
  {
    forall q :: NamesPoint(c, n, r, id, q) ==> Mult(c, s, q) != Mult(c, z, G)
  }

  // The sum that is formed, with e = -z.
  lemma InfiniteSum(c: Curve, n: int, G: Point, s: int, z: int, q: Point, e: int)
    requires HasOrder(c, n, G) && OnCurve(c, q) && Cong(e, -z, n)
    ensures Plus(c, Mult(c, e, G), Mult(c, s, q)) == Infinity <==> Mult(c, s, q) == Mult(c, z, G)
  {
    hide Associative, OnCurve, Plus, Minus, Mult, IsPrime, Cong;
    MultCong(c, n, e, -z, G);
    MultNeg(c, -z, G);
    Unit(c, Mult(c, e, G));
    if Plus(c, Mult(c, e, G), Mult(c, s, q)) == Infinity {
      UniqueInverse(c, Mult(c, e, G), Mult(c, s, q));
    }
  }

  // In terms of the nonce k of the named point, recovery is safe exactly when s*k is not z.
  lemma RecoverableExact(c: Curve, n: int, G: Point, k: int, r: int, s: int, z: int, id: int)
    requires HasOrder(c, n, G) && n > 2 && c.p % 2 == 1 && k % n != 0
    requires OnCurve(c, G) && NamesPoint(c, n, r, id, Mult(c, k, G))
    ensures Recoverable(c, n, G, r, s, z, id) <==> (s * k - z) % n != 0
  {
    var R := Mult(c, k, G);
    YNotZero(c, n, k, G);
    MultMult(c, s, k, G);
    MultSame(c, n, s * k, z, G);
    forall q | NamesPoint(c, n, r, id, q)
      ensures q == R
    {
      NamedOnce(c, n, r, id, R, q);
    }
  }

  // Every nonce and every digest give an r and an s that pass the range checks and are not safe.
  lemma UnsafeInput(c: Curve, n: int, G: Point, z: int, k: int)
    requires HasOrder(c, n, G) && n > 2 && c.p % 2 == 1 && c.p < 2 * n
    requires 0 < k < n && z % n != 0 && OnCurve(c, G)
    ensures k % n == k && Mult(c, k, G).Affine?
    ensures var R, s := Mult(c, k, G), (z * Inverse(k, n)) % n;
      var r, id := R.x % n, Recovery(R.y, R.x >= n, false);
      r != 0 ==>
        && 0 < r < n && 0 < s < n && 0 <= id < 4
        && NamesPoint(c, n, r, id, R) && !Recoverable(c, n, G, r, s, z, id)
  {
    var R := Mult(c, k, G);
    SmallMod(k, n);
    MultOnCurve(c, n, k, G);
    var i := Inverse(k, n);
    var s := (z * i) % n;
    QuotientOf(n, z, k, i);
    XOnce(R.x, c.p, n);
    if R.x % n != 0 {
      RecoverableExact(c, n, G, k, R.x % n, s, z, Recovery(R.y, R.x >= n, false));
    }
  }

  // s = z/k is in range, and s*k is z.
  lemma QuotientOf(n: int, z: int, k: int, i: int)
    requires IsPrime(n) && z % n != 0 && Cong(k * i, 1, n)
    ensures 0 < (z * i) % n < n && ((z * i) % n * k - z) % n == 0
  {
    var s := (z * i) % n;
    CongSelf(z * i, n);
    hide Cong, IsPrime;
    CongRefl(k, n);
    CongRefl(z, n);
    CongMul(s, z * i, k, k, n);
    CongMul(z, z, k * i, 1, n);
    assert (z * i) * k == z * (k * i) && z * 1 == z;
    CongTrans(s * k, z * (k * i), z, n);
    CongAdd(s * k, z, z, z, n);
    ZeroProduct(s, k, z, n);
  }

  lemma ZeroProduct(s: int, k: int, z: int, n: int)
    requires n > 0 && Cong(s * k, z, n) && Cong(s * k - z, z - z, n)
    ensures s == 0 ==> z % n == 0
    ensures (s * k - z) % n == 0
  {
    SmallMod(0, n);
    if s == 0 {
      assert s * k == 0;
    }
  }
}
