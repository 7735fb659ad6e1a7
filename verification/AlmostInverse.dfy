// The numbers behind bn_inverse: Schroeppel's almost modular inverse, on unbounded integers.

module AlmostInverse {
  import opened Words
  import opened Field

  // floor(log2(n))
  function Log2(n: int): nat
    requires n >= 1
  {
    if n == 1 then 0 else 1 + Log2(n / 2)
  }

  // Each register holds a pair (f, t): f is u or v, t is s or r.  The sign sg is 1 when the
  // first register named is the one that holds u and s.
  ghost predicate Inv(x: int, p: int, sg: int, fa: int, ta: int, fb: int, tb: int, k: nat) {
    && p > 0 && fa >= 1 && fb >= 1 && ta >= 0 && tb >= 0
    && fa * ta + fb * tb == p
    && Cong(x * ta, sg * fb * Pow2(k), p)
    && Cong(x * tb, -sg * fa * Pow2(k), p)
  }

  // The same invariant with the registers named in the other order.
  lemma Swap(x: int, p: int, sg: int, fa: int, ta: int, fb: int, tb: int, k: nat)
    requires Inv(x, p, sg, fa, ta, fb, tb, k)
    ensures Inv(x, p, -sg, fb, tb, fa, ta, k)
  {
    hide Cong;
    assert -(-sg) * fb == sg * fb;
  }

  // Moving j factors of two from f to t raises k by j.
  lemma Strip(x: int, p: int, sg: int, fa: int, ta: int, fb: int, tb: int, k: nat, fa': int, j: nat)
    requires Inv(x, p, sg, fa, ta, fb, tb, k) && fa == fa' * Pow2(j) && fa' >= 1
    ensures Inv(x, p, sg, fa', ta * Pow2(j), fb, tb, k + j)
  {
    hide Cong;
    Pow2Add(k, j);
    CongMul(x * ta, sg * fb * Pow2(k), Pow2(j), Pow2(j), p) by { CongSym2(Pow2(j), p); }
    StripTerms(x, sg, fa', ta, fb, Pow2(k), Pow2(j));
    MulMonotone(0, ta, Pow2(j));
  }

  lemma CongSym2(a: int, p: int)
    requires p > 0
    ensures Cong(a, a, p)
  {
  }

  lemma StripTerms(x: int, sg: int, f: int, t: int, g: int, m: int, w: int)
    ensures (x * t) * w == x * (t * w)
    ensures (sg * g * m) * w == sg * g * (m * w)
    ensures -sg * (f * w) * m == -sg * f * (m * w)
    ensures (f * w) * t == f * (t * w)
  {
    assert sg * g * (m * w) == (sg * g * m) * w;
    assert (-sg * f) * (m * w) == (-sg * f * w) * m;
  }

  // Subtracting the smaller f from the larger one and adding the t of the larger to the other.
  lemma Subtract(x: int, p: int, sg: int, fa: int, ta: int, fb: int, tb: int, k: nat)
    requires Inv(x, p, sg, fa, ta, fb, tb, k) && fa > fb
    ensures Inv(x, p, sg, fa - fb, ta, fb, tb + ta, k)
  {
    hide Cong;
    CongAdd(x * tb, -sg * fa * Pow2(k), x * ta, sg * fb * Pow2(k), p);
    SubtractTerms(x, sg, fa, ta, fb, tb, Pow2(k));
  }

  lemma SubtractTerms(x: int, sg: int, fa: int, ta: int, fb: int, tb: int, m: int)
    ensures x * tb + x * ta == x * (tb + ta)
    ensures -sg * fa * m + sg * fb * m == -sg * (fa - fb) * m
    ensures (fa - fb) * ta + fb * (tb + ta) == fa * ta + fb * tb
  {
    assert -sg * (fa - fb) == -sg * fa + sg * fb;
    assert (-sg * fa + sg * fb) * m == -sg * fa * m + sg * fb * m;
  }

  // Each product f*t is at most p, which is why a register never overflows.
  lemma ProductsBounded(x: int, p: int, sg: int, fa: int, ta: int, fb: int, tb: int, k: nat)
    requires Inv(x, p, sg, fa, ta, fb, tb, k)
    ensures 0 <= fa * ta <= p && 0 <= fb * tb <= p
    ensures 0 <= ta <= p && 0 <= tb <= p
  {
    hide Cong;
    MulMonotone(0, fa, ta);
    MulMonotone(0, fb, tb);
    MulMonotone(1, fa, ta);
    MulMonotone(1, fb, tb);
  }

  // Doubling is injective modulo an odd number.
  lemma OddHalf(m: int, p: int)
    requires p > 0 && p % 2 == 1 && Cong(2 * m, 0, p)
    ensures Cong(m, 0, p)
  {
    hide Cong;
    var q := CongQuotient(2 * m, 0, p);
    OddFactor(q, p, m);
    CongWitness(m, 0, q / 2, p);
  }

  lemma OddFactor(q: int, p: int, m: int)
    requires p % 2 == 1 && q * p == 2 * m
    ensures m == (q / 2) * p
  {
    var h, g, e := p / 2, q / 2, q % 2;
    ParityProduct(g, e, h);
    assert q == 2 * g + e && p == 2 * h + 1;
    assert e == 0;
    assert (2 * g) * p == 2 * (g * p);
  }

  lemma ParityProduct(g: int, e: int, h: int)
    ensures (2 * g + e) * (2 * h + 1) == 2 * (2 * (g * h) + g + e * h) + e
  {
  }

  lemma {:induction false} OddCancel(a: int, k: nat, p: int)
    requires p > 0 && p % 2 == 1 && Cong(a * Pow2(k), 0, p)
    ensures Cong(a, 0, p)
  {
    if k == 0 {
    } else {
      assert a * Pow2(k) == 2 * (a * Pow2(k - 1));
      OddHalf(a * Pow2(k - 1), p);
      OddCancel(a, k - 1, p);
    }
  }

  lemma NotMultiple(a: int, p: int)
    requires p > 0 && Cong(a, 0, p) && -p < a < p
    ensures a == 0
  {
    hide Cong;
    var q := CongQuotient(a, 0, p);
    if q > 0 {
      MulMonotone(1, q, p);
    } else if q < 0 {
      MulMonotone(q, -1, p);
    }
  }

  lemma CongDiff(a: int, b: int, p: int)
    requires p > 0
    ensures Cong(a, b, p) <==> Cong(a - b, 0, p)
  {
    if Cong(a, b, p) {
      var q := CongQuotient(a, b, p);
      CongWitness(a - b, 0, q, p);
    }
    if Cong(a - b, 0, p) {
      var q := CongQuotient(a - b, 0, p);
      CongWitness(a, b, q, p);
    }
  }

  // ---------------------------------------------------------------- sizes and parities

  lemma {:induction false} Log2Shift(n: int, j: nat)
    requires n >= 1
    ensures n * Pow2(j) >= 1 && Log2(n * Pow2(j)) == Log2(n) + j
  {
    if j == 0 {
    } else {
      var m := Pow2(j - 1);
      assert Pow2(j) == 2 * m;
      Log2Shift(n, j - 1);
      hide Log2, Pow2;
      DoubledProduct(n, m);
      Log2Double(n * m);
    }
  }

  lemma DoubledProduct(n: int, m: int)
    ensures n * (2 * m) == 2 * (n * m)
  {
  }

  lemma Log2Double(n: int)
    requires n >= 1
    ensures Log2(2 * n) == Log2(n) + 1
  {
  }

  lemma {:induction false} Log2Monotone(m: int, n: int)
    requires 1 <= m <= n
    ensures Log2(m) <= Log2(n)
  {
    if m == 1 {
    } else {
      Log2Monotone(m / 2, n / 2);
    }
  }

  lemma {:induction false} Log2Below(n: int, e: nat)
    requires 1 <= n < Pow2(e)
    ensures Log2(n) < e
  {
    if n == 1 {
    } else {
      Log2Below(n / 2, e - 1);
    }
  }

  // At the top of the loop.
  ghost predicate Sizes(fe: int, te: int, fo: int, to: int, k: nat) {
    && fe >= 1 && fo >= 1 && te >= 0 && to >= 0
    && Log2(fe) + Log2(fo) + k <= 510
    && te <= Pow2(k) && to <= (if fe % 2 == 0 then 2 * Pow2(k) else Pow2(k))
    && fo % 2 == 1 && to % 2 == 1
    && (fe % 2 == 0 || te % 2 == 0)
  }

  // Once the even number has been made odd.
  ghost predicate SizesStripped(fe: int, te: int, fo: int, to: int, k: nat) {
    && fe >= 1 && fo >= 1 && te >= 0 && to >= 0
    && Log2(fe) + Log2(fo) + k <= 510
    && te <= Pow2(k) && to <= Pow2(k)
    && fe % 2 == 1 && fo % 2 == 1 && to % 2 == 1 && te % 2 == 0
  }

  lemma StripSizes(fe: int, te: int, fo: int, to: int, k: nat, f: int, j: nat)
    requires Sizes(fe, te, fo, to, k) && fe == f * Pow2(j) && f >= 1 && f % 2 == 1
    ensures SizesStripped(f, te * Pow2(j), fo, to, k + j)
  {
    Log2Shift(f, j);
    StripT(te, k, j);
    if j == 0 {
      assert Pow2(0) == 1 && te * 1 == te && f * 1 == f;
    } else {
      StripParity(f, j);
      StripParity(te, j);
      Pow2Monotone(k + 1, k + j);
    }
  }

  lemma StripT(te: int, k: nat, j: nat)
    requires 0 <= te <= Pow2(k)
    ensures 0 <= te * Pow2(j) <= Pow2(k + j)
  {
    Pow2Add(k, j);
    MulMonotone(te, Pow2(k), Pow2(j));
    MulMonotone(0, te, Pow2(j));
  }

  lemma StripParity(f: int, j: nat)
    requires j > 0
    ensures (f * Pow2(j)) % 2 == 0
  {
    assert f * Pow2(j) == 2 * (f * Pow2(j - 1));
  }

  lemma SubtractSizes(fe: int, te: int, fo: int, to: int, k: nat)
    requires SizesStripped(fe, te, fo, to, k)
    ensures fe > fo ==> Sizes(fe - fo, te, fo, to + te, k)
    ensures fo > fe ==> Sizes(fo - fe, to, fe, te + to, k)
  {
    if fe > fo {
      Log2Monotone(fe - fo, fe);
    } else if fo > fe {
      Log2Monotone(fo - fe, fo);
    }
  }

  // The loop ends with 255 <= k <= 510.
  lemma FinalK(te: int, to: int, k: nat, p: int)
    requires SizesStripped(1, te, 1, to, k) && te + to == p && p > Pow2(255)
    ensures 255 <= k <= 510
  {
    if k <= 254 {
      Pow2Monotone(k + 1, 255);
    }
  }

  // u and v never share a factor.
  lemma Coprime(x: int, p: int, sg: int, fa: int, ta: int, fb: int, tb: int, k: nat, d: int)
    requires IsPrime(p) && !Cong(x, 0, p) && Inv(x, p, sg, fa, ta, fb, tb, k) && d > 1
    ensures fa % d != 0 || fb % d != 0
  {
    if fa % d == 0 && fb % d == 0 {
      var a, b := fa / d, fb / d;
      assert fa == a * d && fb == b * d;
      CommonDivisor(a, ta, b, tb, d);
      MulBelow(a * ta + b * tb, d, p);
      PrimeFactorLarge(p, d, a * ta + b * tb);
      PositiveFactor(a, d);
      PositiveFactor(b, d);
      OnlyOne(a, ta, b, tb);
      CongWitness(sg * fb * Pow2(k), 0, sg * b * Pow2(k), p) by { Move(sg, b, p, Pow2(k)); }
      CongWitness(-sg * fa * Pow2(k), 0, -sg * a * Pow2(k), p) by { Move(-sg, a, p, Pow2(k)); }
      if ta == 1 {
        CongTrans(x * ta, sg * fb * Pow2(k), 0, p);
      } else {
        CongTrans(x * tb, -sg * fa * Pow2(k), 0, p);
      }
    }
  }

  lemma CommonDivisor(a: int, ta: int, b: int, tb: int, d: int)
    ensures (a * d) * ta + (b * d) * tb == (a * ta + b * tb) * d
  {
  }

  lemma MulBelow(t: int, d: int, p: int)
    requires t * d == p && d > 1 && p > 0
    ensures 1 <= t && d <= p
  {
    if t <= 0 {
      MulMonotone(t, 0, d);
    } else {
      MulMonotone(1, t, d);
    }
  }

  lemma PrimeFactorLarge(p: int, d: int, t: int)
    requires IsPrime(p) && t * d == p && 1 < d <= p
    ensures d == p && t == 1
  {
    if d < p {
      DivModUnique(p, d, t, 0);
    } else if t > 1 {
      MulMonotone(2, t, d);
    }
  }

  lemma PositiveFactor(a: int, d: int)
    requires d > 0 && a * d >= 1
    ensures a >= 1
  {
    if a <= 0 {
      MulMonotone(a, 0, d);
    }
  }

  lemma OnlyOne(a: int, ta: int, b: int, tb: int)
    requires a >= 1 && b >= 1 && ta >= 0 && tb >= 0 && a * ta + b * tb == 1
    ensures (ta == 1 && tb == 0) || (ta == 0 && tb == 1)
  {
    MulMonotone(1, a, ta);
    MulMonotone(1, b, tb);
  }

  lemma Move(s: int, b: int, p: int, m: int)
    ensures s * (b * p) * m == 0 + (s * b * m) * p
  {
    assert s * (b * p) == (s * b) * p;
    assert (s * b) * p * m == (s * b * m) * p;
  }

  lemma SecondNotZero(x: int, p: int, sg: int, t: int, k: nat)
    requires p > 1 && p % 2 == 1 && (sg == 1 || sg == -1)
    requires Cong(x * t, sg * 1 * Pow2(k), p)
    ensures t != 0
  {
    if t == 0 {
      CongSym(x * t, sg * 1 * Pow2(k), p);
      OddCancel(sg, k, p);
      NotMultiple(sg, p);
    }
  }

  // When u = v they are both 1, and neither s nor r is 0.
  lemma Finished(x: int, p: int, sg: int, f: int, ta: int, tb: int, k: nat)
    requires IsPrime(p) && p % 2 == 1 && !Cong(x, 0, p) && (sg == 1 || sg == -1)
    requires Inv(x, p, sg, f, ta, f, tb, k)
    ensures f == 1 && 0 < ta < p && 0 < tb < p && ta + tb == p
  {
    if f > 1 {
      DivModUnique(f, f, 1, 0);
      Coprime(x, p, sg, f, ta, f, tb, k, f);
    }
    SecondNotZero(x, p, sg, ta, k);
    SecondNotZero(x, p, -sg, tb, k);
  }

}
