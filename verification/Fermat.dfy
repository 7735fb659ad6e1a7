// Fermat's little theorem, by the binomial expansion of (a + 1)^p; bn_sqrt rests on it.

module Fermat {
  import opened Words
  import opened Field
  import opened PrimeField

  // Pascal's triangle.
  function Binom(n: nat, k: nat): (r: nat)
    ensures k > n ==> r == 0
  {
    if k == 0 then 1 else if n == 0 then 0 else Binom(n - 1, k - 1) + Binom(n - 1, k)
  }

  lemma {:induction false} BinomTop(n: nat)
    ensures Binom(n, n) == 1
  {
    if n > 0 {
      BinomTop(n - 1);
    }
  }

  lemma Pascal(n: nat, k: nat)
    requires n > 0 && k > 0
    ensures Binom(n, k) == Binom(n - 1, k - 1) + Binom(n - 1, k)
  {
  }

  lemma BinomSmall(n: nat, k: nat)
    ensures Binom(n, 0) == 1 && Binom(0, k) == if k == 0 then 1 else 0
  {
  }

  // k * C(n, k) = n * C(n-1, k-1)
  lemma {:induction false} Absorption(n: nat, k: nat)
    requires n > 0 && k > 0
    ensures k * Binom(n, k) == n * Binom(n - 1, k - 1)
  {
    hide Binom;
    Pascal(n, k);
    BinomSmall(n - 1, k);
    BinomSmall(n - 1, k - 1);
    if n == 1 {
    } else if k == 1 {
      Absorption(n - 1, 1);
      BinomSmall(n - 2, 0);
    } else {
      Absorption(n - 1, k);
      Absorption(n - 1, k - 1);
      Pascal(n - 1, k - 1);
      AbsorbTerms(k, n, Binom(n - 2, k - 2), Binom(n - 2, k - 1), Binom(n - 1, k - 1), Binom(n - 1, k));
    }
  }

  lemma AbsorbTerms(k: int, n: int, a: int, b: int, c: int, d: int)
    requires c == a + b && k * d == (n - 1) * b && (k - 1) * c == (n - 1) * a
    ensures k * (c + d) == n * c
  {
    assert (n - 1) * (a + b) == (n - 1) * a + (n - 1) * b;
    assert (k - 1) * c == k * c - c && (n - 1) * c == n * c - c;
  }

  // A prime divides the inner coefficients of its row.
  lemma PrimeRow(p: int, k: nat)
    requires IsPrime(p) && 0 < k < p
    ensures Binom(p, k) % p == 0
  {
    hide Binom, IsPrime;
    Absorption(p, k);
    SmallMod(k, p);
    CongWitness(k * Binom(p, k), 0, Binom(p - 1, k - 1), p);
    SmallMod(0, p);
    if Binom(p, k) % p != 0 {
      NoZeroDivisors(k, Binom(p, k), p);
    }
  }

  // sum_{k <= m} C(n, k) * a^k
  function Expand(a: int, n: nat, m: nat): int {
    Binom(n, m) * Pow(a, m) + if m == 0 then 0 else Expand(a, n, m - 1)
  }

  lemma ExpandNext(a: int, n: nat, m: nat)
    requires m > 0
    ensures Expand(a, n, m) == Binom(n, m) * Pow(a, m) + Expand(a, n, m - 1)
    ensures Expand(a, n, 0) == 1 && Pow(a, m) == a * Pow(a, m - 1)
  {
  }

  lemma {:induction false} ExpandPascal(a: int, n: nat, m: nat)
    requires n > 0 && m > 0
    ensures Expand(a, n, m) == Expand(a, n - 1, m) + a * Expand(a, n - 1, m - 1)
  {
    hide Binom, Expand, Pow;
    ExpandNext(a, n, m);
    ExpandNext(a, n - 1, m);
    Pascal(n, m);
    if m == 1 {
      BinomSmall(n - 1, 0);
      PowerZero(a);
      PascalTerm(a, 1, Binom(n - 1, m), Pow(a, 0), 0);
    } else {
      ExpandPascal(a, n, m - 1);
      ExpandNext(a, n - 1, m - 1);
      PascalTerm(a, Binom(n - 1, m - 1), Binom(n - 1, m), Pow(a, m - 1), Expand(a, n - 1, m - 2));
    }
  }

  lemma PowerZero(a: int)
    ensures Pow(a, 0) == 1
  {
  }

  lemma PascalTerm(a: int, b: int, c: int, w: int, e: int)
    ensures (b + c) * (a * w) + a * e == c * (a * w) + a * (b * w + e)
  {
    assert a * (b * w + e) == b * (a * w) + a * e;
  }

  // The binomial theorem.
  lemma {:induction false} Binomial(a: int, n: nat)
    ensures Expand(a, n, n) == Pow(a + 1, n)
  {
    if n == 0 {
    } else {
      Binomial(a, n - 1);
      ExpandPascal(a, n, n);
      ExpandNext(a, n - 1, n);
      assert Binom(n - 1, n) == 0 && Pow(a + 1, n) == (a + 1) * Pow(a + 1, n - 1);
      hide Expand, Binom, Pow;
      assert 0 * Pow(a, n) == 0;
      assert (a + 1) * Pow(a + 1, n - 1) == Pow(a + 1, n - 1) + a * Pow(a + 1, n - 1);
    }
  }

  // Modulo p only the two outer terms of the row remain.
  lemma {:induction false} InnerTerms(a: int, p: int, m: nat)
    requires IsPrime(p) && m < p
    ensures Cong(Expand(a, p, m), 1, p)
  {
    if m == 0 {
    } else {
      InnerTerms(a, p, m - 1);
      PrimeRow(p, m);
      SmallMod(0, p);
      CongMul(Binom(p, m), 0, Pow(a, m), Pow(a, m), p);
      CongAdd(Binom(p, m) * Pow(a, m), 0, Expand(a, p, m - 1), 1, p);
      assert 0 * Pow(a, m) == 0;
    }
  }

  lemma {:induction false} PowerOfPrime(a: nat, p: int)
    requires IsPrime(p)
    ensures Cong(Pow(a, p), a, p)
  {
    if a == 0 {
      assert Pow(0, p) == 0 * Pow(0, p - 1);
    } else {
      var b := a - 1;
      PowerOfPrime(b, p);
      Binomial(b, p);
      BinomTop(p);
      InnerTerms(b, p, p - 1);
      CongAdd(Pow(b, p), b, Expand(b, p, p - 1), 1, p);
    }
  }

  lemma FermatLittle(a: nat, p: int)
    requires IsPrime(p) && a % p != 0
    ensures Cong(Pow(a, p - 1), 1, p)
  {
    PowerOfPrime(a, p);
    assert Pow(a, p) == a * Pow(a, p - 1) && a * 1 == a;
    Cancel(a, Pow(a, p - 1), 1, p);
  }
}
