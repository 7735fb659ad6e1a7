// The field of integers modulo a prime: inverses and cancellation.

module PrimeField {
  import opened Field

  // The inverse of a modulo p, by the Euclidean algorithm.
  ghost function Inverse(a: int, p: int): (r: int)
    requires IsPrime(p) && a % p != 0
    ensures 0 <= r < p && Cong(a * r, 1, p)
  {
    CongSelf(a, p);
    var r := Euclid(a % p, p);
    CongSelf(r, p);
    CongMul(a, a % p, r % p, r, p);
    r % p
  }

  ghost function {:induction false} Euclid(a: int, p: int): (r: int)
    requires IsPrime(p) && 0 < a < p
    ensures Cong(a * r, 1, p)
    decreases a
  {
    if a == 1 then 1 else
      var q := p / a;
      assert p % a != 0;
      var s := Euclid(p % a, p);
      EuclidStep(a, q, p % a, s, p);
      -q * s
  }

  lemma EuclidStep(a: int, q: int, r: int, s: int, p: int)
    requires p > 0 && p == q * a + r && Cong(r * s, 1, p)
    ensures Cong(a * (-q * s), 1, p)
  {
    assert a * (-q * s) == r * s + (-s) * p by {
      assert (p - q * a) * s == r * s;
      assert a * (-q * s) == -(q * a) * s;
    }
    CongWitness(a * (-q * s), r * s, -s, p);
  }

  // Multiplication by anything not divisible by p can be undone.
  lemma Cancel(a: int, b: int, c: int, p: int)
    requires IsPrime(p) && a % p != 0 && Cong(a * b, a * c, p)
    ensures Cong(b, c, p)
  {
    var r := Inverse(a, p);
    hide Cong, IsPrime;
    CongMul(a * b, a * c, r, r, p) by { CongRefl(r, p); }
    CongMul(a * r, 1, b, b, p) by { CongRefl(b, p); }
    CongMul(a * r, 1, c, c, p) by { CongRefl(c, p); }
    CancelTerms(a, r, b);
    CancelTerms(a, r, c);
    CongSym((a * r) * b, b, p);
    CongTrans(b, (a * r) * b, (a * r) * c, p);
    CongTrans(b, (a * r) * c, c, p);
  }

  lemma CancelTerms(a: int, r: int, b: int)
    ensures (a * b) * r == (a * r) * b && 1 * b == b
  {
  }

  lemma CongRefl(a: int, p: int)
    requires p > 0
    ensures Cong(a, a, p)
  {
  }

  lemma MulCong(a: int, a': int, b: int, b': int, p: int)
    requires p > 0 && Cong(a, a', p) && Cong(b, b', p)
    ensures Cong(Mul(a, b, p), a' * b', p)
  {
    CongMul(a, a', b, b', p);
    CongSelf(a * b, p);
  }

  lemma SumCong(a: int, a': int, b: int, b': int, p: int)
    requires p > 0 && Cong(a, a', p) && Cong(b, b', p)
    ensures Cong(Add(a, b, p), a' + b', p) && Cong(Sub(a, b, p), a' - b', p)
  {
    CongAdd(a, a', b, b', p);
    CongSelf(a + b, p);
    CongSelf(a - b, p);
  }

  // A prime divides a product only when it divides a factor.
  lemma NoZeroDivisors(a: int, b: int, p: int)
    requires IsPrime(p) && a % p != 0 && b % p != 0
    ensures (a * b) % p != 0
  {
    if (a * b) % p == 0 {
      SmallMod(0, p);
      assert a * 0 == 0;
      Cancel(a, b, 0, p);
    }
  }

  lemma InverseUnique(a: int, r: int, p: int)
    requires IsPrime(p) && a % p != 0 && Cong(a * r, 1, p)
    ensures Cong(r, Inverse(a, p), p)
  {
    Cancel(a, r, Inverse(a, p), p);
  }
}
