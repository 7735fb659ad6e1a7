// bignum.c: square roots modulo a prime that is 3 modulo 4, by raising to (prime + 1) / 4.

module BignumSqrt {
  import opened Words
  import opened Limbs
  import opened Bignum
  import opened BignumMultiply
  import opened Field
  import opened Fermat
  import BignumAdd
  import Repack

  // ---------------------------------------------------------------- the power is a root

  // s^((p+1)/4)
  function Root(s: int, p: int): int
    requires p > 0
  {
    Pow(s, (p + 1) / 4) % p
  }

  // Every square s has this root.
  lemma RootOfSquare(y: nat, s: int, p: int)
    requires IsPrime(p) && p % 4 == 3 && Cong(y * y, s, p) && s >= 0
    ensures 0 <= Root(s, p) < p && Cong(Root(s, p) * Root(s, p), s, p)
  {
    PowerRoot(y, s, p);
    var w := Pow(s, (p + 1) / 4);
    CongSelf(w, p);
    CongMul(Root(s, p), w, Root(s, p), w, p);
  }

  lemma RootOfZero(p: int)
    requires p > 3
    ensures Root(0, p) == 0
  {
    var e := (p + 1) / 4;
    assert Pow(0, e) == 0 * Pow(0, e - 1);
  }

  lemma PowerRoot(y: nat, s: int, p: int)
    requires IsPrime(p) && p % 4 == 3 && Cong(y * y, s, p) && s >= 0
    ensures Cong(Pow(s, (p + 1) / 4) * Pow(s, (p + 1) / 4), s, p)
  {
    var e, h := (p + 1) / 4, (p - 1) / 2;
    assert e + e == h + 1 && h + h == p - 1;
    PowAdd(s, e, e);
    PowNext(s, h);
    if s % p == 0 {
      ZeroRoot(s, h, p);
    } else {
      if y % p == 0 {
        FactorZero(y, s, p);
      }
      FermatLittle(y, p);
      EulerPower(y, s, h, p);
      CongMul(s, s, Pow(s, h), 1, p);
    }
  }

  lemma ZeroRoot(s: int, h: nat, p: int)
    requires p > 0 && s % p == 0
    ensures Cong(s * Pow(s, h), s, p)
  {
    SmallMod(0, p);
    CongMul(s, 0, Pow(s, h), Pow(s, h), p);
    assert 0 * Pow(s, h) == 0;
  }

  lemma FactorZero(y: int, s: int, p: int)
    requires p > 0 && y % p == 0 && Cong(y * y, s, p)
    ensures s % p == 0
  {
    SmallMod(0, p);
    CongMul(y, 0, y, y, p);
    assert 0 * y == 0;
  }

  lemma {:induction false} PowCong(a: int, b: int, n: nat, p: int)
    requires p > 0 && Cong(a, b, p)
    ensures Cong(Pow(a, n), Pow(b, n), p)
  {
    if n == 0 {
    } else {
      PowCong(a, b, n - 1, p);
      CongMul(a, b, Pow(a, n - 1), Pow(b, n - 1), p);
    }
  }

  lemma {:induction false} PowSquare(y: int, n: nat)
    ensures Pow(y * y, n) == Pow(y, n + n)
  {
    if n == 0 {
    } else {
      PowSquare(y, n - 1);
      assert Pow(y, n + n) == y * (y * Pow(y, n - 1 + (n - 1)));
    }
  }

  lemma EulerPower(y: int, s: int, h: nat, p: int)
    requires p > 0 && Cong(y * y, s, p) && Cong(Pow(y, h + h), 1, p)
    ensures Cong(Pow(s, h), 1, p)
  {
    PowSquare(y, h);
    PowCong(y * y, s, h, p);
  }

  // ---------------------------------------------------------------- bn_sqrt

  // low bits of the exponent are used up, q are left, and x has been squared b times.
  ghost predicate Powering(m: int, e: int, x0: int, x: int, res: int, low: nat, q: nat, b: nat)
    requires m > 0
  {
    low + q * Pow2(b) == e && x == Pow(x0, Pow2(b)) % m && res == Pow(x0, low) % m
  }

  // One bit: multiply when it is set, then square.
  lemma PowerBit(m: int, e: int, x0: int, x: int, res: int, low: nat, q: nat, b: nat)
    requires m > 0 && Powering(m, e, x0, x, res, low, q, b)
    ensures q % 2 == 0 ==> Powering(m, e, x0, Mul(x, x, m), res, low, q / 2, b + 1)
    ensures q % 2 == 1 ==> Powering(m, e, x0, Mul(x, x, m), Mul(x, res, m), low + Pow2(b), q / 2, b + 1)
  {
    var w := Pow2(b);
    PowAdd(x0, w, w);
    PowAdd(x0, w, low);
    MulMod(Pow(x0, w), Pow(x0, w), m);
    MulMod(Pow(x0, w), Pow(x0, low), m);
    hide Pow, Mul;
    BitArith(q, w);
  }

  lemma BitArith(q: nat, w: int)
    ensures q % 2 == 0 ==> q * w == (q / 2) * (2 * w)
    ensures q % 2 == 1 ==> q * w == w + (q / 2) * (2 * w)
  {
    var h := q / 2;
    assert (2 * h) * w == h * (2 * w) && (2 * h + 1) * w == w + h * (2 * w);
  }

  // The bits left of the exponent: the rest of the current limb below the limbs above it.
  function Remaining(limb: nat, j: nat, rest: nat): (q: nat)
    requires j <= 30
  {
    var q := limb + Pow2(30 - j) * rest;
    q
  }

  lemma RemainingBit(limb: nat, j: nat, rest: nat)
    requires j < 30
    ensures Remaining(limb, j, rest) % 2 == limb % 2
    ensures Remaining(limb, j, rest) / 2 == Remaining(limb / 2, j + 1, rest)
  {
    var w := Pow2(29 - j) * rest;
    assert Pow2(30 - j) == 2 * Pow2(29 - j);
    assert Pow2(30 - j) * rest == 2 * w;
    DivAddMultiple(limb, w, 2);
  }

  ghost predicate SqrtState(m: int, e: int, x0: int, x: seq<int>, res: seq<int>, q: nat, b: nat) {
    && m > 0 && Normalized(x) && V(x) < 180 * m && PartlyReduced(res, m)
    && exists low: nat :: Powering(m, e, x0, Fe(x, m), Fe(res, m), low, q, b)
  }

  // One bit of one limb.
  method SqrtBit(x: Bignum256, res: Bignum256, prime: Bignum256, limb: uint32,
                 ghost e: int, ghost x0: int, ghost j: nat, ghost rest: nat, ghost b: nat)
    requires Modulus(prime.val) && x != res && x != prime && res != prime && j < 30
    requires SqrtState(V(prime.val), e, x0, x.val, res.val, Remaining(limb, j, rest), b)
    modifies x, res
    ensures SqrtState(V(prime.val), e, x0, x.val, res.val, Remaining(limb / 2, j + 1, rest), b + 1)
  {
    ghost var m := V(prime.val);
    ghost var q := Remaining(limb, j, rest);
    ghost var low: nat :| Powering(m, e, x0, Fe(x.val, m), Fe(res.val, m), low, q, b);
    PowerBit(m, e, x0, Fe(x.val, m), Fe(res.val, m), low, q, b);
    RemainingBit(limb, j, rest);
    hide V, Fe, Mul, Powering, Normalized, Remaining;
    if limb % 2 == 1 {
      Multiply(x, res, prime);
      low := low + Pow2(b);
    }
    Multiply(x, x, prime);
    assert Powering(m, e, x0, Fe(x.val, m), Fe(res.val, m), low, q / 2, b + 1);
  }

  // The 30 bits of limb i; the last limb stops when it is used up.
  method SqrtLimb(x: Bignum256, res: Bignum256, prime: Bignum256, limb0: uint32, i: nat,
                  ghost e: int, ghost x0: int, ghost rest: nat)
    returns (ghost b: nat)
    requires Modulus(prime.val) && x != res && x != prime && res != prime
    requires limb0 < W30 && (i == 8 ==> rest == 0)
    requires SqrtState(V(prime.val), e, x0, x.val, res.val, Remaining(limb0, 0, rest), 30 * i)
    modifies x, res
    ensures (i < 8 ==> b == 30 * i + 30) && SqrtState(V(prime.val), e, x0, x.val, res.val, rest, b)
  {
    var limb: uint32 := limb0;
    Pow2Values();
    hide V, SqrtState, Modulus, Remaining;
    b := 30 * i;
    var j := 0;
    while j < 30
      invariant 0 <= j <= 30 && limb < Pow2(30 - j) && b == 30 * i + j
      invariant Modulus(prime.val) && prime.val == old(prime.val)
      invariant SqrtState(V(prime.val), e, x0, x.val, res.val, Remaining(limb, j, rest), b)
    {
      if i == 8 && limb == 0 {
        break;
      }
      SqrtBit(x, res, prime, limb, e, x0, j, rest, b);
      limb := limb / 2;
      j := j + 1;
      b := b + 1;
    }
    LimbUsed(limb, j, rest);
  }

  lemma LimbUsed(limb: nat, j: nat, rest: nat)
    requires j <= 30 && (if limb == 0 && rest == 0 then true else j == 30 && limb < Pow2(30 - j))
    ensures Remaining(limb, j, rest) == rest
  {
  }

  // (prime + 1) / 4
  method Exponent(prime: Bignum256) returns (p: Bignum256)
    requires Modulus(prime.val)
    ensures fresh(p) && Normalized(p.val) && V(p.val) == (V(prime.val) + 1) / 4
  {
    Range(prime.val);
    hide V;
    p := new Bignum256(prime.val);
    BignumAdd.AddI(p, 1);
    BignumAdd.RShift(p);
    BignumAdd.RShift(p);
  }

  lemma SqrtStart(m: int, e: nat, x: seq<int>)
    requires m > 1 && Normalized(x) && 0 <= V(x) < 180 * m
    ensures var one := [1, 0, 0, 0, 0, 0, 0, 0, 0];
      SqrtState(m, e, Fe(x, m), x, one, e, 0)
  {
    var one := [1, 0, 0, 0, 0, 0, 0, 0, 0];
    OneValue(one);
    CongSelf(V(x), m);
    assert Pow(Fe(x, m), 1) == Fe(x, m) * Pow(Fe(x, m), 0);
    assert 0 + e * Pow2(0) == e;
    assert Powering(m, e, Fe(x, m), Fe(x, m), Fe(one, m), 0, e, 0);
  }

  lemma OneValue(one: seq<int>)
    requires one == [1, 0, 0, 0, 0, 0, 0, 0, 0]
    ensures V(one) == 1
  {
    assert one == [1] + Const(8, 0);
    ValPadded([1], 8, W30);
    assert Val([1], W30) == 1;
  }

  // bn_sqrt: x^((prime + 1) / 4), fully reduced
  method Sqrt(x: Bignum256, prime: Bignum256)
    requires Modulus(prime.val) && Normalized(x.val) && V(x.val) < 180 * V(prime.val) && x != prime
    modifies x
    ensures Reduced(x.val, V(prime.val))
    ensures V(x.val) == Root(old(Fe(x.val, V(prime.val))), V(prime.val))
  {
    ghost var m, x0 := V(prime.val), Fe(x.val, V(prime.val));
    ghost var e := (m + 1) / 4;
    Range(x.val);
    SqrtStart(m, e, x.val);
    var res := new Bignum256([1, 0, 0, 0, 0, 0, 0, 0, 0]);
    var p := Exponent(prime);
    UpperLimbs(p.val);
    hide V, SqrtState, Fe, Pow, Remaining, Normalized, Above;
    ghost var b := 0;
    var i := 0;
    while i < 9
      invariant 0 <= i <= 9 && (i < 9 ==> b == 30 * i)
      invariant Modulus(prime.val) && V(prime.val) == m && Normalized(p.val)
      invariant SqrtState(m, e, x0, x.val, res.val, Above(p.val, i), b)
    {
      LimbAndRest(p.val, i);
      b := SqrtLimb(x, res, prime, p.val[i], i, e, x0, Above(p.val, i + 1));
      i := i + 1;
    }
    SqrtFinished(m, e, x0, x.val, res.val, b);
    BignumAdd.Mod(res, prime);
    x.val := res.val;
  }

  // What the limbs from i on stand for.
  function Above(p: seq<int>, i: nat): (v: nat)
    requires |p| == 9 && Normalized(p) && i <= 9
  {
    ValBounds(p[i..], W30);
    V(p[i..])
  }

  lemma UpperLimbs(p: seq<int>)
    requires |p| == 9 && Normalized(p)
    ensures Above(p, 0) == V(p) && Above(p, 9) == 0
  {
    assert p[0..] == p && p[9..] == [];
  }

  lemma LimbAndRest(p: seq<int>, i: nat)
    requires |p| == 9 && Normalized(p) && i < 9
    ensures 0 <= p[i] < W30 && Above(p, 9) == 0
    ensures Above(p, i) == Remaining(p[i], 0, Above(p, i + 1))
  {
    UpperLimbs(p);
    Repack.HeadValue(p, i);
    Pow2Values();
  }

  lemma SqrtFinished(m: int, e: int, x0: int, x: seq<int>, res: seq<int>, b: nat)
    requires SqrtState(m, e, x0, x, res, 0, b)
    ensures e >= 0 && PartlyReduced(res, m) && Fe(res, m) == Pow(x0, e) % m
  {
    assert 0 * Pow2(b) == 0;
  }
}
