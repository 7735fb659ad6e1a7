// bignum.c: nine 30-bit limbs, lazily reduced modulo a prime just below 2^256.
//
// A shift right by k and a mask of the low k bits are written / and % by the power of two
// (Words.AndMask); an accumulator that must not wrap has its C type, so each assignment to it
// proves that it does not.

module Bignum {
  import opened Words
  import opened Limbs
  import Field

  const B256: int := 0x1_0000000000000000_0000000000000000_0000000000000000_0000000000000000
  const B224: int := 0x1_00000000_0000000000000000_0000000000000000_0000000000000000

  type Limbs9 = s: seq<uint32> | |s| == 9 witness [0, 0, 0, 0, 0, 0, 0, 0, 0]

  // What a local bignum256 holds before it is written.
  const ZERO: Limbs9 := [0, 0, 0, 0, 0, 0, 0, 0, 0]

  // The struct bignum256.
  class Bignum256 {
    var val: Limbs9

    constructor (v: Limbs9)
      ensures val == v
    {
      val := v;
    }
  }

  // The number the limbs represent.
  function V(s: seq<int>): int {
    Val(s, W30)
  }

  ghost predicate Normalized(s: seq<int>) {
    Digits(s, W30)
  }

  ghost predicate PartlyReduced(s: seq<int>, p: int) {
    Normalized(s) && V(s) < 2 * p
  }

  // The residue a partly reduced number stands for.
  function Fe(s: seq<int>, p: int): int
    requires p > 0
  {
    V(s) % p
  }

  // Nine limbs hold 270 bits; a sum of two such numbers loses the bit above them.
  const B270: int := B256 * 0x4000

  function Wrap270(t: int): int {
    if t < B270 then t else t - B270
  }

  lemma WrapIsMod(t: int)
    requires 0 <= t < 2 * B270
    ensures Wrap270(t) == t % B270
  {
    DivModUnique(t, B270, if t < B270 then 0 else 1, Wrap270(t));
  }

  ghost predicate Reduced(s: seq<int>, p: int) {
    Normalized(s) && V(s) < p
  }

  // The range every function assumes of its modulus.
  ghost predicate Modulus(s: seq<int>) {
    |s| == 9 && Normalized(s) && B256 - B224 < V(s) < B256
  }

  // ---------------------------------------------------------------- ranges

  lemma PowW30()
    ensures Pow(W30, 0) == 1 && Pow(W30, 1) == W30
    ensures Pow(W30, 8) == 0x1_000000000000_000000000000_000000000000_000000000000_000000000000
    ensures Pow(W30, 9) == B270
  {
    assert Pow(W30, 2) == 0x1000_0000_0000_0000;
    PowAdd(W30, 2, 2);
    PowAdd(W30, 4, 4);
  }

  lemma Range(s: seq<int>)
    requires |s| == 9 && Normalized(s)
    ensures 0 <= V(s) < Pow(W30, 9)
  {
    ValBounds(s, W30);
  }

  // ---------------------------------------------------------------- bn_fast_mod

  function FastModRaw(x: seq<int>, p: seq<int>, coef: int): (raw: seq<int>)
    requires |x| == |p| == 9
    ensures |raw| == 9
    ensures raw[0] == 0x2000000000000000 + x[0] - p[0] * coef
    ensures forall j :: 1 <= j < 9 ==> raw[j] == 0x1FFFFFFF80000000 + x[j] - p[j] * coef
  {
    seq(9, j requires 0 <= j < 9 =>
      (if j == 0 then 0x2000000000000000 else 0x1FFFFFFF80000000) + x[j] - p[j] * coef)
  }

  function Bias(n: nat): (s: seq<int>)
    ensures |s| == n + 1
    ensures s[0] == 0x2000000000000000 && forall i :: 1 <= i <= n ==> s[i] == 0x1FFFFFFF80000000
  {
    [0x2000000000000000] + Const(n, 0x1FFFFFFF80000000)
  }

  // The constants added against underflow telescope to one unit above the top limb.
  lemma BiasVal(n: nat)
    ensures Val(Bias(n), W30) == 0x8000_0000 * Pow(W30, n + 1)
  {
    ValConst(n, 0x8000_0000, W30);
    assert (W30 - 1) * 0x8000_0000 == 0x1FFFFFFF80000000;
    assert Bias(n)[1..] == Const(n, 0x1FFFFFFF80000000);
  }

  lemma NegatedProduct(a: int, b: int)
    ensures (-b) * a == -(a * b)
  {
  }

  lemma FastModTotal(x: seq<int>, p: seq<int>, coef: int)
    requires |x| == |p| == 9
    ensures V(FastModRaw(x, p, coef)) == 0x8000_0000 * Pow(W30, 9) + V(x) - coef * V(p)
  {
    hide Bias, FastModRaw, Val, Pow;
    BiasVal(8);
    forall j | 0 <= j < 9
      ensures FastModRaw(x, p, coef)[j] == 1 * Bias(8)[j] + 1 * x[j] + (-coef) * p[j]
    {
      NegatedProduct(p[j], coef);
    }
    ValLinear(FastModRaw(x, p, coef), Bias(8), 1, x, 1, p, -coef, W30);
  }

  // Nine arbitrary 32-bit limbs: the quotient estimate taken from the top limb leaves less
  // than twice the modulus.
  lemma FastModRange(x: seq<uint32>, p: seq<int>)
    requires |x| == 9 && Modulus(p)
    ensures 0 <= V(x) - (x[8] / 0x1_0000) * V(p) < 2 * V(p)
    ensures V(x) > 0 ==> V(x) - (x[8] / 0x1_0000) * V(p) > 0
  {
    var w := Pow(W30, 8);
    PowW30();
    ValSplit(x, 8, W30);
    assert x[8..] == [x[8]];
    assert Val([x[8]], W30) == x[8];
    LowLimbs(x[..8]);
    var coef := x[8] / 0x1_0000;
    assert V(x) == V(x[..8]) + w * x[8];
    EstimateRange(V(p), coef);
  }

  lemma EstimateRange(p: int, coef: int)
    requires B256 - B224 < p < B256 && coef >= 0
    ensures coef <= B256 * coef - coef * p <= B224 * coef
  {
    MulMonotone(p + 1, B256, coef);
    MulMonotone(B256 - B224, p, coef);
  }

  lemma {:induction false} LowLimbs(s: seq<uint32>)
    ensures 0 <= V(s) <= 5 * Pow(W30, |s|)
  {
    LimbsBound(s, W32 - 1);
    PowPositive(W30, |s|);
  }

  lemma {:induction false} LimbsBound(s: seq<int>, m: int)
    requires forall i :: 0 <= i < |s| ==> 0 <= s[i] <= m
    ensures 0 <= V(s) && (W30 - 1) * V(s) <= m * (Pow(W30, |s|) - 1)
  {
    if |s| == 0 {
    } else {
      LimbsBound(s[1..], m);
      var w := Pow(W30, |s| - 1);
      assert m * (W30 * w - 1) == W30 * (m * (w - 1)) + m * (W30 - 1);
    }
  }

  // bn_fast_mod
  method FastMod(x: Bignum256, prime: Bignum256)
    requires Modulus(prime.val) && x != prime
    modifies x
    ensures PartlyReduced(x.val, V(prime.val))
    ensures V(x.val) == old(V(x.val)) - (old(x.val[8]) / 0x1_0000) * V(prime.val)
    ensures Fe(x.val, V(prime.val)) == old(Fe(x.val, V(prime.val)))
    ensures old(V(x.val)) > 0 ==> V(x.val) > 0
  {
    var coef: uint32 := x.val[8] / 0x1_0000;
    ghost var x0, p := x.val, prime.val;
    ghost var raw := FastModRaw(x0, p, coef);
    ghost var out := Carried(raw, 0, W30);
    FastModExact(x0, p);
    FastModBounds(x0, p, coef);
    FastModFe(V(x0), coef, V(out), V(p));
    CarryNext(raw, 0, W30, 0);
    hide V, Fe, Modulus, PartlyReduced, Carry, Carried, FastModRaw;
    // subtract coef * prime; the first iteration is unrolled
    var temp: uint64 := 0x2000000000000000 + x.val[0] - prime.val[0] * coef;
    x.val := x.val[0 := temp % W30];
    var j := 1;
    while j < 9
      invariant 1 <= j <= 9 && prime.val == p
      invariant temp / W30 == Carry(raw, 0, W30, j)
      invariant forall i :: 0 <= i < j ==> x.val[i] == out[i]
      invariant forall i :: j <= i < 9 ==> x.val[i] == x0[i]
    {
      CarryNext(raw, 0, W30, j);
      temp := temp / W30;
      temp := temp + 0x1FFFFFFF80000000 + x.val[j] - prime.val[j] * coef;
      x.val := x.val[j := temp % W30];
      j := j + 1;
    }
    assert x.val == out;
  }

  // No accumulator of the loop leaves the range of a uint64.
  lemma FastModBounds(x: seq<uint32>, p: seq<int>, coef: uint32)
    requires |x| == |p| == 9 && Normalized(p) && coef < 0x8000_0000
    ensures var raw := FastModRaw(x, p, coef);
      forall j :: 0 <= j < 9 ==> 0 <= raw[j] <= 0x2000000000000000 + 0x1_0000_0000
  {
    CoefBound(p, coef);
  }

  lemma FastModExact(x: seq<uint32>, p: seq<int>)
    requires |x| == 9 && Modulus(p)
    ensures var coef := x[8] / 0x1_0000;
      var out := Carried(FastModRaw(x, p, coef), 0, W30);
      PartlyReduced(out, V(p)) && V(out) == V(x) - coef * V(p) && (V(x) > 0 ==> V(out) > 0)
  {
    var coef := x[8] / 0x1_0000;
    FastModTotal(x, p, coef);
    FastModRange(x, p);
    PowW30();
    CarryExact(FastModRaw(x, p, coef), 0, W30, 0x8000_0000, V(x) - coef * V(p));
  }

  lemma CoefBound(p: seq<int>, coef: uint32)
    requires Normalized(p) && coef < 0x8000_0000
    ensures forall j :: 0 <= j < |p| ==> 0 <= p[j] * coef <= 0x1FFFFFFF40000001
  {
    forall j | 0 <= j < |p|
      ensures 0 <= p[j] * coef <= 0x1FFFFFFF40000001
    {
      MulMonotone(0, p[j], coef);
      MulMonotone(p[j], W30 - 1, coef);
    }
  }

  lemma FastModFe(x: int, q: int, y: int, p: int)
    requires p > 0 && y == x - q * p
    ensures y % p == x % p
  {
    DivAddMultiple(y, q, p);
  }

  // ---------------------------------------------------------------- comparisons

  // bn_is_zero
  method IsZero(a: Bignum256) returns (r: bool)
    requires Normalized(a.val)
    ensures r <==> V(a.val) == 0
  {
    var i := 0;
    var result := 0;
    while i < 9
      invariant 0 <= i <= 9 && result >= 0
      invariant result == 0 <==> forall k :: 0 <= k < i ==> a.val[k] == 0
    {
      OrZero(result, a.val[i]);
      result := Or(result, a.val[i]);
      i := i + 1;
    }
    r := result == 0;
    ZeroVal(a.val);
  }

  lemma {:induction false} ZeroVal(s: seq<int>)
    requires Normalized(s)
    ensures V(s) >= 0
    ensures V(s) == 0 <==> forall k :: 0 <= k < |s| ==> s[k] == 0
  {
    if |s| == 0 {
    } else {
      ZeroVal(s[1..]);
      assert V(s) == s[0] + W30 * V(s[1..]);
      if forall k :: 0 <= k < |s| ==> s[k] == 0 {
      } else if s[0] == 0 {
        var k :| 0 <= k < |s| && s[k] != 0;
        assert s[1..][k - 1] != 0;
      }
    }
  }

  // bn_is_equal
  method IsEqual(a: Bignum256, b: Bignum256) returns (r: bool)
    requires Normalized(a.val) && Normalized(b.val)
    ensures r <==> a.val == b.val
    ensures r <==> V(a.val) == V(b.val)
  {
    var i := 0;
    var result := 0;
    while i < 9
      invariant 0 <= i <= 9 && result >= 0
      invariant result == 0 <==> forall k :: 0 <= k < i ==> a.val[k] == b.val[k]
    {
      XorZero(a.val[i], b.val[i]);
      OrZero(result, Xor(a.val[i], b.val[i]));
      result := Or(result, Xor(a.val[i], b.val[i]));
      i := i + 1;
    }
    r := result == 0;
    if V(a.val) == V(b.val) {
      ValInjective(a.val, b.val, W30);
    }
  }

  // The top limbs decide first.
  lemma {:induction false} CompareStep(a: seq<int>, b: seq<int>, i: nat)
    requires |a| == |b| && i < |a| && Normalized(a) && Normalized(b)
    ensures V(a[i..]) < V(b[i..]) <==> V(a[i + 1..]) < V(b[i + 1..]) || (V(a[i + 1..]) == V(b[i + 1..]) && a[i] < b[i])
    ensures V(a[i..]) == V(b[i..]) <==> V(a[i + 1..]) == V(b[i + 1..]) && a[i] == b[i]
  {
    assert a[i..][1..] == a[i + 1..] && b[i..][1..] == b[i + 1..];
    assert V(a[i..]) == a[i] + W30 * V(a[i + 1..]) && V(b[i..]) == b[i] + W30 * V(b[i + 1..]);
  }

  // bn_is_less: the two comparison words are read as binary numbers, so the limbs that
  // differ first from the top decide.
  method IsLess(a: Bignum256, b: Bignum256) returns (r: bool)
    requires Normalized(a.val) && Normalized(b.val)
    ensures r <==> V(a.val) < V(b.val)
  {
    var i := 8;
    var res1: uint32, res2: uint32 := 0, 0;
    while i >= 0
      invariant -1 <= i <= 8
      invariant res1 < Pow2(8 - i) && res2 < Pow2(8 - i) && Pow2(8 - i) <= 0x200
      invariant res1 > res2 <==> V(a.val[i + 1..]) < V(b.val[i + 1..])
      invariant res1 == res2 <==> V(a.val[i + 1..]) == V(b.val[i + 1..])
    {
      CompareStep(a.val, b.val, i);
      Pow2Monotone(9 - i, 9);
      assert Pow2(9) == 0x200;
      res1 := 2 * res1 + if a.val[i] < b.val[i] then 1 else 0;
      res2 := 2 * res2 + if a.val[i] > b.val[i] then 1 else 0;
      i := i - 1;
    }
    assert a.val[0..] == a.val && b.val[0..] == b.val;
    r := res1 > res2;
  }

  // bn_cmov
  method Cmov(res: Bignum256, cond: bool, truecase: Bignum256, falsecase: Bignum256)
    modifies res
    ensures res.val == old(if cond then truecase.val else falsecase.val)
  {
    var tmask: uint32 := if cond then W32 - 1 else 0;
    var fmask: uint32 := W32 - 1 - tmask;
    ghost var t, f := truecase.val, falsecase.val;
    var i := 0;
    while i < 9
      invariant 0 <= i <= 9
      invariant forall k :: 0 <= k < i ==> res.val[k] == (if cond then t[k] else f[k])
      invariant forall k :: i <= k < 9 ==> truecase.val[k] == t[k] && falsecase.val[k] == f[k]
    {
      Select(truecase.val[i], falsecase.val[i], cond);
      res.val := res.val[i := Or(And(truecase.val[i], tmask), And(falsecase.val[i], fmask))];
      i := i + 1;
    }
    assert res.val == if cond then t else f;
  }

  lemma Select(t: uint32, f: uint32, cond: bool)
    ensures And(t, if cond then W32 - 1 else 0) == if cond then t else 0
    ensures And(f, if cond then 0 else W32 - 1) == if cond then 0 else f
    ensures Or(t, 0) == t && Or(0, f) == f
  {
    Pow2Values();
    AndMask(t, 32);
    AndMask(f, 32);
    Field.SmallMod(t, W32);
    Field.SmallMod(f, W32);
  }
}
