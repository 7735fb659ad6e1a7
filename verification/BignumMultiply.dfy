// Multiplication in bignum.c: a 540-bit product, then nine subtractions of shifted multiples
// of the prime.

module BignumMultiply {
  import opened Words
  import opened Limbs
  import opened Bignum
  import Field

  // ---------------------------------------------------------------- bn_multiply_long

  function At(x: seq<int>, i: int): int {
    if 0 <= i < |x| then x[i] else 0
  }

  // sum over j < hi of k[j] * x[i - j]
  function Conv(k: seq<int>, x: seq<int>, i: int, hi: nat): int
    requires hi <= |k|
  {
    if hi == 0 then 0 else Conv(k, x, i, hi - 1) + k[hi - 1] * At(x, i - (hi - 1))
  }

  function Column(k: seq<int>, x: seq<int>, hi: nat): (s: seq<int>)
    requires hi <= |k|
    ensures |s| == 18
    ensures forall i :: 0 <= i < 18 ==> s[i] == Conv(k, x, i, hi)
  {
    seq(18, i => Conv(k, x, i, hi))
  }

  function Shifted(x: seq<int>, n: nat): (s: seq<int>)
    ensures |s| == 18
    ensures forall i :: 0 <= i < 18 ==> s[i] == At(x, i - n)
  {
    seq(18, i => At(x, i - n))
  }

  lemma ShiftedVal(x: seq<int>, n: nat)
    requires |x| == 9 && n <= 9
    ensures V(Shifted(x, n)) == Pow(W30, n) * V(x)
  {
    assert Shifted(x, n) == Const(n, 0) + (x + Const(9 - n, 0));
    ValConcat(Const(n, 0), x + Const(9 - n, 0), W30);
    ValPadded(x, 9 - n, W30);
    ValConst(n, 0, W30);
  }

  // The column sums are the digits of the product before carrying.
  lemma {:induction false} ColumnVal(k: seq<int>, x: seq<int>, hi: nat)
    requires |k| == |x| == 9 && hi <= 9
    ensures V(Column(k, x, hi)) == V(k[..hi]) * V(x)
  {
    if hi == 0 {
      assert Column(k, x, 0) == Const(18, 0);
      ValConst(18, 0, W30);
    } else {
      ColumnVal(k, x, hi - 1);
      ShiftedVal(x, hi - 1);
      ValTake(k, hi, W30);
      ColumnStep(k, x, hi);
      hide Column, Shifted, Val;
      var w, d := Pow(W30, hi - 1), k[hi - 1];
      assert (V(k[..hi - 1]) + w * d) * V(x) == V(k[..hi - 1]) * V(x) + d * (w * V(x));
    }
  }

  lemma ColumnStep(k: seq<int>, x: seq<int>, hi: nat)
    requires |k| == |x| == 9 && 0 < hi <= 9
    ensures V(Column(k, x, hi)) == V(Column(k, x, hi - 1)) + k[hi - 1] * V(Shifted(x, hi - 1))
  {
    var s := Shifted(x, hi - 1);
    ValLinear(Column(k, x, hi), Column(k, x, hi - 1), 1, s, k[hi - 1], s, 0, W30);
  }

  lemma {:induction false} ConvSkip(k: seq<int>, x: seq<int>, i: int, lo: nat, hi: nat)
    requires lo <= hi <= |k|
    requires lo == hi || i < lo || hi <= i - |x| + 1
    ensures Conv(k, x, i, hi) == Conv(k, x, i, lo)
  {
    if lo < hi {
      ConvSkip(k, x, i, lo, hi - 1);
    }
  }

  lemma LongExact(k: seq<int>, x: seq<int>)
    requires |k| == |x| == 9 && Normalized(k) && Normalized(x)
    ensures var out := Carried(Column(k, x, 9), 0, W30);
      Normalized(out) && V(out) == V(k) * V(x)
  {
    ColumnVal(k, x, 9);
    assert k[..9] == k;
    Range(k);
    Range(x);
    PowAdd(W30, 9, 9);
    hide Column, Val;
    ProductRange(V(k), V(x), Pow(W30, 9));
    CarryExact(Column(k, x, 9), 0, W30, 0, V(k) * V(x));
  }

  lemma ProductRange(a: int, b: int, m: int)
    requires 0 <= a < m && 0 <= b < m
    ensures 0 <= a * b < m * m
  {
    MulMonotone(0, a, b);
    MulMonotone(a, m, b);
    MulStep(b, m, m);
    assert m * b == b * m;
  }

  lemma ProductBound(a: int, b: int)
    requires 0 <= a < W30 && 0 <= b < W30
    ensures 0 <= a * b <= 0xFFF_FFFF_8000_0001
  {
    MulMonotone(0, a, b);
    MulMonotone(a, W30 - 1, b);
  }

  // One column: the running total picks up every k[j] * x[i - j].
  method AddColumn(k: Bignum256, x: Bignum256, i: int, carry: uint64) returns (temp: uint64)
    requires Normalized(k.val) && Normalized(x.val) && 0 <= i < 17 && carry <= 0x10_0000_0000
    ensures temp == carry + Conv(k.val, x.val, i, 9)
    ensures temp <= carry + 9 * 0xFFF_FFFF_8000_0001
  {
    var j := if i < 9 then 0 else i - 8;
    var end := if i < 9 then i else 8;
    temp := carry;
    ConvSkip(k.val, x.val, i, 0, j);
    while j <= end
      invariant 0 <= j <= end + 1
      invariant temp == carry + Conv(k.val, x.val, i, j)
      invariant temp <= carry + j * 0xFFF_FFFF_8000_0001
    {
      ProductBound(k.val[j], x.val[i - j]);
      temp := temp + k.val[j] * (x.val[i - j] as uint64);
      j := j + 1;
    }
    ConvSkip(k.val, x.val, i, j, 9);
  }

  // bn_multiply_long
  method MultiplyLong(k: Bignum256, x: Bignum256, res: array<uint32>)
    requires Normalized(k.val) && Normalized(x.val) && res.Length == 18
    modifies res
    ensures Normalized(res[..]) && V(res[..]) == V(k.val) * V(x.val)
  {
    ghost var raw := Column(k.val, x.val, 9);
    ghost var out := Carried(raw, 0, W30);
    LongExact(k.val, x.val);
    CarryNext(raw, 0, W30, 0);
    hide V, Carry, Carried, Low, High, Normalized;
    var temp: uint64 := 0;
    var i := 0;
    while i < 17
      invariant 0 <= i <= 17
      invariant temp == Carry(raw, 0, W30, i) && temp <= 0x10_0000_0000
      invariant forall m :: 0 <= m < i ==> res[m] == out[m]
    {
      CarryNext(raw, 0, W30, i);
      temp := AddColumn(k, x, i, temp);
      HighBound(temp, W30, 0x10_0000_0000);
      res[i] := Low(temp, W30);
      temp := High(temp, W30);
      i := i + 1;
    }
    CarryNext(raw, 0, W30, 17);
    ConvSkip(k.val, x.val, 17, 0, 9);
    HighBound(temp, W30, 0x10_0000_0000);
    res[17] := Low(temp, W30);
    assert res[..] == out;
  }

  // ---------------------------------------------------------------- bn_multiply_reduce_step

  // The 64-bit product coef * (uint64_t)limb.
  function Wide(limb: int, coef: int): int {
    limb * coef
  }

  function StepRaw(w: seq<int>, p: seq<int>, coef: int): (raw: seq<int>)
    requires |w| == 10 && |p| == 9
    ensures |raw| == 10
  {
    seq(10, j requires 0 <= j < 10 =>
      (if j == 0 then 0x2000000000000000 else 0x1FFFFFFF80000000) + w[j] - if j < 9 then Wide(p[j], coef) else 0)
  }

  lemma StepRawAt(w: seq<int>, p: seq<int>, coef: int, j: nat)
    requires |w| == 10 && |p| == 9 && j < 10
    ensures StepRaw(w, p, coef)[j] ==
      (if j == 0 then 0x2000000000000000 else 0x1FFFFFFF80000000) + w[j] - if j < 9 then Wide(p[j], coef) else 0
  {
  }

  lemma StepTerm(w: seq<int>, p: seq<int>, coef: int, j: nat)
    requires |w| == 10 && |p| == 9 && j < 10
    ensures StepRaw(w, p, coef)[j] == 1 * Bias(9)[j] + 1 * w[j] + (-coef) * (p + Const(1, 0))[j]
  {
    StepRawAt(w, p, coef, j);
    NegProduct((p + Const(1, 0))[j], coef);
  }

  lemma StepTotal(w: seq<int>, p: seq<int>, coef: int)
    requires |w| == 10 && |p| == 9
    ensures V(StepRaw(w, p, coef)) == 0x8000_0000 * Pow(W30, 10) + V(w) - coef * V(p)
  {
    hide StepRaw, Const, Val;
    BiasVal(9);
    ValPadded(p, 1, W30);
    hide Bias;
    forall j | 0 <= j < 10
      ensures StepRaw(w, p, coef)[j] == 1 * Bias(9)[j] + 1 * w[j] + (-coef) * (p + Const(1, 0))[j]
    {
      StepTerm(w, p, coef, j);
    }
    ValLinear(StepRaw(w, p, coef), Bias(9), 1, w, 1, p + Const(1, 0), -coef, W30);
    NegProduct(V(p), coef);
  }

  lemma NegProduct(a: int, c: int)
    ensures (-c) * a == -(a * c) == -(c * a)
  {
  }

  // The ten limbs the step works on, and the quotient estimate it takes from the top two.
  function Coef(w: seq<int>): int
    requires |w| == 10
  {
    w[8] / 0x1_0000 + w[9] * 0x4000
  }

  lemma TopPair(a: int, b: int)
    ensures Val([a, b], W30) == a + W30 * b
  {
    assert [a, b][1..] == [b] && [b][1..] == [];
    assert Val([b], W30) == b + W30 * Val([], W30);
  }

  lemma CoefIsQuotient(w: seq<int>)
    requires |w| == 10 && Normalized(w)
    ensures 0 <= Coef(w) && Coef(w) * B256 <= V(w) < (Coef(w) + 1) * B256
  {
    TopPair(w[8], w[9]);
    hide Val, Pow;
    ValSplit(w, 8, W30);
    assert w[8..] == [w[8], w[9]];
    ValBounds(w[..8], W30);
    PowW30();
  }

  // The estimate is at most 2^31 short of exact, and p > 2^256 - 2^224, so less than 2p is left.
  lemma StepRange(w: seq<int>, p: seq<int>)
    requires |w| == 10 && Normalized(w) && Modulus(p) && V(w) < 2 * W30 * V(p)
    ensures 0 <= V(w) - Coef(w) * V(p) < 2 * V(p) && 0 <= Coef(w) < 0x8000_0000
  {
    CoefIsQuotient(w);
    hide Coef, V;
    var c := Coef(w);
    assert c < 0x8000_0000;
    MulMonotone(V(p), B256, c);
    MulMonotone(B256 - B224, V(p), c);
    assert c * V(p) == V(p) * c && (B256 - B224) * c == B256 * c - B224 * c;
  }

  function StepOut(w: seq<int>, p: seq<int>): (out: seq<int>)
    requires |w| == 10 && |p| == 9
    ensures |out| == 10
  {
    Carried(StepRaw(w, p, Coef(w)), 0, W30)
  }

  lemma StepExact(w: seq<int>, p: seq<int>)
    requires |w| == 10 && Normalized(w) && Modulus(p) && V(w) < 2 * W30 * V(p)
    ensures Normalized(StepOut(w, p)) && V(StepOut(w, p)) == V(w) - Coef(w) * V(p)
  {
    StepTotal(w, p, Coef(w));
    StepRange(w, p);
    PowW30();
    PowNext(W30, 9);
    hide V, Coef, StepRaw;
    CarryExact(StepRaw(w, p, Coef(w)), 0, W30, 0x8000_0000, V(w) - Coef(w) * V(p));
  }

  // The carry chain of the ten limbs, as one value per limb.
  lemma StepLimb(w: seq<int>, p: seq<int>, j: nat, temp: int)
    requires |w| == 10 && |p| == 9 && Normalized(w) && Normalized(p) && 0 <= Coef(w) < 0x8000_0000
    requires j < 10 && temp == (if j == 0 then 0 else Carry(StepRaw(w, p, Coef(w)), 0, W30, j))
    requires 0 <= temp <= 0x8000_0003
    ensures var t := temp + StepRaw(w, p, Coef(w))[j];
      && 0 <= t < W64 && Low(t, W30) == StepOut(w, p)[j] && 0 <= Low(t, W30) < W30
      && High(t, W30) == Carry(StepRaw(w, p, Coef(w)), 0, W30, j + 1) && 0 <= High(t, W30) <= 0x8000_0003
  {
    StepRawAt(w, p, Coef(w), j);
    if j < 9 {
      ProductBound2(p[j], Coef(w));
    }
    CarryNext(StepRaw(w, p, Coef(w)), 0, W30, j);
    hide Wide, StepRaw, Coef, Carry, Carried, Normalized, Low, High;
    HighBound(temp + StepRaw(w, p, Coef(w))[j], W30, 0x8000_0003);
  }

  lemma ProductBound2(a: int, c: int)
    requires 0 <= a < W30 && 0 <= c < 0x8000_0000
    ensures 0 <= Wide(a, c) <= 0x1FFFFFFF40000001
  {
    MulMonotone(0, a, c);
    MulMonotone(a, W30 - 1, c);
  }

  // The loop of bn_multiply_reduce_step over the window res[i - 8 .. i + 2].
  method ReduceWindow(res: array<uint32>, prime: Bignum256, i: nat)
    requires res.Length == 18 && 8 <= i <= 16 && Normalized(res[..]) && Modulus(prime.val)
    requires V(res[i - 8..i + 2]) < 2 * W30 * V(prime.val)
    modifies res
    ensures Replaced(old(res[..]), res[..], i - 8, StepOut(old(res[i - 8..i + 2]), prime.val))
  {
    ghost var r0, p := res[..], prime.val;
    ghost var w := res[i - 8..i + 2];
    ghost var raw, out := StepRaw(w, p, Coef(w)), StepOut(w, p);
    assert Normalized(w);
    StepRange(w, p);
    assert w[8] == res[i] && w[9] == res[i + 1];
    var coef: uint32 := res[i] / 0x1_0000 + res[i + 1] * 0x4000;
    assert coef == Coef(w);
    StepRawAt(w, p, coef, 0);
    StepLimb(w, p, 0, 0);
    hide V, Wide, StepRaw, StepOut, Coef, Carry, Low, High, Normalized, Modulus;
    assert w[0] == res[i - 8];
    var temp: uint64 := 0x2000000000000000 + res[i - 8] - Wide(prime.val[0], coef);
    res[i - 8] := Low(temp, W30);
    var j := 1;
    while j < 9
      invariant 1 <= j <= 9
      invariant High(temp, W30) == Carry(raw, 0, W30, j) && 0 <= High(temp, W30) <= 0x8000_0003
      invariant forall t :: i - 8 <= t < i - 8 + j ==> res[t] == out[t - (i - 8)]
      invariant forall t :: 0 <= t < 18 && !(i - 8 <= t < i - 8 + j) ==> res[t] == r0[t]
    {
      temp := High(temp, W30);
      StepLimb(w, p, j, temp);
      StepRawAt(w, p, coef, j);
      assert w[j] == res[i - 8 + j];
      temp := temp + 0x1FFFFFFF80000000 + res[i - 8 + j] - Wide(prime.val[j], coef);
      res[i - 8 + j] := Low(temp, W30);
      j := j + 1;
    }
    temp := High(temp, W30);
    StepLimb(w, p, 9, temp);
    StepRawAt(w, p, coef, 9);
    assert w[9] == res[i - 8 + j];
    temp := temp + 0x1FFFFFFF80000000 + res[i - 8 + j];
    res[i - 8 + j] := Low(temp, W30);
  }

  // r is r0 with the ten limbs from base on replaced by out.
  ghost predicate Replaced(r0: seq<int>, r: seq<int>, base: nat, out: seq<int>) {
    && |r| == |r0| == 18 && base <= 8 && |out| == 10
    && (forall t :: base <= t < base + 10 ==> r[t] == out[t - base])
    && (forall t :: 0 <= t < 18 && !(base <= t < base + 10) ==> r[t] == r0[t])
  }

  lemma ReplacedSlices(r0: seq<int>, r: seq<int>, base: nat, out: seq<int>)
    requires Replaced(r0, r, base, out)
    ensures r[base..base + 10] == out && r[..base] == r0[..base] && r[base + 10..] == r0[base + 10..]
  {
  }

  lemma NoHigh(lo: int, w: int, hi: int)
    requires 0 <= lo && 0 < w && 0 <= hi && lo + w * hi < w
    ensures hi == 0
  {
    if hi > 0 {
      MulMonotone(1, hi, w);
    }
  }

  lemma UpperZero(s: seq<int>, i: nat)
    requires i <= |s| && Normalized(s) && V(s) < Pow(W30, i)
    ensures V(s[i..]) == 0 && V(s[..i]) == V(s)
    ensures forall m :: i <= m < |s| ==> s[m] == 0
  {
    ValSplit(s, i, W30);
    ValBounds(s[..i], W30);
    ZeroVal(s[i..]);
    PowPositive(W30, i);
    NoHigh(V(s[..i]), Pow(W30, i), V(s[i..]));
    forall m | i <= m < |s|
      ensures s[m] == 0
    {
      assert s[m] == s[i..][m - i];
    }
  }

  // Splitting res at the window.
  lemma WindowVal(r: seq<int>, i: nat)
    requires |r| == 18 && 8 <= i <= 16 && Normalized(r)
    ensures V(r) == V(r[..i - 8]) + Pow(W30, i - 8) * (V(r[i - 8..i + 2]) + Pow(W30, 10) * V(r[i + 2..]))
    ensures 0 <= V(r[..i - 8]) < Pow(W30, i - 8)
  {
    ValSplit(r, i - 8, W30);
    ValSplit(r[i - 8..], 10, W30);
    assert r[i - 8..][..10] == r[i - 8..i + 2] && r[i - 8..][10..] == r[i + 2..];
    ValBounds(r[..i - 8], W30);
  }

  lemma ScaledBound(low: int, m: int, x: int, y: int)
    requires 0 <= low < m
    ensures low + m * x < m * y <==> x < y
  {
    if x < y {
      MulMonotone(x + 1, y, m);
      assert (x + 1) * m == m * x + m && y * m == m * y;
    } else {
      MulMonotone(y, x, m);
      assert x * m == m * x && y * m == m * y;
    }
  }

  // bn_multiply_reduce_step
  method MultiplyReduceStep(res: array<uint32>, prime: Bignum256, i: nat)
    requires res.Length == 18 && 8 <= i <= 16 && Normalized(res[..]) && Modulus(prime.val)
    requires V(res[..]) < Pow(W30, i - 7) * (2 * V(prime.val))
    modifies res
    ensures Normalized(res[..])
    ensures V(res[..]) < Pow(W30, i - 8) * (2 * V(prime.val))
    ensures V(res[..]) % V(prime.val) == old(V(res[..])) % V(prime.val)
    ensures res[i + 1] == 0
  {
    ghost var r0, p := res[..], prime.val;
    StepEntry(r0, p, i);
    assert r0[i - 8..i + 2] == res[i - 8..i + 2];
    ReduceWindow(res, prime, i);
    ghost var r1 := res[..];
    ReplacedSlices(r0, r1, i - 8, StepOut(r0[i - 8..i + 2], p));
    StepExit(r0, r1, p, i);
  }

  lemma StepEntry(r: seq<int>, p: seq<int>, i: nat)
    requires |r| == 18 && 8 <= i <= 16 && Normalized(r) && Modulus(p)
    requires V(r) < Pow(W30, i - 7) * (2 * V(p))
    ensures V(r[i + 2..]) == 0 && V(r[i - 8..i + 2]) < 2 * W30 * V(p)
  {
    PowNext(W30, i - 8);
    EntryCapacity(p, i);
    UpperZero(r, i + 2);
    WindowVal(r, i);
    hide V;
    EntryValue(V(r), V(r[..i - 8]), Pow(W30, i - 8), Pow(W30, 10), V(r[i - 8..i + 2]), V(p));
  }

  lemma EntryValue(v: int, low: int, m: int, m10: int, w: int, p: int)
    requires 0 <= low < m && v == low + m * (w + m10 * 0) && v < (W30 * m) * (2 * p)
    ensures w < 2 * W30 * p
  {
    assert (W30 * m) * (2 * p) == m * (2 * W30 * p);
    ScaledBound(low, m, w, 2 * W30 * p);
  }

  lemma EntryCapacity(p: seq<int>, i: nat)
    requires 8 <= i <= 16 && Modulus(p)
    ensures Pow(W30, i - 7) * (2 * V(p)) < Pow(W30, i + 2)
  {
    PowAdd(W30, i - 7, 9);
    PowPositive(W30, i - 7);
    PowW30();
    MulStep(2 * V(p), Pow(W30, 9), Pow(W30, i - 7));
    assert Pow(W30, i - 7) * (2 * V(p)) == (2 * V(p)) * Pow(W30, i - 7);
  }

  lemma StepExit(r0: seq<int>, r1: seq<int>, p: seq<int>, i: nat)
    requires |r0| == |r1| == 18 && 8 <= i <= 16 && Normalized(r0) && Modulus(p)
    requires V(r0[i + 2..]) == 0 && V(r0[i - 8..i + 2]) < 2 * W30 * V(p)
    requires r1[..i - 8] == r0[..i - 8] && r1[i + 2..] == r0[i + 2..]
    requires r1[i - 8..i + 2] == StepOut(r0[i - 8..i + 2], p)
    ensures Normalized(r1) && V(r1) < Pow(W30, i - 8) * (2 * V(p))
    ensures V(r1) % V(p) == V(r0) % V(p)
    ensures r1[i + 1] == 0
  {
    var w := r0[i - 8..i + 2];
    assert Normalized(w);
    StepExact(w, p);
    StepRange(w, p);
    Pieces(r1, i);
    hide V, StepOut, Coef;
    WindowVal(r0, i);
    WindowVal(r1, i);
    ExitValue(V(r0), V(r1), V(r0[..i - 8]), Pow(W30, i - 8), Pow(W30, 10), V(w), Coef(w), V(p));
    ExitCapacity(p, i);
    UpperZero(r1, i + 1);
  }

  lemma ExitValue(v0: int, v1: int, low: int, m: int, m10: int, w: int, c: int, p: int)
    requires 0 <= low < m && 0 < p && 0 <= w - c * p < 2 * p
    requires v0 == low + m * (w + m10 * 0) && v1 == low + m * ((w - c * p) + m10 * 0)
    ensures v1 < m * (2 * p) && v1 % p == v0 % p
  {
    assert m * (w - c * p) == m * w - (m * c) * p;
    ScaledBound(low, m, w - c * p, 2 * p);
    FastModFe(v0, m * c, v1, p);
  }

  lemma Pieces(r: seq<int>, i: nat)
    requires |r| == 18 && 8 <= i <= 16
    requires Normalized(r[..i - 8]) && Normalized(r[i - 8..i + 2]) && Normalized(r[i + 2..])
    ensures Normalized(r)
  {
    forall m | 0 <= m < 18
      ensures 0 <= r[m] < W30
    {
      if m < i - 8 {
        assert r[m] == r[..i - 8][m];
      } else if m < i + 2 {
        assert r[m] == r[i - 8..i + 2][m - (i - 8)];
      } else {
        assert r[m] == r[i + 2..][m - (i + 2)];
      }
    }
  }

  lemma ExitCapacity(p: seq<int>, i: nat)
    requires 8 <= i <= 16 && Modulus(p)
    ensures Pow(W30, i - 8) * (2 * V(p)) < Pow(W30, i + 1)
  {
    PowAdd(W30, i - 8, 9);
    PowPositive(W30, i - 8);
    PowW30();
    MulStep(2 * V(p), Pow(W30, 9), Pow(W30, i - 8));
    assert Pow(W30, i - 8) * (2 * V(p)) == (2 * V(p)) * Pow(W30, i - 8);
  }

  // bn_multiply_reduce
  method MultiplyReduce(x: Bignum256, res: array<uint32>, prime: Bignum256)
    requires res.Length == 18 && Normalized(res[..]) && Modulus(prime.val) && x != prime
    requires V(res[..]) < Pow(W30, 9) * (2 * V(prime.val))
    modifies x, res
    ensures PartlyReduced(x.val, V(prime.val))
    ensures Fe(x.val, V(prime.val)) == old(V(res[..])) % V(prime.val)
  {
    hide V;
    var i := 16;
    while i >= 8
      invariant 7 <= i <= 16 && Normalized(res[..])
      invariant V(res[..]) < Pow(W30, i - 7) * (2 * V(prime.val))
      invariant V(res[..]) % V(prime.val) == old(V(res[..])) % V(prime.val)
    {
      MultiplyReduceStep(res, prime, i);
      assert res[i + 1] == 0;
      i := i - 1;
    }
    ghost var r := res[..];
    assert Pow(W30, 0) == 1;
    ExitCapacity(prime.val, 8);
    UpperZero(r, 9);
    i := 0;
    while i < 9
      invariant 0 <= i <= 9 && res[..] == r
      invariant forall k :: 0 <= k < i ==> x.val[k] == r[k]
    {
      x.val := x.val[i := res[i]];
      i := i + 1;
    }
    assert x.val == r[..9];
  }

  // bn_multiply
  method Multiply(k: Bignum256, x: Bignum256, prime: Bignum256)
    requires Modulus(prime.val) && x != prime
    requires Normalized(k.val) && V(k.val) < 180 * V(prime.val)
    requires Normalized(x.val) && V(x.val) < 180 * V(prime.val)
    modifies x
    ensures PartlyReduced(x.val, V(prime.val))
    ensures Fe(x.val, V(prime.val)) ==
            Field.Mul(Fe(old(k.val), V(prime.val)), Fe(old(x.val), V(prime.val)), V(prime.val))
  {
    ghost var p := V(prime.val);
    Range(k.val);
    Range(x.val);
    hide V;
    MultiplyRange(V(k.val), V(x.val), p);
    Field.MulMod(V(k.val), V(x.val), p);
    hide Fe, Field.Mul;
    var res := new uint32[18];
    MultiplyLong(k, x, res);
    MultiplyReduce(x, res, prime);
  }

  lemma MultiplyRange(a: int, b: int, p: int)
    requires 0 <= a < 180 * p && 0 <= b < 180 * p && 0 < p < B256
    ensures a * b < Pow(W30, 9) * (2 * p)
  {
    PowW30();
    MulMonotone(a, 180 * p, b);
    MulStep(b, 180 * p, 180 * p);
    MulMonotone(p, B256, 32400 * p);
    assert (180 * p) * (180 * p) == p * (32400 * p) && (180 * p) * b == b * (180 * p);
    assert B256 * (32400 * p) == (B256 * 32400) * p;
  }
}
