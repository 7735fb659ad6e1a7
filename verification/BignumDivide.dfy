// The last part of bn_inverse: s / 2^k modulo the prime, Montgomery style.

module BignumDivide {
  import opened Words
  import opened Limbs
  import opened Combo
  import opened AlmostInverse
  import Field

  // ---------------------------------------------------------------- -1/p modulo 2^32

  lemma SquareZeros(a: int, e: nat)
    requires 0 <= a && a % Pow2(e) == 0 && 1 <= e < 32
    ensures var f := if 2 * e < 32 then 2 * e else 32; ((a * a) % W32) % Pow2(f) == 0
  {
    var f := if 2 * e < 32 then 2 * e else 32;
    Pow2Add(e, e);
    Pow2Add(2 * e - f, f);
    Pow2Split(f);
    hide Pow2;
    SquareMod(a, Pow2(e), Pow2(2 * e - f), Pow2(f), Pow2(32 - f));
  }

  lemma SquareMod(a: int, m: int, g: int, f: int, r: int)
    requires m > 0 && a % m == 0 && m * m == g * f && f * r == W32 && f > 0
    ensures ((a * a) % W32) % f == 0
  {
    var b := a / m;
    DivExact(a, m);
    SquareModArith(a, b, m, g, f, r);
  }

  lemma DivExact(a: int, m: int)
    requires m > 0 && a % m == 0
    ensures a == (a / m) * m
  {
  }

  lemma SquareModArith(a: int, b: int, m: int, g: int, f: int, r: int)
    requires a == b * m && m * m == g * f && f * r == W32 && f > 0
    ensures ((a * a) % W32) % f == 0
  {
    var aa := a * a;
    SquareArith(b, m, g, f, aa / W32, r, aa);
    var q := b * b * g - (aa / W32) * r;
    assert aa % W32 == aa - (aa / W32) * W32;
    DivModUnique(aa % W32, f, q, 0);
  }

  lemma SquareArith(b: int, m: int, g: int, f: int, q: int, r: int, aa: int)
    requires m * m == g * f && f * r == W32 && aa == (b * m) * (b * m)
    ensures aa - q * W32 == (b * b * g - q * r) * f
  {
    assert (b * m) * (b * m) == (b * b) * (m * m);
    assert (b * b) * (g * f) == (b * b * g) * f;
    assert q * (f * r) == (q * r) * f;
  }

  lemma NewtonStep(inverse: int, a: int, am: int, am': int, inverse': int)
    requires am' == (am * am) % W32 && inverse' == (inverse * (am' + 1)) % W32
    requires Field.Cong(inverse * a, am * am - 1, W32)
    ensures Field.Cong(inverse' * a, am' * am' - 1, W32)
  {
    hide Field.Cong;
    Field.CongSelf(am * am, W32);
    Field.CongSelf(inverse * (am' + 1), W32);
    CongSym2(a, W32);
    CongSym2(1, W32);
    CongSym2(am' + 1, W32);
    Field.CongMul(inverse', inverse * (am' + 1), a, a, W32);
    Field.CongSym(am', am * am, W32);
    Field.CongAdd(am * am, am', 1, 1, W32);
    Field.CongTrans(inverse * a, am * am - 1, am' - 1, W32);
    Field.CongMul(inverse * a, am' - 1, am' + 1, am' + 1, W32);
    assert (inverse * (am' + 1)) * a == (inverse * a) * (am' + 1);
    assert (am' - 1) * (am' + 1) == am' * am' - 1;
    Field.CongTrans(inverse' * a, (inverse * a) * (am' + 1), am' * am' - 1, W32);
  }

  lemma NewtonStart(pp0: uint32)
    requires pp0 % 2 == 1
    ensures Field.Cong((pp0 - 2) % W32 * pp0, (pp0 - 1) * (pp0 - 1) - 1, W32)
  {
    hide Field.Cong;
    Field.CongSelf(pp0 - 2, W32);
    CongSym2(pp0, W32);
    Field.CongMul((pp0 - 2) % W32, pp0 - 2, pp0, pp0, W32);
    assert (pp0 - 2) * pp0 == (pp0 - 1) * (pp0 - 1) - 1;
  }

  lemma NotAllZeros(a: int, e: nat)
    requires 0 < a < W32 && e <= 32 && a % Pow2(e) == 0
    ensures e < 32
  {
    Pow2Values();
    Field.SmallMod(a, W32);
  }

  // -prime^-1 mod 2^32 by the explicit quadratic modular inverse.
  method NegInverse(pp0: uint32) returns (inverse: uint32)
    requires pp0 % 2 == 1
    ensures Field.Cong(inverse * pp0, -1, W32)
  {
    var amone: uint32 := pp0 - 1;
    inverse := (pp0 - 2) % W32;
    ghost var e := 1;
    assert Pow2(1) == 2;
    hide Field.Cong, Pow2, Low;
    NewtonStart(pp0);
    while amone != 0
      invariant 1 <= e <= 32 && amone % Pow2(e) == 0
      invariant Field.Cong(inverse * pp0, amone * amone - 1, W32)
      decreases if amone == 0 then 0 else 33 - e
    {
      NotAllZeros(amone, e);
      SquareZeros(amone, e);
      ghost var am, inv0 := amone, inverse;
      amone := Low(amone * amone, W32);
      inverse := Low(inverse * (amone + 1), W32);
      NewtonStep(inv0, pp0, am, amone, inverse);
      e := if 2 * e < 32 then 2 * e else 32;
      if amone != 0 {
        NotAllZeros(amone, e);
      }
    }
  }

  // ---------------------------------------------------------------- (s + factor * p) / 2^k

  // A word divided into its low k bits (m = 2^k) and the rest (w = 2^(32-k)).
  ghost predicate Splits(m: int, w: int) {
    m > 0 && w > 0 && w * m == W32
  }

  lemma SplitAt(k: nat)
    requires k <= 32
    ensures Splits(Pow2(k), Pow2(32 - k)) && Pow2(k) <= W32
  {
    hide Pow2;
    Pow2Split(k);
    WordLimit(k);
    Commute(Pow2(k), Pow2(32 - k));
  }

  lemma WordLimit(k: nat)
    requires k <= 32
    ensures Pow2(k) <= W32
  {
    Pow2Monotone(k, 32);
    Pow2Values();
  }

  // t_i + p_i * factor, each above the first moved down by k = 32 - e bits into its lower neighbour.
  function DivRaw(t: seq<int>, pp: seq<int>, factor: int, w: int): (raw: seq<int>)
    requires |t| == |pp| == 8
    ensures |raw| == 7
  {
    seq(7, i requires 0 <= i < 7 => (t[i + 1] + pp[i + 1] * factor) * w)
  }

  lemma DivTerm(t: seq<int>, pp: seq<int>, factor: int, w: int, i: nat)
    requires |t| == |pp| == 8 && i < 7
    ensures DivRaw(t, pp, factor, w)[i] == (t[i + 1] + pp[i + 1] * factor) * w
    ensures DivRaw(t, pp, factor, w)[i] == w * t[1..][i] + (w * factor) * pp[1..][i] + 0 * t[1..][i]
  {
    TermArith(t[i + 1], pp[i + 1], factor, w);
  }

  lemma TermArith(t: int, p: int, f: int, w: int)
    ensures (t + p * f) * w == w * t + (w * f) * p + 0 * t
  {
  }

  // The limbs the division leaves, least significant first.
  function Divided(t: seq<int>, pp: seq<int>, factor: int, m: int, w: int): (d: seq<int>)
    requires |t| == |pp| == 8 && m > 0
    ensures |d| == 8
  {
    var raw, c := DivRaw(t, pp, factor, w), High(t[0] + pp[0] * factor, m);
    Carried(raw, c, W32) + [Carry(raw, c, W32, 7)]
  }

  lemma DividedVal(t: seq<int>, pp: seq<int>, factor: int, m: int, w: int)
    requires |t| == |pp| == 8 && Splits(m, w)
    requires Low(t[0] + pp[0] * factor, m) == 0
    ensures m * Val(Divided(t, pp, factor, m, w), W32) == Val(t, W32) + factor * Val(pp, W32)
  {
    var raw, c := DivRaw(t, pp, factor, w), High(t[0] + pp[0] * factor, m);
    ValCarried(raw, c, W32);
    ValSnoc(Carried(raw, c, W32), Carry(raw, c, W32, 7), W32);
    LowHigh(t[0] + pp[0] * factor, m);
    ValHead(t);
    ValHead(pp);
    hide DivRaw, Val, Low, High, Carry, Carried, Pow;
    forall i | 0 <= i < 7
      ensures raw[i] == w * t[1..][i] + (w * factor) * pp[1..][i] + 0 * t[1..][i]
    {
      DivTerm(t, pp, factor, w, i);
    }
    ValLinear(raw, t[1..], w, pp[1..], w * factor, t[1..], 0, W32);
    Commute(Carry(raw, c, W32, 7), Pow(W32, 7));
    DividedArith(Val(raw, W32) + c, c, t[0], Val(t[1..], W32), pp[0], Val(pp[1..], W32), factor, m, w);
  }

  lemma ValHead(t: seq<int>)
    requires |t| > 0
    ensures Val(t, W32) == t[0] + W32 * Val(t[1..], W32)
  {
  }

  lemma DividedArith(d: int, c: int, t0: int, t1: int, p0: int, p1: int, f: int, m: int, w: int)
    requires d == (w * t1 + (w * f) * p1 + 0 * t1) + c && t0 + p0 * f == c * m && w * m == W32
    ensures m * d == (t0 + W32 * t1) + f * (p0 + W32 * p1)
  {
    assert m * (w * t1) == (w * m) * t1;
    assert m * ((w * f) * p1) == (w * m) * (f * p1);
    assert f * (W32 * p1) == W32 * (f * p1);
    assert m * d == m * (w * t1) + m * ((w * f) * p1) + m * c;
  }

  // The accumulator of the loop stays below 2^64.
  lemma DivBounds(t: int, p: int, factor: int, m: int, w: int, carry: int)
    requires 0 <= t < W32 && 0 <= p < W32 && 0 <= factor < m && Splits(m, w) && 0 <= carry < W32
    ensures 0 <= t + p * factor <= (W32 - 1) * m
    ensures 0 <= (t + p * factor) * w && carry + (t + p * factor) * w < W64
  {
    MulMonotone(p, W32 - 1, factor);
    MulMonotone(0, p, factor);
    MulMonotone(factor + 1, m, W32 - 1);
    assert (W32 - 1) * factor == factor * (W32 - 1) && (W32 - 1) * m == m * (W32 - 1);
    assert (factor + 1) * (W32 - 1) == factor * (W32 - 1) + (W32 - 1);
    MulMonotone(t + p * factor, (W32 - 1) * m, w);
    MulMonotone(0, t + p * factor, w);
    assert ((W32 - 1) * m) * w == (W32 - 1) * (w * m);
  }

  lemma DivIteration(t: seq<int>, pp: seq<int>, factor: int, m: int, w: int, i: nat, temp: int)
    requires |t| == |pp| == 8 && Digits(t, W32) && Digits(pp, W32) && i < 7
    requires 0 <= factor < m && Splits(m, w)
    requires 0 <= temp < W32
    requires temp == Carry(DivRaw(t, pp, factor, w), High(t[0] + pp[0] * factor, m), W32, i)
    ensures var s := temp + (t[i + 1] + pp[i + 1] * factor) * w;
      && 0 <= s < W64
      && 0 <= Low(s, W32) < W32 && Low(s, W32) == Divided(t, pp, factor, m, w)[i]
      && 0 <= High(s, W32) < W32
      && High(s, W32) == Carry(DivRaw(t, pp, factor, w), High(t[0] + pp[0] * factor, m), W32, i + 1)
  {
    var raw, c := DivRaw(t, pp, factor, w), High(t[0] + pp[0] * factor, m);
    DivTerm(t, pp, factor, w, i);
    CarryNext(raw, c, W32, i);
    DivBounds(t[i + 1], pp[i + 1], factor, m, w, temp);
    assert Divided(t, pp, factor, m, w)[i] == Carried(raw, c, W32)[i];
    hide DivRaw, Carry, Carried, Low, High, Divided;
    HighBound(temp + raw[i], W32, W32 - 1);
  }

  lemma DivFirst(t: seq<int>, pp: seq<int>, factor: int, m: int, w: int)
    requires |t| == |pp| == 8 && Digits(t, W32) && Digits(pp, W32)
    requires 0 <= factor < m && Splits(m, w)
    ensures 0 <= t[0] + pp[0] * factor < W64
    ensures 0 <= High(t[0] + pp[0] * factor, m) < W32
    ensures High(t[0] + pp[0] * factor, m) == Carry(DivRaw(t, pp, factor, w), High(t[0] + pp[0] * factor, m), W32, 0)
    ensures Divided(t, pp, factor, m, w)[7] == Carry(DivRaw(t, pp, factor, w), High(t[0] + pp[0] * factor, m), W32, 7)
  {
    DivBounds(t[0], pp[0], factor, m, w, 0);
    MulMonotone(1, w, t[0] + pp[0] * factor);
    Commute(w, t[0] + pp[0] * factor);
    CarryNext(DivRaw(t, pp, factor, w), High(t[0] + pp[0] * factor, m), W32, 0);
    hide DivRaw, Carry, Carried, Low, High;
    assert (W32 - 1 + 1) * m == W32 * m;
    HighBound(t[0] + pp[0] * factor, m, W32 - 1);
  }

  // The loop of both divisions; a shift by 32 - k multiplies by w.
  method DivideLimbs(us: Register, pp: seq<uint32>, factor: uint32, c: uint64, ghost m: int, w: nat)
    requires |pp| == 8 && factor < m && Splits(m, w)
    requires c == High(us.a[8] + pp[0] * factor, m)
    modifies us
    ensures us.len1 == old(us.len1) && us.a[0] == old(us.a)[0]
    ensures Tail(us.a, 1) == Divided(Tail(old(us.a), 1), pp, factor, m, w)
  {
    ghost var a0 := us.a;
    ghost var t := Tail(a0, 1);
    ghost var raw := DivRaw(t, pp, factor, w);
    assert t[0] == a0[8];
    DivFirst(t, pp, factor, m, w);
    hide DivRaw, Divided, Carry, Low, High;
    var temp: uint64 := c;
    var i := 0;
    while i < 7
      invariant 0 <= i <= 7 && us.len1 == old(us.len1) && temp < W32
      invariant temp == Carry(raw, c, W32, i)
      invariant forall k :: 0 <= k < i ==> us.a[8 - k] == Divided(t, pp, factor, m, w)[k]
      invariant forall n :: 0 <= n <= 8 - i ==> us.a[n] == a0[n]
    {
      DivIteration(t, pp, factor, m, w, i, temp);
      temp := temp + ShiftedTerm(us.a[8 - (i + 1)], pp[i + 1], factor, w);
      us.a := us.a[8 - i := Low(temp, W32)];
      temp := High(temp, W32);
      i := i + 1;
    }
    LowSame(temp);
    us.a := us.a[8 - i := Low(temp, W32)];
    assert Tail(us.a, 1) == Divided(t, pp, factor, m, w);
  }

  function ShiftedTerm(t: uint32, p: uint32, factor: uint32, w: nat): int {
    (t + p * (factor as uint64)) * w
  }

  lemma LowSame(t: int)
    requires 0 <= t < W32
    ensures Low(t, W32) == t
  {
  }

  lemma ModDivides(x: int, m: int, w: int)
    requires Splits(m, w)
    ensures Field.Cong(x % W32, x, m)
  {
    assert x % W32 == x + (-(x / W32) * w) * m by {
      assert (x / W32) * (w * m) == ((x / W32) * w) * m;
    }
    Field.CongWitness(x % W32, x, -(x / W32) * w, m);
  }

  // factor = s * -1/prime mod 2^k makes s + factor * prime divisible by 2^k.
  lemma FactorKills(t0: int, p0: int, inverse: int, factor: int, m: int, w: int)
    requires Splits(m, w) && Field.Cong(inverse * p0, -1, W32)
    requires factor == Low(Low(inverse * t0, W32), m)
    ensures Low(t0 + p0 * factor, m) == 0 && 0 <= factor < m
  {
    hide Field.Cong;
    Field.CongSelf((inverse * t0) % W32, m);
    ModDivides(inverse * t0, m, w);
    Field.CongTrans(factor, (inverse * t0) % W32, inverse * t0, m);
    WeakerModulus(inverse * p0, -1, m, w);
    CongSym2(p0, m);
    CongSym2(t0, m);
    Field.CongMul(p0, p0, factor, inverse * t0, m);
    Field.CongMul(inverse * p0, -1, t0, t0, m);
    assert p0 * (inverse * t0) == (inverse * p0) * t0;
    Field.CongTrans(p0 * factor, (inverse * p0) * t0, -1 * t0, m);
    Field.CongAdd(t0, t0, p0 * factor, -t0, m);
    CongZero(t0 + p0 * factor, m);
  }

  lemma CongZero(x: int, m: int)
    requires m > 0 && Field.Cong(x, 0, m)
    ensures Low(x, m) == 0
  {
    Field.SmallMod(0, m);
  }

  lemma WeakerModulus(a: int, b: int, m: int, w: int)
    requires Splits(m, w) && Field.Cong(a, b, W32)
    ensures Field.Cong(a, b, m)
  {
    hide Field.Cong;
    var k := Field.CongQuotient(a, b, W32);
    assert k * (w * m) == (k * w) * m;
    Field.CongWitness(a, b, k * w, m);
  }

  // factor and the first accumulator of a division by 2^k.
  method Factor(t0: uint32, p0: uint32, inverse: uint32, k: nat) returns (factor: uint32, temp: uint64)
    requires 1 <= k <= 32 && Field.Cong(inverse * p0, -1, W32)
    ensures factor < Pow2(k) && Low(t0 + p0 * factor, Pow2(k)) == 0
    ensures temp == High(t0 + p0 * factor, Pow2(k)) && temp < W32
  {
    ghost var f := ReadFactor(t0, p0, inverse, k);
    SplitAt(k);
    hide Low, High, Field.Cong, Pow2, Splits;
    DivBounds(t0, p0, f, Pow2(k), Pow2(32 - k), 0);
    FirstTemp(t0 + p0 * f, Pow2(k));
    factor := Low(Low(inverse * t0, W32), Pow2(k));
    temp := High(t0 + p0 * factor, Pow2(k));
  }

  lemma FirstTemp(x: int, m: int)
    requires m > 0 && 0 <= x <= (W32 - 1) * m
    ensures 0 <= High(x, m) < W32
  {
    assert (W32 - 1 + 1) * m == (W32 - 1) * m + m;
    HighBound(x, m, W32 - 1);
  }

  // s := (s + factor * p) / 2^k
  method DivideStep(us: Register, pp: seq<uint32>, inverse: uint32, k: nat)
    requires |pp| == 8 && us.len1 == 1 && 1 <= k <= 32
    requires Field.Cong(inverse * pp[0], -1, W32) && Second(us.a, 1) < Val(pp, W32)
    modifies us
    ensures us.len1 == 1 && 0 <= Second(us.a, 1) < Val(pp, W32)
    ensures Field.Cong(Pow2(k) * Second(us.a, 1), old(Second(us.a, 1)), Val(pp, W32))
  {
    ghost var t := Tail(us.a, 1);
    ghost var m, s := Pow2(k), Second(us.a, 1);
    SplitAt(k);
    assert t[0] == us.a[8];
    ValBounds(t, W32);
    hide Val, Low, High, Divided, Field.Cong, Pow2, Splits;
    var factor, temp := Factor(us.a[8], pp[0], inverse, k);
    DividedVal(t, pp, factor, m, Pow2(32 - k));
    DivideLimbs(us, pp, factor, temp, m, Pow2(32 - k));
    ValBounds(Tail(us.a, 1), W32);
    StaysBelow(s, Second(us.a, 1), factor, m, Val(pp, W32));
    Field.CongWitness(m * Second(us.a, 1), s, factor, Val(pp, W32));
  }

  lemma ReadFactor(t0: int, p0: int, inverse: int, k: nat) returns (factor: int)
    requires 1 <= k <= 32 && Field.Cong(inverse * p0, -1, W32)
    ensures factor == Low(Low(inverse * t0, W32), Pow2(k)) && 0 <= factor < Pow2(k) <= W32
    ensures Low(t0 + p0 * factor, Pow2(k)) == 0
  {
    SplitAt(k);
    hide Low, Field.Cong, Pow2, Splits;
    factor := Low(Low(inverse * t0, W32), Pow2(k));
    FactorKills(t0, p0, inverse, factor, Pow2(k), Pow2(32 - k));
  }

  lemma StaysBelow(s: int, s': int, factor: int, m: int, p: int)
    requires 0 <= s < p && 0 <= factor < m && m * s' == s + factor * p
    ensures s' < p
  {
    if s' >= p {
      MulMonotone(p, s', m);
      MulStep(factor, m, p);
      Commute(m, s');
      Commute(m, p);
    }
  }

  // One more factor 2^j taken out of s.
  lemma StepCong(x: int, s: int, s': int, k: nat, j: nat, total: nat, p: int)
    requires p > 0 && j <= k <= total
    requires Field.Cong(x * s * Pow2(total - k), Pow2(total), p) && Field.Cong(Pow2(j) * s', s, p)
    ensures Field.Cong(x * s' * Pow2(total - (k - j)), Pow2(total), p)
  {
    hide Field.Cong;
    Pow2Add(total - k, j);
    var c := x * Pow2(total - k);
    CongSym2(c, p);
    Field.CongMul(c, c, Pow2(j) * s', s, p);
    StepArith(x, s, s', Pow2(total - k), Pow2(j));
    Field.CongTrans(x * s' * (Pow2(total - k) * Pow2(j)), x * s * Pow2(total - k), Pow2(total), p);
  }

  lemma StepArith(x: int, s: int, s': int, a: int, b: int)
    ensures (x * a) * (b * s') == x * s' * (a * b)
    ensures (x * a) * s == x * s * a
  {
    assert x * s' * (a * b) == x * (s' * (a * b));
    assert (x * a) * (b * s') == x * (a * (b * s'));
  }

  // The two division loops: s / 2^k modulo p.
  method DivideByPow2(us: Register, pp: seq<uint32>, inverse: uint32, k0: nat, ghost x: int)
    requires |pp| == 8 && us.len1 == 1 && Val(pp, W32) % 2 == 1
    requires Field.Cong(inverse * pp[0], -1, W32) && 0 <= Second(us.a, 1) < Val(pp, W32)
    requires Field.Cong(x * Second(us.a, 1), Pow2(k0), Val(pp, W32))
    modifies us
    ensures us.len1 == 1 && 0 <= Second(us.a, 1) < Val(pp, W32)
    ensures Field.Cong(x * Second(us.a, 1), 1, Val(pp, W32))
  {
    var k := k0;
    assert Pow2(0) == 1 && x * Second(us.a, 1) * 1 == x * Second(us.a, 1);
    hide Val, Second, Field.Cong, Pow2;
    while k >= 32
      invariant us.len1 == 1 && 0 <= k <= k0 && 0 <= Second(us.a, 1) < Val(pp, W32)
      invariant Field.Cong(x * Second(us.a, 1) * Pow2(k0 - k), Pow2(k0), Val(pp, W32))
    {
      ghost var s := Second(us.a, 1);
      DivideStep(us, pp, inverse, 32);
      StepCong(x, s, Second(us.a, 1), k, 32, k0, Val(pp, W32));
      k := k - 32;
    }
    if k > 0 {
      ghost var s := Second(us.a, 1);
      DivideStep(us, pp, inverse, k);
      StepCong(x, s, Second(us.a, 1), k, k, k0, Val(pp, W32));
      k := 0;
    }
    CancelPow2(x * Second(us.a, 1), k0, Val(pp, W32));
  }

  lemma CancelPow2(a: int, k: nat, p: int)
    requires p > 0 && p % 2 == 1 && Field.Cong(a * Pow2(k), Pow2(k), p)
    ensures Field.Cong(a, 1, p)
  {
    CongDiff(a * Pow2(k), Pow2(k), p);
    assert a * Pow2(k) - Pow2(k) == (a - 1) * Pow2(k);
    OddCancel(a - 1, k, p);
    CongDiff(a, 1, p);
  }
}
