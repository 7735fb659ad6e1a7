// The packed registers of bn_inverse: nine 32-bit limbs hold one number little-endian in
// a[0..len1) and a second one big-endian in a[len1..9).  The split moves as the first
// shrinks and the second grows.

module Combo {
  import opened Words
  import opened Limbs
  import opened Bignum

  class Register {
    var a: Limbs9
    var len1: nat

    constructor (a: Limbs9, len1: nat)
      ensures this.a == a && this.len1 == len1
    {
      this.a := a;
      this.len1 := len1;
    }
  }

  // The number in the first n limbs.
  function First(a: seq<int>, n: nat): int
    requires n <= |a|
  {
    Val(a[..n], W32)
  }

  // The remaining limbs, least significant first, and the number they hold.
  function Tail(a: seq<int>, n: nat): (t: seq<int>)
    requires |a| == 9 && n <= 9
    ensures |t| == 9 - n && forall k :: 0 <= k < 9 - n ==> t[k] == a[8 - k]
  {
    seq(9 - n, k requires 0 <= k < 9 - n => a[8 - k])
  }

  function Second(a: seq<int>, n: nat): int
    requires |a| == 9 && n <= 9
  {
    Val(Tail(a, n), W32)
  }

  // ---------------------------------------------------------------- lengths

  lemma DropTop(a: seq<int>, n: nat)
    requires |a| == 9 && 1 <= n <= 9 && a[n - 1] == 0
    ensures First(a, n - 1) == First(a, n) && Second(a, n - 1) == Second(a, n)
  {
    ValTake(a, n, W32);
    assert Tail(a, n - 1) == Tail(a, n) + [a[n - 1]];
    ValSnoc(Tail(a, n), 0, W32);
  }

  // A number whose top limb is not zero fills its limbs.
  lemma TopLimb(a: seq<int>, n: nat)
    requires |a| == 9 && 1 <= n <= 9 && Digits(a, W32) && a[n - 1] != 0
    ensures Pow(W32, n - 1) <= First(a, n) < Pow(W32, n)
  {
    ValTake(a, n, W32);
    ValBounds(a[..n - 1], W32);
    ValBounds(a[..n], W32);
    MulMonotone(1, a[n - 1], Pow(W32, n - 1));
    assert a[n - 1] * Pow(W32, n - 1) == Pow(W32, n - 1) * a[n - 1];
  }

  // Loop "adjust length of even".
  method AdjustLength(c: Register)
    requires 1 <= c.len1 <= 8 && First(c.a, c.len1) > 0
    modifies c
    ensures c.a == old(c.a) && 1 <= c.len1 <= old(c.len1) && c.a[c.len1 - 1] != 0
    ensures First(c.a, c.len1) == old(First(c.a, c.len1)) && Second(c.a, c.len1) == old(Second(c.a, c.len1))
  {
    while c.a[c.len1 - 1] == 0
      invariant c.a == old(c.a) && 1 <= c.len1 <= old(c.len1)
      invariant First(c.a, c.len1) == old(First(c.a, c.len1)) && Second(c.a, c.len1) == old(Second(c.a, c.len1))
      decreases c.len1
    {
      DropTop(c.a, c.len1);
      hide Second;
      assert c.len1 != 1;
      c.len1 := c.len1 - 1;
    }
  }

  // ---------------------------------------------------------------- shifting by a limb

  lemma LimbShift(a: seq<int>, b: seq<int>, n: nat)
    requires |a| == |b| == 9 && 1 <= n <= 8 && a[0] == 0
    requires b == a[1..] + [0]
    ensures First(a, n) == W32 * First(b, n - 1) && Second(b, n - 1) == W32 * Second(a, n)
  {
    assert a[..n][1..] == b[..n - 1];
    assert Tail(b, n - 1)[1..] == Tail(a, n);
  }

  // Loop "reduce even->a while it is even", one limb at a time.
  method ShiftLimb(c: Register)
    requires 2 <= c.len1 <= 8 && c.a[0] == 0
    modifies c
    ensures c.len1 == old(c.len1) - 1
    ensures forall i :: 0 <= i < 8 ==> c.a[i] == old(c.a)[i + 1]
    ensures old(First(c.a, c.len1)) == W32 * First(c.a, c.len1)
    ensures Second(c.a, c.len1) == W32 * old(Second(c.a, c.len1))
  {
    ghost var a0 := c.a;
    var i := 0;
    while i < 8
      invariant 0 <= i <= 8 && c.len1 == old(c.len1)
      invariant forall m :: 0 <= m < i ==> c.a[m] == a0[m + 1]
      invariant forall m :: i <= m < 9 ==> c.a[m] == a0[m]
    {
      c.a := c.a[i := c.a[i + 1]];
      i := i + 1;
    }
    c.a := c.a[8 := 0];
    assert c.a == a0[1..] + [0];
    LimbShift(a0, c.a, c.len1);
    c.len1 := c.len1 - 1;
  }

  // ---------------------------------------------------------------- shifting by bits

  // Shifting limbs right by j takes the low j bits of the limb above into each limb.
  lemma {:induction false} RightShiftVal(s: seq<int>, h: seq<int>, m: int, w: int)
    requires |s| == |h| > 0 && m > 0 && w > 0 && m * w == W32 && Digits(s, W32)
    requires forall i :: 0 <= i < |s| - 1 ==> h[i] == High(s[i], m) + Low(s[i + 1], m) * w
    requires h[|s| - 1] == High(s[|s| - 1], m)
    ensures m * Val(h, W32) + Low(s[0], m) == Val(s, W32)
    ensures Digits(h, W32)
  {
    LowHigh(s[0], m);
    if |s| == 1 {
      HighRange(s[0], m, w);
    } else {
      RightShiftVal(s[1..], h[1..], m, w);
      LowHigh(s[1], m);
      HighRange(s[0], m, w);
      ShiftLimbRange(High(s[0], m), Low(s[1], m), m, w);
      assert forall i :: 1 <= i < |h| ==> h[i] == h[1..][i - 1];
      ShiftLimbVal(Val(h[1..], W32), High(s[0], m), Low(s[1], m), m, w);
    }
  }

  lemma HighRange(t: int, m: int, w: int)
    requires m > 0 && m * w == W32 && 0 <= t < W32
    ensures 0 <= High(t, m) < w
  {
    assert (w - 1 + 1) * m == m * w;
    HighBound(t, m, w - 1);
  }

  lemma ShiftLimbRange(h: int, l: int, m: int, w: int)
    requires 0 <= h < w && 0 <= l < m && m * w == W32
    ensures 0 <= h + l * w < W32
  {
    MulStep(l, m, w);
    MulMonotone(0, l, w);
  }

  lemma ShiftLimbVal(v: int, h: int, l: int, m: int, w: int)
    requires m * w == W32
    ensures m * ((h + l * w) + W32 * v) == h * m + W32 * (m * v + l)
  {
    assert m * (l * w) == l * (m * w);
  }

  // Shifting limbs left by the same amount takes the high bits of the limb below.
  lemma {:induction false} LeftShiftVal(t: seq<int>, d: seq<int>, m: int, w: int, c: int)
    requires |t| == |d| > 0 && m > 0 && w > 0 && m * w == W32 && Digits(t, W32) && 0 <= c < m
    requires d[0] == Low(t[0], w) * m + c
    requires forall i :: 1 <= i < |t| ==> d[i] == Low(t[i], w) * m + High(t[i - 1], w)
    ensures Val(d, W32) + High(t[|t| - 1], w) * Pow(W32, |t|) == m * Val(t, W32) + c
    ensures Digits(d, W32)
  {
    LowHigh(t[0], w);
    ShiftLimbRange(c, Low(t[0], w), w, m);
    if |t| == 1 {
      assert Pow(W32, 1) == W32;
      LeftLimbVal(t[0], High(t[0], w), Low(t[0], w), m, w);
      ValSnoc([], t[0], W32);
      ValSnoc([], d[0], W32);
      assert [] + [t[0]] == t && [] + [d[0]] == d;
    } else {
      HighRange(t[0], w, m);
      LeftShiftVal(t[1..], d[1..], m, w, High(t[0], w));
      assert forall i :: 1 <= i < |d| ==> d[i] == d[1..][i - 1];
      hide Low, High, Pow;
      LeftLimbVal(t[0], High(t[0], w), Low(t[0], w), m, w);
      PowNext(W32, |t| - 1);
      LeftStep(d[0], Val(d[1..], W32), High(t[|t| - 1], w), Pow(W32, |t| - 1), t[0], Val(t[1..], W32), m, c,
        High(t[0], w), Low(t[0], w));
    }
  }

  lemma LeftStep(d: int, vd: int, q: int, p: int, t: int, vt: int, m: int, c: int, h: int, l: int)
    requires vd + q * p == m * vt + h && d == l * m + c && m * t == l * m + h * W32
    ensures (d + W32 * vd) + q * (W32 * p) == m * (t + W32 * vt) + c
  {
    assert q * (W32 * p) == W32 * (q * p);
    assert m * (t + W32 * vt) == m * t + W32 * (m * vt);
  }

  lemma LeftLimbVal(t: int, h: int, l: int, m: int, w: int)
    requires m * w == W32 && t == h * w + l
    ensures m * t == l * m + h * W32
  {
    assert m * (h * w + l) == h * (m * w) + l * m;
  }

  // Loop "count up to 32 zero bits of even->a".
  method CountZeros(w: uint32) returns (j: nat)
    requires w != 0
    ensures j <= 31 && Low(w, Pow2(j)) == 0 && High(w, Pow2(j)) % 2 == 1
  {
    j := 0;
    assert Pow2(0) == 1;
    while High(w, Pow2(j)) % 2 == 0
      invariant j <= 31 && Low(w, Pow2(j)) == 0 && Pow2(j) <= w
      decreases 32 - j
    {
      OneMoreZero(w, j);
      Pow2Values();
      assert Pow2(32) == 2 * Pow2(31);
      j := j + 1;
    }
  }

  lemma OneMoreZero(w: nat, j: nat)
    requires w > 0 && Low(w, Pow2(j)) == 0 && High(w, Pow2(j)) % 2 == 0
    ensures Low(w, Pow2(j + 1)) == 0 && Pow2(j + 1) <= w
  {
    LowHigh(w, Pow2(j));
    var h := High(w, Pow2(j));
    assert w == (h / 2) * (2 * Pow2(j));
    DivModUnique(w, Pow2(j + 1), h / 2, 0);
    MulMonotone(1, h / 2, 2 * Pow2(j));
  }

  // "shift first part of even right by j bits"
  method ShiftFirstBits(c: Register, j: nat)
    requires 1 <= c.len1 <= 8 && 1 <= j <= 31
    modifies c
    ensures c.len1 == old(c.len1)
    ensures forall i :: c.len1 <= i < 9 ==> c.a[i] == old(c.a)[i]
    ensures c.a[0] % 2 == High(old(c.a)[0], Pow2(j)) % 2
    ensures Pow2(j) * First(c.a, c.len1) + Low(old(c.a)[0], Pow2(j)) == old(First(c.a, c.len1))
  {
    ghost var a0, n := c.a, c.len1;
    ghost var m, w := Pow2(j), Pow2(32 - j);
    Pow2Split(j);
    HighRange(a0[n - 1], m, w);
    assert Shr(a0[n - 1], j) == High(a0[n - 1], m);
    hide First, Low, High, Or, Shr, Shl32, Pow2;
    var i := FunnelLimbs(c, j);
    c.a := c.a[i := Shr(c.a[i], j)];
    ShiftedFirst(a0, c.a, n, j);
  }

  // The loop over the limbs that take bits from their neighbours.
  method FunnelLimbs(c: Register, j: nat) returns (i: nat)
    requires 1 <= c.len1 <= 8 && 1 <= j <= 31
    modifies c`a
    ensures i == c.len1 - 1
    ensures forall k :: 0 <= k < i ==> c.a[k] == High(old(c.a)[k], Pow2(j)) + Low(old(c.a)[k + 1], Pow2(j)) * Pow2(32 - j)
    ensures forall k :: i <= k < 9 ==> c.a[k] == old(c.a)[k]
  {
    ghost var a0, m, w := c.a, Pow2(j), Pow2(32 - j);
    hide Low, High, Pow2;
    i := 0;
    while i + 1 < c.len1
      invariant 0 <= i < c.len1
      invariant forall k :: 0 <= k < i ==> c.a[k] == High(a0[k], m) + Low(a0[k + 1], m) * w
      invariant forall k :: i <= k < 9 ==> c.a[k] == a0[k]
    {
      FunnelLimb(c, i, j);
      i := i + 1;
    }
  }

  method FunnelLimb(c: Register, i: nat, j: nat)
    requires i < 8 && 1 <= j <= 31
    modifies c`a
    ensures c.a[i] == High(old(c.a)[i], Pow2(j)) + Low(old(c.a)[i + 1], Pow2(j)) * Pow2(32 - j)
    ensures forall k :: 0 <= k < 9 && k != i ==> c.a[k] == old(c.a)[k]
  {
    hide Low, High, Or, Shr, Shl32, Pow2;
    Funnel(c.a[i], c.a[i + 1], j);
    c.a := c.a[i := Or(Shr(c.a[i], j), Shl32(c.a[i + 1], 32 - j))];
  }

  lemma ShiftedFirst(a: seq<int>, b: seq<int>, n: nat, j: nat)
    requires |a| == |b| == 9 && 1 <= n <= 8 && 1 <= j <= 31 && Digits(a, W32)
    requires forall k :: 0 <= k < n - 1 ==> b[k] == High(a[k], Pow2(j)) + Low(a[k + 1], Pow2(j)) * Pow2(32 - j)
    requires b[n - 1] == High(a[n - 1], Pow2(j))
    ensures Pow2(j) * First(b, n) + Low(a[0], Pow2(j)) == First(a, n)
    ensures b[0] % 2 == High(a[0], Pow2(j)) % 2
  {
    Pow2Split(j);
    RightShiftVal(a[..n], b[..n], Pow2(j), Pow2(32 - j));
    if n > 1 {
      EvenTerm(High(a[0], Pow2(j)), Low(a[1], Pow2(j)), 32 - j);
    }
  }

  lemma EvenTerm(h: int, l: int, s: nat)
    requires s > 0
    ensures (h + l * Pow2(s)) % 2 == h % 2
  {
    assert l * Pow2(s) == 2 * (l * Pow2(s - 1));
  }

  // "shift second part of even left by j bits"
  method ShiftSecondBits(c: Register, j: nat)
    requires c.len1 <= 8 && 1 <= j <= 31
    requires Pow2(j) * Second(c.a, c.len1) < Pow(W32, 9 - c.len1)
    modifies c
    ensures c.len1 == old(c.len1)
    ensures forall i :: 0 <= i < c.len1 ==> c.a[i] == old(c.a)[i]
    ensures Second(c.a, c.len1) == Pow2(j) * old(Second(c.a, c.len1))
  {
    ghost var a0, n := c.a, c.len1;
    ghost var m, w := Pow2(j), Pow2(32 - j);
    Pow2Split(j);
    var i := c.len1;
    while i < 8
      invariant n <= i <= 8 && c.len1 == n
      invariant forall k :: n <= k < i ==> c.a[k] == Low(a0[k], w) * m + High(a0[k + 1], w)
      invariant forall k :: 0 <= k < n || i <= k < 9 ==> c.a[k] == a0[k]
    {
      Funnel(c.a[i + 1], c.a[i], 32 - j);
      c.a := c.a[i := Or(Shl32(c.a[i], j), Shr(c.a[i + 1], 32 - j))];
      i := i + 1;
    }
    ShlLow(c.a[8], j);
    c.a := c.a[8 := Shl32(c.a[8], j)];
    SecondShifted(a0, c.a, n, m, w);
  }

  lemma SecondShifted(a: seq<int>, b: seq<int>, n: nat, m: int, w: int)
    requires |a| == |b| == 9 && n <= 8 && m > 0 && w > 0 && m * w == W32 && Digits(a, W32)
    requires forall k :: n <= k < 8 ==> b[k] == Low(a[k], w) * m + High(a[k + 1], w)
    requires b[8] == Low(a[8], w) * m
    requires m * Second(a, n) < Pow(W32, 9 - n)
    ensures Second(b, n) == m * Second(a, n)
  {
    var t, d := Tail(a, n), Tail(b, n);
    LeftShiftVal(t, d, m, w, 0);
    ValBounds(d, W32);
    PowPositive(W32, 9 - n);
    HighRange(t[8 - n], w, m);
    NoCarryOut(Val(d, W32), High(t[8 - n], w), Pow(W32, 9 - n));
  }

  lemma NoCarryOut(v: int, h: int, p: int)
    requires 0 <= v && 0 <= h && 0 < p && v + h * p < p
    ensures h == 0
  {
    if h > 0 {
      MulMonotone(1, h, p);
    }
  }

  // ---------------------------------------------------------------- comparing

  // Two numbers that fill different numbers of limbs.
  lemma LongerIsLarger(a: seq<int>, n: nat, b: seq<int>, m: nat)
    requires |a| == |b| == 9 && 1 <= m < n <= 9 && Digits(a, W32) && Digits(b, W32)
    requires a[n - 1] != 0 && b[m - 1] != 0
    ensures First(a, n) > First(b, m)
  {
    TopLimb(a, n);
    TopLimb(b, m);
    PowGrows(m, n - 1);
  }

  lemma {:induction false} PowGrows(m: nat, n: nat)
    requires m <= n
    ensures 0 < Pow(W32, m) <= Pow(W32, n)
  {
    if m == n {
      PowPositive(W32, m);
    } else {
      PowGrows(m, n - 1);
    }
  }

  // cmp > 0 if us.a[0..len1) > vr.a[0..len1), cmp = 0 if equal, < 0 if less
  method Compare(us: Register, vr: Register) returns (cmp: int)
    requires 1 <= us.len1 <= 8 && us.a[us.len1 - 1] != 0
    requires 1 <= vr.len1 <= 8 && vr.a[vr.len1 - 1] != 0
    ensures cmp > 0 <==> First(us.a, us.len1) > First(vr.a, vr.len1)
    ensures cmp == 0 <==> First(us.a, us.len1) == First(vr.a, vr.len1)
  {
    ghost var s, t := us.a[..us.len1], vr.a[..vr.len1];
    cmp := us.len1 - vr.len1;
    if cmp == 0 {
      var i := us.len1 - 1;
      while i >= 0 && us.a[i] == vr.a[i]
        invariant -1 <= i < us.len1
        invariant s[i + 1..] == t[i + 1..]
      {
        assert s[i..] == [s[i]] + s[i + 1..] && t[i..] == [t[i]] + t[i + 1..];
        i := i - 1;
      }
      if i == -1 {
        assert s[0..] == s && t[0..] == t;
        return;
      }
      cmp := if us.a[i] > vr.a[i] then 1 else -1;
      if us.a[i] > vr.a[i] {
        CompareAt(s, t, i, W32);
      } else {
        CompareAt(t, s, i, W32);
      }
    } else if cmp > 0 {
      LongerIsLarger(us.a, us.len1, vr.a, vr.len1);
    } else {
      LongerIsLarger(vr.a, vr.len1, us.a, us.len1);
    }
  }

  // ---------------------------------------------------------------- subtracting

  function SubFirstRaw(e: seq<int>, o: seq<int>, m: nat): (raw: seq<int>)
    requires m <= |e| && m <= |o|
    ensures |raw| == |e|
  {
    seq(|e|, i requires 0 <= i < |e| => 0xFFFFFFFF + e[i] - if i < m then o[i] else 0)
  }

  lemma SubFirstTerm(e: seq<int>, o: seq<int>, m: nat, i: nat)
    requires m <= |e| && m <= |o| && i < |e|
    ensures SubFirstRaw(e, o, m)[i] == 0xFFFFFFFF + e[i] - if i < m then o[i] else 0
    ensures SubFirstRaw(e, o, m)[i] ==
            1 * Const(|e|, 0xFFFFFFFF)[i] + 1 * e[i] + (-1) * (o[..m] + Const(|e| - m, 0))[i]
  {
  }

  lemma SubFirstExact(e: seq<int>, o: seq<int>, m: nat)
    requires m <= |e| && m <= |o| && Digits(e, W32)
    requires 0 <= Val(o[..m], W32) <= Val(e, W32)
    ensures var out := Carried(SubFirstRaw(e, o, m), 1, W32);
      Digits(out, W32) && Val(out, W32) == Val(e, W32) - Val(o[..m], W32)
  {
    var n := |e|;
    var o1, ones := o[..m] + Const(n - m, 0), Const(n, 0xFFFFFFFF);
    ValConst(n, 1, W32);
    ValPadded(o[..m], n - m, W32);
    ValBounds(e, W32);
    hide SubFirstRaw, Const, Val;
    forall i | 0 <= i < n
      ensures SubFirstRaw(e, o, m)[i] == 1 * ones[i] + 1 * e[i] + (-1) * o1[i]
    {
      SubFirstTerm(e, o, m, i);
    }
    ValLinear(SubFirstRaw(e, o, m), ones, 1, e, 1, o1, -1, W32);
    CarryExact(SubFirstRaw(e, o, m), 1, W32, 1, Val(e, W32) - Val(o[..m], W32));
  }

  // Total of iteration i of the subtraction.
  lemma SubIteration(e: seq<int>, o: seq<int>, m: nat, i: nat, temp: int)
    requires m <= |e| && m <= |o| && i < |e| && Digits(e, W32) && Digits(o, W32)
    requires 0 <= temp < 3 && temp == Carry(SubFirstRaw(e, o, m), 1, W32, i)
    ensures var t := temp + 0xFFFFFFFF + e[i] - if i < m then o[i] else 0;
      && 0 <= t < W64
      && 0 <= Low(t, W32) < W32 && Low(t, W32) == Carried(SubFirstRaw(e, o, m), 1, W32)[i]
      && 0 <= High(t, W32) < 3 && High(t, W32) == Carry(SubFirstRaw(e, o, m), 1, W32, i + 1)
  {
    SubFirstTerm(e, o, m, i);
    CarryNext(SubFirstRaw(e, o, m), 1, W32, i);
    hide SubFirstRaw, Carry, Carried;
    HighBound(temp + SubFirstRaw(e, o, m)[i], W32, 2);
  }

  method SubtractLow(even: Register, odd: Register) returns (temp: uint64)
    requires even != odd && 1 <= odd.len1 <= even.len1 <= 8
    modifies even
    ensures even.len1 == old(even.len1)
    ensures var raw := SubFirstRaw(old(even.a)[..even.len1], odd.a, odd.len1);
      && temp == Carry(raw, 1, W32, odd.len1) && temp < 3
      && forall k :: 0 <= k < odd.len1 ==> even.a[k] == Carried(raw, 1, W32)[k]
    ensures forall k :: odd.len1 <= k < 9 ==> even.a[k] == old(even.a)[k]
  {
    ghost var a0, n, m := even.a, even.len1, odd.len1;
    ghost var e, o := a0[..n], odd.a;
    ghost var raw := SubFirstRaw(e, o, m);
    assert Digits(e, W32) && Digits(o, W32);
    CarryNext(raw, 1, W32, 0);
    hide Carry, Carried, SubFirstRaw, Low, High, Digits;
    temp := 1;
    var i := 0;
    while i < odd.len1
      invariant 0 <= i <= m && even.len1 == n && temp < 3
      invariant temp == Carry(raw, 1, W32, i)
      invariant forall k :: 0 <= k < i ==> even.a[k] == Carried(raw, 1, W32)[k]
      invariant forall k :: i <= k < 9 ==> even.a[k] == a0[k]
    {
      SubIteration(e, o, m, i, temp);
      temp := temp + 0xFFFFFFFF + even.a[i] - odd.a[i];
      even.a := even.a[i := Low(temp, W32)];
      temp := High(temp, W32);
      i := i + 1;
    }
  }

  method SubtractHigh(even: Register, ghost o: Limbs9, m: nat, carry: uint64, ghost a0: Limbs9)
    requires m <= even.len1 <= 8 && carry < 3
    requires carry == Carry(SubFirstRaw(a0[..even.len1], o, m), 1, W32, m)
    requires forall k :: m <= k < 9 ==> even.a[k] == a0[k]
    modifies even
    ensures even.len1 == old(even.len1)
    ensures forall k :: 0 <= k < m ==> even.a[k] == old(even.a)[k]
    ensures forall k :: m <= k < even.len1 ==>
              even.a[k] == Carried(SubFirstRaw(a0[..even.len1], o, m), 1, W32)[k]
    ensures forall k :: even.len1 <= k < 9 ==> even.a[k] == a0[k]
  {
    ghost var n, b0 := even.len1, even.a;
    ghost var e := a0[..n];
    ghost var raw := SubFirstRaw(e, o, m);
    assert Digits(e, W32) && Digits(o, W32);
    hide Carry, Carried, SubFirstRaw, Low, High, Digits;
    var temp: uint64 := carry;
    var i: nat := m;
    while i < even.len1
      invariant m <= i <= n && even.len1 == n && temp < 3
      invariant temp == Carry(raw, 1, W32, i)
      invariant forall k :: 0 <= k < m ==> even.a[k] == b0[k]
      invariant forall k :: m <= k < i ==> even.a[k] == Carried(raw, 1, W32)[k]
      invariant forall k :: i <= k < 9 ==> even.a[k] == a0[k]
    {
      assert temp == Carry(raw, 1, W32, i);
      SubIteration(e, o, m, i, temp);
      temp := temp + 0xFFFFFFFF + even.a[i];
      even.a := even.a[i := Low(temp, W32)];
      temp := High(temp, W32);
      i := i + 1;
    }
  }

  // even->a[0..len1) = even->a[0..len1) - odd->a[0..len1)
  method SubtractFirst(even: Register, odd: Register)
    requires even != odd && 1 <= odd.len1 <= even.len1 <= 8
    requires First(odd.a, odd.len1) <= First(even.a, even.len1)
    modifies even
    ensures even.len1 == old(even.len1)
    ensures forall i :: even.len1 <= i < 9 ==> even.a[i] == old(even.a)[i]
    ensures First(even.a, even.len1) == old(First(even.a, even.len1)) - First(odd.a, odd.len1)
  {
    ghost var a0, n, m := even.a, even.len1, odd.len1;
    ghost var out := Carried(SubFirstRaw(a0[..n], odd.a, m), 1, W32);
    ValBounds(odd.a[..m], W32);
    SubFirstExact(a0[..n], odd.a, m);
    hide Val, Carry, Carried, SubFirstRaw;
    var temp := SubtractLow(even, odd);
    SubtractHigh(even, odd.a, odd.len1, temp, a0);
    assert even.a[..n] == out;
  }

  // ---------------------------------------------------------------- adding

  // Adding even's second number into odd's, limb by limb from a[8] upwards.
  function AddSecondRaw(t: seq<int>, e: seq<int>): (raw: seq<int>)
    requires |e| <= |t|
    ensures |raw| == |t|
  {
    seq(|t|, k requires 0 <= k < |t| => t[k] + if k < |e| then e[k] else 0)
  }

  lemma AddSecondTerm(t: seq<int>, e: seq<int>, k: nat)
    requires |e| <= |t| && k < |t|
    ensures AddSecondRaw(t, e)[k] == t[k] + if k < |e| then e[k] else 0
    ensures AddSecondRaw(t, e)[k] == 1 * t[k] + 1 * (e + Const(|t| - |e|, 0))[k] + 0 * t[k]
  {
  }

  lemma AddSecondExact(t: seq<int>, e: seq<int>)
    requires |e| <= |t| && Digits(t, W32) && Digits(e, W32)
    requires Val(t, W32) + Val(e, W32) < Pow(W32, |t|)
    ensures var out := Carried(AddSecondRaw(t, e), 0, W32);
      Digits(out, W32) && Val(out, W32) == Val(t, W32) + Val(e, W32)
  {
    var e1 := e + Const(|t| - |e|, 0);
    ValPadded(e, |t| - |e|, W32);
    ValBounds(t, W32);
    ValBounds(e, W32);
    hide AddSecondRaw, Const, Val;
    forall k | 0 <= k < |t|
      ensures AddSecondRaw(t, e)[k] == 1 * t[k] + 1 * e1[k] + 0 * t[k]
    {
      AddSecondTerm(t, e, k);
    }
    ValLinear(AddSecondRaw(t, e), t, 1, e1, 1, t, 0, W32);
    CarryExact(AddSecondRaw(t, e), 0, W32, 0, Val(t, W32) + Val(e, W32));
  }

  lemma AddIteration(t: seq<int>, e: seq<int>, k: nat, temp: int)
    requires |e| <= |t| && k < |t| && Digits(t, W32) && Digits(e, W32)
    requires 0 <= temp < 2 && temp == Carry(AddSecondRaw(t, e), 0, W32, k)
    ensures var s := temp + t[k] + if k < |e| then e[k] else 0;
      && 0 <= s < W64
      && 0 <= Low(s, W32) < W32 && Low(s, W32) == Carried(AddSecondRaw(t, e), 0, W32)[k]
      && 0 <= High(s, W32) < 2 && High(s, W32) == Carry(AddSecondRaw(t, e), 0, W32, k + 1)
  {
    AddSecondTerm(t, e, k);
    CarryNext(AddSecondRaw(t, e), 0, W32, k);
    hide AddSecondRaw, Carry, Carried;
    HighBound(temp + AddSecondRaw(t, e)[k], W32, 1);
  }

  method AddLow(odd: Register, even: Register) returns (temp: uint64)
    requires even != odd && odd.len1 <= even.len1 <= 8
    modifies odd
    ensures odd.len1 == old(odd.len1)
    ensures var raw := AddSecondRaw(Tail(old(odd.a), odd.len1), Tail(even.a, even.len1));
      && temp == Carry(raw, 0, W32, 9 - even.len1) && temp < 2
      && forall k :: 0 <= k < 9 - even.len1 ==> odd.a[8 - k] == Carried(raw, 0, W32)[k]
    ensures forall i :: 0 <= i < even.len1 ==> odd.a[i] == old(odd.a)[i]
  {
    ghost var a0 := odd.a;
    ghost var t, e := Tail(a0, odd.len1), Tail(even.a, even.len1);
    ghost var raw := AddSecondRaw(t, e);
    assert Digits(t, W32) && Digits(e, W32);
    CarryNext(raw, 0, W32, 0);
    hide Carry, Carried, AddSecondRaw, Low, High, Digits;
    temp := 0;
    var i := 8;
    while i >= even.len1
      invariant even.len1 - 1 <= i <= 8 && odd.len1 == old(odd.len1) && temp < 2
      invariant temp == Carry(raw, 0, W32, 8 - i)
      invariant forall k :: 0 <= k < 8 - i ==> odd.a[8 - k] == Carried(raw, 0, W32)[k]
      invariant forall m :: 0 <= m <= i ==> odd.a[m] == a0[m]
    {
      AddIteration(t, e, 8 - i, temp);
      assert t[8 - i] == odd.a[i] && e[8 - i] == even.a[i];
      temp := temp + odd.a[i] + even.a[i];
      odd.a := odd.a[i := Low(temp, W32)];
      temp := High(temp, W32);
      i := i - 1;
    }
  }

  method AddHigh(odd: Register, n: nat, carry: uint64, ghost e: seq<int>, ghost a0: Limbs9)
    requires odd.len1 <= n <= 8 && |e| == 9 - n && Digits(e, W32) && carry < 2
    requires carry == Carry(AddSecondRaw(Tail(a0, odd.len1), e), 0, W32, 9 - n)
    requires forall i :: 0 <= i < n ==> odd.a[i] == a0[i]
    modifies odd
    ensures odd.len1 == old(odd.len1)
    ensures forall i :: n <= i < 9 ==> odd.a[i] == old(odd.a)[i]
    ensures forall k :: 9 - n <= k < 9 - odd.len1 ==>
              odd.a[8 - k] == Carried(AddSecondRaw(Tail(a0, odd.len1), e), 0, W32)[k]
    ensures forall i :: 0 <= i < odd.len1 ==> odd.a[i] == a0[i]
  {
    ghost var b0 := odd.a;
    ghost var t := Tail(a0, odd.len1);
    ghost var raw := AddSecondRaw(t, e);
    assert Digits(t, W32);
    hide Carry, Carried, AddSecondRaw, Low, High, Digits;
    var temp: uint64 := carry;
    var i: int := n - 1;
    while i >= odd.len1
      invariant odd.len1 - 1 <= i < n && odd.len1 == old(odd.len1) && temp < 2
      invariant temp == Carry(raw, 0, W32, 8 - i)
      invariant forall m :: n <= m < 9 ==> odd.a[m] == b0[m]
      invariant forall k :: 9 - n <= k < 8 - i ==> odd.a[8 - k] == Carried(raw, 0, W32)[k]
      invariant forall m :: 0 <= m <= i ==> odd.a[m] == a0[m]
    {
      assert temp == Carry(raw, 0, W32, 8 - i);
      AddIteration(t, e, 8 - i, temp);
      assert t[8 - i] == odd.a[i];
      temp := temp + odd.a[i];
      odd.a := odd.a[i := Low(temp, W32)];
      temp := High(temp, W32);
      i := i - 1;
    }
  }

  // odd->a[len1..8] = odd->a[len1..8] + even->a[len1..8]
  method AddSecond(odd: Register, even: Register)
    requires even != odd && odd.len1 <= even.len1 <= 8
    requires Second(odd.a, odd.len1) + Second(even.a, even.len1) < Pow(W32, 9 - odd.len1)
    modifies odd
    ensures odd.len1 == old(odd.len1)
    ensures forall i :: 0 <= i < odd.len1 ==> odd.a[i] == old(odd.a)[i]
    ensures Second(odd.a, odd.len1) == old(Second(odd.a, odd.len1)) + Second(even.a, even.len1)
    ensures odd.a[8] == (old(odd.a)[8] + even.a[8]) % W32
  {
    ghost var a0 := odd.a;
    ghost var t, e := Tail(a0, odd.len1), Tail(even.a, even.len1);
    ghost var out := Carried(AddSecondRaw(t, e), 0, W32);
    AddSecondExact(t, e);
    AddSecondTerm(t, e, 0);
    CarryNext(AddSecondRaw(t, e), 0, W32, 0);
    assert out[0] == (a0[8] + even.a[8]) % W32;
    hide Val, Carry, Carried, AddSecondRaw;
    var temp := AddLow(odd, even);
    AddHigh(odd, even.len1, temp, e, a0);
    assert Tail(odd.a, odd.len1) == out;
    assert odd.a[8] == out[0];
  }
}
