// bn_inverse of bignum.c: the packed almost inverse followed by a division by 2^k.

module BignumInverse {
  import opened Words
  import opened Limbs
  import opened Bignum
  import opened Combo
  import opened AlmostInverse
  import Repack
  import BignumAdd
  import BignumDivide
  import Field

  // A number of at least n limbs leaves the other number at most 9 - n.
  lemma Capacity(f: int, t: int, n: nat)
    requires 1 <= n <= 9 && Pow(W32, n - 1) <= f && 0 <= t && f * t < Pow(W32, 8)
    ensures t < Pow(W32, 9 - n)
  {
    PowAdd(W32, n - 1, 9 - n);
    PowPositive(W32, n - 1);
    CapacityArith(f, t, Pow(W32, n - 1), Pow(W32, 9 - n));
  }

  lemma CapacityArith(f: int, t: int, a: int, b: int)
    requires 0 < a <= f && 0 <= t && f * t < a * b
    ensures t < b
  {
    MulMonotone(a, f, t);
    if t >= b {
      MulMonotone(b, t, a);
      Commute(a, t);
      Commute(a, b);
    }
  }

  // The first number reaches into limb n, so that limb is not zero.
  lemma TopNonzero(a: seq<int>, n: nat)
    requires |a| == 9 && 1 <= n <= 9 && Digits(a, W32) && Pow(W32, n - 1) <= First(a, n)
    ensures a[n - 1] != 0
  {
    if a[n - 1] == 0 {
      DropTop(a, n);
      ValBounds(a[..n - 1], W32);
    }
  }

  lemma TopZero(a: seq<int>, n: nat)
    requires |a| == 9 && 1 <= n <= 9 && Digits(a, W32) && a[n - 1] == 0
    ensures First(a, n) < Pow(W32, n - 1)
  {
    DropTop(a, n);
    ValBounds(a[..n - 1], W32);
  }

  // Halving a number of n limbs by less than a limb leaves at least n - 1.
  lemma StillLong(f: int, g: int, j: nat, n: nat)
    requires 2 <= n && 1 <= j <= 31 && f == Pow2(j) * g && Pow(W32, n - 1) <= f
    ensures Pow(W32, n - 2) <= g
  {
    Pow2Monotone(j, 32);
    Pow2Values();
    PowNext(W32, n - 2);
    PowPositive(W32, n - 2);
    StillLongArith(Pow2(j), g, Pow(W32, n - 2));
  }

  lemma StillLongArith(m: int, g: int, w: int)
    requires 0 < m <= W32 && 0 < w && W32 * w <= m * g
    ensures w <= g
  {
    if w > g {
      MulMonotone(m, W32, w);
      MulStep(g, w, m);
      Commute(m, g);
    }
  }

  lemma FirstParity(a: seq<int>, n: nat)
    requires |a| == 9 && 1 <= n <= 9
    ensures First(a, n) % 2 == a[0] % 2
  {
  }

  // "shift first part of even right by j bits ... shift second part of even left by j bits"
  method ShiftBits(even: Register, j: nat)
    requires 1 <= even.len1 <= 8 && 1 <= j <= 31 && even.a[even.len1 - 1] != 0
    requires Low(even.a[0], Pow2(j)) == 0 && High(even.a[0], Pow2(j)) % 2 == 1
    requires First(even.a, even.len1) * Second(even.a, even.len1) < Pow(W32, 8)
    modifies even
    ensures 1 <= even.len1 <= 8 && even.a[even.len1 - 1] != 0 && even.a[0] % 2 == 1
    ensures First(even.a, even.len1) * Pow2(j) == old(First(even.a, even.len1))
    ensures Second(even.a, even.len1) == old(Second(even.a, even.len1)) * Pow2(j)
  {
    ghost var a0, n0 := even.a, even.len1;
    ghost var f0, t0 := First(a0, n0), Second(a0, n0);
    TopLimb(a0, n0);
    ValBounds(Tail(a0, n0), W32);
    ShiftFirstBits(even, j);
    assert Tail(even.a, n0) == Tail(a0, n0);
    ghost var f1 := First(even.a, n0);
    ShrinkTop(even, j, f0);
    assert First(even.a, even.len1) == f1 && Second(even.a, even.len1) == t0;
    ghost var b := even.a;
    assert b[0] % 2 == 1;
    hide First, Second, Low, High;
    Commute(Pow2(j), f1);
    ShiftCapacity(f0, f1, t0, j, even.len1);
    ShiftSecondBits(even, j);
    FirstSame(b, even.a, even.len1);
    Commute(Pow2(j), t0);
  }

  lemma FirstSame(a: seq<int>, b: seq<int>, n: nat)
    requires |a| == |b| == 9 && n <= 9 && forall i :: 0 <= i < n ==> a[i] == b[i]
    ensures First(a, n) == First(b, n)
  {
    assert a[..n] == b[..n];
  }

  lemma ShiftCapacity(f0: int, f1: int, t0: int, j: nat, n: nat)
    requires f0 == f1 * Pow2(j) && 0 <= t0 && f0 * t0 < Pow(W32, 8)
    requires 1 <= n <= 8 && Pow(W32, n - 1) <= f1
    ensures Pow2(j) * t0 < Pow(W32, 9 - n)
  {
    assert (f1 * Pow2(j)) * t0 == f1 * (Pow2(j) * t0);
    MulMonotone(0, t0, Pow2(j));
    Commute(t0, Pow2(j));
    Capacity(f1, Pow2(j) * t0, n);
  }

  // The first number lost its top limb, or did not.
  method ShrinkTop(even: Register, j: nat, ghost f0: int)
    requires 1 <= even.len1 <= 8 && 1 <= j <= 31
    requires f0 == Pow2(j) * First(even.a, even.len1) && Pow(W32, even.len1 - 1) <= f0
    requires even.a[0] % 2 == 1
    modifies even
    ensures even.a == old(even.a) && 1 <= even.len1 <= 8 && even.a[even.len1 - 1] != 0
    ensures First(even.a, even.len1) == old(First(even.a, even.len1))
    ensures Second(even.a, even.len1) == old(Second(even.a, even.len1))
    ensures Pow(W32, even.len1 - 1) <= First(even.a, even.len1)
  {
    if even.a[even.len1 - 1] == 0 {
      StillLong(f0, First(even.a, even.len1), j, even.len1);
      DropTop(even.a, even.len1);
      even.len1 := even.len1 - 1;
      TopNonzero(even.a, even.len1);
    } else {
      TopLimb(even.a, even.len1);
    }
  }

  // Loop "reduce even->a while it is even", whole limbs.
  method ShiftLimbs(even: Register) returns (k: nat)
    requires 1 <= even.len1 <= 8 && even.a[even.len1 - 1] != 0
    modifies even
    ensures 1 <= even.len1 <= 8 && even.a[even.len1 - 1] != 0 && even.a[0] != 0
    ensures First(even.a, even.len1) * Pow2(k) == old(First(even.a, even.len1))
    ensures Second(even.a, even.len1) == old(Second(even.a, even.len1)) * Pow2(k)
  {
    k := 0;
    assert Pow2(0) == 1;
    ghost var f0, t0 := First(even.a, even.len1), Second(even.a, even.len1);
    hide First, Second;
    while even.a[0] == 0
      invariant 1 <= even.len1 <= 8 && even.a[even.len1 - 1] != 0
      invariant First(even.a, even.len1) * Pow2(k) == f0
      invariant Second(even.a, even.len1) == t0 * Pow2(k)
      decreases even.len1
    {
      LimbMoves(First(even.a, even.len1), t0, k);
      ShiftLimb(even);
      k := k + 32;
    }
  }

  lemma MovedFactor(t: int, m: int, w: int)
    ensures w * (t * m) == t * (m * w) && (w * t) * m == t * (m * w)
  {
  }

  lemma LimbMoves(f: int, t0: int, k: nat)
    ensures forall g :: f == W32 * g ==> g * Pow2(k + 32) == f * Pow2(k)
    ensures W32 * (t0 * Pow2(k)) == t0 * Pow2(k + 32)
  {
    hide Pow2;
    Pow2Add(k, 32);
    Pow2Values();
    MovedFactor(t0, Pow2(k), W32);
    forall g | f == W32 * g
      ensures g * Pow2(k + 32) == f * Pow2(k)
    {
      MovedFactor(g, Pow2(k), W32);
    }
  }

  // One pass of "reduce even->a while it is even": the even number becomes odd.
  method MakeOdd(even: Register) returns (k: nat)
    requires 1 <= even.len1 <= 8 && First(even.a, even.len1) > 0
    requires First(even.a, even.len1) * Second(even.a, even.len1) < Pow(W32, 8)
    modifies even
    ensures 1 <= even.len1 <= 8 && even.a[even.len1 - 1] != 0 && even.a[0] % 2 == 1
    ensures First(even.a, even.len1) * Pow2(k) == old(First(even.a, even.len1))
    ensures Second(even.a, even.len1) == old(Second(even.a, even.len1)) * Pow2(k)
  {
    hide First, Second;
    ghost var f0, t0 := First(even.a, even.len1), Second(even.a, even.len1);
    AdjustLength(even);
    k := ShiftLimbs(even);
    ghost var f1, t1 := First(even.a, even.len1), Second(even.a, even.len1);
    ProductMoves(f0, t0, f1, t1, k);
    var j := CountZeros(even.a[0]);
    if j > 0 {
      ShiftBits(even, j);
      ghost var f2, t2 := First(even.a, even.len1), Second(even.a, even.len1);
      TwoMoves(f0, t0, f1, t1, f2, t2, k, j);
      k := k + j;
    } else {
      assert Pow2(0) == 1;
      assert Low(even.a[0], 1) == 0 && High(even.a[0], 1) == even.a[0];
    }
  }

  lemma ProductMoves(f0: int, t0: int, f1: int, t1: int, k: nat)
    requires f1 * Pow2(k) == f0 && t1 == t0 * Pow2(k)
    ensures f1 * t1 == f0 * t0
  {
    assert f1 * (t0 * Pow2(k)) == (f1 * Pow2(k)) * t0;
  }

  lemma TwoMoves(f0: int, t0: int, f1: int, t1: int, f2: int, t2: int, k: nat, j: nat)
    requires f1 * Pow2(k) == f0 && t1 == t0 * Pow2(k)
    requires f2 * Pow2(j) == f1 && t2 == t1 * Pow2(j)
    ensures f2 * Pow2(k + j) == f0 && t2 == t0 * Pow2(k + j)
  {
    Pow2Add(k, j);
    assert f2 * (Pow2(k) * Pow2(j)) == (f2 * Pow2(j)) * Pow2(k);
    assert t0 * (Pow2(k) * Pow2(j)) == (t0 * Pow2(k)) * Pow2(j);
  }

  lemma SecondSame(a: seq<int>, b: seq<int>, n: nat)
    requires |a| == |b| == 9 && n <= 9 && forall i :: n <= i < 9 ==> a[i] == b[i]
    ensures Second(a, n) == Second(b, n)
  {
    assert Tail(a, n) == Tail(b, n);
  }

  lemma ShorterIsSmaller(a: seq<int>, n: nat, b: seq<int>, m: nat)
    requires |a| == |b| == 9 && 1 <= n <= 9 && 1 <= m <= 9 && Digits(a, W32) && Digits(b, W32)
    requires a[n - 1] != 0 && b[m - 1] != 0 && First(a, n) < First(b, m)
    ensures n <= m
  {
    if m < n {
      LongerIsLarger(a, n, b, m);
    }
  }

  // even := even - odd in the first numbers, odd := odd + even in the second ones.
  method Reduce(even: Register, odd: Register)
    requires even != odd && 1 <= odd.len1 <= 8 && 1 <= even.len1 <= 8
    requires odd.a[odd.len1 - 1] != 0 && even.a[even.len1 - 1] != 0
    requires First(odd.a, odd.len1) < First(even.a, even.len1)
    requires First(odd.a, odd.len1) * (Second(odd.a, odd.len1) + Second(even.a, even.len1)) < Pow(W32, 8)
    modifies even, odd
    ensures even.len1 == old(even.len1) && odd.len1 == old(odd.len1) && odd.a[odd.len1 - 1] != 0
    ensures First(even.a, even.len1) == old(First(even.a, even.len1)) - old(First(odd.a, odd.len1))
    ensures Second(even.a, even.len1) == old(Second(even.a, even.len1))
    ensures First(odd.a, odd.len1) == old(First(odd.a, odd.len1))
    ensures Second(odd.a, odd.len1) == old(Second(odd.a, odd.len1)) + old(Second(even.a, even.len1))
  {
    ghost var e0, o0, n, m := even.a, odd.a, even.len1, odd.len1;
    ShorterIsSmaller(odd.a, odd.len1, even.a, even.len1);
    TopLimb(o0, m);
    ValBounds(Tail(o0, m), W32);
    ValBounds(Tail(e0, n), W32);
    Capacity(First(o0, m), Second(o0, m) + Second(e0, n), m);
    hide First, Second;
    SubtractFirst(even, odd);
    SecondSame(e0, even.a, n);
    AddSecond(odd, even);
    FirstSame(o0, odd.a, m);
  }

  // The numbers of two registers, related as the loop of bn_inverse relates them.
  ghost predicate Related(x: int, p: int, sg: int, a: seq<int>, n: nat, b: seq<int>, m: nat, k: nat)
    requires |a| == |b| == 9 && n <= 9 && m <= 9
  {
    Inv(x, p, sg, First(a, n), Second(a, n), First(b, m), Second(b, m), k)
  }

  ghost predicate Sized(a: seq<int>, n: nat, b: seq<int>, m: nat, k: nat)
    requires |a| == |b| == 9 && n <= 9 && m <= 9
  {
    Sizes(First(a, n), Second(a, n), First(b, m), Second(b, m), k)
  }

  ghost predicate SizedOdd(a: seq<int>, n: nat, b: seq<int>, m: nat, k: nat)
    requires |a| == |b| == 9 && n <= 9 && m <= 9
  {
    SizesStripped(First(a, n), Second(a, n), First(b, m), Second(b, m), k)
  }

  // First half of an iteration: even becomes odd and k counts the factors of two moved.
  method StripEven(even: Register, odd: Register, ghost x: int, ghost p: int, ghost sg: int, k: nat)
    returns (k': nat)
    requires even != odd && 1 <= even.len1 <= 8 && odd.len1 <= 8 && p < Pow(W32, 8)
    requires Related(x, p, sg, even.a, even.len1, odd.a, odd.len1, k)
    requires Sized(even.a, even.len1, odd.a, odd.len1, k)
    modifies even
    ensures 1 <= even.len1 <= 8 && even.a[even.len1 - 1] != 0
    ensures First(even.a, even.len1) <= old(First(even.a, even.len1))
    ensures Related(x, p, sg, even.a, even.len1, odd.a, odd.len1, k')
    ensures SizedOdd(even.a, even.len1, odd.a, odd.len1, k')
  {
    ghost var fa, ta := First(even.a, even.len1), Second(even.a, even.len1);
    ghost var fb, tb := First(odd.a, odd.len1), Second(odd.a, odd.len1);
    ProductsBounded(x, p, sg, fa, ta, fb, tb, k);
    hide First, Second;
    var z := MakeOdd(even);
    k' := k + z;
    ghost var f := First(even.a, even.len1);
    FirstParity(even.a, even.len1);
    PositiveQuotient(f, fa, z);
    hide Inv, Sizes, SizesStripped;
    Strip(x, p, sg, fa, ta, fb, tb, k, f, z);
    StripSizes(fa, ta, fb, tb, k, f, z);
  }

  lemma PositiveQuotient(f: int, fa: int, z: nat)
    requires f * Pow2(z) == fa && fa >= 1
    ensures 1 <= f <= fa
  {
    if f <= 0 {
      MulMonotone(f, 0, Pow2(z));
    }
    MulMonotone(1, Pow2(z), f);
    Commute(f, Pow2(z));
  }

  // Second half: the smaller first number is subtracted from the larger.
  method ReduceLarger(even: Register, odd: Register, ghost x: int, ghost p: int, ghost sg: int, ghost k: nat)
    requires even != odd && 1 <= even.len1 <= 8 && 1 <= odd.len1 <= 8 && p < Pow(W32, 8)
    requires odd.a[odd.len1 - 1] != 0 && even.a[even.len1 - 1] != 0
    requires First(odd.a, odd.len1) < First(even.a, even.len1)
    requires Related(x, p, sg, even.a, even.len1, odd.a, odd.len1, k)
    requires SizedOdd(even.a, even.len1, odd.a, odd.len1, k) || SizedOdd(odd.a, odd.len1, even.a, even.len1, k)
    modifies even, odd
    ensures 1 <= even.len1 <= 8 && 1 <= odd.len1 <= 8 && odd.a[odd.len1 - 1] != 0
    ensures First(even.a, even.len1) + First(odd.a, odd.len1) < old(First(even.a, even.len1)) + old(First(odd.a, odd.len1))
    ensures Related(x, p, sg, even.a, even.len1, odd.a, odd.len1, k)
    ensures Sized(even.a, even.len1, odd.a, odd.len1, k)
  {
    ghost var fa, ta := First(even.a, even.len1), Second(even.a, even.len1);
    ghost var fb, tb := First(odd.a, odd.len1), Second(odd.a, odd.len1);
    Subtract(x, p, sg, fa, ta, fb, tb, k);
    ProductsBounded(x, p, sg, fa - fb, ta, fb, tb + ta, k);
    assert fb >= 1;
    if SizedOdd(even.a, even.len1, odd.a, odd.len1, k) {
      SubtractSizes(fa, ta, fb, tb, k);
    } else {
      SubtractSizes(fb, tb, fa, ta, k);
    }
    hide First, Second, Inv, Sizes, SizesStripped;
    Reduce(even, odd);
  }

  lemma Start(a: seq<int>, b: seq<int>, x: int, p: int)
    requires |a| == |b| == 9 && Digits(a, W32) && 0 < x < p && p % 2 == 1 && Pow2(255) < p < Pow(W32, 8)
    requires First(a, 8) == p && Second(a, 8) == 1 && First(b, 8) == x && Second(b, 8) == 0
    ensures Related(x, p, -1, b, 8, a, 8, 0) && Sized(b, 8, a, 8, 0) && a[7] != 0
  {
    StartTop(a, p);
    hide First, Second;
    StartInv(x, p);
    StartSizes(x, p);
  }

  lemma StartTop(a: seq<int>, p: int)
    requires |a| == 9 && Digits(a, W32) && First(a, 8) == p > Pow2(255)
    ensures a[7] != 0
  {
    Pow2Pow(32, 7);
    Pow2Values();
    Pow2Monotone(224, 255);
    if a[7] == 0 {
      TopZero(a, 8);
    }
  }

  lemma StartInv(x: int, p: int)
    requires 0 < x < p
    ensures Inv(x, p, -1, x, 0, p, 1, 0)
  {
    hide Field.Cong;
    assert Pow2(0) == 1;
    Field.CongWitness(x * 0, -1 * p * Pow2(0), 1, p);
    CongSym2(x * 1, p);
  }

  lemma StartSizes(x: int, p: int)
    requires 0 < x < p && p % 2 == 1 && p < Pow(W32, 8)
    ensures Sizes(x, 0, p, 1, 0)
  {
    assert Pow2(0) == 1;
    hide Pow2, Pow, Log2;
    Pow2Pow(32, 8);
    Pow2Values();
    Log2Below(p, 256);
    Log2Below(x, 256);
  }

  // At the start the invariants hold with k = 0, and u = p exceeds 2^0, so that no bound on u and v
  // by 2^k can be one of them.
  lemma StartExceeds(x: int, p: int)
    requires 0 < x < p && p % 2 == 1 && p < Pow(W32, 8)
    ensures Inv(x, p, -1, x, 0, p, 1, 0) && Sizes(x, 0, p, 1, 0) && p > Pow2(0)
  {
    StartInv(x, p);
    StartSizes(x, p);
    assert Pow2(0) == 1;
  }

  // State of the main loop: u and s in a, v and r in b.
  ghost predicate Looping(x: int, p: int, a: seq<int>, n: nat, b: seq<int>, m: nat, k: nat, evenIsA: bool)
    requires |a| == |b| == 9
  {
    && 1 <= n <= 8 && 1 <= m <= 8
    && (if evenIsA then b[m - 1] != 0 else a[n - 1] != 0)
    && (if evenIsA then Related(x, p, 1, a, n, b, m, k) else Related(x, p, -1, b, m, a, n, k))
    && (if evenIsA then Sized(a, n, b, m, k) else Sized(b, m, a, n, k))
  }

  // Both numbers odd, neither with a leading zero limb.
  ghost predicate BothOdd(x: int, p: int, a: seq<int>, n: nat, b: seq<int>, m: nat, k: nat)
    requires |a| == |b| == 9
  {
    && 1 <= n <= 8 && 1 <= m <= 8 && a[n - 1] != 0 && b[m - 1] != 0
    && Related(x, p, 1, a, n, b, m, k) && Related(x, p, -1, b, m, a, n, k)
    && (SizedOdd(a, n, b, m, k) || SizedOdd(b, m, a, n, k))
  }

  // u and v have met: what the registers then hold.
  lemma Met(x: int, p: int, a: seq<int>, n: nat, b: seq<int>, m: nat, k: nat)
    requires |a| == |b| == 9 && Digits(a, W32) && BothOdd(x, p, a, n, b, m, k)
    requires Field.IsPrime(p) && p % 2 == 1 && Pow2(255) < p && 0 < x < p
    requires First(a, n) == First(b, m)
    ensures n == 1 && a[0] == 1 && 0 < Second(a, 1) < p && 255 <= k <= 510
    ensures Field.Cong(x * Second(a, 1), Pow2(k), p)
  {
    if Field.Cong(x, 0, p) {
      NotMultiple(x, p);
    }
    Finished(x, p, 1, First(a, n), Second(a, n), Second(b, m), k);
    hide Inv, Field.IsPrime;
    if SizedOdd(a, n, b, m, k) {
      FinalK(Second(a, n), Second(b, m), k, p);
    } else {
      FinalK(Second(b, m), Second(a, n), k, p);
    }
    OneLimb(a, n);
    assert x * Second(a, n) == x * Second(a, 1) && 1 * 1 * Pow2(k) == Pow2(k);
  }

  lemma OneLimb(a: seq<int>, n: nat)
    requires |a| == 9 && Digits(a, W32) && 1 <= n <= 8 && a[n - 1] != 0 && First(a, n) == 1
    ensures n == 1 && a[0] == 1
  {
    TopLimb(a, n);
    if n > 1 {
      PowGrows(1, n - 1);
    }
    assert a[..1] == [a[0]];
  }

  ghost function Measure(a: seq<int>, n: nat, b: seq<int>, m: nat): int
    requires n <= |a| && m <= |b|
  {
    First(a, n) + First(b, m)
  }

  method FirstHalf(us: Register, vr: Register, evenIsUs: bool, k: nat, ghost x: int, ghost p: int) returns (k': nat)
    requires us != vr && p < Pow(W32, 8)
    requires Looping(x, p, us.a, us.len1, vr.a, vr.len1, k, evenIsUs)
    modifies us, vr
    ensures BothOdd(x, p, us.a, us.len1, vr.a, vr.len1, k')
    ensures 0 <= Measure(us.a, us.len1, vr.a, vr.len1) <= old(Measure(us.a, us.len1, vr.a, vr.len1))
  {
    hide First, Second, Related, Sized, SizedOdd;
    if evenIsUs {
      k' := StripEven(us, vr, x, p, 1, k);
    } else {
      k' := StripEven(vr, us, x, p, -1, k);
    }
    NameRegisters(x, p, us.a, us.len1, vr.a, vr.len1, k', evenIsUs);
  }

  method SecondHalf(us: Register, vr: Register, cmp: int, ghost k: nat, ghost x: int, ghost p: int)
    requires us != vr && p < Pow(W32, 8)
    requires BothOdd(x, p, us.a, us.len1, vr.a, vr.len1, k)
    requires cmp > 0 <==> First(us.a, us.len1) > First(vr.a, vr.len1)
    requires cmp != 0 && First(us.a, us.len1) != First(vr.a, vr.len1)
    modifies us, vr
    ensures Looping(x, p, us.a, us.len1, vr.a, vr.len1, k, cmp > 0)
    ensures Measure(us.a, us.len1, vr.a, vr.len1) < old(Measure(us.a, us.len1, vr.a, vr.len1))
  {
    hide First, Second, Related, Sized, SizedOdd;
    if cmp > 0 {
      ReduceLarger(us, vr, x, p, 1, k);
    } else {
      ReduceLarger(vr, us, x, p, -1, k);
    }
  }

  // The main loop of bn_inverse; evenIsUs tells which register the pointer even names.
  method AlmostInverseLoop(us: Register, vr: Register, ghost x: int, ghost p: int) returns (k: nat)
    requires us != vr && us.len1 == vr.len1 == 8
    requires Field.IsPrime(p) && p % 2 == 1 && Pow2(255) < p < Pow(W32, 8) && 0 < x < p
    requires First(us.a, 8) == p && Second(us.a, 8) == 1
    requires First(vr.a, 8) == x && Second(vr.a, 8) == 0
    modifies us, vr
    ensures us.len1 == 1 && us.a[0] == 1 && 0 < Second(us.a, 1) < p
    ensures Field.Cong(x * Second(us.a, 1), Pow2(k), p)
    ensures 255 <= k <= 510
  {
    hide First, Second, Related, Sized, SizedOdd, Measure, Field.IsPrime, Field.Cong, Pow, Pow2;
    var evenIsUs := false;
    k := 0;
    Start(us.a, vr.a, x, p);
    while true
      invariant Looping(x, p, us.a, us.len1, vr.a, vr.len1, k, evenIsUs)
      decreases Measure(us.a, us.len1, vr.a, vr.len1)
    {
      hide Looping;
      k := FirstHalf(us, vr, evenIsUs, k, x, p);
      var cmp := Compare(us, vr);
      if cmp == 0 {
        Met(x, p, us.a, us.len1, vr.a, vr.len1, k);
        break;
      }
      SecondHalf(us, vr, cmp, k, x, p);
      evenIsUs := cmp > 0;
    }
  }

  // Whichever register was even, both ways of naming the pair hold.
  lemma NameRegisters(x: int, p: int, a: seq<int>, n: nat, b: seq<int>, m: nat, k: nat, evenIsA: bool)
    requires |a| == |b| == 9 && n <= 9 && m <= 9 && Digits(a, W32) && Digits(b, W32)
    requires if evenIsA then Related(x, p, 1, a, n, b, m, k) else Related(x, p, -1, b, m, a, n, k)
    ensures Related(x, p, 1, a, n, b, m, k) && Related(x, p, -1, b, m, a, n, k)
    ensures First(a, n) >= 0 && First(b, m) >= 0
  {
    FirstNonneg(a, n);
    FirstNonneg(b, m);
    if evenIsA {
      SwapRelated(x, p, 1, a, n, b, m, k);
    } else {
      SwapRelated(x, p, -1, b, m, a, n, k);
    }
  }

  lemma FirstNonneg(a: seq<int>, n: nat)
    requires n <= |a| && Digits(a, W32)
    ensures First(a, n) >= 0
  {
    ValBounds(a[..n], W32);
  }

  lemma SwapRelated(x: int, p: int, sg: int, a: seq<int>, n: nat, b: seq<int>, m: nat, k: nat)
    requires |a| == |b| == 9 && n <= 9 && m <= 9 && Related(x, p, sg, a, n, b, m, k)
    ensures Related(x, p, -sg, b, m, a, n, k)
  {
    Swap(x, p, sg, First(a, n), Second(a, n), First(b, m), Second(b, m), k);
  }

  // "reduce x modulo prime": bn_fast_mod then bn_mod.
  method ReduceFully(x: Bignum256, prime: Bignum256)
    requires Modulus(prime.val) && x != prime
    modifies x
    ensures Reduced(x.val, V(prime.val)) && V(x.val) == old(V(x.val)) % V(prime.val)
  {
    hide V;
    FastMod(x, prime);
    BignumAdd.Mod(x, prime);
  }

  lemma ReducedRange(s: seq<int>, p: int)
    requires |s| == 9 && Reduced(s, p)
    ensures Normalized(s) && 0 <= V(s) < p
  {
    Range(s);
  }

  lemma PrimeIsOdd(p: int)
    requires Field.IsPrime(p) && p > 2
    ensures p % 2 == 1
  {
  }

  lemma LoadedRegister(a: Limbs9, v: int, top: uint32)
    requires Val(a[..8], W32) == v
    ensures First(a[8 := top], 8) == v && Second(a[8 := top], 8) == top
  {
    assert a[8 := top][..8] == a[..8];
    assert Tail(a[8 := top], 8) == [] + [top];
    ValSnoc([], top, W32);
  }

  lemma WordParity(a: Limbs9)
    ensures Val(a[..8], W32) % 2 == a[0] % 2
  {
    assert a[..8][0] == a[0];
  }

  lemma PrimeSize(p: seq<int>)
    requires Modulus(p)
    ensures Pow2(255) < V(p) < Pow(W32, 8) && V(p) > 2
  {
    Repack.PowW32();
    Repack.PowBits(8);
    assert Pow2(256) == 2 * Pow2(255);
  }

  // bn_inverse
  method Inverse(x: Bignum256, prime: Bignum256)
    requires Modulus(prime.val) && Field.IsPrime(V(prime.val)) && x != prime
    requires V(x.val) % V(prime.val) != 0
    modifies x
    ensures Reduced(x.val, V(prime.val))
    ensures (V(x.val) * old(V(x.val))) % V(prime.val) == 1
  {
    ghost var p, x0 := V(prime.val), V(x.val);
    assert Normalized(prime.val) && p > 2;
    hide V, Field.IsPrime, Normalized, Modulus, Reduced, Field.Cong, Pow, Pow2, First, Second, Val;
    PrimeSize(prime.val);
    PrimeIsOdd(p);
    ReduceFully(x, prime);
    ghost var v := V(x.val);
    ReducedRange(x.val, p);
    var pp := Repack.ToWords(prime.val);
    var xx := Repack.ToWords(x.val);
    LoadedRegister(pp, p, 1);
    LoadedRegister(xx, v, 0);
    var us := new Register(pp[8 := 1], 8);
    var vr := new Register(xx[8 := 0], 8);
    var k := AlmostInverseLoop(us, vr, v, p);
    WordParity(pp);
    var inverse := BignumDivide.NegInverse(pp[0]);
    BignumDivide.DivideByPow2(us, pp[..8], inverse, k, v);
    var words := ReadSecond(us);
    Repack.FromWords(words, x);
    InverseResult(x0, v, V(x.val), p);
  }

  method ReadSecond(us: Register) returns (words: seq<uint32>)
    requires us.len1 == 1
    ensures |words| == 8 && Val(words, W32) == Second(us.a, 1)
  {
    words := [us.a[8], us.a[7], us.a[6], us.a[5], us.a[4], us.a[3], us.a[2], us.a[1]];
    assert words == Tail(us.a, 1);
  }

  lemma InverseResult(x0: int, v: int, y: int, p: int)
    requires p > 1 && v == x0 % p && Field.Cong(v * y, 1, p)
    ensures (y * x0) % p == 1
  {
    hide Field.Cong;
    Field.CongSelf(x0, p);
    CongSym2(y, p);
    Field.CongMul(v, x0, y, y, p);
    Field.CongSym(v * y, x0 * y, p);
    Field.CongTrans(x0 * y, v * y, 1, p);
    CongOne(x0 * y, p);
    Commute(x0, y);
  }

  lemma CongOne(a: int, p: int)
    requires p > 1 && Field.Cong(a, 1, p)
    ensures a % p == 1
  {
    Field.SmallMod(1, p);
  }
}
