// The additive half of bignum.c: sums, differences, halving and doubling.

module BignumAdd {
  import opened Words
  import opened Limbs
  import opened Bignum
  import Field

  // ---------------------------------------------------------------- bn_add, bn_addi, bn_subi

  // Limb sums; the lowest one is taken modulo 2^32, which bn_subi relies on.
  function AddRaw(a: seq<int>, b: seq<int>): (raw: seq<int>)
    requires |a| == |b| == 9
    ensures |raw| == 9 && raw[0] == (a[0] + b[0]) % W32
    ensures forall i :: 1 <= i < 9 ==> raw[i] == a[i] + b[i]
  {
    seq(9, i requires 0 <= i < 9 => if i == 0 then (a[0] + b[0]) % W32 else a[i] + b[i])
  }

  function AddTotal(a: seq<int>, b: seq<int>): int
    requires |a| == |b| == 9
  {
    V(a) + V(b) - (a[0] + b[0]) + (a[0] + b[0]) % W32
  }

  // Limbs above the lowest are normalized and the lowest sum wraps into 31 bits.
  ghost predicate AddInRange(a: seq<int>, b: seq<int>)
    requires |a| == |b| == 9
  {
    Normalized(a[1..]) && Normalized(b[1..]) && (a[0] + b[0]) % W32 < 0x8000_0000
  }

  lemma AddExact(a: seq<uint32>, b: seq<uint32>)
    requires |a| == |b| == 9 && AddInRange(a, b)
    ensures var out := Carried(AddRaw(a, b), 0, W30);
      Normalized(out) && V(out) == Wrap270(AddTotal(a, b))
  {
    var raw := AddRaw(a, b);
    PowW30();
    assert a[0..] == a && b[0..] == b && raw[0..] == raw;
    SplitHead(a);
    SplitHead(b);
    SplitHead(raw);
    ValLinear(raw[1..], a[1..], 1, b[1..], 1, b[1..], 0, W30);
    ValBounds(a[1..], W30);
    ValBounds(b[1..], W30);
    PowNext(W30, 8);
    var t := AddTotal(a, b);
    assert 0 <= t < 2 * B270;
    CarryExact(raw, 0, W30, if t < B270 then 0 else 1, Wrap270(t));
  }

  lemma SplitHead(s: seq<int>)
    requires |s| > 0
    ensures V(s) == s[0] + W30 * V(s[1..])
  {
  }

  // bn_add
  method Add(a: Bignum256, b: Bignum256)
    requires AddInRange(a.val, b.val)
    modifies a
    ensures Normalized(a.val)
    ensures V(a.val) == Wrap270(AddTotal(old(a.val), old(b.val)))
    ensures old(Normalized(a.val) && Normalized(b.val) && V(a.val) + V(b.val) < B270) ==>
            V(a.val) == old(V(a.val)) + old(V(b.val))
  {
    AddTotalNormalized(a.val, b.val);
    ghost var a0, b0 := a.val, b.val;
    ghost var raw := AddRaw(a0, b0);
    ghost var out := Carried(raw, 0, W30);
    AddExact(a0, b0);
    AddLimbs(a0, b0);
    CarryNext(raw, 0, W30, 0);
    hide V, Normalized, AddInRange, Carry, Carried, AddRaw, AddTotal, Low, High, Wrap270;
    var tmp: uint32 := 0;
    var i := 0;
    while i < 9
      invariant 0 <= i <= 9 && tmp < 8
      invariant tmp == Carry(raw, 0, W30, i)
      invariant forall k :: 0 <= k < i ==> a.val[k] == out[k]
      invariant forall k :: i <= k < 9 ==> a.val[k] == a0[k] && b.val[k] == b0[k]
    {
      CarryNext(raw, 0, W30, i);
      tmp := tmp + (a.val[i] + b.val[i]) % W32;
      HighBound(tmp, W30, 3);
      a.val := a.val[i := Low(tmp, W30)];
      tmp := High(tmp, W30);
      i := i + 1;
    }
    assert a.val == out;
  }

  lemma AddLimbs(a: seq<uint32>, b: seq<uint32>)
    requires |a| == |b| == 9 && AddInRange(a, b)
    ensures forall i :: 0 <= i < 9 ==> (a[i] + b[i]) % W32 == AddRaw(a, b)[i] < 0x8000_0000
  {
    forall i | 1 <= i < 9
      ensures (a[i] + b[i]) % W32 == AddRaw(a, b)[i] < 0x8000_0000
    {
      assert a[1..][i - 1] == a[i] && b[1..][i - 1] == b[i];
    }
  }

  // What the contract of Add says of two normalized numbers.
  lemma AddTotalNormalized(a: seq<uint32>, b: seq<uint32>)
    requires |a| == |b| == 9
    ensures Normalized(a) && Normalized(b) ==> AddInRange(a, b)
    ensures Normalized(a) && Normalized(b) && V(a) + V(b) < B270 ==>
            Wrap270(AddTotal(a, b)) == AddTotal(a, b) == V(a) + V(b)
  {
    if Normalized(a) && Normalized(b) {
      Field.SmallMod(a[0] + b[0], W32);
    }
  }

  // bn_subi: the underflow of the lowest limb is undone by adding the prime.
  method SubI(a: Bignum256, b: uint32, prime: Bignum256)
    requires Normalized(a.val) && Modulus(prime.val) && b <= prime.val[0] && a != prime
    modifies a
    ensures Normalized(a.val)
    ensures V(a.val) == Wrap270(old(V(a.val)) + V(prime.val) - b)
    ensures old(V(a.val)) < 100 * V(prime.val) ==>
            && V(a.val) == old(V(a.val)) + V(prime.val) - b
            && Fe(a.val, V(prime.val)) == Field.Sub(old(Fe(a.val, V(prime.val))), b, V(prime.val))
  {
    SubIResidue(V(a.val), V(prime.val), b);
    ghost var a0 := a.val;
    LessHead(a0, prime.val, b);
    hide AddTotal, AddInRange;
    a.val := a.val[0 := (a.val[0] - b) % W32];
    Add(a, prime);
  }

  // The lowest limb may wrap below zero; adding the prime makes up for it.
  lemma LessHead(a: seq<uint32>, p: seq<uint32>, b: uint32)
    requires |a| == |p| == 9 && Normalized(a) && Normalized(p) && b <= p[0]
    ensures var a' := a[0 := (a[0] - b) % W32];
      AddInRange(a', p) && AddTotal(a', p) == V(a) + V(p) - b
  {
    var a' := a[0 := (a[0] - b) % W32];
    assert a'[1..] == a[1..];
    SplitHead(a);
    SplitHead(a');
    SubIHead(a[0], b, p[0]);
    hide V;
    AddTotalHead(a', p, a, b);
  }

  lemma SubIResidue(a: int, p: int, b: int)
    requires p > 0
    ensures (a + p - b) % p == Field.Sub(a % p, b, p)
  {
    Field.CongSelf(a, p);
    Field.CongAdd(a % p, a, b, b, p);
    DivAddMultiple(a - b, 1, p);
  }

  lemma SubIHead(a: int, b: int, p: int)
    requires 0 <= a < W30 && 0 <= b <= p < W30
    ensures ((a - b) % W32 + p) % W32 == a - b + p
  {
  }

  lemma AddTotalHead(a: seq<int>, p: seq<int>, a0: seq<int>, b: int)
    requires |a| == |p| == |a0| == 9
    requires V(a) - a[0] == V(a0) - a0[0]
    requires (a[0] + p[0]) % W32 == a0[0] - b + p[0]
    ensures AddTotal(a, p) == V(a0) + V(p) - b
  {
  }

  // bn_addi, whose 32-bit accumulator can wrap in the first step alone
  method AddI(a: Bignum256, b: uint32)
    requires Normalized(a.val)
    modifies a
    ensures Normalized(a.val)
    ensures V(a.val) == Wrap270(old(V(a.val)) + AddedWord(old(a.val)[0], b))
  {
    ghost var a0 := a.val;
    ghost var start := AddedWord(a0[0], b);
    ghost var out := Carried(a0, start, W30);
    AddIExact(a0, b);
    CarryNext(a0, start, W30, 0);
    hide V, Carry, Carried, Low, High;
    var tmp: uint32 := b;
    var i := 0;
    while i < 9
      invariant 0 <= i <= 9 && (i > 0 ==> tmp < 4)
      invariant if i == 0 then tmp == b else tmp == Carry(a0, start, W30, i)
      invariant forall k :: 0 <= k < i ==> a.val[k] == out[k]
      invariant forall k :: i <= k < 9 ==> a.val[k] == a0[k]
    {
      CarryNext(a0, start, W30, i);
      WrappedSum(a0[0], b);
      tmp := (tmp + a.val[i]) % W32;
      HighBound(tmp, W30, 3);
      a.val := a.val[i := Low(tmp, W30)];
      tmp := High(tmp, W30);
      i := i + 1;
    }
    assert a.val == out;
  }

  // What adding b to the lowest limb d amounts to.
  function AddedWord(d: uint32, b: uint32): int {
    if b + d < W32 then b else b - W32
  }

  lemma WrappedSum(d: uint32, b: uint32)
    ensures (b + d) % W32 == d + AddedWord(d, b)
    ensures b < 0xC000_0000 && d < W30 ==> AddedWord(d, b) == b
  {
  }

  lemma AddIExact(a: seq<uint32>, b: uint32)
    requires |a| == 9 && Normalized(a)
    ensures var out := Carried(a, AddedWord(a[0], b), W30);
      Normalized(out) && V(out) == Wrap270(V(a) + AddedWord(a[0], b))
  {
    PowW30();
    Range(a);
    ValBounds(a[1..], W30);
    var c := AddedWord(a[0], b);
    var t := V(a) + c;
    assert t >= 0 by { assert V(a) >= a[0]; }
    CarryExact(a, c, W30, if t < B270 then 0 else 1, Wrap270(t));
  }

  // ---------------------------------------------------------------- differences

  // One loop serves both: the bias of 2^30-1 per limb and the initial 1 borrow 2^270.
  function SubRaw(a: seq<int>, p: seq<int>, b: seq<int>): (raw: seq<int>)
    requires |a| == |p| == |b| == 9
    ensures |raw| == 9
    ensures forall i :: 0 <= i < 9 ==> raw[i] == 0x3FFFFFFF + a[i] + 2 * p[i] - b[i]
  {
    seq(9, i requires 0 <= i < 9 => 0x3FFFFFFF + a[i] + 2 * p[i] - b[i])
  }

  lemma SubTotal(a: seq<int>, p: seq<int>, b: seq<int>)
    requires |a| == |p| == |b| == 9
    ensures V(SubRaw(a, p, b)) + 1 == B270 + V(a) + 2 * V(p) - V(b)
  {
    var raw := SubRaw(a, p, b);
    var ones := Const(9, 0x3FFFFFFF);
    var mid := seq(9, i requires 0 <= i < 9 => 0x3FFFFFFF + a[i]);
    ValConst(9, 1, W30);
    PowW30();
    ValLinear(mid, ones, 1, a, 1, a, 0, W30);
    ValLinear(raw, mid, 1, p, 2, b, -1, W30);
  }

  lemma SubExact(a: seq<int>, p: seq<int>, b: seq<int>, d: int)
    requires |a| == |p| == |b| == 9
    requires d == V(a) + 2 * V(p) - V(b) && -B270 <= d < 2 * B270
    ensures var out := Carried(SubRaw(a, p, b), 1, W30);
      Normalized(out) && V(out) == if d < 0 then d + B270 else Wrap270(d)
  {
    SubTotal(a, p, b);
    PowW30();
    var (k, r) := if d < 0 then (0, d + B270) else if d < B270 then (1, d) else (2, d - B270);
    CarryExact(SubRaw(a, p, b), 1, W30, k, r);
  }

  lemma SubLimbs(a: seq<int>, p: seq<int>, b: seq<int>)
    requires |a| == |p| == |b| == 9 && Normalized(a) && Normalized(p) && Normalized(b)
    ensures forall i :: 0 <= i < 9 ==> 0 <= SubRaw(a, p, b)[i] <= W32 - 4
  {
  }

  lemma SubResidue(a: int, p: int, b: int)
    requires p > 0
    ensures (a + 2 * p - b) % p == Field.Sub(a % p, b % p, p)
  {
    Field.AddMod(a, b, p);
    DivAddMultiple(a - b, 2, p);
  }

  // bn_subtractmod: res = a + (2*prime - b)
  method SubtractMod(a: Bignum256, b: Bignum256, res: Bignum256, prime: Bignum256)
    requires Modulus(prime.val) && Normalized(a.val) && PartlyReduced(b.val, V(prime.val))
    requires res != prime
    modifies res
    ensures Normalized(res.val)
    ensures V(res.val) == Wrap270(old(V(a.val)) + 2 * V(prime.val) - old(V(b.val)))
    ensures old(V(a.val)) < 100 * V(prime.val) ==>
            && V(res.val) == old(V(a.val)) + 2 * V(prime.val) - old(V(b.val))
            && Fe(res.val, V(prime.val)) ==
               Field.Sub(old(Fe(a.val, V(prime.val))), old(Fe(b.val, V(prime.val))), V(prime.val))
  {
    ghost var a0, b0, p := a.val, b.val, prime.val;
    ghost var raw := SubRaw(a0, p, b0);
    ghost var out := Carried(raw, 1, W30);
    Range(a0);
    Range(b0);
    PowW30();
    SubExact(a0, p, b0, V(a0) + 2 * V(p) - V(b0));
    SubLimbs(a0, p, b0);
    SubResidue(V(a0), V(p), V(b0));
    CarryNext(raw, 1, W30, 0);
    hide V, Fe, Field.Sub, Carry, Carried, SubRaw, Normalized, Modulus, PartlyReduced, Wrap270, Low, High;
    var temp: uint32 := 1;
    var i := 0;
    while i < 9
      invariant 0 <= i <= 9 && temp < 4
      invariant temp == Carry(raw, 1, W30, i)
      invariant forall k :: 0 <= k < i ==> res.val[k] == out[k]
      invariant forall k :: i <= k < 9 ==> a.val[k] == a0[k] && b.val[k] == b0[k]
      invariant prime.val == p
    {
      CarryNext(raw, 1, W30, i);
      temp := temp + (0x3FFFFFFF + a.val[i] + 2 * prime.val[i] - b.val[i]);
      HighBound(temp, W30, 3);
      res.val := res.val[i := Low(temp, W30)];
      temp := High(temp, W30);
      i := i + 1;
    }
    assert res.val == out;
  }

  // One iteration of bn_subtract.
  method SubtractLimb(a: Bignum256, b: Bignum256, res: Bignum256, i: nat, tmp0: uint32) returns (tmp: uint32)
    requires i < 9 && tmp0 < 4 && a.val[i] < W30 && b.val[i] < W30
    modifies res
    ensures var t := tmp0 + (0x3FFFFFFF + old(a.val)[i] - old(b.val)[i]);
      tmp == High(t, W30) < 4 && res.val[i] == Low(t, W30)
    ensures forall k :: 0 <= k < 9 && k != i ==> res.val[k] == old(res.val)[k]
  {
    tmp := tmp0 + (0x3FFFFFFF + a.val[i] - b.val[i]);
    HighBound(tmp, W30, 3);
    res.val := res.val[i := Low(tmp, W30)];
    tmp := High(tmp, W30);
  }

  // bn_subtract: res = a - b, or 2^270 more when a < b
  method Subtract(a: Bignum256, b: Bignum256, res: Bignum256)
    requires Normalized(a.val) && Normalized(b.val)
    modifies res
    ensures Normalized(res.val)
    ensures V(res.val) == var d := old(V(a.val)) - old(V(b.val)); if d < 0 then d + B270 else d
  {
    ghost var a0, b0, zero := a.val, b.val, Const(9, 0);
    ghost var raw := SubRaw(a0, zero, b0);
    ghost var out := Carried(raw, 1, W30);
    Range(a0);
    Range(b0);
    ValConst(9, 0, W30);
    PowW30();
    SubExact(a0, zero, b0, V(a0) - V(b0));
    SubLimbs(a0, zero, b0);
    CarryNext(raw, 1, W30, 0);
    hide V, Carry, Carried, SubRaw, Normalized, Wrap270, Low, High, Const, Val, Pow, Digits;
    var tmp: uint32 := 1;
    var i := 0;
    while i < 9
      invariant 0 <= i <= 9 && tmp < 4
      invariant tmp == Carry(raw, 1, W30, i)
      invariant forall k :: 0 <= k < i ==> res.val[k] == out[k]
      invariant forall k :: i <= k < 9 ==> a.val[k] == a0[k] && b.val[k] == b0[k]
    {
      CarryNext(raw, 1, W30, i);
      tmp := SubtractLimb(a, b, res, i, tmp);
      i := i + 1;
    }
    assert res.val == out;
  }

  // bn_mod
  method Mod(x: Bignum256, prime: Bignum256)
    requires Modulus(prime.val) && PartlyReduced(x.val, V(prime.val)) && x != prime
    modifies x
    ensures Reduced(x.val, V(prime.val))
    ensures V(x.val) == Fe(x.val, V(prime.val)) == old(Fe(x.val, V(prime.val)))
  {
    var flag := IsLess(x, prime);
    var temp := new Bignum256(ZERO);
    Subtract(x, prime, temp);
    Range(x.val);
    ReduceOnce(V(x.val), V(prime.val));
    Field.CongSelf(V(x.val), V(prime.val));
    Cmov(x, flag, x, temp);
  }

  lemma ReduceOnce(x: int, p: int)
    requires 0 <= x < 2 * p
    ensures x % p == if x < p then x else x - p
  {
    DivModUnique(x, p, if x < p then 0 else 1, if x < p then x else x - p);
  }

  // bn_addmod
  method AddMod(a: Bignum256, b: Bignum256, prime: Bignum256)
    requires Modulus(prime.val) && Normalized(a.val) && Normalized(b.val) && a != prime
    modifies a
    ensures PartlyReduced(a.val, V(prime.val))
    ensures Fe(a.val, V(prime.val)) ==
            Field.Add(old(Fe(a.val, V(prime.val))), old(Fe(b.val, V(prime.val))), V(prime.val))
  {
    ghost var a0, b0 := a.val, b.val;
    Field.AddMod(V(a0), V(b0), V(prime.val));
    var i := 0;
    while i < 9
      invariant 0 <= i <= 9
      invariant forall k :: 0 <= k < i ==> a.val[k] == a0[k] + b0[k]
      invariant forall k :: i <= k < 9 ==> a.val[k] == a0[k] && b.val[k] == b0[k]
    {
      a.val := a.val[i := a.val[i] + b.val[i]];
      i := i + 1;
    }
    ValLinear(a.val, a0, 1, b0, 1, b0, 0, W30);
    ghost var s := a.val;
    FastMod(a, prime);
  }

  // bn_mult_k
  method MultK(x: Bignum256, k: uint8, prime: Bignum256)
    requires Modulus(prime.val) && Normalized(x.val) && k <= 4 && x != prime
    modifies x
    ensures PartlyReduced(x.val, V(prime.val))
    ensures Fe(x.val, V(prime.val)) == Field.Mul(k, old(Fe(x.val, V(prime.val))), V(prime.val))
  {
    ghost var x0 := x.val;
    ScaledResidue(k, V(x0), V(prime.val));
    var j := 0;
    while j < 9
      invariant 0 <= j <= 9
      invariant forall i :: 0 <= i < j ==> x.val[i] == k * x0[i]
      invariant forall i :: j <= i < 9 ==> x.val[i] == x0[i]
    {
      MulMonotone(k, 4, x.val[j]);
      x.val := x.val[j := k * x.val[j]];
      j := j + 1;
    }
    ValLinear(x.val, x0, k, x0, 0, x0, 0, W30);
    ghost var s := x.val;
    FastMod(x, prime);
  }

  lemma ScaledResidue(k: int, x: int, p: int)
    requires p > 0
    ensures Field.Mul(k, x % p, p) == (k * x) % p
  {
    Field.CongSelf(x, p);
    Field.CongMul(k, k, x % p, x, p);
  }

  // ---------------------------------------------------------------- halving

  // Halves of the limbs of x + odd*p, each with the low bit of the limb above.
  function HalfRaw(t: seq<int>): (raw: seq<int>)
    requires |t| == 9
    ensures |raw| == 9
  {
    seq(9, i requires 0 <= i < 9 => High(t[i], 2) + if i < 8 then Low(t[i + 1], 2) * 0x2000_0000 else 0)
  }

  lemma {:induction false} HalfRawVal(t: seq<int>, raw: seq<int>)
    requires |t| == |raw| > 0
    requires raw[|t| - 1] == High(t[|t| - 1], 2)
    requires forall i :: 0 <= i < |t| - 1 ==> raw[i] == High(t[i], 2) + Low(t[i + 1], 2) * 0x2000_0000
    ensures 2 * V(raw) + t[0] % 2 == V(t)
  {
    SplitHead(t);
    SplitHead(raw);
    if |t| == 1 {
    } else {
      HalfRawVal(t[1..], raw[1..]);
    }
  }

  function HalfTerms(x: seq<int>, p: seq<int>): (t: seq<int>)
    requires |x| == |p| == 9
    ensures |t| == 9
  {
    seq(9, i requires 0 <= i < 9 => x[i] + if x[0] % 2 == 1 then p[i] else 0)
  }

  lemma HalfTermsVal(x: seq<int>, p: seq<int>)
    requires |x| == |p| == 9
    ensures V(HalfTerms(x, p)) == V(x) + if x[0] % 2 == 1 then V(p) else 0
  {
    ValLinear(HalfTerms(x, p), x, 1, p, if x[0] % 2 == 1 then 1 else 0, p, 0, W30);
  }

  lemma Parity(x: seq<int>)
    requires |x| > 0
    ensures V(x) % 2 == x[0] % 2
  {
    SplitHead(x);
  }

  lemma HalfExact(x: seq<int>, p: seq<int>)
    requires |x| == 9 && Modulus(p) && Normalized(x) && p[0] % 2 == 1
    ensures Normalized(HalfOut(x, p)) && V(HalfOut(x, p)) == Field.Half(V(x), V(p))
    ensures HalfOut(x, p)[8] == HalfAcc(x, p, 8)
  {
    var t := HalfTerms(x, p);
    HalfTermsVal(x, p);
    HalfRawVal(t, HalfRaw(t));
    Range(x);
    PowW30();
    Parity(x);
    hide HalfTerms, HalfRaw, Val;
    CarryExact(HalfRaw(t), 0, W30, 0, Field.Half(V(x), V(p)));
    CarryNext(HalfRaw(t), 0, W30, 8);
    TopLimb(t);
  }

  lemma TopLimb(t: seq<int>)
    requires |t| == 9
    ensures HalfRaw(t)[8] == High(t[8], 2)
  {
  }

  lemma HalfAt(x: seq<int>, p: seq<int>, i: nat)
    requires |x| == |p| == 9 && Normalized(x) && Normalized(p) && i < 8
    ensures var t := HalfTerms(x, p);
      && t[i + 1] == x[i + 1] + And(p[i + 1], if x[0] % 2 == 1 then W32 - 1 else 0)
      && 0 <= t[i + 1] < 0x8000_0000
      && HalfRaw(t)[i] == High(t[i], 2) + Low(t[i + 1], 2) * 0x2000_0000
      && t[0] == x[0] + And(p[0], if x[0] % 2 == 1 then W32 - 1 else 0)
      && 0 <= t[0] < 0x8000_0000
  {
    Select(p[0], p[i + 1], true);
    Select(p[0], p[i + 1], false);
    Select(p[i + 1], p[i + 1], true);
  }

  // tmp1 on entry to iteration j of bn_mult_half.
  function HalfAcc(x: seq<int>, p: seq<int>, j: nat): int
    requires |x| == |p| == 9 && j < 9
  {
    var t := HalfTerms(x, p);
    High(t[j], 2) + Carry(HalfRaw(t), 0, W30, j)
  }

  function HalfOut(x: seq<int>, p: seq<int>): (out: seq<int>)
    requires |x| == |p| == 9
    ensures |out| == 9
  {
    Carried(HalfRaw(HalfTerms(x, p)), 0, W30)
  }

  lemma HalfIteration(x: seq<int>, p: seq<int>, j: nat, tmp1: int)
    requires |x| == |p| == 9 && Normalized(x) && Normalized(p) && j < 8
    requires tmp1 == HalfAcc(x, p, j) && 0 <= tmp1 < W30 + 2
    ensures var tmp2 := x[j + 1] + And(p[j + 1], if x[0] % 2 == 1 then W32 - 1 else 0);
      var total := tmp1 + Low(tmp2, 2) * 0x2000_0000;
      && 0 <= tmp2 < W32 && 0 <= High(tmp2, 2) < W30 && 0 <= Low(tmp2, 2) <= 1
      && 0 <= Low(total, W30) < W30 && 0 <= High(total, W30) <= 1
      && Low(total, W30) == HalfOut(x, p)[j]
      && High(total, W30) + High(tmp2, 2) == HalfAcc(x, p, j + 1)
  {
    HalfAt(x, p, j);
    CarryNext(HalfRaw(HalfTerms(x, p)), 0, W30, j);
    hide HalfTerms, HalfRaw, Carry, Carried, And;
    var tmp2 := HalfTerms(x, p)[j + 1];
    HighBound(tmp2, 2, 0x3FFF_FFFF);
    HighBound(tmp1 + Low(tmp2, 2) * 0x2000_0000, W30, 1);
  }

  lemma HalfStart(x: seq<int>, p: seq<int>)
    requires |x| == |p| == 9 && Normalized(x) && Normalized(p)
    ensures var t0 := x[0] + And(p[0], if x[0] % 2 == 1 then W32 - 1 else 0);
      0 <= t0 < W32 && High(t0, 2) == HalfAcc(x, p, 0) && 0 <= High(t0, 2) < W30
  {
    HalfAt(x, p, 0);
    HighBound(HalfTerms(x, p)[0], 2, 0x3FFF_FFFF);
  }

  // The limbs below j are done, those from j on untouched.
  ghost predicate Halving(x: seq<int>, p: seq<int>, s: seq<int>, j: nat, tmp1: int) {
    && |x| == |p| == |s| == 9 && j <= 8 && tmp1 == HalfAcc(x, p, j) && 0 <= tmp1 < W30 + 2
    && (forall i :: 0 <= i < j ==> s[i] == HalfOut(x, p)[i]) && (forall i :: j <= i < 9 ==> s[i] == x[i])
  }

  lemma HalvingStart(x: seq<int>, p: seq<int>)
    requires |x| == |p| == 9 && Normalized(x) && Normalized(p)
    ensures var t0 := x[0] + And(p[0], if x[0] % 2 == 1 then W32 - 1 else 0);
      0 <= t0 < W32 && 0 <= High(t0, 2) < W32 && Halving(x, p, x, 0, High(t0, 2))
  {
    HalfStart(x, p);
    hide HalfAcc, HalfOut, Normalized, High, And;
  }

  lemma HalvingEnd(x: seq<int>, p: seq<int>, s: seq<int>, tmp1: int)
    requires Halving(x, p, s, 8, tmp1)
    ensures |x| == |p| == |s| == 9 && tmp1 == HalfAcc(x, p, 8) && forall i :: 0 <= i < 8 ==> s[i] == HalfOut(x, p)[i]
  {
    hide HalfAcc, HalfOut;
  }

  lemma HalvingNext(x: seq<int>, p: seq<int>, s: seq<int>, j: nat, tmp1: int)
    requires Halving(x, p, s, j, tmp1) && j < 8 && Normalized(x) && Normalized(p)
    ensures |s| == |p| == |x| == 9
    ensures var tmp2 := s[j + 1] + And(p[j + 1], if x[0] % 2 == 1 then W32 - 1 else 0);
      var total := tmp1 + Low(tmp2, 2) * 0x2000_0000;
      && 0 <= tmp2 < W32 && 0 <= total < W32 && 0 <= Low(tmp2, 2) <= 1 && 0 <= High(tmp2, 2) < W30
      && 0 <= Low(total, W30) < W30 && 0 <= High(total, W30) <= 1
      && Halving(x, p, s[j := Low(total, W30)], j + 1, High(total, W30) + High(tmp2, 2))
  {
    hide HalfAcc, HalfOut, Normalized, Low, High, And;
    HalfIteration(x, p, j, tmp1);
  }

  // One iteration of bn_mult_half.
  method HalfLimb(x: Bignum256, prime: Bignum256, j: nat, xodd: uint32, tmp: uint32, ghost x0: seq<int>) returns (tmp1: uint32)
    requires |x0| == 9 && Normalized(x0) && Normalized(prime.val) && x != prime && j < 8
    requires xodd == (if x0[0] % 2 == 1 then W32 - 1 else 0) && Halving(x0, prime.val, x.val, j, tmp)
    modifies x
    ensures Halving(x0, prime.val, x.val, j + 1, tmp1)
  {
    hide Halving, Normalized, Low, High, And;
    HalvingNext(x0, prime.val, x.val, j, tmp);
    var tmp2: uint32 := x.val[j + 1] + And(prime.val[j + 1], xodd);
    tmp1 := tmp + Low(tmp2, 2) * 0x2000_0000;
    x.val := x.val[j := Low(tmp1, W30)];
    tmp1 := High(tmp1, W30);
    tmp1 := tmp1 + High(tmp2, 2);
  }

  // The loop of bn_mult_half; the last accumulator is the top limb.
  method MultHalfLimbs(x: Bignum256, prime: Bignum256) returns (tmp1: uint32)
    requires Normalized(prime.val) && Normalized(x.val) && x != prime
    modifies x
    ensures forall i :: 0 <= i < 8 ==> x.val[i] == HalfOut(old(x.val), prime.val)[i]
    ensures tmp1 == HalfAcc(old(x.val), prime.val, 8)
  {
    ghost var x0, p := x.val, prime.val;
    HalvingStart(x0, p);
    hide HalfAcc, HalfOut, Halving, Normalized, Low, High, And;
    var xodd: uint32 := if x.val[0] % 2 == 1 then W32 - 1 else 0;
    tmp1 := High(x.val[0] + And(prime.val[0], xodd), 2);
    var j := 0;
    while j < 8
      invariant 0 <= j <= 8 && prime.val == p && Halving(x0, p, x.val, j, tmp1)
    {
      tmp1 := HalfLimb(x, prime, j, xodd, tmp1, x0);
      j := j + 1;
    }
    HalvingEnd(x0, p, x.val, tmp1);
  }

  // bn_mult_half
  method MultHalf(x: Bignum256, prime: Bignum256)
    requires Modulus(prime.val) && prime.val[0] % 2 == 1 && Normalized(x.val) && x != prime
    modifies x
    ensures Normalized(x.val) && V(x.val) == Field.Half(old(V(x.val)), V(prime.val))
  {
    HalfExact(x.val, prime.val);
    ghost var out := HalfOut(x.val, prime.val);
    hide V, HalfAcc, HalfOut, Field.Half;
    var tmp1 := MultHalfLimbs(x, prime);
    x.val := x.val[8 := tmp1];
    assert x.val == out;
  }

  // ---------------------------------------------------------------- shifts

  // bn_rshift
  method RShift(a: Bignum256)
    requires Normalized(a.val)
    modifies a
    ensures Normalized(a.val) && V(a.val) == old(V(a.val)) / 2
  {
    ghost var a0 := a.val;
    var i := 0;
    while i < 8
      invariant 0 <= i <= 8
      invariant forall k :: 0 <= k < i ==> a.val[k] == a0[k] / 2 + (a0[k + 1] % 2) * 0x2000_0000
      invariant forall k :: i <= k < 9 ==> a.val[k] == a0[k]
    {
      a.val := a.val[i := a.val[i] / 2 + (a.val[i + 1] % 2) * 0x2000_0000];
      i := i + 1;
    }
    a.val := a.val[8 := a.val[8] / 2];
    HalfLimbs(a0, a.val);
  }

  lemma {:induction false} HalfLimbs(s: seq<int>, h: seq<int>)
    requires |s| == |h| > 0 && Normalized(s)
    requires forall k :: 0 <= k < |s| - 1 ==> h[k] == s[k] / 2 + (s[k + 1] % 2) * 0x2000_0000
    requires h[|s| - 1] == s[|s| - 1] / 2
    ensures Normalized(h) && 2 * V(h) + s[0] % 2 == V(s)
  {
    SplitHead(s);
    SplitHead(h);
    if |s| == 1 {
    } else {
      HalfLimbs(s[1..], h[1..]);
      assert forall k :: 1 <= k < |h| ==> h[k] == h[1..][k - 1];
    }
  }

  // bn_lshift
  method LShift(a: Bignum256)
    requires Normalized(a.val)
    modifies a
    ensures Normalized(a.val) && V(a.val) == Wrap270(2 * old(V(a.val)))
  {
    ghost var a0 := a.val;
    var i := 8;
    while i > 0
      invariant 0 <= i <= 8
      invariant forall k :: i < k < 9 ==> a.val[k] == (2 * a0[k]) % W30 + a0[k - 1] / 0x2000_0000
      invariant forall k :: 0 <= k <= i ==> a.val[k] == a0[k]
    {
      a.val := a.val[i := (2 * a.val[i]) % W30 + a.val[i - 1] / 0x2000_0000];
      i := i - 1;
    }
    a.val := a.val[0 := (2 * a.val[0]) % W30];
    DoubleExact(a0, a.val);
  }

  lemma DoubleExact(s: seq<int>, d: seq<int>)
    requires |s| == |d| == 9 && Normalized(s)
    requires d[0] == (2 * s[0]) % W30
    requires forall k :: 1 <= k < 9 ==> d[k] == (2 * s[k]) % W30 + s[k - 1] / 0x2000_0000
    ensures Normalized(d) && V(d) == Wrap270(2 * V(s))
  {
    DoubleLimbs(s, d, 0);
    Range(d);
    Range(s);
    PowW30();
  }

  lemma {:induction false} DoubleLimbs(s: seq<int>, d: seq<int>, c: int)
    requires |s| == |d| > 0 && Normalized(s) && 0 <= c <= 1
    requires d[0] == (2 * s[0]) % W30 + c
    requires forall k :: 1 <= k < |s| ==> d[k] == (2 * s[k]) % W30 + s[k - 1] / 0x2000_0000
    ensures Normalized(d)
    ensures V(d) + (s[|s| - 1] / 0x2000_0000) * Pow(W30, |s|) == 2 * V(s) + c
  {
    SplitHead(s);
    SplitHead(d);
    if |s| == 1 {
      assert Pow(W30, 1) == W30;
    } else {
      DoubleLimbs(s[1..], d[1..], s[0] / 0x2000_0000);
      assert forall k :: 1 <= k < |d| ==> d[k] == d[1..][k - 1];
      PowNext(W30, |s| - 1);
      MulAssoc(s[|s| - 1] / 0x2000_0000, W30, Pow(W30, |s| - 1));
    }
  }
}
