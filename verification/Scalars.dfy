// ecdsa.c: how point_multiply and scalar_multiply prepare a scalar and read its digits.

module Scalars {
  import opened Words
  import opened Limbs
  import opened Bignum
  import opened Recode
  import Field
  import BignumAdd
  import opened Repack

  // The odd orders bignum.c computes with.
  ghost predicate GroupOrder(n: int) {
    n % 2 == 1 && B256 - B224 < n < B256
  }

  // k + 2^256, less the order when k is even: the odd number that is recoded.
  function Recoded(k: int, n: int): int {
    k + B256 - if k % 2 == 0 then n else 0
  }

  lemma Pow16(i: nat)
    ensures Pow(16, i) == Pow2(4 * i) && Pow(16, i) > 0
  {
    Pow2Small();
    Pow2Pow(4, i);
    PowPositive(16, i);
  }

  lemma Pow16Values(n: int)
    requires GroupOrder(n)
    ensures Pow(16, 64) == B256 && Pow(16, 63) < n
  {
    PowAdd(16, 4, 4);
    PowAdd(16, 8, 8);
    PowAdd(16, 16, 16);
    PowAdd(16, 32, 32);
    assert Pow(16, 4) == 0x1_0000;
    PowNext(16, 63);
  }

  // The digits of the recoded scalar sum to k modulo the order, and never to zero.
  lemma RecodedSum(k: int, n: int)
    requires GroupOrder(n) && 0 < k < n
    ensures Recodable(Recoded(k, n))
    ensures LowSum(Recoded(k, n), 64) == HighSum(Recoded(k, n), 0) == (if k % 2 == 0 then k - n else k)
    ensures (if k % 2 == 0 then k - n else k) % n == k
  {
    var a := Recoded(k, n);
    Pow16Values(n);
    hide Recoded, Pow;
    assert Recodable(a) by { RecodedRange(k, n); }
    hide Recodable;
    TopUpper(a);
    OddScalar(a);
    LowSumClosed(a, 64);
    HighSumClosed(a, 0);
    UpperZero(a);
    RecodedRange(k, n);
    Field.SmallMod(k, n);
    DivAddMultiple(k, -1, n);
  }

  lemma UpperZero(a: int)
    requires a % 2 == 1
    ensures Upper(a, 0) == a
  {
    assert a / 1 == a;
  }

  lemma RecodedRange(k: int, n: int)
    requires GroupOrder(n) && 0 <= k < n
    ensures var a := Recoded(k, n);
      0 < a < 2 * B256 && a % 2 == 1 && a - B256 == if k % 2 == 0 then k - n else k
  {
  }

  // ---------------------------------------------------------------- building the scalar

  function ScalarRaw(k: seq<int>, m: seq<int>): (raw: seq<int>)
    requires |k| == |m| == 9
    ensures |raw| == 9
    ensures forall j :: 0 <= j < 9 ==> raw[j] == (if j < 8 then 0x3FFFFFFF else 0xFFFF) + k[j] - m[j]
  {
    seq(9, j requires 0 <= j < 9 => (if j < 8 then 0x3FFFFFFF else 0xFFFF) + k[j] - m[j])
  }

  lemma ScalarTotal(k: seq<int>, m: seq<int>)
    requires |k| == |m| == 9
    ensures V(ScalarRaw(k, m)) + 1 == V(k) + B256 - V(m)
  {
    var bias := Const(8, 0x3FFFFFFF) + [0xFFFF];
    ValConst(8, 1, W30);
    ValSnoc(Const(8, 0x3FFFFFFF), 0xFFFF, W30);
    PowW30();
    ValLinear(ScalarRaw(k, m), bias, 1, k, 1, m, -1, W30);
  }

  function Masked(order: seq<int>, even: bool): (m: seq<int>)
    requires |order| == 9
    ensures |m| == 9 && forall j :: 0 <= j < 9 ==> m[j] == if even then order[j] else 0
  {
    if even then order else Const(9, 0)
  }

  function ScalarLimbs(k: seq<int>, order: seq<int>): (out: seq<int>)
    requires |k| == |order| == 9
    ensures |out| == 9
  {
    Carried(ScalarRaw(k, Masked(order, k[0] % 2 == 0)), 1, W30)
  }

  function ScalarCarry(k: seq<int>, order: seq<int>, j: nat): int
    requires |k| == |order| == 9 && j <= 9
  {
    Carry(ScalarRaw(k, Masked(order, k[0] % 2 == 0)), 1, W30, j)
  }

  lemma ScalarExact(k: seq<uint32>, order: seq<uint32>)
    requires |k| == |order| == 9 && Normalized(k) && Modulus(order) && V(k) < V(order)
    ensures Normalized(ScalarLimbs(k, order)) && V(ScalarLimbs(k, order)) == Recoded(V(k), V(order))
    ensures ScalarCarry(k, order, 9) == 0
  {
    var m := Masked(order, k[0] % 2 == 0);
    Range(k);
    PowW30();
    ValConst(9, 0, W30);
    ScalarTotal(k, m);
    BignumAdd.Parity(k);
    CarryExact(ScalarRaw(k, m), 1, W30, 0, V(k) + B256 - V(m));
  }

  function EvenMask(k0: int): (m: uint32) {
    if k0 % 2 == 0 then W32 - 1 else 0
  }

  // One limb of the loop.
  lemma ScalarLimb(k: seq<uint32>, order: seq<uint32>, j: nat, tmp: int)
    requires |k| == |order| == 9 && Normalized(k) && Normalized(order) && j < 9
    requires tmp == ScalarCarry(k, order, j) && 0 <= tmp <= 1
    requires j == 8 ==> order[8] <= 0xFFFF
    ensures var t := tmp + ((if j < 8 then 0x3FFFFFFF else 0xFFFF) + k[j] - And(order[j], EvenMask(k[0])));
      && 0 <= t < W32 && 0 <= Low(t, W30) < W30 && 0 <= High(t, W30) <= 1
      && Low(t, W30) == ScalarLimbs(k, order)[j] && High(t, W30) == ScalarCarry(k, order, j + 1)
  {
    var even := k[0] % 2 == 0;
    var m := Masked(order, even);
    var raw := ScalarRaw(k, m);
    var t := tmp + ((if j < 8 then 0x3FFFFFFF else 0xFFFF) + k[j] - m[j]);
    assert t == raw[j] + tmp && 0 <= t < 2 * W30;
    CarryNext(raw, 1, W30, j);
    Select(order[j], order[j], even);
    hide Carry, Carried, Low, High, And, Normalized, ScalarRaw, Masked;
    HighBound(t, W30, 1);
  }

  lemma ScalarStart(k: seq<uint32>, order: seq<uint32>)
    requires |k| == |order| == 9 && Modulus(order)
    ensures ScalarCarry(k, order, 0) == 1 && order[8] <= 0xFFFF
  {
    ValSplit(order, 8, W30);
    assert order[8..] == [order[8]] && Val([order[8]], W30) == order[8];
    ValBounds(order[..8], W30);
    PowW30();
  }

  // The lower eight limbs.
  method ScalarLoop(k: Bignum256, order: Bignum256, a: Bignum256, isEven: uint32)
    returns (tmp: uint32, isNonZero: uint32)
    requires Normalized(k.val) && Modulus(order.val) && isEven == EvenMask(k.val[0])
    requires a != k && a != order
    modifies a
    ensures tmp == ScalarCarry(k.val, order.val, 8) && tmp <= 1
    ensures forall i :: 0 <= i < 8 ==> a.val[i] == ScalarLimbs(k.val, order.val)[i]
    ensures isNonZero == 0 <==> forall i :: 0 <= i < 8 ==> k.val[i] == 0
  {
    ghost var k0, n := k.val, order.val;
    ScalarStart(k0, n);
    hide V, EvenMask, ScalarLimbs, ScalarCarry, Low, High, And, Or;
    tmp := 1;
    isNonZero := 0;
    var j := 0;
    while j < 8
      invariant 0 <= j <= 8 && tmp <= 1 && k.val == k0 && order.val == n
      invariant tmp == ScalarCarry(k0, n, j)
      invariant forall i :: 0 <= i < j ==> a.val[i] == ScalarLimbs(k0, n)[i]
      invariant isNonZero == 0 <==> forall i :: 0 <= i < j ==> k0[i] == 0
    {
      ScalarLimb(k0, n, j, tmp);
      OrWord(isNonZero, k.val[j]);
      isNonZero := Or(isNonZero, k.val[j]);
      tmp := tmp + (0x3FFFFFFF + k.val[j] - And(order.val[j], isEven));
      a.val := a.val[j := Low(tmp, W30)];
      tmp := High(tmp, W30);
      j := j + 1;
    }
  }

  // The prologue of point_multiply and scalar_multiply.
  method PrepareScalar(k: Bignum256, order: Bignum256, a: Bignum256) returns (isNonZero: uint32)
    requires Normalized(k.val) && Modulus(order.val) && order.val[0] % 2 == 1 && V(k.val) < V(order.val)
    requires a != k && a != order
    modifies a
    ensures Normalized(a.val) && V(a.val) == Recoded(V(k.val), V(order.val)) && a.val[0] % 2 == 1
    ensures isNonZero == 0 <==> V(k.val) == 0
  {
    ghost var k0, n := k.val, order.val;
    ScalarExact(k0, n);
    ScalarStart(k0, n);
    ZeroVal(k0);
    ScalarParity(k0, n);
    hide V, EvenMask, ScalarLimbs, ScalarCarry, Low, High, And, Or, Normalized, Recoded;
    var isEven: uint32 := (k.val[0] % 2 - 1) % W32;
    var tmp;
    tmp, isNonZero := ScalarLoop(k, order, a, isEven);
    ScalarLimb(k0, n, 8, tmp);
    ScalarTop(k0, n, tmp);
    OrWord(isNonZero, k.val[8]);
    isNonZero := Or(isNonZero, k.val[8]);
    a.val := a.val[8 := tmp + 0xFFFF + k.val[8] - And(order.val[8], isEven)];
    assert a.val == ScalarLimbs(k0, n);
  }

  // Nothing is carried out of the top limb, so it needs no mask.
  lemma ScalarTop(k: seq<uint32>, order: seq<uint32>, tmp: int)
    requires |k| == |order| == 9 && ScalarCarry(k, order, 9) == 0
    requires High(tmp + (0xFFFF + k[8] - And(order[8], EvenMask(k[0]))), W30) == ScalarCarry(k, order, 9)
    ensures var t := tmp + (0xFFFF + k[8] - And(order[8], EvenMask(k[0])));
      Low(t, W30) == t
  {
    hide And;
    LowHigh(tmp + (0xFFFF + k[8] - And(order[8], EvenMask(k[0]))), W30);
  }

  lemma ScalarParity(k: seq<uint32>, order: seq<uint32>)
    requires |k| == |order| == 9 && Normalized(k) && Modulus(order) && V(k) < V(order) && order[0] % 2 == 1
    ensures ScalarLimbs(k, order)[0] % 2 == 1
    ensures EvenMask(k[0]) == (k[0] % 2 - 1) % W32
  {
    ScalarExact(k, order);
    BignumAdd.Parity(k);
    BignumAdd.Parity(order);
    BignumAdd.Parity(ScalarLimbs(k, order));
    hide ScalarLimbs, V;
  }

  lemma OrWord(a: uint32, b: uint32)
    ensures Or(a, b) < W32 && (Or(a, b) == 0 <==> a == 0 && b == 0)
  {
    OrZero(a, b);
    Pow2Values();
    OrBound(a, b, 32);
  }

  lemma {:induction false} OrBound(a: nat, b: nat, k: nat)
    requires a < Pow2(k) && b < Pow2(k)
    ensures Or(a, b) < Pow2(k)
  {
    if a == 0 || b == 0 {
    } else {
      OrBound(a / 2, b / 2, k - 1);
    }
  }

  // ---------------------------------------------------------------- reading a window

  lemma Multiple32(x: int, e: nat, r: int)
    requires e >= 5
    ensures (x + Pow2(e) * r) % 32 == x % 32
  {
    Pow2Add(e - 5, 5);
    Pow2Small();
    var m := Pow2(e - 5);
    hide Pow2;
    Reassociate(m, 32, r);
    DivAddMultiple(x, m * r, 32);
  }

  lemma Mask31(x: nat)
    ensures And(x, 31) == x % 32
  {
    Pow2Small();
    AndMask(x, 5);
  }

  // A window that lies in one limb.
  lemma WindowInLimb(s: seq<int>, idx: nat, sh: nat, i: nat)
    requires idx < |s| && Normalized(s) && 4 * i == 30 * idx + sh && sh <= 25
    ensures Window(V(s), i) == And(Shr(s[idx], sh), 31) && 0 <= Window(V(s), i) < 32
  {
    WindowQuotient(s, idx, sh, i);
    Multiple32(Shr(s[idx], sh), 30 - sh, V(s[idx + 1..]));
    hide V, And, Window, Pow2, Shr;
    Mask31(Shr(s[idx], sh));
  }

  // A window across two limbs, the upper one shifted left by e = 30 - sh.
  lemma WindowAcross(s: seq<int>, idx: nat, sh: nat, i: nat)
    requires idx + 1 < |s| && Normalized(s) && 4 * i == 30 * idx + sh && 26 <= sh <= 30
    ensures Window(V(s), i) == And(Or(Shl32(s[idx + 1], 30 - sh), Shr(s[idx], sh)), 31)
    ensures 0 <= Window(V(s), i) < 32
    ensures Or(Shl32(s[idx + 1], 30 - sh), Shr(s[idx], sh)) < W32
  {
    WindowQuotient(s, idx, sh, i);
    HeadValue(s, idx + 1);
    AcrossBits(s[idx], s[idx + 1], sh);
    hide V, Or, And, Shl32, Shr, Window, Pow2;
    AcrossSplit(Shr(s[idx], sh), V(s[idx + 1..]), s[idx + 1], V(s[idx + 2..]), 30 - sh);
    Mask31(Or(Shl32(s[idx + 1], 30 - sh), Shr(s[idx], sh)));
  }

  lemma WindowQuotient(s: seq<int>, idx: nat, sh: nat, i: nat)
    requires idx < |s| && Normalized(s) && 4 * i == 30 * idx + sh && sh <= 30
    ensures Window(V(s), i) == (Shr(s[idx], sh) + Pow2(30 - sh) * V(s[idx + 1..])) % 32
  {
    Pow16(i);
    ShiftedLimbs(s, idx, sh, 4 * i);
  }

  lemma AcrossSplit(x: int, u: int, hi: int, r: int, e: nat)
    requires u == hi + W30 * r
    ensures (x + Pow2(e) * u) % 32 == (x + hi * Pow2(e)) % 32
  {
    hide Pow2;
    Pow2Add(e, 30);
    Pow2Values();
    AcrossTerms(Pow2(e), hi, r);
    Multiple32(x + hi * Pow2(e), e + 30, r);
  }

  lemma AcrossBits(lo: int, hi: int, sh: nat)
    requires 26 <= sh <= 30 && 0 <= lo < W30 && 0 <= hi < W30
    ensures var bits := Or(Shl32(hi, 30 - sh), Shr(lo, sh));
      0 <= bits < W32 && bits % 32 == (Shr(lo, sh) + hi * Pow2(30 - sh)) % 32
  {
    var e := 30 - sh;
    ShiftOver(lo, 0, sh);
    ShlLow(hi, e);
    Pow2Add(e, sh);
    Pow2Values();
    TopBits(lo, Pow2(sh), Pow2(e));
    var l := Low(hi, Pow2(32 - e));
    LowRange(hi, Pow2(32 - e));
    hide Low, Pow2, Or;
    OrDisjoint(lo / Pow2(sh), l, e);
    DivAddMultiple(lo / Pow2(sh) + Shl32(hi, e), 0x800_0000 * ((hi * Pow2(e)) / W32), 32);
  }

  // aptr, abits and ashift point at bit 4*i.
  ghost predicate AtBit(a: seq<int>, idx: nat, abits: int, ashift: nat, i: nat) {
    idx < |a| == 9 && abits == a[idx] && ashift < 30 && 4 * i == 30 * idx + ashift
  }

  // "get lowest 5 bits of a >> (i*4)": the pointer, the limb it loaded and the shift move down.
  method ReadWindow(a: Bignum256, idx: nat, abits: uint32, ashift: nat, ghost i: nat)
    returns (idx': nat, abits': uint32, ashift': nat, bits: uint32)
    requires Normalized(a.val) && AtBit(a.val, idx, abits, ashift, i + 1)
    ensures AtBit(a.val, idx', abits', ashift', i)
    ensures bits == Window(V(a.val), i) && bits < 32
  {
    hide V, Window, Or, And, Shl32, Shr;
    var shift: int := ashift - 4;
    if shift < 0 {
      WindowAcross(a.val, idx - 1, shift + 30, i);
      ShiftsFit(abits, -shift);
      bits := Shl32(abits, -shift);
      idx' := idx - 1;
      abits' := a.val[idx'];
      ashift' := shift + 30;
      bits := Or(bits, Shr(abits', ashift'));
    } else {
      WindowInLimb(a.val, idx, shift, i);
      ShiftsFit(abits, shift);
      idx', abits', ashift' := idx, abits, shift;
      bits := Shr(abits, shift);
    }
    bits := And(bits, 31);
  }
}
