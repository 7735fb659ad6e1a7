// Moving a number between 30-bit and 32-bit limbs, as bn_inverse and the byte readers do.

module Repack {
  import opened Words
  import opened Limbs
  import opened Bignum

  // Both limb sizes as powers of two: limb i starts at bit 30*i or 32*i.
  lemma PowBits(i: nat)
    ensures Pow(W30, i) == Pow2(30 * i) && Pow(W32, i) == Pow2(32 * i)
  {
    Pow2Values();
    Pow2Pow(30, i);
    Pow2Pow(32, i);
  }

  // A limb placed on top of the bits already held.
  function Stacked(t: int, v: int, bits: nat): int {
    t + v * Pow2(bits)
  }

  // One step from 30-bit limbs: t holds 30 - 2i bits, v is the next limb.
  lemma WidenStep(t: int, v: int, i: nat)
    requires i < 8 && 0 <= t < Pow2(30 - 2 * i) && 0 <= v < W30
    ensures var sum := Stacked(t, v, 30 - 2 * i);
      && Or(t, Shl32(v, 30 - 2 * i)) == Low(sum, W32) && 0 <= Low(sum, W32) < W32
      && Shr(v, 2 + 2 * i) == High(sum, W32)
      && 0 <= Shr(v, 2 + 2 * i) < Pow2(28 - 2 * i) <= W30
  {
    var e, f := 30 - 2 * i, 2 + 2 * i;
    var m, w := Pow2(e), Pow2(f);
    assert Shr(v, f) == High(v, w);
    hide Pow2, Low, High, Shr, Shl32, Or, Stacked;
    Pow2Split(e);
    assert 32 - e == f;
    ShlLow(v, e);
    OrDisjoint(t, Low(v, w), e);
    LowHigh(v, w);
    ShrRange(v, i);
    Pow2Monotone(28 - 2 * i, 30);
    Pow2Values();
    StackedSum(t, v, High(v, w), Low(v, w), w, e);
  }

  lemma StackedSum(t: int, v: int, h: int, l: int, w: int, e: nat)
    requires Pow2(e) * w == W32 && v == h * w + l && 0 <= l < w && 0 <= t < Pow2(e)
    ensures var sum := Stacked(t, v, e);
      Low(sum, W32) == t + l * Pow2(e) && 0 <= t + l * Pow2(e) < W32 && High(sum, W32) == h
  {
    hide Low, High, Pow2;
    Commute(Pow2(e), w);
    WidenArithmetic(t, v, h, l, w, Pow2(e));
  }

  lemma WidenArithmetic(t: int, v: int, h: int, l: int, w: int, m: int)
    requires w * m == W32 && m > 0 && v == h * w + l && 0 <= l < w && 0 <= t < m
    ensures Low(t + v * m, W32) == t + l * m && 0 <= t + l * m < W32 && High(t + v * m, W32) == h
  {
    ShiftArith(v, h, l, w, m);
    AddBelow(t, v * m, l * m, h, m);
  }

  // Filling the empty low part of a shifted word.
  lemma AddBelow(t: int, x: int, l: int, h: int, m: int)
    requires 0 <= t < m && 0 <= l <= W32 - m && x % W32 == l && x / W32 == h
    ensures (t + x) % W32 == t + l && (t + x) / W32 == h
  {
    DivModUnique(t + x, W32, h, t + l);
  }

  lemma ShrRange(v: int, i: nat)
    requires i < 8 && 0 <= v < W30
    ensures 0 <= High(v, Pow2(2 + 2 * i)) < Pow2(28 - 2 * i)
  {
    Pow2Add(2 + 2 * i, 28 - 2 * i);
    Pow2Values();
    var a, b := Pow2(2 + 2 * i), Pow2(28 - 2 * i);
    hide Pow2;
    Commute(a, b);
    HighBound(v, a, b - 1);
  }

  // The limbs written so far and the bits still held make up n.
  ghost predicate Accumulated(done: seq<int>, b: int, held: int, n: int) {
    Val(done, b) + Pow(b, |done|) * held == n
  }

  // The words of a bignum256: temp32 |= val[i+1] << (30-2i); a[i] = temp32; temp32 = val[i+1] >> (2+2i).
  method ToWords(val: Limbs9) returns (a: Limbs9)
    requires Normalized(val) && V(val) < B256
    ensures Val(a[..8], W32) == V(val) && a[8] == 0
  {
    a := [0, 0, 0, 0, 0, 0, 0, 0, 0];
    var temp32: uint32 := val[0];
    var i := 0;
    WidenStart(val);
    hide V, Val, Normalized, Pow2, Or, Shr, Shl32, Low, High, Stacked, Accumulated;
    while i < 8
      invariant 0 <= i <= 8 && a[8] == 0
      invariant temp32 < Pow2(30 - 2 * i)
      invariant Accumulated(a[..i], W32, temp32, V(val[..i + 1]))
    {
      WidenStep(temp32, val[i + 1], i);
      WidenVal(a[..i], temp32, val, i);
      temp32 := Or(temp32, Shl32(val[i + 1], 30 - 2 * i));
      TakeUpdate(a, i, temp32);
      a := a[i := temp32];
      temp32 := Shr(val[i + 1], 2 + 2 * i);
      i := i + 1;
    }
    assert val[..9] == val;
    WidenEnd(a[..8], temp32, val);
  }

  lemma WidenStart(val: seq<int>)
    requires |val| == 9 && Normalized(val)
    ensures Pow2(30) == W30
    ensures Accumulated([], W32, val[0], V(val[..1]))
  {
    Pow2Values();
    assert val[..1] == [] + [val[0]];
    ValSnoc([], val[0], W30);
  }

  lemma WidenVal(low: seq<int>, t: int, val: seq<int>, i: nat)
    requires |val| == 9 && i < 8 && |low| == i
    requires Accumulated(low, W32, t, V(val[..i + 1]))
    ensures var sum := Stacked(t, val[i + 1], 30 - 2 * i);
      Accumulated(low + [Low(sum, W32)], W32, High(sum, W32), V(val[..i + 2]))
  {
    var sum := t + val[i + 1] * Pow2(30 - 2 * i);
    ValSnoc(low, Low(sum, W32), W32);
    ValTake(val, i + 2, W30);
    PowNext(W32, i);
    PowBits(i);
    PowBits(i + 1);
    Pow2Add(32 * i, 30 - 2 * i);
    hide Val, V, Pow, Pow2;
    WidenArith(Val(low, W32), Pow(W32, i), t, val[i + 1], Pow2(30 - 2 * i), Low(sum, W32), High(sum, W32));
  }

  lemma WidenArith(low: int, w: int, t: int, v: int, e: int, d: int, q: int)
    requires t + v * e == q * W32 + d
    ensures (low + w * d) + (W32 * w) * q == (low + w * t) + (w * e) * v
  {
    assert w * (t + v * e) == w * (q * W32 + d);
  }

  lemma WidenEnd(a: seq<int>, t: int, val: seq<int>)
    requires |a| == 8 && Digits(a, W32) && |val| == 9 && 0 <= t
    requires V(val) < B256 && Accumulated(a, W32, t, V(val))
    ensures Val(a, W32) == V(val)
  {
    ValBounds(a, W32);
    PowW32();
    var w := Pow(W32, 8);
    if t > 0 {
      MulMonotone(1, t, w);
    }
  }

  lemma PowW32()
    ensures Pow(W32, 8) == B256
  {
    assert Pow(W32, 2) == W64;
    PowAdd(W32, 2, 2);
    PowAdd(W32, 4, 4);
  }

  // One step from 32-bit words: t holds 2i bits, w is the next word.
  lemma NarrowStep(t: int, w: uint32, i: nat)
    requires i < 8 && 0 <= t < Pow2(2 * i)
    ensures var sum := Stacked(t, w, 2 * i);
      && Or(Low(Shl32(w, 2 * i), W30), t) == Low(sum, W30) && 0 <= Low(sum, W30) < W30
      && Low(Or(t, Shl32(w, 2 * i)), W30) == Low(sum, W30)
      && 0 <= Or(t, Shl32(w, 2 * i)) < W32
      && Shr(w, 30 - 2 * i) == High(sum, W30)
      && 0 <= Shr(w, 30 - 2 * i) < Pow2(2 * i + 2) <= 0x1_0000
  {
    hide Low, High, Pow2, Or, Shl32;
    var c, d := Pow2(2 * i), Pow2(30 - 2 * i);
    NarrowSplit(i);
    LowHigh(w, d);
    OrDisjoint(t, Low(w, d), 2 * i);
    NarrowWide(t, w, i);
    NarrowRange(w, i);
    NarrowArithmetic(t, w, High(w, d), Low(w, d), d, c);
  }

  lemma NarrowSplit(i: nat)
    requires i < 8
    ensures Pow2(30 - 2 * i) * Pow2(2 * i) == W30
  {
    Pow2Add(30 - 2 * i, 2 * i);
    Pow2Values();
  }

  lemma NarrowArithmetic(t: int, x: int, h: int, l: int, d: int, c: int)
    requires d * c == W30 && c > 0 && x == h * d + l && 0 <= l < d && 0 <= t < c
    ensures Low(x * c, W30) == l * c && Low(t + x * c, W30) == t + l * c && High(t + x * c, W30) == h
    ensures 0 <= t + l * c < W30
  {
    Regroup(h, d, l, c);
    MulStep(l, d, c);
    MulMonotone(0, l, c);
    DivModUnique(x * c, W30, h, l * c);
    DivModUnique(t + x * c, W30, h, t + l * c);
  }

  lemma NarrowWide(t: int, w: uint32, i: nat)
    requires i < 8 && 0 <= t < Pow2(2 * i)
    ensures Low(Shl32(w, 2 * i), W30) == Low(w * Pow2(2 * i), W30)
    ensures Or(t, Shl32(w, 2 * i)) == t + Shl32(w, 2 * i) && t + Shl32(w, 2 * i) < W32
    ensures Low(t + Shl32(w, 2 * i), W30) == Low(Stacked(t, w, 2 * i), W30)
  {
    ShlMod(0, w, 2 * i);
    ShlMod(t, w, 2 * i);
    hide Low, High, Pow2, Or, Shl32, Stacked;
    LowRange(w, Pow2(32 - 2 * i));
    OrDisjoint(t, Low(w, Pow2(32 - 2 * i)), 2 * i);
    ShlLow(w, 2 * i);
  }

  // The low 30 bits do not depend on the bits a shift loses.
  lemma ShlMod(t: int, w: nat, s: nat)
    ensures Low(t + Shl32(w, s), W30) == Low(Stacked(t, w, s), W30) && Stacked(0, w, s) == w * Pow2(s)
  {
    NarrowMod(t, w * Pow2(s));
  }

  lemma NarrowMod(t: int, x: int)
    ensures (t + x % W32) % W30 == (t + x) % W30
  {
    DivAddMultiple(t + x % W32, 4 * (x / W32), W30);
  }

  lemma NarrowRange(w: uint32, i: nat)
    requires i < 8
    ensures 0 <= High(w, Pow2(30 - 2 * i)) < Pow2(2 * i + 2) <= 0x1_0000
  {
    Pow2Add(30 - 2 * i, 2 * i + 2);
    Pow2Values();
    Pow2Monotone(2 * i + 2, 16);
    var a, b := Pow2(30 - 2 * i), Pow2(2 * i + 2);
    hide Pow2;
    Commute(a, b);
    HighBound(w, a, b - 1);
  }

  lemma NarrowVal(low: seq<int>, t: int, words: seq<int>, i: nat)
    requires |words| == 8 && i < 8 && |low| == i
    requires Accumulated(low, W30, t, Val(words[..i], W32))
    ensures var sum := Stacked(t, words[i], 2 * i);
      Accumulated(low + [Low(sum, W30)], W30, High(sum, W30), Val(words[..i + 1], W32))
  {
    var sum := t + words[i] * Pow2(2 * i);
    ValSnoc(low, Low(sum, W30), W30);
    ValTake(words, i + 1, W32);
    PowNext(W30, i);
    PowBits(i);
    Pow2Add(30 * i, 2 * i);
    assert 30 * i + 2 * i == 32 * i;
    hide Val, Pow, Pow2;
    NarrowArith(V(low), Pow(W30, i), t, words[i], Pow2(2 * i), Low(sum, W30), High(sum, W30));
  }

  lemma NarrowArith(low: int, w: int, t: int, v: int, e: int, d: int, q: int)
    requires t + v * e == q * W30 + d
    ensures (low + w * d) + (W30 * w) * q == (low + w * t) + (w * e) * v
  {
    assert w * (t + v * e) == w * (q * W30 + d);
  }

  // The limbs below i hold 30 bits each and t the bits of the words below i that are left.
  ghost predicate Repacking(words: seq<uint32>, val: Limbs9, t: int, i: nat) {
    && |words| == 8 && i <= 8 && 0 <= t < Pow2(2 * i)
    && (forall k :: 0 <= k < i ==> 0 <= val[k] < W30)
    && Accumulated(val[..i], W30, t, Val(words[..i], W32))
  }

  lemma RepackStart(words: seq<uint32>, val: Limbs9)
    requires |words| == 8
    ensures Repacking(words, val, 0, 0)
  {
  }

  // One word: 30 more bits are stored, and the rest is carried into the next limb.
  lemma RepackRound(words: seq<uint32>, val: Limbs9, t: uint32, i: nat)
    requires Repacking(words, val, t, i) && i < 8
    ensures 0 <= Low(Shl32(words[i], 2 * i), W30)
    ensures var limb := Or(Low(Shl32(words[i], 2 * i), W30), t);
      && 0 <= limb < W30 && 0 <= Or(t, Shl32(words[i], 2 * i)) < W32
      && Low(Or(t, Shl32(words[i], 2 * i)), W30) == limb
      && 0 <= Shr(words[i], 30 - 2 * i) < W32
      && Repacking(words, val[i := limb], Shr(words[i], 30 - 2 * i), i + 1)
  {
    hide V, Val, Pow2, Or, Shr, Shl32, Low, High, Stacked, Accumulated;
    LowRange(Shl32(words[i], 2 * i), W30);
    NarrowStep(t, words[i], i);
    NarrowVal(val[..i], t, words, i);
    TakeUpdate(val, i, Or(Low(Shl32(words[i], 2 * i), W30), t));
  }

  lemma RepackEnd(words: seq<uint32>, val: Limbs9, t: uint32)
    requires Repacking(words, val, t, 8)
    ensures Normalized(val[8 := t]) && V(val[8 := t]) == Val(words, W32)
  {
    Pow2Values();
    ValSnoc(val[..8], t, W30);
    assert words[..8] == words && val[8 := t] == val[..8] + [t];
  }

  // "convert s to bignum style"
  method FromWords(words: seq<uint32>, x: Bignum256)
    requires |words| == 8
    modifies x
    ensures Normalized(x.val) && V(x.val) == Val(words, W32)
  {
    var temp32: uint32 := 0;
    RepackStart(words, x.val);
    hide V, Normalized, Or, Shr, Shl32, Low, Repacking;
    var i := 0;
    while i < 8
      invariant 0 <= i <= 8 && Repacking(words, x.val, temp32, i)
    {
      RepackRound(words, x.val, temp32, i);
      x.val := x.val[i := Or(Low(Shl32(words[i], 2 * i), W30), temp32)];
      temp32 := Shr(words[i], 30 - 2 * i);
      i := i + 1;
    }
    RepackEnd(words, x.val, temp32);
    x.val := x.val[8 := temp32];
  }

  // ---------------------------------------------------------------- shifting a whole number

  // Shifting by whole limbs drops them.
  lemma DropLimbs(s: seq<int>, idx: nat)
    requires idx <= |s| && Normalized(s)
    ensures Pow2(30 * idx) > 0 && V(s) / Pow2(30 * idx) == V(s[idx..])
  {
    ValSplit(s, idx, W30);
    ValBounds(s[..idx], W30);
    PowBits(idx);
    PowPositive(W30, idx);
    hide Pow, Pow2, V;
    QuotientOfSum(V(s), V(s[..idx]), Pow(W30, idx), V(s[idx..]));
  }

  lemma QuotientOfSum(v: int, lo: int, w: int, h: int)
    requires w > 0 && 0 <= lo < w && v == lo + w * h
    ensures v / w == h
  {
    DivModUnique(v, w, h, lo);
  }

  // (x + 2^30 * r) >> sh, the upper limbs entering above bit 30 - sh.
  lemma ShiftOver(x: int, r: int, sh: nat)
    requires sh <= 30
    ensures (x + W30 * r) / Pow2(sh) == x / Pow2(sh) + Pow2(30 - sh) * r
  {
    Pow2Add(30 - sh, sh);
    Pow2Values();
    var m, w := Pow2(sh), Pow2(30 - sh);
    hide Pow2;
    Reassociate(w, m, r);
    DivAddMultiple(x, w * r, m);
  }

  lemma Reassociate(w: int, m: int, r: int)
    ensures (w * m) * r == (w * r) * m
  {
  }

  lemma HeadValue(s: seq<int>, idx: nat)
    requires idx < |s|
    ensures V(s[idx..]) == s[idx] + W30 * V(s[idx + 1..])
  {
    assert s[idx..][1..] == s[idx + 1..];
  }

  lemma AcrossTerms(p: int, hi: int, r: int)
    ensures p * (hi + W30 * r) == hi * p + (p * W30) * r
  {
  }

  lemma TopBits(lo: int, m: int, w: int)
    requires 0 <= lo < W30 && m > 0 && w > 0 && w * m == W30
    ensures 0 <= lo / m < w
  {
    assert (w - 1 + 1) * m == w * m;
    HighBound(lo, m, w - 1);
  }

  lemma ShiftsFit(x: uint32, s: nat)
    ensures 0 <= Shr(x, s) < W32 && 0 <= Shl32(x, s) < W32
  {
    QuotientBelow(x, Pow2(s));
  }

  lemma QuotientBelow(x: int, m: int)
    requires x >= 0 && m > 0
    ensures 0 <= x / m <= x
  {
    LowHigh(x, m);
    MulMonotone(1, m, x / m);
  }

  // A number shifted right by whole limbs and sh bits more.
  lemma ShiftedLimbs(s: seq<int>, idx: nat, sh: nat, bits: nat)
    requires idx < |s| && Normalized(s) && sh <= 30 && bits == 30 * idx + sh
    ensures V(s) / Pow2(bits) == s[idx] / Pow2(sh) + Pow2(30 - sh) * V(s[idx + 1..])
  {
    Pow2Add(30 * idx, sh);
    DropLimbs(s, idx);
    DivDiv(V(s), Pow2(30 * idx), Pow2(sh));
    HeadValue(s, idx);
    ShiftOver(s[idx], V(s[idx + 1..]), sh);
  }
}
