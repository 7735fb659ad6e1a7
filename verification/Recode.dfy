// The signed odd digits point_multiply and scalar_multiply read off a scalar.

module Recode {
  import opened Words
  import opened Field

  // a | 1
  function MakeOdd(a: int): int {
    if a % 2 == 0 then a + 1 else a
  }

  // a >> (4*i) with the lowest bit set
  function Upper(a: int, i: nat): int {
    PowPositive(16, i);
    MakeOdd(a / Pow(16, i))
  }

  // The digit in position i.
  function Digit(a: int, i: nat): int {
    Upper(a, i) - 16 * Upper(a, i + 1)
  }

  // The five bits the code looks at.
  function Window(a: int, i: nat): int {
    PowPositive(16, i);
    (a / Pow(16, i)) % 32
  }

  lemma NextQuotient(a: int, i: nat)
    ensures Pow(16, i) > 0 && a / Pow(16, i + 1) == (a / Pow(16, i)) / 16
  {
    PowPositive(16, i);
    DivDiv(a, Pow(16, i), 16);
    assert Pow(16, i) * 16 == Pow(16, i + 1);
  }

  lemma OddOf(m: int, e: int)
    requires 0 <= e <= 1
    ensures MakeOdd(2 * m + e) == 2 * m + 1
  {
  }

  // Bit 4 of the window is the sign; bits 1 to 3 choose the magnitude.
  lemma DigitOfWindow(a: int, i: nat) returns (b: int, t: int, e: int)
    ensures 0 <= b <= 1 && 0 <= t < 8 && 0 <= e <= 1 && Window(a, i) == 16 * b + 2 * t + e
    ensures Digit(a, i) == 16 * b + 2 * t + 1 - 16
  {
    NextQuotient(a, i);
    b, t, e := WindowBits(a / Pow(16, i));
  }

  lemma WindowBits(q: int) returns (b: int, t: int, e: int)
    ensures 0 <= b <= 1 && 0 <= t < 8 && 0 <= e <= 1 && q % 32 == 16 * b + 2 * t + e
    ensures MakeOdd(q) - 16 * MakeOdd(q / 16) == 16 * b + 2 * t + 1 - 16
  {
    var h, w := q / 32, q % 32;
    b := w / 16;
    t := (w - 16 * b) / 2;
    e := w - 16 * b - 2 * t;
    assert q == 2 * (16 * h + 8 * b + t) + e;
    DivModUnique(q, 16, 2 * h + b, 2 * t + e);
    OddOf(16 * h + 8 * b + t, e);
    OddOf(h, b);
  }

  // bits ^= (bits >> 4) - 1; bits &= 15, as the code computes them.
  function SignMask(w: uint32): uint32
    requires w < 32
  {
    if w >= 16 then 0 else W32 - 1
  }

  function TableIndex(w: uint32): (j: nat)
    requires w < 32
  {
    And(Xor(w, SignMask(w)), 15) / 2
  }

  // The table entry is the magnitude of the digit, the mask its sign.
  lemma TableEntry(a: int, i: nat)
    ensures var w := Window(a, i);
      && 0 <= w < 32 && 0 <= TableIndex(w) < 8 && SignMask(w) == ((w / 16) - 1) % W32
      && Digit(a, i) == (if SignMask(w) == 0 then 1 else -1) * (2 * TableIndex(w) + 1)
  {
    var b, t, e := DigitOfWindow(a, i);
    hide Window, Digit, Upper, TableIndex;
    EntryOfWindow(b, t, e);
  }

  lemma EntryOfWindow(b: int, t: int, e: int)
    requires 0 <= b <= 1 && 0 <= t < 8 && 0 <= e <= 1
    ensures TableIndex(16 * b + 2 * t + e) == if b == 1 then t else 7 - t
  {
    var w := 16 * b + 2 * t + e;
    Masks(w);
    Masks(W32 - 1 - w);
    hide And, Xor;
    if b == 1 {
      DivModUnique(w, 16, 1, 2 * t + e);
      DivModUnique(2 * t + e, 2, t, e);
    } else {
      DivModUnique(W32 - 1 - w, 16, 0x0FFF_FFFF, 15 - w);
      DivModUnique(15 - w, 2, 7 - t, 1 - e);
    }
  }

  lemma Masks(w: uint32)
    ensures Xor(w, 0) == w && And(w, 15) == w % 16
    ensures Xor(w, W32 - 1) == W32 - 1 - w
  {
    hide And, Xor, Pow2;
    XorZeroRight(w);
    Pow2Small();
    Pow2Values();
    XorMask(w, 32);
    AndMask(w, 4);
  }

  lemma XorZeroRight(w: nat)
    ensures Xor(w, 0) == w
  {
  }

  // ---------------------------------------------------------------- sums of digits

  // sum_{j < i} d_j * 16^j
  function LowSum(a: int, i: nat): int {
    if i == 0 then 0 else LowSum(a, i - 1) + Pow(16, i - 1) * Digit(a, i - 1)
  }

  lemma {:induction false} LowSumClosed(a: int, i: nat)
    requires a % 2 == 1
    ensures LowSum(a, i) == a - Pow(16, i) * Upper(a, i)
  {
    if i == 0 {
      assert a / 1 == a;
    } else {
      LowSumClosed(a, i - 1);
      SumStep(Pow(16, i - 1), Upper(a, i - 1), Upper(a, i));
    }
  }

  lemma SumStep(w: int, u: int, v: int)
    ensures -(w * u) + w * (u - 16 * v) == -((16 * w) * v)
  {
    assert w * (u - 16 * v) == w * u - w * (16 * v);
    assert w * (16 * v) == (16 * w) * v;
  }

  // sum_{i <= j < 64} d_j * 16^(j-i)
  function HighSum(a: int, i: nat): int
    requires i <= 64
    decreases 64 - i
  {
    if i == 64 then 0 else 16 * HighSum(a, i + 1) + Digit(a, i)
  }

  lemma {:induction false} HighSumClosed(a: int, i: nat)
    requires i <= 64 && Upper(a, 64) == 1
    ensures HighSum(a, i) == Upper(a, i) - Pow(16, 64 - i)
    decreases 64 - i
  {
    if i == 64 {
    } else {
      HighSumClosed(a, i + 1);
      PowNext(16, 63 - i);
    }
  }

  // The range of the recoded scalar: an odd number below 2^257.
  ghost predicate Recodable(a: int) {
    0 < a < 2 * Pow(16, 64) && a % 2 == 1
  }

  lemma UpperRange(a: int, i: nat)
    requires Recodable(a) && i <= 64
    ensures 0 < Upper(a, i) < 2 * Pow(16, 64 - i) && Upper(a, i) % 2 == 1
  {
    hide Pow;
    PowPositive(16, i);
    PowAdd(16, 64 - i, i);
    QuotientRange(a, Pow(16, i), Pow(16, 64 - i));
  }

  lemma QuotientRange(a: int, w: int, v: int)
    requires w > 0 && 0 <= a < 2 * (v * w)
    ensures 0 <= a / w < 2 * v
  {
    hide Low;
    assert (2 * v - 1 + 1) * w == 2 * (v * w);
    HighBound(a, w, 2 * v - 1);
  }

  lemma TopUpper(a: int)
    requires Recodable(a)
    ensures Upper(a, 64) == 1
  {
    UpperRange(a, 64);
  }

  lemma EvenPower(i: nat)
    requires i > 0
    ensures Pow(16, i) % 2 == 0 && Pow(16, i) > 0
  {
    PowPositive(16, i);
  }

  // No sum of the upper digits vanishes, and none reaches 16^(64-i).
  lemma HighSumRange(a: int, i: nat)
    requires Recodable(a) && i < 64
    ensures -Pow(16, 64 - i) < HighSum(a, i) < Pow(16, 64 - i) && HighSum(a, i) % 2 == 1
  {
    hide Pow, Recodable, Upper, HighSum;
    TopUpper(a);
    HighSumClosed(a, i);
    UpperRange(a, i);
    EvenPower(64 - i);
  }

  // The same for the sums from below.
  lemma LowSumRange(a: int, i: nat)
    requires Recodable(a) && 0 < i <= 64
    ensures -Pow(16, i) < LowSum(a, i) < Pow(16, i) && LowSum(a, i) % 2 == 1
  {
    OddScalar(a);
    EvenPower(i);
    hide Pow, Recodable, LowSum;
    LowSumClosed(a, i);
    LowHigh(a, Pow(16, i));
    BetweenPowers(a, Pow(16, i), a / Pow(16, i), a % Pow(16, i), LowSum(a, i));
  }

  lemma BetweenPowers(a: int, w: int, q: int, r: int, s: int)
    requires w > 0 && w % 2 == 0 && a % 2 == 1 && a == q * w + r && 0 <= r < w
    requires s == a - w * MakeOdd(q)
    ensures -w < s < w && s % 2 == 1
  {
    LowSumOdd(a, w, MakeOdd(q));
    assert w * (q + 1) == q * w + w && w * q == q * w;
  }

  lemma OddScalar(a: int)
    requires Recodable(a)
    ensures a % 2 == 1
  {
  }

  lemma LowSumOdd(a: int, w: int, u: int)
    requires w % 2 == 0 && a % 2 == 1
    ensures (a - w * u) % 2 == 1
  {
    var v := w / 2;
    assert w == 2 * v;
    Doubled(v, u);
  }

  lemma Doubled(v: int, u: int)
    ensures (2 * v) * u == 2 * (v * u)
  {
  }

  // An odd number closer to zero than a modulus of at least 16^63 is no multiple of it.
  lemma NotAMultiple(s: int, bound: int, n: int)
    requires s % 2 == 1 && -bound < s < bound <= n
    ensures s % n != 0
  {
    if s > 0 {
      SmallMod(s, n);
    } else {
      DivModUnique(s, n, -1, s + n);
    }
  }
}
