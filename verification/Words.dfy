// Fixed-width C integers and the bit operations the library uses on them.

module Words {
  const W8: int := 0x100
  const W30: int := 0x4000_0000
  const W32: int := 0x1_0000_0000
  const W64: int := 0x1_0000_0000_0000_0000

  type uint8 = x: int | 0 <= x < 0x100
  type uint32 = x: int | 0 <= x < 0x1_0000_0000
  type uint64 = x: int | 0 <= x < 0x1_0000_0000_0000_0000

  function Pow(b: int, n: nat): int {
    if n == 0 then 1 else b * Pow(b, n - 1)
  }

  function Pow2(n: nat): (r: int)
    ensures r > 0
  {
    if n == 0 then 1 else 2 * Pow2(n - 1)
  }

  lemma {:induction false} PowAdd(b: int, m: nat, n: nat)
    ensures Pow(b, m + n) == Pow(b, m) * Pow(b, n)
  {
    if m == 0 {
    } else {
      PowAdd(b, m - 1, n);
    }
  }

  lemma PowNext(b: int, n: nat)
    ensures Pow(b, n + 1) == b * Pow(b, n)
  {
  }

  lemma {:induction false} PowPositive(b: int, n: nat)
    requires b > 0
    ensures Pow(b, n) > 0
  {
    if n == 0 {
    } else {
      PowPositive(b, n - 1);
    }
  }

  lemma {:induction false} Pow2Add(m: nat, n: nat)
    ensures Pow2(m + n) == Pow2(m) * Pow2(n)
  {
    if m == 0 {
    } else {
      Pow2Add(m - 1, n);
    }
  }

  lemma {:induction false} Pow2Pow(e: nat, n: nat)
    ensures Pow2(e * n) == Pow(Pow2(e), n)
  {
    if n == 0 {
    } else {
      Pow2Pow(e, n - 1);
      Pow2Add(e, e * (n - 1));
    }
  }

  lemma {:induction false} Pow2Monotone(m: nat, n: nat)
    requires m <= n
    ensures Pow2(m) <= Pow2(n)
  {
    if m < n {
      Pow2Monotone(m, n - 1);
    }
  }

  lemma Pow2Small()
    ensures Pow2(1) == 2 && Pow2(4) == 16 && Pow2(5) == 32 && Pow2(8) == 0x100
  {
    assert Pow2(4) == 16;
    Pow2Add(4, 4);
  }

  lemma Pow2Values()
    ensures Pow2(16) == 0x1_0000 && Pow2(30) == 0x4000_0000 && Pow2(32) == 0x1_0000_0000
    ensures Pow2(64) == 0x1_0000_0000_0000_0000
  {
    Pow2Small();
    Pow2Add(8, 8);
    Pow2Add(15, 15);
    Pow2Add(16, 16);
    Pow2Add(32, 32);
    assert Pow2(16) == 2 * Pow2(15);
  }

  // ---------------------------------------------------------------- division

  lemma MulMonotone(a: int, b: int, c: int)
    requires a <= b && c >= 0
    ensures a * c <= b * c
  {
  }

  lemma MulStep(q: int, q': int, d: int)
    requires q < q' && d >= 0
    ensures q * d + d <= q' * d
  {
    MulMonotone(q + 1, q', d);
    assert (q + 1) * d == q * d + d;
  }

  lemma QuotientUnique(d: int, q: int, r: int, q': int, r': int)
    requires 0 <= r < d && 0 <= r' < d
    requires q * d + r == q' * d + r'
    ensures q == q'
  {
    if q > q' {
      MulStep(q', q, d);
    } else if q < q' {
      MulStep(q, q', d);
    }
  }

  lemma DivModUnique(x: int, d: int, q: int, r: int)
    requires d > 0 && x == q * d + r && 0 <= r < d
    ensures x / d == q && x % d == r
  {
    QuotientUnique(d, q, r, x / d, x % d);
  }

  lemma Regroup(q: int, b: int, r: int, a: int)
    ensures (q * b + r) * a == q * (a * b) + r * a
  {
  }

  // (x / a) / b == x / (a * b)
  lemma DivDiv(x: int, a: int, b: int)
    requires a > 0 && b > 0
    ensures a * b > 0 && (x / a) / b == x / (a * b)
  {
    var q1, r1 := x / a, x % a;
    var q, r := q1 / b, q1 % b;
    Regroup(q, b, r, a);
    MulStep(r, b, a);
    MulMonotone(0, r, a);
    assert b * a == a * b;
    DivModUnique(x, a * b, q, r * a + r1);
  }

  lemma DivAddMultiple(x: int, k: int, d: int)
    requires d > 0
    ensures (x + k * d) / d == x / d + k && (x + k * d) % d == x % d
  {
    DivModUnique(x + k * d, d, x / d + k, x % d);
  }

  // Taking off the lowest bit halves both the number and the modulus.
  lemma DoubleMod(a: int, m: int)
    requires m > 0
    ensures a % (2 * m) == 2 * ((a / 2) % m) + a % 2
  {
    var q, r := (a / 2) / m, (a / 2) % m;
    Regroup(q, m, r, 2);
    DivModUnique(a, 2 * m, q, 2 * r + a % 2);
  }

  // The part of a word below a power of two b, and the part above it: t & (b - 1) and t >> log2(b).
  function Low(t: int, b: int): int
    requires b > 0
  {
    t % b
  }

  function High(t: int, b: int): int
    requires b > 0
  {
    t / b
  }

  lemma LowHigh(t: int, b: int)
    requires b > 0
    ensures t == High(t, b) * b + Low(t, b) && 0 <= Low(t, b) < b
  {
  }

  lemma LowRange(t: int, b: int)
    requires b > 0
    ensures 0 <= Low(t, b) < b
  {
  }

  lemma HighNonneg(t: int, b: int)
    requires b > 0 && t >= 0
    ensures High(t, b) >= 0
  {
    LowHigh(t, b);
    hide Low, High;
    if High(t, b) < 0 {
      MulStep(High(t, b), 0, b);
    }
  }

  lemma HighBound(t: int, b: int, k: int)
    requires b > 0 && 0 <= t < (k + 1) * b
    ensures 0 <= Low(t, b) < b && 0 <= High(t, b) <= k
  {
    LowHigh(t, b);
    if High(t, b) < 0 {
      MulStep(High(t, b), 0, b);
    } else if High(t, b) > k {
      MulMonotone(k + 1, High(t, b), b);
    }
  }

  // ---------------------------------------------------------------- bit operations

  function And(a: nat, b: nat): (r: nat)
    decreases a
  {
    if a == 0 || b == 0 then 0
    else (if a % 2 == 1 && b % 2 == 1 then 1 else 0) + 2 * And(a / 2, b / 2)
  }

  function Or(a: nat, b: nat): (r: nat)
    decreases a
  {
    if a == 0 then b
    else if b == 0 then a
    else (if a % 2 == 1 || b % 2 == 1 then 1 else 0) + 2 * Or(a / 2, b / 2)
  }

  function Xor(a: nat, b: nat): (r: nat)
    decreases a
  {
    if a == 0 then b
    else if b == 0 then a
    else (if a % 2 != b % 2 then 1 else 0) + 2 * Xor(a / 2, b / 2)
  }

  // A mask of k ones keeps the low k bits.
  lemma {:induction false} AndMask(a: nat, k: nat)
    ensures And(a, Pow2(k) - 1) == a % Pow2(k)
  {
    if a == 0 || k == 0 {
    } else {
      AndMask(a / 2, k - 1);
      DoubleMod(a, Pow2(k - 1));
      assert (Pow2(k) - 1) / 2 == Pow2(k - 1) - 1;
    }
  }

  // Combining two words whose set bits do not overlap is addition.
  lemma {:induction false} OrDisjoint(a: nat, b: nat, k: nat)
    requires a < Pow2(k)
    ensures Or(a, b * Pow2(k)) == a + b * Pow2(k)
    ensures Or(b * Pow2(k), a) == a + b * Pow2(k)
  {
    if a == 0 || b == 0 {
    } else {
      var m := Pow2(k - 1);
      var c := b * Pow2(k);
      assert c == 2 * (b * m);
      OrDisjoint(a / 2, b, k - 1);
      assert c / 2 == b * m;
    }
  }

  lemma {:induction false} OrZero(a: nat, b: nat)
    ensures Or(a, b) == 0 <==> a == 0 && b == 0
  {
    if a == 0 || b == 0 {
    } else {
      OrZero(a / 2, b / 2);
    }
  }

  lemma {:induction false} XorZero(a: nat, b: nat)
    ensures Xor(a, b) == 0 <==> a == b
  {
    if a == 0 || b == 0 {
    } else {
      XorZero(a / 2, b / 2);
    }
  }

  // Complementing the low k bits subtracts from the all-ones word.
  lemma {:induction false} XorMask(a: nat, k: nat)
    requires a < Pow2(k)
    ensures Xor(a, Pow2(k) - 1) == Pow2(k) - 1 - a
  {
    if a == 0 || k == 0 {
    } else {
      var m := Pow2(k - 1);
      assert (2 * m - 1) / 2 == m - 1;
      XorMask(a / 2, k - 1);
    }
  }

  // ---------------------------------------------------------------- 32-bit shifts

  function Shr(x: nat, s: nat): (r: nat)
  {
    HighNonneg(x, Pow2(s));
    High(x, Pow2(s))
  }

  function Shl32(x: nat, s: nat): (r: nat)
  {
    (x * Pow2(s)) % W32
  }

  lemma Pow2Split(j: nat)
    requires j <= 32
    ensures Pow2(j) * Pow2(32 - j) == W32
  {
    Pow2Add(j, 32 - j);
    Pow2Values();
  }

  lemma ShiftArith(x: int, h: int, l: int, w: int, m: int)
    requires w * m == W32 && m > 0 && x == h * w + l && 0 <= l < w
    ensures 0 <= l * m <= W32 - m && (x * m) % W32 == l * m && (x * m) / W32 == h
  {
    Regroup(h, w, l, m);
    MulStep(l, w, m);
    MulMonotone(0, l, m);
    DivModUnique(x * m, W32, h, l * m);
  }

  lemma Swapped(m: int, w: int)
    ensures m * w == w * m
  {
  }

  // Shifting left discards the bits that leave the word.
  lemma ShlLow(x: nat, s: nat)
    requires s <= 32
    ensures Shl32(x, s) == Low(x, Pow2(32 - s)) * Pow2(s)
    ensures 0 <= Shl32(x, s) <= W32 - Pow2(s)
  {
    hide Low, High, Pow2;
    var m, w := Pow2(s), Pow2(32 - s);
    Pow2Split(s);
    Swapped(m, w);
    LowHigh(x, w);
    ShiftArith(x, High(x, w), Low(x, w), w, m);
  }

  // (lo >> s) | (hi << (32 - s)): the low s bits of hi enter above the high bits of lo.
  lemma Funnel(lo: uint32, hi: uint32, s: nat)
    requires 1 <= s <= 31
    ensures Or(Shr(lo, s), Shl32(hi, 32 - s)) == High(lo, Pow2(s)) + Low(hi, Pow2(s)) * Pow2(32 - s)
    ensures Or(Shl32(hi, 32 - s), Shr(lo, s)) == High(lo, Pow2(s)) + Low(hi, Pow2(s)) * Pow2(32 - s)
    ensures 0 <= High(lo, Pow2(s)) + Low(hi, Pow2(s)) * Pow2(32 - s) < W32
  {
    hide Low, High, Pow2;
    var m, w := Pow2(s), Pow2(32 - s);
    Pow2Split(s);
    Swapped(m, w);
    ShlLow(hi, 32 - s);
    LowHigh(hi, m);
    HighBound(lo, m, w - 1);
    OrDisjoint(High(lo, m), Low(hi, m), 32 - s);
  }
}
