// Byte strings as bit strings, most significant bit first.

module Bits {
  import Words

  // 1 << (7 - r)
  function Mask(r: nat): bv8
    requires r < 8
  {
    if r == 0 then 0x80 else if r == 1 then 0x40 else if r == 2 then 0x20 else if r == 3 then 0x10
    else if r == 4 then 0x08 else if r == 5 then 0x04 else if r == 6 then 0x02 else 0x01
  }

  predicate Set(b: bv8, r: nat)
    requires r < 8
  {
    b & Mask(r) != 0
  }

  lemma SetBit(b: bv8, r: nat, q: nat)
    requires r < 8 && q < 8
    ensures Set(b | Mask(r), q) == (q == r || Set(b, q))
  {
  }

  lemma SameByte(a: bv8, b: bv8)
    requires Set(a, 0) == Set(b, 0) && Set(a, 1) == Set(b, 1) && Set(a, 2) == Set(b, 2) && Set(a, 3) == Set(b, 3)
    requires Set(a, 4) == Set(b, 4) && Set(a, 5) == Set(b, 5) && Set(a, 6) == Set(b, 6) && Set(a, 7) == Set(b, 7)
    ensures a == b
  {
  }

  function Row(k: nat): nat { k / 8 }

  function Col(k: nat): (c: nat)
    ensures c < 8
  {
    k % 8
  }

  lemma RowCol(q: nat, r: nat)
    requires r < 8
    ensures Row(8 * q + r) == q && Col(8 * q + r) == r
  {
    Words.DivModUnique(8 * q + r, 8, q, r);
  }

  lemma Within(k: nat, n: nat)
    requires k < 8 * n
    ensures Row(k) < n && k == 8 * Row(k) + Col(k)
  {
  }

  // Bit k of a byte string.
  predicate Bit(s: seq<bv8>, k: nat)
    requires k < 8 * |s|
  {
    Within(k, |s|);
    Set(s[Row(k)], Col(k))
  }

  lemma BitAt(s: seq<bv8>, q: nat, r: nat)
    requires q < |s| && r < 8
    ensures Bit(s, 8 * q + r) == Set(s[q], r)
  {
    RowCol(q, r);
  }

  lemma BitOr(s: seq<bv8>, k: nat, j: nat)
    requires k < 8 * |s| && j < 8 * |s|
    ensures Row(k) < |s| && Bit(s[Row(k) := s[Row(k)] | Mask(Col(k))], j) == (j == k || Bit(s, j))
  {
    Within(k, |s|);
    Within(j, |s|);
    hide Row, Col, Set, Mask;
    if Row(j) == Row(k) {
      SetBit(s[Row(k)], Col(k), Col(j));
    }
  }

  // Equal bits, equal bytes.
  lemma SameBits(s: seq<bv8>, t: seq<bv8>, n: nat)
    requires n <= |s| && n <= |t| && forall k :: 0 <= k < 8 * n ==> Bit(s, k) == Bit(t, k)
    ensures s[..n] == t[..n]
  {
    hide Set, Bit;
    forall q | 0 <= q < n
      ensures s[q] == t[q]
    {
      forall r | 0 <= r < 8
        ensures Set(s[q], r) == Set(t[q], r)
      {
        BitAt(s, q, r);
        BitAt(t, q, r);
        assert Bit(s, 8 * q + r) == Bit(t, 8 * q + r);
      }
      SameByte(s[q], t[q]);
    }
  }

  // The byte whose first t bits are set.
  function TopMask(t: nat): bv8
    requires t <= 8
  {
    if t == 0 then 0 else if t == 1 then 0x80 else if t == 2 then 0xC0 else if t == 3 then 0xE0 else if t == 4 then 0xF0
    else if t == 5 then 0xF8 else if t == 6 then 0xFC else if t == 7 then 0xFE else 0xFF
  }

  lemma TopMaskNext(t: nat)
    requires t < 8
    ensures TopMask(t) | Mask(t) == TopMask(t + 1)
  {
  }

  lemma Masked4(a: bv8, b: bv8)
    ensures a & 0xF0 == b & 0xF0
      <==> Set(a, 0) == Set(b, 0) && Set(a, 1) == Set(b, 1) && Set(a, 2) == Set(b, 2) && Set(a, 3) == Set(b, 3)
  {
  }

  lemma Masked6(a: bv8, b: bv8)
    ensures a & 0x0C == b & 0x0C <==> Set(a, 4) == Set(b, 4) && Set(a, 5) == Set(b, 5)
  {
  }

  lemma Masked7(a: bv8, b: bv8)
    ensures a & 0x02 == b & 0x02 <==> Set(a, 6) == Set(b, 6)
    ensures a & 0x01 == b & 0x01 <==> Set(a, 7) == Set(b, 7)
  {
  }

  lemma LastTwo(a: bv8, b: bv8)
    ensures a & 0x03 == b & 0x03 <==> a & 0x02 == b & 0x02 && a & 0x01 == b & 0x01
  {
  }

  lemma Masked8(a: bv8, b: bv8)
    ensures a & 0x03 == b & 0x03 <==> Set(a, 6) == Set(b, 6) && Set(a, 7) == Set(b, 7)
  {
    Masked7(a, b);
    LastTwo(a, b);
    hide Set;
  }

  lemma MaskSplit(a: bv8, b: bv8)
    ensures a & 0xFC == b & 0xFC <==> a & 0xF0 == b & 0xF0 && a & 0x0C == b & 0x0C
    ensures a & 0xFF == b & 0xFF <==> a & 0xFC == b & 0xFC && a & 0x03 == b & 0x03
  {
  }

  // The bytes agree under the mask of their first t bits.
  predicate Agree(a: bv8, b: bv8, t: nat)
    requires t <= 8
  {
    a & TopMask(t) == b & TopMask(t)
  }

  // Masked bytes are equal exactly when the bytes agree in their first t bits.
  lemma MaskedEqual(a: bv8, b: bv8, t: nat)
    requires t == 4 || t == 6 || t == 8
    ensures Agree(a, b, t)
      <==> && Set(a, 0) == Set(b, 0) && Set(a, 1) == Set(b, 1) && Set(a, 2) == Set(b, 2) && Set(a, 3) == Set(b, 3)
           && (t >= 6 ==> Set(a, 4) == Set(b, 4) && Set(a, 5) == Set(b, 5))
           && (t >= 8 ==> Set(a, 6) == Set(b, 6) && Set(a, 7) == Set(b, 7))
  {
    Masked4(a, b);
    Masked6(a, b);
    Masked8(a, b);
    MaskSplit(a, b);
    hide Set;
  }

  // ---------------------------------------------------------------- eleven-bit groups

  // The number whose bits, highest first, are b.
  function Index(b: seq<bool>): (n: nat) {
    if b == [] then 0 else 2 * Index(b[..|b| - 1]) + (if b[|b| - 1] then 1 else 0)
  }


  // k & (1 << n)
  predicate NumberBit(k: nat, n: nat) {
    k / Words.Pow2(n) % 2 == 1
  }

  lemma {:induction false} IndexBound(b: seq<bool>)
    ensures Index(b) < Words.Pow2(|b|)
  {
    if b != [] {
      IndexBound(b[..|b| - 1]);
    }
  }

  lemma HalfBit(k: nat, n: nat)
    ensures NumberBit(k, n + 1) == NumberBit(k / 2, n)
  {
    Words.DivDiv(k, 2, Words.Pow2(n));
  }

  // The bits of a number built from bits.
  lemma {:induction false} IndexBits(b: seq<bool>, r: nat)
    requires r < |b|
    ensures NumberBit(Index(b), |b| - 1 - r) == b[r]
  {
    var t := b[..|b| - 1];
    Words.DivModUnique(Index(b), 2, Index(t), if b[|b| - 1] then 1 else 0);
    if r < |b| - 1 {
      IndexBits(t, r);
      HalfBit(Index(b), |b| - 2 - r);
    } else {
      assert Words.Pow2(0) == 1;
    }
  }

  // A number is determined by its bits.
  lemma {:induction false} IndexOf(k: nat, b: seq<bool>)
    requires k < Words.Pow2(|b|) && forall r :: 0 <= r < |b| ==> NumberBit(k, |b| - 1 - r) == b[r]
    ensures Index(b) == k
  {
    if b != [] {
      var t := b[..|b| - 1];
      forall r | 0 <= r < |t|
        ensures NumberBit(k / 2, |t| - 1 - r) == t[r]
      {
        HalfBit(k, |t| - 1 - r);
        assert NumberBit(k, |b| - 1 - r) == b[r];
      }
      IndexOf(k / 2, t);
      assert NumberBit(k, 0) == b[|b| - 1];
      assert Words.Pow2(0) == 1;
    }
  }
}
