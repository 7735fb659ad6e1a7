// aestab.c: the substitution table is what section 5.1.1 of FIPS 197 defines, the affine image of
// the inverse in GF(2^8).

module AesSBox {
  import opened AesField

  // Section 4.2: the sum of the multiples of a that the bits of b select.
  function GfMul(a: bv8, b: bv8): bv8 {
    var a1 := F2(a);
    var a2 := F2(a1);
    var a3 := F2(a2);
    var a4 := F2(a3);
    var a5 := F2(a4);
    var a6 := F2(a5);
    var a7 := F2(a6);
    (if b & 0x01 != 0 then a else 0) ^ (if b & 0x02 != 0 then a1 else 0) ^ (if b & 0x04 != 0 then a2 else 0)
    ^ (if b & 0x08 != 0 then a3 else 0) ^ (if b & 0x10 != 0 then a4 else 0) ^ (if b & 0x20 != 0 then a5 else 0)
    ^ (if b & 0x40 != 0 then a6 else 0) ^ (if b & 0x80 != 0 then a7 else 0)
  }

  // Bit i of the result is the sum of bits i, i+4, i+5, i+6 and i+7 of b and bit i of 0x63.
  function Affine(b: bv8): bv8 {
    b ^ ((b << 1) | (b >> 7)) ^ ((b << 2) | (b >> 6)) ^ ((b << 3) | (b >> 5)) ^ ((b << 4) | (b >> 4)) ^ 0x63
  }

  function Unaffine(b: bv8): bv8 {
    ((b << 1) | (b >> 7)) ^ ((b << 3) | (b >> 5)) ^ ((b << 6) | (b >> 2)) ^ 0x05
  }

  lemma AffineInverse(b: bv8)
    ensures Affine(Unaffine(b)) == b
  {
  }

  lemma InverseLow(x: bv8)
    requires x < 0x80
    ensures GfMul(x, Unaffine(SBox(x))) == if x == 0 then 0 else 1
  {
  }

  lemma InverseHigh(x: bv8)
    requires x >= 0x80
    ensures GfMul(x, Unaffine(SBox(x))) == 1
  {
  }

  lemma ZeroInverse()
    ensures Unaffine(SBox(0)) == 0
  {
  }

  // Every table entry is the affine image of some y, the inverse of x, or zero for x = 0.
  lemma SBoxDefinition(x: bv8) returns (y: bv8)
    ensures SBox(x) == Affine(y) && (if x == 0 then y == 0 else GfMul(x, y) == 1)
  {
    y := Unaffine(SBox(x));
    AffineInverse(SBox(x));
    if x == 0 {
      ZeroInverse();
    } else if x < 0x80 {
      InverseLow(x);
    } else {
      InverseHigh(x);
    }
    hide SBox, Affine, Unaffine, GfMul;
  }

  // The multiplier macros f3, f9, fb, fd and fe multiply by what they are named after.
  lemma Multipliers(x: bv8)
    ensures F2(x) == GfMul(x, 2) && F3(x) == GfMul(x, 3) && F9(x) == GfMul(x, 9)
    ensures FB(x) == GfMul(x, 0x0B) && FD(x) == GfMul(x, 0x0D) && FE(x) == GfMul(x, 0x0E)
  {
    hide F2, F3, F9, FB, FD, FE, GfMul;
    LowMultipliers(x);
    HighMultipliers(x);
  }

  lemma LowMultipliers(x: bv8)
    ensures F2(x) == GfMul(x, 2) && F3(x) == GfMul(x, 3) && F9(x) == GfMul(x, 9)
  {
  }

  lemma HighMultipliers(x: bv8)
    ensures FB(x) == GfMul(x, 0x0B) && FD(x) == GfMul(x, 0x0D) && FE(x) == GfMul(x, 0x0E)
  {
  }
}
