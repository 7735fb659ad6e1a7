// aestab.c and aesopt.h: bytes, 32-bit words as their four bytes in the build's little-endian
// order, the multiplications of GF(2^8) and the two substitution tables.

module AesField {
  // ---------------------------------------------------------------- exclusive or

  function Xor8(a: bv8, b: bv8): bv8 {
    a ^ b
  }

  function Sum8(a: bv8, b: bv8, c: bv8, d: bv8): bv8 {
    Xor8(Xor8(Xor8(a, b), c), d)
  }

  // bytes2word: bval(w, n) is the field bn.
  datatype Word = Word(b0: bv8, b1: bv8, b2: bv8, b3: bv8)

  const ZERO := Word(0, 0, 0, 0)

  function Xor(a: Word, b: Word): Word {
    Word(Xor8(a.b0, b.b0), Xor8(a.b1, b.b1), Xor8(a.b2, b.b2), Xor8(a.b3, b.b3))
  }

  lemma BitLaws(a: bv8, b: bv8, c: bv8)
    ensures (a ^ b) ^ c == a ^ (b ^ c) && a ^ b == b ^ a && a ^ a == 0 && a ^ 0 == a
  {
  }

  lemma Laws8(a: bv8, b: bv8, c: bv8)
    ensures Xor8(Xor8(a, b), c) == Xor8(a, Xor8(b, c)) && Xor8(a, b) == Xor8(b, a)
    ensures Xor8(a, a) == 0 && Xor8(a, 0) == a
  {
    BitLaws(a, b, c);
  }

  lemma Laws(a: Word, b: Word, c: Word)
    ensures Xor(Xor(a, b), c) == Xor(a, Xor(b, c)) && Xor(a, b) == Xor(b, a) && Xor(a, a) == ZERO && Xor(a, ZERO) == a
  {
    Laws8(a.b0, b.b0, c.b0);
    Laws8(a.b1, b.b1, c.b1);
    Laws8(a.b2, b.b2, c.b2);
    Laws8(a.b3, b.b3, c.b3);
    hide Xor8;
  }

  // What is added twice disappears.
  lemma Undo(a: Word, b: Word)
    ensures Xor(Xor(a, b), b) == a && Xor(b, Xor(b, a)) == a && Xor(b, Xor(a, b)) == a && Xor(Xor(b, a), b) == a
  {
    Laws(a, b, b);
    Laws(b, b, a);
    Laws(b, a, b);
    Laws(a, ZERO, ZERO);
    Laws(b, Xor(a, b), ZERO);
    hide Xor;
  }

  lemma Swap8(a: bv8, b: bv8, c: bv8, d: bv8)
    ensures Xor8(Xor8(a, b), Xor8(c, d)) == Xor8(Xor8(a, c), Xor8(b, d))
  {
    Laws8(a, b, Xor8(c, d));
    Laws8(b, c, d);
    Laws8(c, b, d);
    Laws8(a, c, Xor8(b, d));
    Laws8(b, c, c);
    hide Xor8;
  }

  lemma PairSum(a0: bv8, a1: bv8, a2: bv8, a3: bv8, b0: bv8, b1: bv8, b2: bv8, b3: bv8)
    ensures Xor8(Sum8(a0, a1, a2, a3), Sum8(b0, b1, b2, b3)) == Sum8(Xor8(a0, b0), Xor8(a1, b1), Xor8(a2, b2), Xor8(a3, b3))
  {
    hide Xor8;
    Swap8(Xor8(Xor8(a0, a1), a2), a3, Xor8(Xor8(b0, b1), b2), b3);
    Swap8(Xor8(a0, a1), a2, Xor8(b0, b1), b2);
    Swap8(a0, a1, b0, b1);
  }

  // Four sums of four, added up by rows or by columns.
  lemma Transpose(a0: bv8, a1: bv8, a2: bv8, a3: bv8, b0: bv8, b1: bv8, b2: bv8, b3: bv8,
                  c0: bv8, c1: bv8, c2: bv8, c3: bv8, d0: bv8, d1: bv8, d2: bv8, d3: bv8)
    ensures Sum8(Sum8(a0, a1, a2, a3), Sum8(b0, b1, b2, b3), Sum8(c0, c1, c2, c3), Sum8(d0, d1, d2, d3))
         == Sum8(Sum8(a0, b0, c0, d0), Sum8(a1, b1, c1, d1), Sum8(a2, b2, c2, d2), Sum8(a3, b3, c3, d3))
  {
    hide Xor8;
    PairSum(a0, a1, a2, a3, b0, b1, b2, b3);
    PairSum(Xor8(a0, b0), Xor8(a1, b1), Xor8(a2, b2), Xor8(a3, b3), c0, c1, c2, c3);
    PairSum(Xor8(Xor8(a0, b0), c0), Xor8(Xor8(a1, b1), c1), Xor8(Xor8(a2, b2), c2), Xor8(Xor8(a3, b3), c3), d0, d1, d2, d3);
  }

  // ---------------------------------------------------------------- GF(2^8)

  // f2, f4 and f8: the bits the shift pushes out of the byte are cancelled by the modular
  // polynomial 0x11b, so only its low byte shows.
  function Shift(x: bv8): bv8 {
    x << 1
  }

  function Fold(x: bv8): bv8 {
    if x & 0x80 != 0 then 0x1B else 0
  }

  function F2(x: bv8): bv8 {
    Xor8(Shift(x), Fold(x))
  }

  function F4(x: bv8): bv8 {
    (x << 2) ^ (if x & 0x40 != 0 then 0x1B else 0) ^ (if x & 0x80 != 0 then 0x36 else 0)
  }

  function F8(x: bv8): bv8 {
    (x << 3) ^ (if x & 0x20 != 0 then 0x1B else 0) ^ (if x & 0x40 != 0 then 0x36 else 0)
             ^ (if x & 0x80 != 0 then 0x6C else 0)
  }

  function F3(x: bv8): bv8 { Xor8(F2(x), x) }

  function F9(x: bv8): bv8 { Xor8(F8(x), x) }

  function FB(x: bv8): bv8 { Xor8(Xor8(F8(x), F2(x)), x) }

  function FD(x: bv8): bv8 { Xor8(Xor8(F8(x), F4(x)), x) }

  function FE(x: bv8): bv8 { Xor8(Xor8(F8(x), F4(x)), F2(x)) }

  lemma Powers(x: bv8)
    ensures F4(x) == F2(F2(x)) && F8(x) == F2(F4(x))
  {
  }

  lemma ShiftXor(x: bv8, y: bv8)
    ensures Shift(Xor8(x, y)) == Xor8(Shift(x), Shift(y))
  {
  }

  lemma FoldXor(x: bv8, y: bv8)
    ensures Fold(Xor8(x, y)) == Xor8(Fold(x), Fold(y))
  {
  }

  lemma Linear2(x: bv8, y: bv8)
    ensures F2(Xor8(x, y)) == Xor8(F2(x), F2(y))
  {
    ShiftXor(x, y);
    FoldXor(x, y);
    Swap8(Shift(x), Shift(y), Fold(x), Fold(y));
    hide Shift, Fold, Xor8;
  }

  lemma Linear48(x: bv8, y: bv8)
    ensures F4(Xor8(x, y)) == Xor8(F4(x), F4(y)) && F8(Xor8(x, y)) == Xor8(F8(x), F8(y))
  {
    Powers(x);
    Powers(y);
    Powers(Xor8(x, y));
    hide F2, F4, F8, Xor8;
    Linear2(x, y);
    Linear2(F2(x), F2(y));
    Linear2(F4(x), F4(y));
  }

  // Every multiplication of the tables is linear.
  lemma Linear(x: bv8, y: bv8)
    ensures FE(Xor8(x, y)) == Xor8(FE(x), FE(y)) && FB(Xor8(x, y)) == Xor8(FB(x), FB(y))
    ensures FD(Xor8(x, y)) == Xor8(FD(x), FD(y)) && F9(Xor8(x, y)) == Xor8(F9(x), F9(y))
  {
    Linear2(x, y);
    Linear48(x, y);
    hide F2, F4, F8, Xor8;
    Swap8(F8(x), F8(y), x, y);
    Swap8(F8(x), F8(y), F2(x), F2(y));
    Swap8(F8(x), F8(y), F4(x), F4(y));
    Swap8(Xor8(F8(x), F2(x)), Xor8(F8(y), F2(y)), x, y);
    Swap8(Xor8(F8(x), F4(x)), Xor8(F8(y), F4(y)), x, y);
    Swap8(Xor8(F8(x), F4(x)), Xor8(F8(y), F4(y)), F2(x), F2(y));
  }

  lemma LinearSum(a: bv8, b: bv8, c: bv8, d: bv8)
    ensures FE(Sum8(a, b, c, d)) == Sum8(FE(a), FE(b), FE(c), FE(d))
    ensures FB(Sum8(a, b, c, d)) == Sum8(FB(a), FB(b), FB(c), FB(d))
    ensures FD(Sum8(a, b, c, d)) == Sum8(FD(a), FD(b), FD(c), FD(d))
    ensures F9(Sum8(a, b, c, d)) == Sum8(F9(a), F9(b), F9(c), F9(d))
  {
    hide F9, FB, FD, FE, Xor8;
    Linear(Xor8(Xor8(a, b), c), d);
    Linear(Xor8(a, b), c);
    Linear(a, b);
  }

  // The inverse column matrix times the forward one, entry by entry.
  lemma MatrixDiagonal(x: bv8)
    ensures Sum8(FE(F2(x)), FB(x), FD(x), F9(F3(x))) == x
  {
  }

  lemma MatrixUpper(x: bv8)
    ensures Sum8(FE(F3(x)), FB(F2(x)), FD(x), F9(x)) == 0
  {
  }

  lemma MatrixOpposite(x: bv8)
    ensures Sum8(FE(x), FB(F3(x)), FD(F2(x)), F9(x)) == 0
  {
  }

  lemma MatrixLower(x: bv8)
    ensures Sum8(FE(x), FB(x), FD(F3(x)), F9(F2(x))) == 0
  {
  }

  lemma Rotated(a: bv8, b: bv8, c: bv8, d: bv8)
    ensures Sum8(a, b, c, d) == Sum8(b, c, d, a)
  {
    Laws8(a, b, c);
    Laws8(a, Xor8(b, c), d);
    Laws8(a, Xor8(Xor8(b, c), d), 0);
    hide Xor8;
  }

  // ---------------------------------------------------------------- substitution tables

  // The entry of a table row for the low nibble of x.
  function Column(x: bv8, v0: bv8, v1: bv8, v2: bv8, v3: bv8, v4: bv8, v5: bv8, v6: bv8, v7: bv8,
                  v8: bv8, v9: bv8, vA: bv8, vB: bv8, vC: bv8, vD: bv8, vE: bv8, vF: bv8): bv8
  {
    var b0, b1 := x & 1 == 0, x & 2 == 0;
    if x & 8 == 0 then
      if x & 4 == 0 then
        if b1 then (if b0 then v0 else v1) else (if b0 then v2 else v3)
      else
        if b1 then (if b0 then v4 else v5) else (if b0 then v6 else v7)
    else
      if x & 4 == 0 then
        if b1 then (if b0 then v8 else v9) else (if b0 then vA else vB)
      else
        if b1 then (if b0 then vC else vD) else (if b0 then vE else vF)
  }

  function SBox(x: bv8): bv8 {
    if x < 0x10 then
      Column(x, 0x63, 0x7C, 0x77, 0x7B, 0xF2, 0x6B, 0x6F, 0xC5, 0x30, 0x01, 0x67, 0x2B, 0xFE, 0xD7, 0xAB, 0x76)
    else if x < 0x20 then
      Column(x, 0xCA, 0x82, 0xC9, 0x7D, 0xFA, 0x59, 0x47, 0xF0, 0xAD, 0xD4, 0xA2, 0xAF, 0x9C, 0xA4, 0x72, 0xC0)
    else if x < 0x30 then
      Column(x, 0xB7, 0xFD, 0x93, 0x26, 0x36, 0x3F, 0xF7, 0xCC, 0x34, 0xA5, 0xE5, 0xF1, 0x71, 0xD8, 0x31, 0x15)
    else if x < 0x40 then
      Column(x, 0x04, 0xC7, 0x23, 0xC3, 0x18, 0x96, 0x05, 0x9A, 0x07, 0x12, 0x80, 0xE2, 0xEB, 0x27, 0xB2, 0x75)
    else if x < 0x50 then
      Column(x, 0x09, 0x83, 0x2C, 0x1A, 0x1B, 0x6E, 0x5A, 0xA0, 0x52, 0x3B, 0xD6, 0xB3, 0x29, 0xE3, 0x2F, 0x84)
    else if x < 0x60 then
      Column(x, 0x53, 0xD1, 0x00, 0xED, 0x20, 0xFC, 0xB1, 0x5B, 0x6A, 0xCB, 0xBE, 0x39, 0x4A, 0x4C, 0x58, 0xCF)
    else if x < 0x70 then
      Column(x, 0xD0, 0xEF, 0xAA, 0xFB, 0x43, 0x4D, 0x33, 0x85, 0x45, 0xF9, 0x02, 0x7F, 0x50, 0x3C, 0x9F, 0xA8)
    else if x < 0x80 then
      Column(x, 0x51, 0xA3, 0x40, 0x8F, 0x92, 0x9D, 0x38, 0xF5, 0xBC, 0xB6, 0xDA, 0x21, 0x10, 0xFF, 0xF3, 0xD2)
    else if x < 0x90 then
      Column(x, 0xCD, 0x0C, 0x13, 0xEC, 0x5F, 0x97, 0x44, 0x17, 0xC4, 0xA7, 0x7E, 0x3D, 0x64, 0x5D, 0x19, 0x73)
    else if x < 0xA0 then
      Column(x, 0x60, 0x81, 0x4F, 0xDC, 0x22, 0x2A, 0x90, 0x88, 0x46, 0xEE, 0xB8, 0x14, 0xDE, 0x5E, 0x0B, 0xDB)
    else if x < 0xB0 then
      Column(x, 0xE0, 0x32, 0x3A, 0x0A, 0x49, 0x06, 0x24, 0x5C, 0xC2, 0xD3, 0xAC, 0x62, 0x91, 0x95, 0xE4, 0x79)
    else if x < 0xC0 then
      Column(x, 0xE7, 0xC8, 0x37, 0x6D, 0x8D, 0xD5, 0x4E, 0xA9, 0x6C, 0x56, 0xF4, 0xEA, 0x65, 0x7A, 0xAE, 0x08)
    else if x < 0xD0 then
      Column(x, 0xBA, 0x78, 0x25, 0x2E, 0x1C, 0xA6, 0xB4, 0xC6, 0xE8, 0xDD, 0x74, 0x1F, 0x4B, 0xBD, 0x8B, 0x8A)
    else if x < 0xE0 then
      Column(x, 0x70, 0x3E, 0xB5, 0x66, 0x48, 0x03, 0xF6, 0x0E, 0x61, 0x35, 0x57, 0xB9, 0x86, 0xC1, 0x1D, 0x9E)
    else if x < 0xF0 then
      Column(x, 0xE1, 0xF8, 0x98, 0x11, 0x69, 0xD9, 0x8E, 0x94, 0x9B, 0x1E, 0x87, 0xE9, 0xCE, 0x55, 0x28, 0xDF)
    else
      Column(x, 0x8C, 0xA1, 0x89, 0x0D, 0xBF, 0xE6, 0x42, 0x68, 0x41, 0x99, 0x2D, 0x0F, 0xB0, 0x54, 0xBB, 0x16)
  }

  function InvSBox(x: bv8): bv8 {
    if x < 0x10 then
      Column(x, 0x52, 0x09, 0x6A, 0xD5, 0x30, 0x36, 0xA5, 0x38, 0xBF, 0x40, 0xA3, 0x9E, 0x81, 0xF3, 0xD7, 0xFB)
    else if x < 0x20 then
      Column(x, 0x7C, 0xE3, 0x39, 0x82, 0x9B, 0x2F, 0xFF, 0x87, 0x34, 0x8E, 0x43, 0x44, 0xC4, 0xDE, 0xE9, 0xCB)
    else if x < 0x30 then
      Column(x, 0x54, 0x7B, 0x94, 0x32, 0xA6, 0xC2, 0x23, 0x3D, 0xEE, 0x4C, 0x95, 0x0B, 0x42, 0xFA, 0xC3, 0x4E)
    else if x < 0x40 then
      Column(x, 0x08, 0x2E, 0xA1, 0x66, 0x28, 0xD9, 0x24, 0xB2, 0x76, 0x5B, 0xA2, 0x49, 0x6D, 0x8B, 0xD1, 0x25)
    else if x < 0x50 then
      Column(x, 0x72, 0xF8, 0xF6, 0x64, 0x86, 0x68, 0x98, 0x16, 0xD4, 0xA4, 0x5C, 0xCC, 0x5D, 0x65, 0xB6, 0x92)
    else if x < 0x60 then
      Column(x, 0x6C, 0x70, 0x48, 0x50, 0xFD, 0xED, 0xB9, 0xDA, 0x5E, 0x15, 0x46, 0x57, 0xA7, 0x8D, 0x9D, 0x84)
    else if x < 0x70 then
      Column(x, 0x90, 0xD8, 0xAB, 0x00, 0x8C, 0xBC, 0xD3, 0x0A, 0xF7, 0xE4, 0x58, 0x05, 0xB8, 0xB3, 0x45, 0x06)
    else if x < 0x80 then
      Column(x, 0xD0, 0x2C, 0x1E, 0x8F, 0xCA, 0x3F, 0x0F, 0x02, 0xC1, 0xAF, 0xBD, 0x03, 0x01, 0x13, 0x8A, 0x6B)
    else if x < 0x90 then
      Column(x, 0x3A, 0x91, 0x11, 0x41, 0x4F, 0x67, 0xDC, 0xEA, 0x97, 0xF2, 0xCF, 0xCE, 0xF0, 0xB4, 0xE6, 0x73)
    else if x < 0xA0 then
      Column(x, 0x96, 0xAC, 0x74, 0x22, 0xE7, 0xAD, 0x35, 0x85, 0xE2, 0xF9, 0x37, 0xE8, 0x1C, 0x75, 0xDF, 0x6E)
    else if x < 0xB0 then
      Column(x, 0x47, 0xF1, 0x1A, 0x71, 0x1D, 0x29, 0xC5, 0x89, 0x6F, 0xB7, 0x62, 0x0E, 0xAA, 0x18, 0xBE, 0x1B)
    else if x < 0xC0 then
      Column(x, 0xFC, 0x56, 0x3E, 0x4B, 0xC6, 0xD2, 0x79, 0x20, 0x9A, 0xDB, 0xC0, 0xFE, 0x78, 0xCD, 0x5A, 0xF4)
    else if x < 0xD0 then
      Column(x, 0x1F, 0xDD, 0xA8, 0x33, 0x88, 0x07, 0xC7, 0x31, 0xB1, 0x12, 0x10, 0x59, 0x27, 0x80, 0xEC, 0x5F)
    else if x < 0xE0 then
      Column(x, 0x60, 0x51, 0x7F, 0xA9, 0x19, 0xB5, 0x4A, 0x0D, 0x2D, 0xE5, 0x7A, 0x9F, 0x93, 0xC9, 0x9C, 0xEF)
    else if x < 0xF0 then
      Column(x, 0xA0, 0xE0, 0x3B, 0x4D, 0xAE, 0x2A, 0xF5, 0xB0, 0xC8, 0xEB, 0xBB, 0x3C, 0x83, 0x53, 0x99, 0x61)
    else
      Column(x, 0x17, 0x2B, 0x04, 0x7E, 0xBA, 0x77, 0xD6, 0x26, 0xE1, 0x69, 0x14, 0x63, 0x55, 0x21, 0x0C, 0x7D)
  }

  lemma InverseLow(x: bv8)
    requires x < 0x80
    ensures InvSBox(SBox(x)) == x
  {
  }

  lemma InverseHigh(x: bv8)
    requires x >= 0x80
    ensures InvSBox(SBox(x)) == x
  {
  }

  lemma InverseTables(x: bv8)
    ensures InvSBox(SBox(x)) == x
  {
    if x < 0x80 {
      InverseLow(x);
    } else {
      InverseHigh(x);
    }
  }
}
