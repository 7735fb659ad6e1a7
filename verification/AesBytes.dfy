// aescrypt.c against section 5.1 of FIPS 197 read byte by byte: sixteen bytes in and out, row r of
// column c being byte 4c + r, and the matrix of MixColumns over the field multiplication.

module AesBytes {
  import opened AesField
  import opened AesCipher
  import opened AesBlock
  import opened AesSBox

  // The first row of the matrix, 2, 3, 1, 1; row r is rotated r places to the right.
  function Factor(k: nat): bv8 {
    if k % 4 == 0 then 2 else if k % 4 == 1 then 3 else 1
  }

  function ByteOf(w: Word, r: nat): bv8
    requires r < 4
  {
    if r == 0 then w.b0 else if r == 1 then w.b1 else if r == 2 then w.b2 else w.b3
  }

  // Row j of column c after SubBytes and ShiftRows.
  function Moved(s: seq<bv8>, c: nat, j: nat): bv8
    requires |s| == 16 && c < 4 && j < 4
  {
    SBox(s[4 * ((c + j) % 4) + j])
  }

  // Row r of column c after MixColumns.
  function Mixed(s: seq<bv8>, c: nat, r: nat): bv8
    requires |s| == 16 && c < 4 && r < 4
  {
    GfMul(Moved(s, c, 0), Factor(4 - r)) ^ GfMul(Moved(s, c, 1), Factor(5 - r))
    ^ GfMul(Moved(s, c, 2), Factor(6 - r)) ^ GfMul(Moved(s, c, 3), Factor(7 - r))
  }

  // The bytes after the first key addition and i full rounds.
  function ByteRounds(ks: seq<Word>, s: seq<bv8>, i: nat): (y: seq<bv8>)
    requires |s| == 16 && 4 * i + 4 <= |ks|
    ensures |y| == 16
  {
    if i == 0 then seq(16, k requires 0 <= k < 16 => s[k] ^ ByteOf(ks[k / 4], k % 4))
    else
      var x := ByteRounds(ks, s, i - 1);
      seq(16, k requires 0 <= k < 16 => Mixed(x, k / 4, k % 4) ^ ByteOf(ks[4 * i + k / 4], k % 4))
  }

  function ByteCipher(ks: seq<Word>, s: seq<bv8>, rounds: nat): (y: seq<bv8>)
    requires |s| == 16 && 1 <= rounds && 4 * rounds + 4 <= |ks|
    ensures |y| == 16
  {
    var x := ByteRounds(ks, s, rounds - 1);
    seq(16, k requires 0 <= k < 16 => Moved(x, k / 4, k % 4) ^ ByteOf(ks[4 * rounds + k / 4], k % 4))
  }

  // ---------------------------------------------------------------- the words are those bytes

  // The state x holds the bytes s.
  ghost predicate Reads(x: State, s: seq<bv8>) {
    |s| == 16 && forall c, r :: 0 <= c < 4 && 0 <= r < 4 ==> ByteOf(x[c], r) == s[4 * c + r]
  }

  lemma ReadsAt(x: State, s: seq<bv8>, k: nat)
    requires Reads(x, s) && k < 16
    ensures s[k] == ByteOf(x[k / 4], k % 4)
  {
    assert ByteOf(x[k / 4], k % 4) == s[4 * (k / 4) + k % 4];
  }

  lemma ShiftByte(x: State, c: nat, r: nat)
    requires c < 4 && r < 4
    ensures ByteOf(SubShift(x, c), r) == SBox(ByteOf(x[(c + r) % 4], r))
  {
    hide SBox;
    assert c % 4 == c;
    if r == 0 {
    } else if r == 1 {
    } else if r == 2 {
    } else {
      assert r == 3;
    }
  }

  lemma MovedColumn(x: State, s: seq<bv8>, c: nat, r: nat)
    requires Reads(x, s) && c < 4 && r < 4
    ensures ByteOf(ShiftRows(SubBytes(x))[c], r) == Moved(s, c, r)
  {
    hide SBox, ShiftRows, SubBytes, SubShift, ByteOf;
    ShiftedColumn(x, c);
    ShiftByte(x, c, r);
    assert ByteOf(x[(c + r) % 4], r) == s[4 * ((c + r) % 4) + r];
  }

  lemma GfOne(x: bv8)
    ensures GfMul(x, 1) == x
  {
  }

  // The matrix, its entries as factors.
  lemma MatrixColumn(w: Word)
    ensures MixColumn(w) ==
      Word(Sum8(GfMul(w.b0, 2), GfMul(w.b1, 3), GfMul(w.b2, 1), GfMul(w.b3, 1)),
           Sum8(GfMul(w.b0, 1), GfMul(w.b1, 2), GfMul(w.b2, 3), GfMul(w.b3, 1)),
           Sum8(GfMul(w.b0, 1), GfMul(w.b1, 1), GfMul(w.b2, 2), GfMul(w.b3, 3)),
           Sum8(GfMul(w.b0, 3), GfMul(w.b1, 1), GfMul(w.b2, 1), GfMul(w.b3, 2)))
  {
    hide GfMul, F2, F3, Sum8;
    Multipliers(w.b0);
    Multipliers(w.b1);
    Multipliers(w.b2);
    Multipliers(w.b3);
    GfOne(w.b0);
    GfOne(w.b1);
    GfOne(w.b2);
    GfOne(w.b3);
  }

  lemma Factors()
    ensures Factor(4) == 2 && Factor(5) == 3 && Factor(6) == Factor(7) == 1
    ensures Factor(1) == 3 && Factor(2) == Factor(3) == 1
  {
  }

  lemma MatrixRow(w: Word, r: nat)
    requires r < 4
    ensures ByteOf(MixColumn(w), r) ==
      Sum8(GfMul(w.b0, Factor(4 - r)), GfMul(w.b1, Factor(5 - r)), GfMul(w.b2, Factor(6 - r)), GfMul(w.b3, Factor(7 - r)))
  {
    Factors();
    hide GfMul, MixColumn, Sum8, Factor;
    MatrixColumn(w);
    if r == 0 {
    } else if r == 1 {
    } else if r == 2 {
    } else {
      assert r == 3;
    }
  }

  lemma SumMeans(a: bv8, b: bv8, c: bv8, d: bv8)
    ensures Sum8(a, b, c, d) == a ^ b ^ c ^ d
  {
  }

  lemma XorMeans(a: bv8, b: bv8)
    ensures Xor8(a, b) == a ^ b
  {
  }

  lemma XorAt(a: Word, b: Word, r: nat)
    requires r < 4
    ensures ByteOf(Xor(a, b), r) == Xor8(ByteOf(a, r), ByteOf(b, r))
  {
    hide Xor8;
    if r == 0 {
    } else if r == 1 {
    } else if r == 2 {
    } else {
      assert r == 3;
    }
  }

  lemma XorByte(a: Word, b: Word, r: nat)
    requires r < 4
    ensures ByteOf(Xor(a, b), r) == ByteOf(a, r) ^ ByteOf(b, r)
  {
    hide Xor8, Xor, ByteOf;
    XorAt(a, b, r);
    XorMeans(ByteOf(a, r), ByteOf(b, r));
  }

  lemma KeyColumn(x: State, ks: seq<Word>, kp: nat, c: nat)
    requires kp + 4 <= |ks| && c < 4
    ensures AddKey(x, ks, kp)[c] == Xor(x[c], ks[kp + c])
  {
    hide Xor;
    assert c == 0 || c == 1 || c == 2 || c == 3;
  }

  lemma MixedColumn(x: State, s: seq<bv8>, c: nat, r: nat)
    requires Reads(x, s) && c < 4 && r < 4
    ensures ByteOf(MixColumns(ShiftRows(SubBytes(x)))[c], r) == Mixed(s, c, r)
  {
    var w := ShiftRows(SubBytes(x))[c];
    MixedAt(ShiftRows(SubBytes(x)), c);
    hide SBox, ShiftRows, SubBytes, MixColumn, MixColumns, GfMul, Reads, Moved, Sum8;
    MovedColumn(x, s, c, 0);
    MovedColumn(x, s, c, 1);
    MovedColumn(x, s, c, 2);
    MovedColumn(x, s, c, 3);
    MatrixRow(w, r);
    SumMeans(GfMul(w.b0, Factor(4 - r)), GfMul(w.b1, Factor(5 - r)), GfMul(w.b2, Factor(6 - r)), GfMul(w.b3, Factor(7 - r)));
  }

  lemma MixedAt(x: State, c: nat)
    requires c < 4
    ensures MixColumns(x)[c] == MixColumn(x[c])
  {
    hide MixColumn;
    assert c == 0 || c == 1 || c == 2 || c == 3;
  }

  lemma {:induction false} RoundsAreBytes(ks: seq<Word>, block: State, s: seq<bv8>, i: nat)
    requires Reads(block, s) && 4 * i + 4 <= |ks|
    ensures Reads(CipherState(ks, block, i), ByteRounds(ks, s, i))
  {
    hide Xor, MixColumns, ShiftRows, SubBytes, AddKey, Mixed, ByteOf;
    if i == 0 {
      forall c, r | 0 <= c < 4 && 0 <= r < 4
        ensures ByteOf(CipherState(ks, block, 0)[c], r) == ByteRounds(ks, s, 0)[4 * c + r]
      {
        KeyColumn(block, ks, 0, c);
        XorByte(block[c], ks[c], r);
        Column(c, r);
        ReadsAt(block, s, 4 * c + r);
      }
    } else {
      RoundsAreBytes(ks, block, s, i - 1);
      var x, y := CipherState(ks, block, i - 1), ByteRounds(ks, s, i - 1);
      var m := MixColumns(ShiftRows(SubBytes(x)));
      forall c, r | 0 <= c < 4 && 0 <= r < 4
        ensures ByteOf(CipherState(ks, block, i)[c], r) == ByteRounds(ks, s, i)[4 * c + r]
      {
        KeyColumn(m, ks, 4 * i, c);
        XorByte(m[c], ks[4 * i + c], r);
        Column(c, r);
        MixedColumn(x, y, c, r);
      }
    }
  }

  lemma Column(c: nat, r: nat)
    requires r < 4
    ensures (4 * c + r) / 4 == c && (4 * c + r) % 4 == r
  {
  }

  lemma BytesRead(s: seq<bv8>)
    requires |s| == 16
    ensures Reads(Columns(s), s)
  {
    forall c, r | 0 <= c < 4 && 0 <= r < 4
      ensures ByteOf(Columns(s)[c], r) == s[4 * c + r]
    {
      assert c == 0 || c == 1 || c == 2 || c == 3;
    }
  }

  lemma OctetsRead(x: State, s: seq<bv8>)
    requires Reads(x, s)
    ensures Octets(x) == s
  {
    forall k | 0 <= k < 16
      ensures Octets(x)[k] == s[k]
    {
      ReadsAt(x, s, k);
      OctetAt(x, k);
    }
  }

  lemma OctetAt(x: State, k: nat)
    requires k < 16
    ensures Octets(x)[k] == ByteOf(x[k / 4], k % 4)
  {
    assert k < 4 || 4 <= k < 8 || 8 <= k < 12 || 12 <= k;
  }

  // What aes_encrypt computes is the cipher in bytes, for every schedule and every block.
  lemma EncryptIsByteCipher(ks: seq<Word>, rounds: nat, s: seq<bv8>)
    requires |s| == 16 && 1 <= rounds && 4 * rounds + 4 <= |ks|
    ensures EncryptBytes(ks, rounds, s) == ByteCipher(ks, s, rounds)
  {
    hide Xor, ShiftRows, SubBytes, AddKey, ByteOf, Moved, CipherState, ByteRounds, Columns, Octets;
    var block := Columns(s);
    BytesRead(s);
    RoundsAreBytes(ks, block, s, rounds - 1);
    var x, y := CipherState(ks, block, rounds - 1), ByteRounds(ks, s, rounds - 1);
    var m := ShiftRows(SubBytes(x));
    forall c, r | 0 <= c < 4 && 0 <= r < 4
      ensures ByteOf(Cipher(ks, block, rounds)[c], r) == ByteCipher(ks, s, rounds)[4 * c + r]
    {
      KeyColumn(m, ks, 4 * rounds, c);
      XorByte(m[c], ks[4 * rounds + c], r);
      Column(c, r);
      MovedColumn(x, y, c, r);
    }
    OctetsRead(Cipher(ks, block, rounds), ByteCipher(ks, s, rounds));
  }
}
