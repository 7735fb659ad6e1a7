// Big-endian bytes and bignums: read_be, write_be, bn_read_be and bn_write_be.

module Bytes {
  import opened Words
  import opened Limbs
  import opened Bignum
  import opened Repack
  import opened Radix
  import Field

  // The number a big-endian byte string denotes.
  function BigEndian(s: seq<uint8>): (r: nat) {
    NumberBound(s, W8);
    Number(s, W8)
  }

  // read_be
  function ReadWord(s: seq<uint8>): (w: uint32)
    requires |s| == 4
  {
    0x100_0000 * (s[0] as int) + 0x1_0000 * (s[1] as int) + 0x100 * (s[2] as int) + s[3]
  }

  // write_be
  function WriteWord(w: uint32): (s: seq<uint8>)
    ensures |s| == 4 && ReadWord(s) == w
  {
    WordBytes(w);
    [w / 0x100_0000, w / 0x1_0000 % W8, w / 0x100 % W8, w % W8]
  }

  lemma WordBytes(w: uint32)
    ensures 0 <= w / 0x100_0000 < W8
    ensures w == (w / 0x100_0000) * 0x100_0000 + (w / 0x1_0000 % W8) * 0x1_0000 + (w / 0x100 % W8) * 0x100 + w % W8
  {
    DivDiv(w, 0x100, 0x100);
    DivDiv(w, 0x1_0000, 0x100);
  }

  // The first byte weighs most.
  lemma BigEndianPrepend(b: uint8, s: seq<uint8>)
    ensures BigEndian([]) == 0 && BigEndian([b] + s) == b * Pow(256, |s|) + BigEndian(s)
  {
    NumberPrepend(b, s, W8);
  }

  lemma WordValue(s: seq<uint8>)
    requires |s| == 4
    ensures BigEndian(s) == ReadWord(s)
  {
    var a, b, c := s[..3], s[..2], s[..1];
    assert a[..2] == b && b[..1] == c && c[..0] == [];
    assert Number(c, W8) == s[0];
    assert Number(b, W8) == s[0] * W8 + s[1];
    assert Number(a, W8) == (s[0] * W8 + s[1]) * W8 + s[2];
  }

  // ---------------------------------------------------------------- bn_read_be

  // The 32-bit words of 32 bytes, least significant first.
  function WordsOf(s: seq<uint8>): (w: seq<uint32>)
    requires |s| == 32
    ensures |w| == 8
  {
    seq(8, i requires 0 <= i < 8 => ReadWord(s[28 - 4 * i..32 - 4 * i]))
  }

  lemma WordAt(s: seq<uint8>, i: nat)
    requires |s| == 32 && i < 8
    ensures WordsOf(s)[i] == ReadWord(s[28 - 4 * i..32 - 4 * i])
  {
  }

  lemma {:induction false} WordsValue(s: seq<uint8>, i: nat)
    requires |s| == 32 && i <= 8
    ensures Val(WordsOf(s)[..i], W32) == BigEndian(s[32 - 4 * i..])
  {
    if i == 0 {
    } else {
      WordsValue(s, i - 1);
      WordAt(s, i - 1);
      hide WordsOf, Val, BigEndian, ReadWord;
      var head, tail := s[32 - 4 * i..36 - 4 * i], s[36 - 4 * i..];
      assert s[32 - 4 * i..] == head + tail;
      PrependWord(head, tail, WordsOf(s), i - 1);
    }
  }

  lemma PrependWord(head: seq<uint8>, tail: seq<uint8>, words: seq<uint32>, i: nat)
    requires |head| == 4 && |tail| == 4 * i && i < |words| && words[i] == ReadWord(head)
    requires Val(words[..i], W32) == BigEndian(tail)
    ensures Val(words[..i + 1], W32) == BigEndian(head + tail)
  {
    hide Val, Number, ReadWord, Pow;
    NumberConcat(head, tail, W8);
    WordValue(head);
    ValTake(words, i + 1, W32);
    BytePower(i);
    Commute(ReadWord(head), Pow(W32, i));
  }

  lemma {:induction false} BytePower(i: nat)
    ensures Pow(W8, 4 * i) == Pow(W32, i)
  {
    if i == 0 {
    } else {
      BytePower(i - 1);
      PowAdd(W8, 4, 4 * i - 4);
      assert Pow(W8, 4) == W32;
    }
  }

  // bn_read_be
  method ReadBE(bytes: seq<uint8>, out: Bignum256)
    requires |bytes| == 32
    modifies out
    ensures Normalized(out.val) && V(out.val) == BigEndian(bytes) < B256
  {
    ReadValue(bytes);
    RepackStart(WordsOf(bytes), out.val);
    hide V, Normalized, Or, Shr, Shl32, Low, Repacking, BigEndian, ReadWord, WordsOf;
    var temp: uint32 := 0;
    var i := 0;
    while i < 8
      invariant 0 <= i <= 8 && Repacking(WordsOf(bytes), out.val, temp, i)
    {
      WordAt(bytes, i);
      RepackRound(WordsOf(bytes), out.val, temp, i);
      var limb: uint32 := ReadWord(bytes[28 - 4 * i..32 - 4 * i]);
      temp := Or(temp, Shl32(limb, 2 * i));
      out.val := out.val[i := Low(temp, W30)];
      temp := Shr(limb, 30 - 2 * i);
      i := i + 1;
    }
    RepackEnd(WordsOf(bytes), out.val, temp);
    out.val := out.val[8 := temp];
  }

  lemma ReadValue(bytes: seq<uint8>)
    requires |bytes| == 32
    ensures Val(WordsOf(bytes), W32) == BigEndian(bytes) < B256
  {
    WordsValue(bytes, 8);
    assert WordsOf(bytes)[..8] == WordsOf(bytes) && bytes[0..] == bytes;
    ValBounds(WordsOf(bytes), W32);
    PowW32();
  }

  // ---------------------------------------------------------------- bn_write_be

  // v >> (32*i)
  function Quotient32(v: int, i: nat): int {
    v / Pow2(32 * i)
  }

  // Word i from the top: the rest of one limb above the high bits of the next.
  lemma WriteStep(val: seq<int>, i: nat)
    requires |val| == 9 && Normalized(val) && i < 8
    ensures Or(Shl32(val[8 - i], 16 + 2 * i), Shr(val[7 - i], 14 - 2 * i)) == Quotient32(V(val), 7 - i) % W32
  {
    QuotientLimbs(val, i);
    HeadValue(val, 8 - i);
    hide V, Pow2, Or, Shl32, Shr, Quotient32;
    WordSplit(Shr(val[7 - i], 14 - 2 * i), V(val[8 - i..]), val[8 - i], V(val[9 - i..]), 16 + 2 * i);
    WordBits(val[7 - i], val[8 - i], 14 - 2 * i);
  }

  lemma QuotientLimbs(val: seq<int>, i: nat)
    requires |val| == 9 && Normalized(val) && i < 8
    ensures Quotient32(V(val), 7 - i) == Shr(val[7 - i], 14 - 2 * i) + Pow2(16 + 2 * i) * V(val[8 - i..])
  {
    hide V, Pow2;
    ShiftedLimbs(val, 7 - i, 14 - 2 * i, 32 * (7 - i));
    assert 30 - (14 - 2 * i) == 16 + 2 * i;
  }

  lemma WordSplit(x: int, u: int, hi: int, r: int, e: nat)
    requires 2 <= e && u == hi + W30 * r
    ensures (x + Pow2(e) * u) % W32 == (x + hi * Pow2(e)) % W32
  {
    hide Pow2;
    Pow2Add(e - 2, 32);
    Pow2Add(e, 30);
    Pow2Values();
    AcrossWords(Pow2(e), Pow2(e - 2), hi, r);
    DivAddMultiple(x + hi * Pow2(e), Pow2(e - 2) * r, W32);
  }

  lemma AcrossWords(p: int, q: int, hi: int, r: int)
    requires p * W30 == q * W32
    ensures p * (hi + W30 * r) == hi * p + (q * r) * W32
  {
    AcrossTerms(p, hi, r);
    Reassociate(q, W32, r);
  }

  lemma WordBits(lo: int, hi: int, sh: nat)
    requires sh <= 14 && 0 <= lo < W30 && 0 <= hi < W30
    ensures Or(Shl32(hi, 30 - sh), Shr(lo, sh)) == (Shr(lo, sh) + hi * Pow2(30 - sh)) % W32
  {
    var e := 30 - sh;
    ShlLow(hi, e);
    Pow2Add(e, sh);
    Pow2Values();
    TopBits(lo, Pow2(sh), Pow2(e));
    LowRange(hi, Pow2(32 - e));
    var l := Low(hi, Pow2(32 - e));
    hide Low, Pow2, Or;
    OrDisjoint(Shr(lo, sh), l, e);
    AddedLow(Shr(lo, sh), hi * Pow2(e), Shl32(hi, e), Pow2(e));
  }

  lemma AddedLow(x: int, t: int, s: int, m: int)
    requires 0 <= x < m && s == t % W32 && 0 <= s <= W32 - m
    ensures (x + t) % W32 == x + s
  {
    DivModUnique(x + t, W32, t / W32, x + s);
  }

  lemma NextWord(v: int, i: nat)
    requires i < 8
    ensures Quotient32(v, 7 - i) == Quotient32(v, 8 - i) * W32 + Quotient32(v, 7 - i) % W32
  {
    Pow2Add(32 * (7 - i), 32);
    Pow2Values();
    assert 32 * (7 - i) + 32 == 32 * (8 - i);
    DivDiv(v, Pow2(32 * (7 - i)), W32);
  }

  lemma AppendWord(out: seq<uint8>, w: uint32)
    ensures BigEndian(out + WriteWord(w)) == BigEndian(out) * W32 + w
  {
    NumberConcat(out, WriteWord(w), W8);
    WordValue(WriteWord(w));
    BytePower(1);
    assert Pow(W32, 1) == W32;
  }

  // The first 4*i bytes, and the limb part that opens the next word.
  ghost predicate Writing(val: Limbs9, out: seq<uint8>, temp: int, i: nat) {
    && i <= 8 && |out| == 4 * i && Normalized(val)
    && (i < 8 ==> temp == Shl32(val[8 - i], 16 + 2 * i))
    && BigEndian(out) == Quotient32(V(val), 8 - i)
  }

  lemma WriteRound(val: Limbs9, out: seq<uint8>, temp: int, i: nat)
    requires Writing(val, out, temp, i) && i < 8 && 0 <= temp < W32
    ensures var word := Or(temp, Shr(val[7 - i], 14 - 2 * i));
      && 0 <= word < W32
      && Writing(val, out + WriteWord(word), if i < 7 then Shl32(val[7 - i], 18 + 2 * i) else 0, i + 1)
    ensures i < 7 ==> 0 <= Shl32(val[7 - i], 18 + 2 * i) < W32
  {
    hide V, Normalized, Quotient32, Or, Shr, Shl32, BigEndian, WriteWord;
    WriteStep(val, i);
    WordRange(Quotient32(V(val), 7 - i));
    NextWord(V(val), i);
    AppendWord(out, Or(temp, Shr(val[7 - i], 14 - 2 * i)));
    if i < 7 {
      ShiftsFit(val[7 - i], 18 + 2 * i);
    }
  }

  // bn_write_be.  The C code also computes a shift by 32 in the last round, and drops it.
  method WriteBE(x: Bignum256) returns (out: seq<uint8>)
    requires Normalized(x.val) && V(x.val) < B256
    ensures |out| == 32 && BigEndian(out) == V(x.val)
  {
    out := [];
    WriteStart(x.val);
    ShiftsFit(x.val[8], 16);
    var temp: uint32 := Shl32(x.val[8], 16);
    assert Writing(x.val, out, temp, 0);
    hide V, Or, Shr, Shl32, WriteWord, Writing;
    var i := 0;
    while i < 8
      invariant 0 <= i <= 8 && Writing(x.val, out, temp, i)
    {
      WriteRound(x.val, out, temp, i);
      var limb := x.val[7 - i];
      temp := Or(temp, Shr(limb, 14 - 2 * i));
      out := out + WriteWord(temp);
      temp := if i < 7 then Shl32(limb, 18 + 2 * i) else 0;
      i := i + 1;
    }
    WriteEnd(x.val, out, temp);
  }

  lemma WriteEnd(val: Limbs9, out: seq<uint8>, temp: int)
    requires Writing(val, out, temp, 8)
    ensures |out| == 32 && BigEndian(out) == V(val)
  {
    assert V(val) / 1 == V(val);
  }

  lemma WordRange(q: int)
    ensures 0 <= q % W32 < W32
  {
  }

  lemma WriteStart(val: seq<int>)
    requires |val| == 9 && Normalized(val) && V(val) < B256
    ensures BigEndian([]) == Quotient32(V(val), 8) && V(val) == Quotient32(V(val), 0)
  {
    Range(val);
    PowBits(8);
    PowW32();
    Field.SmallMod(V(val), B256);
  }

  // ---------------------------------------------------------------- round trips

  // 32 bytes are determined by their number, so reading after writing and writing after
  // reading change nothing.
  lemma {:induction false} BigEndianInjective(s: seq<uint8>, t: seq<uint8>)
    requires |s| == |t| && BigEndian(s) == BigEndian(t)
    ensures s == t
  {
    if |s| == 0 {
    } else {
      var n := |s| - 1;
      QuotientUnique(W8, BigEndian(s[..n]), s[n], BigEndian(t[..n]), t[n]);
      BigEndianInjective(s[..n], t[..n]);
      assert s == s[..n] + [s[n]] && t == t[..n] + [t[n]];
    }
  }

  method ReadThenWrite(bytes: seq<uint8>) returns (out: seq<uint8>)
    requires |bytes| == 32
    ensures out == bytes
  {
    var x := new Bignum256(ZERO);
    ReadBE(bytes, x);
    out := WriteBE(x);
    BigEndianInjective(bytes, out);
  }

  method WriteThenRead(x: Bignum256, y: Bignum256)
    requires Normalized(x.val) && V(x.val) < B256 && x != y
    modifies y
    ensures y.val == x.val
  {
    var bytes := WriteBE(x);
    ReadBE(bytes, y);
    ValInjective(y.val, x.val, W30);
  }
}
