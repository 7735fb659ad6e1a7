// bip39.c: the word indexes are the digits, in base 2048, of the entropy followed by its checksum
// bits, read as one number.

module Bip39Number {
  import opened Words
  import opened Bits
  import opened Bip39
  import AesModes
  import Radix

  function BitsOf(s: seq<bv8>): (b: seq<bool>)
    ensures |b| == 8 * |s|
  {
    seq(8 * |s|, k requires 0 <= k < 8 * |s| => Bit(s, k))
  }

  lemma {:induction false} IndexConcat(a: seq<bool>, b: seq<bool>)
    ensures Index(a + b) == Index(a) * Pow2(|b|) + Index(b)
  {
    if b == [] {
      assert a + b == a;
      assert Pow2(0) == 1;
    } else {
      var t := b[..|b| - 1];
      assert (a + b)[..|a + b| - 1] == a + t;
      IndexConcat(a, t);
      Doubled(Index(a), Pow2(|t|), Index(t));
    }
  }

  lemma Doubled(a: int, w: int, t: int)
    ensures 2 * (a * w + t) == a * (2 * w) + 2 * t
  {
  }

  // ---------------------------------------------------------------- bytes

  function Unit(p: bool): nat {
    if p then 1 else 0
  }

  lemma ByteValue(b: bv8)
    ensures b as int == 128 * Unit(b & 0x80 != 0) + 64 * Unit(b & 0x40 != 0) + 32 * Unit(b & 0x20 != 0)
            + 16 * Unit(b & 0x10 != 0) + 8 * Unit(b & 0x08 != 0) + 4 * Unit(b & 0x04 != 0)
            + 2 * Unit(b & 0x02 != 0) + Unit(b & 0x01 != 0)
  {
  }

  lemma EightBits(b: seq<bool>)
    requires |b| == 8
    ensures Index(b) == 128 * Unit(b[0]) + 64 * Unit(b[1]) + 32 * Unit(b[2]) + 16 * Unit(b[3])
                        + 8 * Unit(b[4]) + 4 * Unit(b[5]) + 2 * Unit(b[6]) + Unit(b[7])
  {
    hide Index;
    IndexNext(b, 0);
    IndexNext(b, 1);
    IndexNext(b, 2);
    IndexNext(b, 3);
    IndexNext(b, 4);
    IndexNext(b, 5);
    IndexNext(b, 6);
    IndexNext(b, 7);
    assert b[..8] == b;
  }

  lemma IndexNext(b: seq<bool>, k: nat)
    requires k < |b|
    ensures Index(b[..0]) == 0 && Index(b[..k + 1]) == 2 * Index(b[..k]) + Unit(b[k])
  {
    assert b[..k + 1][..k] == b[..k];
  }

  lemma ByteIndex(x: bv8, b: seq<bool>)
    requires |b| == 8 && forall r :: 0 <= r < 8 ==> b[r] == Set(x, r)
    ensures Index(b) == x as int
  {
    EightBits(b);
    ByteValue(x);
    assert b[0] == Set(x, 0) && b[1] == Set(x, 1) && b[2] == Set(x, 2) && b[3] == Set(x, 3);
    assert b[4] == Set(x, 4) && b[5] == Set(x, 5) && b[6] == Set(x, 6) && b[7] == Set(x, 7);
    hide Index, Unit;
  }

  // The bits of a byte string denote the number its bytes denote.
  lemma {:induction false} BytesAsBits(s: seq<bv8>)
    ensures Index(BitsOf(s)) == AesModes.Number(s)
  {
    if s == [] {
      AesModes.NumberOf([]);
    } else {
      hide *;
      var n := |s| - 1;
      BytesAsBits(s[..n]);
      LastByte(s);
      IndexConcat(BitsOf(s[..n]), BitsOf(s)[8 * n..]);
      Pow2Eight();
      LastNumber(s);
    }
  }

  lemma LastNumber(s: seq<bv8>)
    requires s != []
    ensures AesModes.Number(s) == AesModes.Number(s[..|s| - 1]) * 256 + s[|s| - 1] as int
  {
    AesModes.NumberLast(s[..|s| - 1], s[|s| - 1]);
    assert s == s[..|s| - 1] + [s[|s| - 1]];
  }

  lemma Pow2Eight()
    ensures Pow2(8) == 256
  {
    Pow2Small();
  }

  lemma LastByte(s: seq<bv8>)
    requires s != []
    ensures var n := |s| - 1;
      |BitsOf(s)| == 8 * n + 8 && BitsOf(s) == BitsOf(s[..n]) + BitsOf(s)[8 * n..] && Index(BitsOf(s)[8 * n..]) == s[n] as int
  {
    var n := |s| - 1;
    var b := BitsOf(s)[8 * n..];
    hide Index, Set, Bit;
    forall r | 0 <= r < 8
      ensures b[r] == Set(s[n], r)
    {
      BitAt(s, n, r);
    }
    ByteIndex(s[n], b);
    forall k | 0 <= k < 8 * n
      ensures BitsOf(s)[k] == BitsOf(s[..n])[k]
    {
      SameBit(s, s[..n], k);
    }
    assert BitsOf(s)[..8 * n] == BitsOf(s[..n]);
  }

  lemma SameBit(s: seq<bv8>, t: seq<bv8>, k: nat)
    requires |t| <= |s| && t == s[..|t|] && k < 8 * |t|
    ensures Bit(s, k) == Bit(t, k)
  {
    Within(k, |t|);
    hide Set;
  }

  // ---------------------------------------------------------------- indexes

  // Numbers below 2048, each of eleven bits, are the digits of the number of all the bits.
  lemma {:induction false} GroupsAsDigits(ks: seq<nat>, e: seq<bool>, n: nat)
    requires n <= |ks| && 11 * |ks| <= |e|
    requires forall i :: 0 <= i < n ==> ks[i] == Index(e[11 * i..11 * i + 11])
    ensures Radix.Number(ks[..n], 2048) == Index(e[..11 * n])
  {
    if n == 0 {
      assert ks[..0] == [] && e[..0] == [];
    } else {
      hide *;
      var a, g := e[..11 * (n - 1)], e[11 * (n - 1)..11 * (n - 1) + 11];
      GroupsAsDigits(ks, e, n - 1);
      assert e[..11 * n] == a + g;
      IndexConcat(a, g);
      Pow2Eleven();
      NumberNext(ks, n - 1);
      assert ks[n - 1] == Index(g);
    }
  }

  lemma NumberNext(ks: seq<nat>, n: nat)
    requires n < |ks|
    ensures Radix.Number(ks[..n + 1], 2048) == Radix.Number(ks[..n], 2048) * 2048 + ks[n]
  {
    assert ks[..n + 1][..n] == ks[..n];
  }

  lemma GroupBits(H: Hash, data: seq<bv8>, i: nat)
    requires IsHash(H) && |data| % 4 == 0 && |data| <= 32 && i < WordCount(|data|)
    ensures 11 * i + 11 <= 8 * (|data| + 1) && |Indexes(H, data)| == WordCount(|data|)
    ensures Indexes(H, data)[i] == Index(BitsOf(data + [H(data)[0]])[11 * i..11 * i + 11])
  {
    Lengths(|data|);
    hide Index, Bit;
    assert Group(Extended(H, data), i) == BitsOf(data + [H(data)[0]])[11 * i..11 * i + 11];
  }

  lemma Pow2Eleven()
    ensures Pow2(11) == 2048
  {
    Pow2Small();
    Pow2Add(8, 3);
  }

  // All the indexes together: the entropy and the first hash byte, without the bits of that byte that
  // no word holds.
  lemma IndexesAreNumber(H: Hash, data: seq<bv8>)
    requires IsHash(H) && |data| % 4 == 0 && |data| <= 32
    ensures Radix.Number(Indexes(H, data), 2048) == AesModes.Number(data + [H(data)[0]]) / Pow2(8 - |data| / 4)
  {
    QuarterLength(|data|);
    hide *;
    var ks, s := Indexes(H, data), data + [H(data)[0]];
    var e, r := BitsOf(s), 8 - |data| / 4;
    Digits2048(H, data, ks, e);
    BytesAsBits(s);
    TopDigits(ks, e, r);
    DivModUnique(AesModes.Number(s), Pow2(r), Radix.Number(ks, 2048), Index(e[|e| - r..]));
  }

  lemma Digits2048(H: Hash, data: seq<bv8>, ks: seq<nat>, e: seq<bool>)
    requires IsHash(H) && |data| % 4 == 0 && |data| <= 32 && ks == Indexes(H, data)
    requires e == BitsOf(data + [H(data)[0]])
    ensures 11 * |ks| == |e| - (8 - |data| / 4) && |data| / 4 <= 8
    ensures Radix.Number(ks, 2048) == Index(e[..11 * |ks|])
  {
    QuarterLength(|data|);
    hide Index, Indexes, Radix.Number, WordCount, BitsOf;
    forall i | 0 <= i < |ks|
      ensures ks[i] == Index(e[11 * i..11 * i + 11])
    {
      GroupBits(H, data, i);
    }
    GroupsAsDigits(ks, e, |ks|);
    assert ks[..|ks|] == ks;
  }

  lemma TopDigits(ks: seq<nat>, e: seq<bool>, r: nat)
    requires 11 * |ks| == |e| - r && r <= |e| && Radix.Number(ks, 2048) == Index(e[..11 * |ks|])
    ensures Index(e) == Radix.Number(ks, 2048) * Pow2(r) + Index(e[|e| - r..]) && 0 <= Index(e[|e| - r..]) < Pow2(r)
  {
    hide *;
    var m := |e| - r;
    assert e == e[..m] + e[m..];
    IndexConcat(e[..m], e[m..]);
    IndexBound(e[m..]);
  }

  lemma QuarterLength(n: nat)
    requires n % 4 == 0 && n <= 32
    ensures n / 4 <= 8 && 11 * WordCount(n) == 8 * n + n / 4
  {
    Lengths(n);
  }
}
