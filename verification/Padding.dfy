// sha2.c, hmac.c and pbkdf2.c in bytes: what the padding of SHA-512 is, what is hashed, and what the
// keyed hash and the sum of PBKDF2 are made of.

module Padding {
  import opened Words
  import opened Radix
  import opened Sha512
  import opened Hmac512
  import AesModes
  import Casts

  // ---------------------------------------------------------------- numbers of bytes

  lemma {:induction false} NumberConcat8(s: Bytes, t: Bytes)
    ensures AesModes.Number(s + t) == AesModes.Number(s) * Pow(256, |t|) + AesModes.Number(t)
  {
    AesModes.NumberOf(s);
    AesModes.NumberOf(t);
    AesModes.NumberOf(s + t);
    assert AesModes.Ints(s + t) == AesModes.Ints(s) + AesModes.Ints(t);
    NumberConcat(AesModes.Ints(s), AesModes.Ints(t), 256);
  }

  // ---------------------------------------------------------------- the length field

  lemma {:induction false} WordPrefix(v: uint64, k: nat)
    requires k <= 8
    ensures Pow(256, 8 - k) > 0 && AesModes.Number(Word64(v)[..k]) == v / Pow(256, 8 - k)
  {
    PowPositive(256, 8 - k);
    if k == 0 {
      assert Pow(256, 8) == W64;
      DivModUnique(v, W64, 0, v);
      AesModes.NumberOf([]);
      assert Word64(v)[..0] == [];
    } else {
      WordPrefix(v, k - 1);
      var q := Pow(256, 8 - k);
      PowNext(256, 8 - k);
      PowPositive(256, 8 - k);
      DivDiv(v, q, 256);
      assert Word64(v)[..k] == Word64(v)[..k - 1] + [ByteOf(v, 8 - k)];
      AesModes.NumberLast(Word64(v)[..k - 1], ByteOf(v, 8 - k));
      ByteValue(v, 8 - k);
    }
  }

  lemma ByteValue(v: nat, k: nat)
    ensures Pow(256, k) > 0 && ByteOf(v, k) as int == v / Pow(256, k) % 256
  {
    PowPositive(256, k);
    Casts.ToByte(v / Pow(256, k) % 256);
    hide Pow;
  }

  lemma WordNumber(v: uint64)
    ensures AesModes.Number(Word64(v)) == v
  {
    WordPrefix(v, 8);
    assert Word64(v)[..8] == Word64(v);
    DivModUnique(v, 1, v, 0);
  }

  // The sixteen bytes, read as one number, are the length in bits modulo 2^128.
  lemma LengthNumber(n: nat)
    ensures AesModes.Number(Length(n)) == 8 * n % (W64 * W64)
  {
    var hi, lo := 8 * n / W64 % W64, 8 * n % W64;
    WordNumber(hi);
    WordNumber(lo);
    hide Word64;
    NumberConcat8(Word64(hi), Word64(lo));
    assert Pow(256, 8) == W64;
    var q := 8 * n / W64 / W64;
    assert 8 * n == q * (W64 * W64) + hi * W64 + lo;
    DivModUnique(8 * n, W64 * W64, q, hi * W64 + lo);
  }

  // ---------------------------------------------------------------- the padded message

  // The padding is the one string that starts with the message and 0x80, ends with the length, has
  // zeros between, and is the shortest of these that fills whole blocks.
  lemma PadExact(m: Bytes, p: Bytes)
    ensures p == Pad(m) <==>
      && |p| % 128 == 0 && |m| + 17 <= |p| < |m| + 17 + 128
      && p[..|m|] == m && p[|m|] == 0x80 && (forall k :: |m| < k < |p| - 16 ==> p[k] == 0)
      && AesModes.Number(p[|p| - 16..]) == 8 * |m| % (W64 * W64)
  {
    PadLength(|m|);
    LengthNumber(|m|);
    hide Length, AesModes.Number, Residue, PadZeros;
    var z := PadZeros(|m|);
    var w := m + [0x80] + Zeros(z) + Length(|m|);
    assert w[..|m|] == m && w[|m|] == 0x80 && w[|w| - 16..] == Length(|m|);
    if |p| % 128 == 0 && |m| + 17 <= |p| < |m| + 17 + 128 {
      SameLength(|p|, |w|, |m| + 17);
      if p[..|m|] == m && p[|m|] == 0x80 && (forall k :: |m| < k < |p| - 16 ==> p[k] == 0)
         && AesModes.Number(p[|p| - 16..]) == 8 * |m| % (W64 * W64) {
        AesModes.BytesOfNumber(p[|p| - 16..], Length(|m|));
        assert p == p[..|m|] + [p[|m|]] + p[|m| + 1..|p| - 16] + p[|p| - 16..];
        assert p[|m| + 1..|p| - 16] == Zeros(z);
      }
    }
  }

  lemma PadLength(n: nat)
    ensures (n + 1 + PadZeros(n) + 16) % 128 == 0 && n + 17 + PadZeros(n) < n + 17 + 128
  {
    var q, r := n / 128, n % 128;
    DivModUnique(n + 17 + PadZeros(n), 128, if r < 112 then q + 1 else q + 2, 0);
  }

  lemma SameLength(a: nat, b: nat, least: nat)
    requires a % 128 == 0 && b % 128 == 0 && least <= a < least + 128 && least <= b < least + 128
    ensures a == b
  {
  }

  // Hashing compresses the blocks of the padded message one after the other.
  lemma HashChain(C: Compression, m: Bytes, st: seq<Bytes>)
    requires IsCompression(C) && |st| == |Pad(m)| / 128 + 1 && st[0] == C.iv
    requires forall i :: 0 <= i < |st| - 1 ==> st[i + 1] == C.T(st[i], BlockOf(Pad(m), i))
    ensures Hash(C, m) == st[|st| - 1]
  {
    PadExact(m, Pad(m));
    var p := Pad(m);
    hide Pad;
    AbsorbChain(C, p, st, |st| - 1);
    assert p[..128 * (|st| - 1)] == p;
  }

  function BlockOf(p: Bytes, i: nat): Bytes {
    if 128 * i + 128 <= |p| then p[128 * i..128 * i + 128] else []
  }

  lemma {:induction false} AbsorbChain(C: Compression, p: Bytes, st: seq<Bytes>, n: nat)
    requires n < |st| && 128 * n <= |p| && st[0] == C.iv
    requires forall i :: 0 <= i < |st| - 1 ==> st[i + 1] == C.T(st[i], BlockOf(p, i))
    ensures Absorb(C, C.iv, p[..128 * n]) == st[n]
  {
    if n > 0 {
      AbsorbChain(C, p, st, n - 1);
      var a, b := p[..128 * (n - 1)], BlockOf(p, n - 1);
      assert p[..128 * n] == a + b;
      AbsorbBlock(C, C.iv, a, b);
      assert st[n - 1 + 1] == C.T(st[n - 1], b);
    }
  }

  // ---------------------------------------------------------------- HMAC

  // The fixed second half of a block that pads 64 bytes after a block of 128.
  lemma FixedPadBytes(k: nat)
    requires k < 64
    ensures FixedPad()[k] == if k == 0 then 0x80 else if k == 62 then 0x06 else 0
  {
    LengthBytes();
    hide Word64;
    assert k >= 56 ==> FixedPad()[k] == Word64(1536)[k - 56];
  }

  lemma LengthBytes()
    ensures Word64(1536) == [0, 0, 0, 0, 0, 0, 6, 0]
  {
    WordNumber(1536);
    hide Word64;
    var z: Bytes := [0, 0, 0, 0, 0, 0];
    AesModes.NumberOf(z);
    NumberZeros(AesModes.Ints(z), 256);
    AesModes.NumberLast(z, 6);
    AesModes.NumberLast(z + [6], 0);
    hide AesModes.Number;
    assert z + [6] + [0] == [0, 0, 0, 0, 0, 0, 6, 0];
    AesModes.BytesOfNumber(Word64(1536), z + [6] + [0]);
  }

  // RFC 2104, with the key block and both pads given byte by byte.
  lemma HmacBytes(C: Compression, key: Bytes, msg: Bytes, short: Bytes, ipad: Bytes, opad: Bytes)
    requires IsCompression(C) && short == (if |key| > 128 then Hash(C, key) else key) && |short| <= 128
    requires |ipad| == |opad| == 128
    requires forall k :: 0 <= k < 128 ==> ipad[k] == (if k < |short| then short[k] else 0) ^ 0x36
    requires forall k :: 0 <= k < 128 ==> opad[k] == (if k < |short| then short[k] else 0) ^ 0x5C
    ensures Hmac(C, key, msg) == Hash(C, opad + Hash(C, ipad + msg))
  {
    HashSize(C, key);
    PadBytes(C, key, short, ipad, 0x36);
    PadBytes(C, key, short, opad, 0x5C);
    hide Hash, KeyBlock, Padded;
    assert Ipad(C, key) == ipad && Opad(C, key) == opad;
  }

  lemma PadBytes(C: Compression, key: Bytes, short: Bytes, pad: Bytes, b: bv8)
    requires IsCompression(C) && short == (if |key| > 128 then Hash(C, key) else key) && |short| <= 128 && |pad| == 128
    requires forall k :: 0 <= k < 128 ==> pad[k] == (if k < |short| then short[k] else 0) ^ b
    ensures pad == Padded(KeyBlock(C, key), b)
  {
    HashSize(C, key);
    hide Hash;
    assert forall k :: 0 <= k < 128 ==> KeyBlock(C, key)[k] == if k < |short| then short[k] else 0;
  }
}
