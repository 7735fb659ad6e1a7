// pbkdf2.c: the derived key bit by bit. Bit m of byte k is set exactly when it is set in an odd
// number of the chained keyed hashes.

module Pbkdf2Sum {
  import opened Sha512
  import opened Hmac512
  import opened Pbkdf2
  import AesField

  predicate OneBit(m: bv8) {
    m == 0x01 || m == 0x02 || m == 0x04 || m == 0x08 || m == 0x10 || m == 0x20 || m == 0x40 || m == 0x80
  }

  predicate Has(x: bv8, m: bv8) {
    x & m != 0
  }

  // How many of the strings have the bit.
  function Ones(us: seq<Bytes>, k: nat, m: bv8): nat
    requires forall j :: 0 <= j < |us| ==> k < |us[j]|
  {
    if us == [] then 0
    else Ones(us[..|us| - 1], k, m) + if Has(us[|us| - 1][k], m) then 1 else 0
  }

  // Each hash is keyed with the password and taken of the one before; the first of the salt and the
  // block number 1.
  ghost predicate ChainedHashes(C: Compression, pass: Bytes, salt: Bytes, us: seq<Bytes>)
    requires IsCompression(C)
  {
    && |us| >= 1 && us[0] == Hmac(C, pass, salt + [0, 0, 0, 1])
    && forall j :: 1 <= j < |us| ==> us[j] == Hmac(C, pass, us[j - 1])
  }

  lemma XorBit(a: bv8, b: bv8, m: bv8)
    requires OneBit(m)
    ensures Has(AesField.Xor8(a, b), m) <==> Has(a, m) != Has(b, m)
  {
  }

  lemma {:induction false} ChainIsU(C: Compression, pass: Bytes, salt: Bytes, us: seq<Bytes>, j: nat)
    requires IsCompression(C) && ChainedHashes(C, pass, salt, us) && j < |us|
    ensures us[j] == U(C, pass, salt, j + 1) && |us[j]| == 64
  {
    hide Hmac;
    if j > 0 {
      ChainIsU(C, pass, salt, us, j - 1);
    }
  }

  lemma Sizes(C: Compression, pass: Bytes, salt: Bytes, us: seq<Bytes>)
    requires IsCompression(C) && ChainedHashes(C, pass, salt, us)
    ensures forall j :: 0 <= j < |us| ==> |us[j]| == 64
  {
    forall j | 0 <= j < |us|
      ensures |us[j]| == 64
    {
      ChainIsU(C, pass, salt, us, j);
    }
  }

  lemma {:induction false} SumHas(C: Compression, pass: Bytes, salt: Bytes, us: seq<Bytes>, k: nat, m: bv8)
    requires IsCompression(C) && k < 64 && OneBit(m) && ChainedHashes(C, pass, salt, us)
    requires forall j :: 0 <= j < |us| ==> |us[j]| == 64
    ensures Has(F(C, pass, salt, |us|)[k], m) <==> Ones(us, k, m) % 2 == 1
  {
    hide Hmac, OneBit, Has, AesField.Xor8, U;
    var c := |us|;
    ChainIsU(C, pass, salt, us, c - 1);
    if c == 1 {
      assert us[..0] == [];
      assert F(C, pass, salt, 1) == us[0];
    } else {
      var t := us[..c - 1];
      SumHas(C, pass, salt, t, k, m);
      LastSummand(C, pass, salt, c, k);
      hide F;
      XorBit(F(C, pass, salt, c - 1)[k], us[c - 1][k], m);
      Alternates(Ones(t, k, m));
    }
  }

  // m is one of the eight bits of byte k.
  lemma SumBits(C: Compression, pass: Bytes, salt: Bytes, us: seq<Bytes>, k: nat, m: bv8)
    requires IsCompression(C) && k < 64 && OneBit(m)
    requires us != [] && us[0] == Hmac(C, pass, salt + [0, 0, 0, 1])
    requires forall j :: 1 <= j < |us| ==> us[j] == Hmac(C, pass, us[j - 1])
    ensures forall j :: 0 <= j < |us| ==> |us[j]| == 64
    ensures F(C, pass, salt, |us|)[k] & m != 0 <==> Ones(us, k, m) % 2 == 1
  {
    hide Hmac, OneBit, F;
    Sizes(C, pass, salt, us);
    SumHas(C, pass, salt, us, k, m);
  }

  lemma LastSummand(C: Compression, pass: Bytes, salt: Bytes, c: nat, k: nat)
    requires IsCompression(C) && c >= 2 && k < 64
    ensures F(C, pass, salt, c)[k] == AesField.Xor8(F(C, pass, salt, c - 1)[k], U(C, pass, salt, c)[k])
  {
    hide U, AesField.Xor8;
  }

  lemma Alternates(n: nat)
    ensures (n + 1) % 2 == 1 - n % 2
  {
  }
}
