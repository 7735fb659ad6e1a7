// aeskey.c, aescrypt.c and aes_modes.c together: for every 128- and 256-bit key the two schedules
// give block functions that undo each other, and CBC decryption returns every message.

module AesRoundTrip {
  import opened AesField
  import opened AesBlock
  import opened AesModes
  import opened AesStream
  import opened AesKeys
  import opened AesCbc

  // What aes_encrypt and aes_decrypt compute under a schedule, as functions on blocks.
  function EncryptionOf(ks: seq<Word>, rounds: nat): Block -> Block
    requires 1 <= rounds && 4 * rounds + 4 <= |ks|
  {
    (b: Block) => EncryptBytes(ks, rounds, b)
  }

  function DecryptionOf(ks: seq<Word>, rounds: nat): Block -> Block
    requires 1 <= rounds && 4 * rounds + 4 <= |ks|
  {
    (b: Block) => DecryptBytes(ks, rounds, b)
  }

  lemma SchedulesUndo(ek: seq<Word>, dk: seq<Word>, key: seq<Word>, rounds: nat)
    requires 1 <= rounds <= 14 && |ek| == 60 && |dk| == 60
    requires Expanding(ek, key, 4 * rounds + 4) && Storing(dk, key, 4 * rounds, rounds + 1)
    ensures Undoes(DecryptionOf(dk, rounds), EncryptionOf(ek, rounds))
    ensures Computes(ek, 16 * rounds, EncryptionOf(ek, rounds))
    ensures ComputesInverse(dk, 16 * rounds, DecryptionOf(dk, rounds))
  {
    hide EncryptBytes, DecryptBytes, Expanding, Storing;
    forall b: Block
      ensures DecryptionOf(dk, rounds)(EncryptionOf(ek, rounds)(b)) == b
    {
      DecryptUndoesEncrypt(ek, dk, key, rounds, b);
    }
  }

  // aes_encrypt_key128 or aes_encrypt_key256 in one context, its decryption twin in another.
  method Schedules(key: array<bv8>) returns (ecx: Context, dcx: Context, ghost rounds: nat)
    requires key.Length == 16 || key.Length == 32
    ensures fresh(ecx) && fresh(dcx) && ecx != dcx
    ensures rounds == (if key.Length == 16 then 10 else 14) && ecx.inf == dcx.inf == 16 * rounds && Keyed(ecx.inf)
    ensures |ecx.ks| == 60 && |dcx.ks| == 60
    ensures Expanding(ecx.ks, KeyWords(key[..]), 4 * rounds + 4)
    ensures Storing(dcx.ks, KeyWords(key[..]), 4 * rounds, rounds + 1)
  {
    hide Expanding, Storing, KeyWords;
    ecx := new Context();
    dcx := new Context();
    if key.Length == 16 {
      rounds := 10;
      EncryptKey128(key, ecx);
      DecryptKey128(key, dcx);
    } else {
      rounds := 14;
      EncryptKey256(key, ecx);
      DecryptKey256(key, dcx);
    }
    ScheduleSizes(ecx.ks, dcx.ks, KeyWords(key[..]), rounds);
  }

  lemma ScheduleSizes(ek: seq<Word>, dk: seq<Word>, key: seq<Word>, rounds: nat)
    requires rounds <= 14 && Expanding(ek, key, 4 * rounds + 4) && Storing(dk, key, 4 * rounds, rounds + 1)
    ensures |ek| == 60 && |dk| == 60
  {
    hide Expanded;
  }

  // Schedules, encryption and decryption in sequence, from one initial register.
  method CbcRoundTrip(key: array<bv8>, plain: array<bv8>, iv: seq<bv8>) returns (cipher: array<bv8>, back: array<bv8>)
    requires (key.Length == 16 || key.Length == 32) && |iv| == 16 && plain.Length % 16 == 0
    ensures fresh(cipher) && fresh(back) && cipher.Length == back.Length == plain.Length
    ensures back[..] == plain[..]
  {
    hide *;
    var ecx, dcx;
    ghost var rounds;
    ecx, dcx, rounds := Schedules(key);
    ghost var E, D := EncryptionOf(ecx.ks, rounds), DecryptionOf(dcx.ks, rounds);
    SchedulesUndo(ecx.ks, dcx.ks, KeyWords(key[..]), rounds);
    cipher := new bv8[plain.Length];
    back := new bv8[plain.Length];
    var reg1 := new bv8[16](i requires 0 <= i < 16 => iv[i]);
    var reg2 := new bv8[16](i requires 0 <= i < 16 => iv[i]);
    assert reg1[..] == iv && reg2[..] == iv;
    ghost var s := plain[..];
    var ok := CbcEncrypt(plain, cipher, reg1, ecx, E);
    assert ok;
    CbcInverse(D, E, iv, s);
    ok := CbcDecrypt(cipher, back, reg2, dcx, D);
    assert ok;
  }
}
