// aescrypt.c: aes_encrypt and aes_decrypt with fully unrolled rounds, against the cipher of
// section 5 of FIPS 197.

module AesBlock {
  import opened AesField
  import opened AesCipher

  // ---------------------------------------------------------------- the cipher of FIPS 197

  // Section 5.1.1.
  function SubWord(w: Word): Word {
    Word(SBox(w.b0), SBox(w.b1), SBox(w.b2), SBox(w.b3))
  }

  function SubBytes(x: State): State {
    [SubWord(x[0]), SubWord(x[1]), SubWord(x[2]), SubWord(x[3])]
  }

  // Section 5.1.2: row r of the state moves r columns to the left.
  function ShiftRows(x: State): State {
    [Word(x[0].b0, x[1].b1, x[2].b2, x[3].b3), Word(x[1].b0, x[2].b1, x[3].b2, x[0].b3),
     Word(x[2].b0, x[3].b1, x[0].b2, x[1].b3), Word(x[3].b0, x[0].b1, x[1].b2, x[2].b3)]
  }

  // Section 5.1.3.
  function MixColumns(x: State): State {
    [MixColumn(x[0]), MixColumn(x[1]), MixColumn(x[2]), MixColumn(x[3])]
  }

  // Section 5.1: the state after i full rounds, and the whole cipher.
  function CipherState(ks: seq<Word>, block: State, i: nat): State
    requires 4 * i + 4 <= |ks|
  {
    if i == 0 then AddKey(block, ks, 0)
    else AddKey(MixColumns(ShiftRows(SubBytes(CipherState(ks, block, i - 1)))), ks, 4 * i)
  }

  function Cipher(ks: seq<Word>, block: State, rounds: nat): State
    requires 1 <= rounds && 4 * rounds + 4 <= |ks|
  {
    AddKey(ShiftRows(SubBytes(CipherState(ks, block, rounds - 1))), ks, 4 * rounds)
  }

  lemma ShiftedColumn(x: State, c: nat)
    requires c < 4
    ensures ShiftRows(SubBytes(x))[c] == SubShift(x, c)
  {
    hide SBox;
    assert c == 0 || c == 1 || c == 2 || c == 3;
  }

  lemma TableColumn(x: State, k: Word, c: nat)
    requires c < 4
    ensures FwdRound(x, k, c) == Xor(MixColumn(ShiftRows(SubBytes(x))[c]), k)
    ensures FwdLast(x, k, c) == Xor(ShiftRows(SubBytes(x))[c], k)
  {
    hide SubBytes, ShiftRows, MixColumn, Xor, FwdRound, FwdLast, SubShift;
    ForwardMeans(x, k, c);
    ForwardLastMeans(x, k, c);
    ShiftedColumn(x, c);
    Laws(k, SubShift(x, c), k);
    Laws(k, MixColumn(SubShift(x, c)), k);
  }

  // One table-driven round is the four transformations of the standard.
  lemma TableRound(x: State, ks: seq<Word>, kp: nat)
    requires kp + 4 <= |ks|
    ensures Forward(x, ks, kp) == AddKey(MixColumns(ShiftRows(SubBytes(x))), ks, kp)
    ensures ForwardLast(x, ks, kp) == AddKey(ShiftRows(SubBytes(x)), ks, kp)
  {
    TableColumn(x, ks[kp], 0);
    TableColumn(x, ks[kp + 1], 1);
    TableColumn(x, ks[kp + 2], 2);
    TableColumn(x, ks[kp + 3], 3);
    hide SubBytes, ShiftRows, MixColumn, Xor, FwdRound, FwdLast, SubShift;
  }

  lemma {:induction false} TableState(ks: seq<Word>, block: State, i: nat)
    requires 4 * i + 4 <= |ks|
    ensures EncState(ks, block, i) == CipherState(ks, block, i)
  {
    hide *;
    StateStep(ks, block, i);
    if i > 0 {
      TableState(ks, block, i - 1);
      TableRound(EncState(ks, block, i - 1), ks, 4 * i);
    }
  }

  lemma StateStep(ks: seq<Word>, block: State, i: nat)
    requires 4 * i + 4 <= |ks|
    ensures i == 0 ==> EncState(ks, block, i) == CipherState(ks, block, i)
    ensures i > 0 ==> EncState(ks, block, i) == Forward(EncState(ks, block, i - 1), ks, 4 * i)
    ensures i > 0 ==> CipherState(ks, block, i) == AddKey(MixColumns(ShiftRows(SubBytes(CipherState(ks, block, i - 1)))), ks, 4 * i)
  {
    hide Forward, AddKey, SubBytes, ShiftRows, MixColumns;
  }

  // The table-driven encryption is the cipher of the standard.
  lemma TablesAreCipher(ks: seq<Word>, block: State, rounds: nat)
    requires 1 <= rounds && 4 * rounds + 4 <= |ks|
    ensures Encrypted(ks, block, rounds) == Cipher(ks, block, rounds)
  {
    hide ForwardLast, AddKey, SubBytes, ShiftRows, MixColumns, EncState, CipherState, Forward, MixColumn;
    TableState(ks, block, rounds - 1);
    TableRound(EncState(ks, block, rounds - 1), ks, 4 * rounds);
  }

  // ---------------------------------------------------------------- bytes

  // word_in and word_out.
  function WordAt(s: seq<bv8>, c: nat): Word
    requires 4 * c + 4 <= |s|
  {
    Word(s[4 * c], s[4 * c + 1], s[4 * c + 2], s[4 * c + 3])
  }

  function Columns(s: seq<bv8>): State
    requires |s| == 16
  {
    [WordAt(s, 0), WordAt(s, 1), WordAt(s, 2), WordAt(s, 3)]
  }

  function Octets(x: State): (s: seq<bv8>)
    ensures |s| == 16
  {
    [x[0].b0, x[0].b1, x[0].b2, x[0].b3, x[1].b0, x[1].b1, x[1].b2, x[1].b3,
     x[2].b0, x[2].b1, x[2].b2, x[2].b3, x[3].b0, x[3].b1, x[3].b2, x[3].b3]
  }

  lemma OctetsWords(s: seq<bv8>, x: State)
    requires |s| == 16
    ensures Octets(Columns(s)) == s && Columns(Octets(x)) == x
  {
    OctetsOf(s);
    WordsOf(x);
    hide Octets, Columns;
  }

  lemma OctetsOf(s: seq<bv8>)
    requires |s| == 16
    ensures Octets(Columns(s)) == s
  {
  }

  lemma WordsOf(x: State)
    ensures Columns(Octets(x)) == x
  {
    var w := Columns(Octets(x));
    assert w[0] == x[0] && w[1] == x[1] && w[2] == x[2] && w[3] == x[3];
  }

  // ---------------------------------------------------------------- contexts

  // aes_encrypt_ctx and aes_decrypt_ctx; inf is inf.b[0], sixteen times the number of rounds, and
  // pos is inf.b[2], the byte position of the streaming modes.
  class Context {
    var ks: seq<Word>
    var inf: nat
    var pos: nat

    constructor ()
      ensures |ks| == 60
    {
      ks := seq(60, i => ZERO);
      inf := 0;
      pos := 0;
    }
  }

  // aes_encrypt and aes_decrypt accept these values of inf.b[0] only.
  predicate Keyed(inf: nat) {
    inf == 160 || inf == 192 || inf == 224
  }

  // What a keyed context does to sixteen bytes.
  function EncryptBytes(ks: seq<Word>, rounds: nat, s: seq<bv8>): (r: seq<bv8>)
    requires |s| == 16 && 1 <= rounds && 4 * rounds + 4 <= |ks|
    ensures |r| == 16
  {
    Octets(Cipher(ks, Columns(s), rounds))
  }

  function DecryptBytes(ks: seq<Word>, rounds: nat, s: seq<bv8>): (r: seq<bv8>)
    requires |s| == 16 && 1 <= rounds && 4 * rounds + 4 <= |ks|
    ensures |r| == 16
  {
    Octets(Decrypted(ks, Columns(s), rounds))
  }

  // ---------------------------------------------------------------- aes_encrypt

  method StateIn(input: array<bv8>, ks: seq<Word>) returns (b: State)
    requires input.Length == 16 && |ks| >= 4
    ensures b == AddKey(Columns(input[..]), ks, 0)
  {
    hide Xor;
    b := [Xor(Word(input[0], input[1], input[2], input[3]), ks[0]), Xor(Word(input[4], input[5], input[6], input[7]), ks[1]),
          Xor(Word(input[8], input[9], input[10], input[11]), ks[2]), Xor(Word(input[12], input[13], input[14], input[15]), ks[3])];
  }

  method StateOut(out: array<bv8>, b: State)
    requires out.Length == 16
    modifies out
    ensures out[..] == Octets(b)
  {
    WordOut(out, 0, b[0]);
    WordOut(out, 1, b[1]);
    WordOut(out, 2, b[2]);
    WordOut(out, 3, b[3]);
  }

  method WordOut(out: array<bv8>, c: nat, w: Word)
    requires out.Length == 16 && c < 4
    modifies out
    ensures forall i :: 0 <= i < 16 && !(4 * c <= i < 4 * c + 4) ==> out[i] == old(out[i])
    ensures out[4 * c] == w.b0 && out[4 * c + 1] == w.b1 && out[4 * c + 2] == w.b2 && out[4 * c + 3] == w.b3
  {
    out[4 * c] := w.b0;
    out[4 * c + 1] := w.b1;
    out[4 * c + 2] := w.b2;
    out[4 * c + 3] := w.b3;
  }

  // b is the state after i rounds, for the next round key at kp + 4.
  ghost predicate Encrypting(b: State, ks: seq<Word>, block: State, i: nat) {
    4 * i + 4 <= |ks| && b == EncState(ks, block, i)
  }

  ghost predicate Decrypting(b: State, ks: seq<Word>, block: State, i: nat) {
    4 * i + 4 <= |ks| && b == DecState(ks, block, i)
  }

  method EncryptRound(b: State, ks: seq<Word>, kp: nat, ghost block: State, ghost i: nat) returns (y: State)
    requires Encrypting(b, ks, block, i) && kp == 4 * i + 4 && kp + 4 <= |ks|
    ensures Encrypting(y, ks, block, i + 1)
  {
    hide FwdRound;
    y := [FwdRound(b, ks[kp], 0), FwdRound(b, ks[kp + 1], 1), FwdRound(b, ks[kp + 2], 2), FwdRound(b, ks[kp + 3], 3)];
    assert y == Forward(b, ks, kp);
  }

  method DecryptRound(b: State, ks: seq<Word>, kp: nat, ghost block: State, ghost i: nat) returns (y: State)
    requires Decrypting(b, ks, block, i) && kp == 4 * i + 4 && kp + 4 <= |ks|
    ensures Decrypting(y, ks, block, i + 1)
  {
    hide InvRound;
    y := [InvRound(b, ks[kp], 0), InvRound(b, ks[kp + 1], 1), InvRound(b, ks[kp + 2], 2), InvRound(b, ks[kp + 3], 3)];
    assert y == Backward(b, ks, kp);
  }

  lemma StartEncrypting(ks: seq<Word>, block: State)
    requires 4 <= |ks|
    ensures Encrypting(AddKey(block, ks, 0), ks, block, 0)
  {
    hide AddKey;
  }

  lemma StartDecrypting(ks: seq<Word>, block: State)
    requires 4 <= |ks|
    ensures Decrypting(AddKey(block, ks, 0), ks, block, 0)
  {
    hide AddKey;
  }

  lemma EncryptedBytes(ks: seq<Word>, rounds: nat, s: seq<bv8>)
    requires |s| == 16 && 1 <= rounds && 4 * rounds + 4 <= |ks|
    ensures EncryptBytes(ks, rounds, s) == Octets(Encrypted(ks, Columns(s), rounds))
    ensures DecryptBytes(ks, rounds, s) == Octets(Decrypted(ks, Columns(s), rounds))
  {
    TablesAreCipher(ks, Columns(s), rounds);
    hide Encrypted, Cipher, Columns, Octets, Decrypted;
  }

  // The ten rounds every key length ends with.
  method EncryptTail(b: State, ks: seq<Word>, kp: nat, ghost block: State, ghost i: nat) returns (y: State)
    requires Encrypting(b, ks, block, i) && kp == 4 * i && kp + 44 <= |ks|
    ensures y == Encrypted(ks, block, i + 10)
  {
    hide *;
    var b0, b1 := b, b;
    b1 := EncryptRound(b0, ks, kp + 4, block, i);
    b0 := EncryptRound(b1, ks, kp + 8, block, i + 1);
    b1 := EncryptRound(b0, ks, kp + 12, block, i + 2);
    b0 := EncryptRound(b1, ks, kp + 16, block, i + 3);
    b1 := EncryptRound(b0, ks, kp + 20, block, i + 4);
    b0 := EncryptRound(b1, ks, kp + 24, block, i + 5);
    b1 := EncryptRound(b0, ks, kp + 28, block, i + 6);
    b0 := EncryptRound(b1, ks, kp + 32, block, i + 7);
    b1 := EncryptRound(b0, ks, kp + 36, block, i + 8);
    y := ForwardLast(b1, ks, kp + 40);
    EncryptedLast(b1, ks, block, i + 9);
  }

  lemma EncryptedLast(b: State, ks: seq<Word>, block: State, i: nat)
    requires Encrypting(b, ks, block, i) && 4 * i + 8 <= |ks|
    ensures Encrypted(ks, block, i + 1) == ForwardLast(b, ks, 4 * i + 4)
  {
    hide ForwardLast, EncState;
  }

  method DecryptTail(b: State, ks: seq<Word>, kp: int, ghost block: State, ghost i: nat) returns (y: State)
    requires Decrypting(b, ks, block, i) && kp == 4 * i + 40 && kp + 4 <= |ks|
    ensures y == Decrypted(ks, block, i + 10)
  {
    hide *;
    var b0, b1 := b, b;
    b1 := DecryptRound(b0, ks, kp - 36, block, i);
    b0 := DecryptRound(b1, ks, kp - 32, block, i + 1);
    b1 := DecryptRound(b0, ks, kp - 28, block, i + 2);
    b0 := DecryptRound(b1, ks, kp - 24, block, i + 3);
    b1 := DecryptRound(b0, ks, kp - 20, block, i + 4);
    b0 := DecryptRound(b1, ks, kp - 16, block, i + 5);
    b1 := DecryptRound(b0, ks, kp - 12, block, i + 6);
    b0 := DecryptRound(b1, ks, kp - 8, block, i + 7);
    b1 := DecryptRound(b0, ks, kp - 4, block, i + 8);
    y := BackwardLast(b1, ks, kp);
    DecryptedLast(b1, ks, block, i + 9);
  }

  lemma DecryptedLast(b: State, ks: seq<Word>, block: State, i: nat)
    requires Decrypting(b, ks, block, i) && 4 * i + 8 <= |ks|
    ensures Decrypted(ks, block, i + 1) == BackwardLast(b, ks, 4 * i + 4)
  {
    hide BackwardLast, DecState;
  }

  // The switch on inf, whose cases fall through.
  method EncryptRounds(b: State, ks: seq<Word>, inf: nat, ghost block: State) returns (y: State)
    requires |ks| == 60 && b == AddKey(block, ks, 0) && (inf == 160 || inf == 192 || inf == 224)
    ensures y == Encrypted(ks, block, inf / 16)
  {
    hide *;
    var kp, b0, b1 := 0, b, b;
    ghost var i := 0;
    StartEncrypting(ks, block);
    if inf == 224 {
      b1 := EncryptRound(b0, ks, kp + 4, block, i);
      b0 := EncryptRound(b1, ks, kp + 8, block, i + 1);
      kp, i := kp + 8, i + 2;
    }
    if inf == 224 || inf == 192 {
      b1 := EncryptRound(b0, ks, kp + 4, block, i);
      b0 := EncryptRound(b1, ks, kp + 8, block, i + 1);
      kp, i := kp + 8, i + 2;
    }
    y := EncryptTail(b0, ks, kp, block, i);
  }

  method DecryptRounds(b: State, ks: seq<Word>, inf: nat, ghost block: State) returns (y: State)
    requires |ks| == 60 && b == AddKey(block, ks, 0) && (inf == 160 || inf == 192 || inf == 224)
    ensures y == Decrypted(ks, block, inf / 16)
  {
    hide *;
    var kp, b0, b1 := inf / 4, b, b;
    ghost var i := 0;
    StartDecrypting(ks, block);
    if inf == 224 {
      b1 := DecryptRound(b0, ks, kp - 52, block, i);
      b0 := DecryptRound(b1, ks, kp - 48, block, i + 1);
      i := i + 2;
    }
    if inf == 224 || inf == 192 {
      b1 := DecryptRound(b0, ks, kp - 44, block, i);
      b0 := DecryptRound(b1, ks, kp - 40, block, i + 1);
      i := i + 2;
    }
    y := DecryptTail(b0, ks, kp, block, i);
  }

  // in and out may be the same buffer.
  method Encrypt(input: array<bv8>, out: array<bv8>, cx: Context) returns (ok: bool)
    requires input.Length == 16 && out.Length == 16 && |cx.ks| == 60
    modifies out
    ensures ok == Keyed(cx.inf)
    ensures ok <==> cx.inf == 160 || cx.inf == 192 || cx.inf == 224
    ensures ok ==> out[..] == EncryptBytes(cx.ks, cx.inf / 16, old(input[..]))
    ensures !ok ==> out[..] == old(out[..])
  {
    if cx.inf != 160 && cx.inf != 192 && cx.inf != 224 {
      return false;
    }
    hide EncryptBytes, DecryptBytes, Encrypted, Decrypted, AddKey, Columns, Octets;
    ghost var s := input[..];
    var b0 := StateIn(input, cx.ks);
    b0 := EncryptRounds(b0, cx.ks, cx.inf, Columns(s));
    assert Octets(b0) == EncryptBytes(cx.ks, cx.inf / 16, s) by { EncryptedBytes(cx.ks, cx.inf / 16, s); }
    StateOut(out, b0);
    return true;
  }

  // in and out may be the same buffer.
  method Decrypt(input: array<bv8>, out: array<bv8>, cx: Context) returns (ok: bool)
    requires input.Length == 16 && out.Length == 16 && |cx.ks| == 60
    modifies out
    ensures ok == Keyed(cx.inf)
    ensures ok <==> cx.inf == 160 || cx.inf == 192 || cx.inf == 224
    ensures ok ==> out[..] == DecryptBytes(cx.ks, cx.inf / 16, old(input[..]))
    ensures !ok ==> out[..] == old(out[..])
  {
    if cx.inf != 160 && cx.inf != 192 && cx.inf != 224 {
      return false;
    }
    hide EncryptBytes, DecryptBytes, Encrypted, Decrypted, AddKey, Columns, Octets;
    ghost var s := input[..];
    var b0 := StateIn(input, cx.ks);
    b0 := DecryptRounds(b0, cx.ks, cx.inf, Columns(s));
    assert Octets(b0) == DecryptBytes(cx.ks, cx.inf / 16, s) by { EncryptedBytes(cx.ks, cx.inf / 16, s); }
    StateOut(out, b0);
    return true;
  }
}
