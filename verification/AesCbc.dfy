// aes_modes.c: aes_cbc_encrypt and aes_cbc_decrypt, whose register carries the last ciphertext
// block from call to call.

module AesCbc {
  import opened AesField
  import opened AesBlock
  import opened AesModes
  import opened AesStream
  import AesCounter

  function XorBlock(a: Block, b: Block): Block {
    seq(16, k requires 0 <= k < 16 => Xor8(a[k], b[k]))
  }

  // Section 6.2 of NIST SP 800-38A: the register after the message, and the ciphertext.
  function CbcEncrypted(E: Block -> Block, iv: Block, s: seq<bv8>): (r: (Block, seq<bv8>))
    ensures |s| % 16 == 0 ==> |r.1| == |s|
  {
    if |s| < 16 then (iv, [])
    else
      var (v, out) := CbcEncrypted(E, iv, s[..|s| - 16]);
      var c := E(XorBlock(s[|s| - 16..], v));
      (c, out + c)
  }

  function CbcDecrypted(D: Block -> Block, iv: Block, s: seq<bv8>): (r: (Block, seq<bv8>))
    ensures |s| % 16 == 0 ==> |r.1| == |s|
  {
    if |s| < 16 then (iv, [])
    else
      var (v, out) := CbcDecrypted(D, iv, s[..|s| - 16]);
      var c: Block := s[|s| - 16..];
      (c, out + XorBlock(D(c), v))
  }

  // D undoes E.
  ghost predicate Undoes(D: Block -> Block, E: Block -> Block) {
    forall b :: D(E(b)) == b
  }

  lemma XorTwice(a: Block, b: Block)
    ensures XorBlock(XorBlock(a, b), b) == a
  {
    forall k | 0 <= k < 16
      ensures Xor8(Xor8(a[k], b[k]), b[k]) == a[k]
    {
      UndoByte(b[k], a[k]);
    }
    hide Xor8;
  }

  lemma OneMore(E: Block -> Block, iv: Block, t: seq<bv8>, p: Block)
    requires |t| % 16 == 0
    ensures var (v, out) := CbcEncrypted(E, iv, t);
            var c := E(XorBlock(p, v));
            CbcEncrypted(E, iv, t + p) == (c, out + c)
    ensures var (v, out) := CbcDecrypted(E, iv, t);
            CbcDecrypted(E, iv, t + p) == (p, out + XorBlock(E(p), v))
  {
    assert (t + p)[..|t + p| - 16] == t && (t + p)[|t + p| - 16..] == p;
    hide XorBlock;
  }

  lemma UndoesAt(D: Block -> Block, E: Block -> Block, b: Block)
    requires Undoes(D, E)
    ensures D(E(b)) == b
  {
  }

  // Decryption undoes encryption, and leaves the same register.
  lemma {:induction false} CbcInverse(D: Block -> Block, E: Block -> Block, iv: Block, s: seq<bv8>)
    requires Undoes(D, E) && |s| % 16 == 0
    ensures var (v, out) := CbcEncrypted(E, iv, s); CbcDecrypted(D, iv, out) == (v, s)
  {
    if |s| >= 16 {
      hide XorBlock, Undoes, CbcEncrypted, CbcDecrypted;
      var t, p := s[..|s| - 16], s[|s| - 16..];
      assert t + p == s;
      CbcInverse(D, E, iv, t);
      var (v, out) := CbcEncrypted(E, iv, t);
      var c := E(XorBlock(p, v));
      OneMore(E, iv, t, p);
      OneMore(D, iv, out, c);
      UndoesAt(D, E, XorBlock(p, v));
      XorTwice(p, v);
    }
  }

  // The last block p of the second piece.
  lemma LastBlock(a: seq<bv8>, b: seq<bv8>, t: seq<bv8>, p: seq<bv8>)
    requires |b| >= 16 && t == b[..|b| - 16] && p == b[|b| - 16..]
    ensures t + p == b && (a + t) + p == a + b
  {
  }

  lemma Associate(a: seq<bv8>, b: seq<bv8>, c: seq<bv8>)
    ensures (a + b) + c == a + (b + c)
  {
  }

  // One call after another is one call on the whole message.
  lemma {:induction false} CbcSplit(E: Block -> Block, iv: Block, a: seq<bv8>, b: seq<bv8>)
    requires |a| % 16 == 0 && |b| % 16 == 0
    ensures var (v, out) := CbcEncrypted(E, iv, a);
            var (w, out') := CbcEncrypted(E, v, b);
            CbcEncrypted(E, iv, a + b) == (w, out + out')
    decreases |b|
  {
    var (v, out) := CbcEncrypted(E, iv, a);
    if |b| < 16 {
      assert a + b == a && out + [] == out;
    } else {
      hide *;
      var t, p := b[..|b| - 16], b[|b| - 16..];
      LastBlock(a, b, t, p);
      CbcSplit(E, iv, a, t);
      var (w, o) := CbcEncrypted(E, v, t);
      OneMore(E, iv, a + t, p);
      OneMore(E, v, t, p);
      Associate(out, o, E(XorBlock(p, w)));
    }
  }

  lemma {:induction false} CbcDecryptSplit(D: Block -> Block, iv: Block, a: seq<bv8>, b: seq<bv8>)
    requires |a| % 16 == 0 && |b| % 16 == 0
    ensures var (v, out) := CbcDecrypted(D, iv, a);
            var (w, out') := CbcDecrypted(D, v, b);
            CbcDecrypted(D, iv, a + b) == (w, out + out')
    decreases |b|
  {
    var (v, out) := CbcDecrypted(D, iv, a);
    if |b| < 16 {
      assert a + b == a && out + [] == out;
    } else {
      hide *;
      var t, c := b[..|b| - 16], b[|b| - 16..];
      LastBlock(a, b, t, c);
      CbcDecryptSplit(D, iv, a, t);
      var (w, o) := CbcDecrypted(D, v, t);
      OneMore(D, iv, a + t, c);
      OneMore(D, v, t, c);
      Associate(out, o, XorBlock(D(c), w));
    }
  }

  // ---------------------------------------------------------------- the two modes in bytes

  // Block i of a message, and the block before it or the initial register.
  function BlockAt(s: seq<bv8>, i: nat): Block
    requires 16 * i + 16 <= |s|
  {
    s[16 * i..16 * i + 16]
  }

  function Before(iv: Block, s: seq<bv8>, i: nat): Block
    requires 16 * i <= |s|
  {
    if i == 0 then iv else s[16 * i - 16..16 * i]
  }

  lemma XorBlockBytes(a: Block, b: Block, j: nat)
    requires j < 16
    ensures XorBlock(a, b)[j] == a[j] ^ b[j]
  {
  }

  // One block more does not change the blocks before it.
  lemma Extend(iv: Block, t: seq<bv8>, p: Block, i: nat)
    requires 16 * i <= |t| && |t| % 16 == 0
    ensures Before(iv, t + p, i) == Before(iv, t, i) && Before(iv, t + p, |t + p| / 16) == p
    ensures 16 * i < |t| ==> 16 * i + 16 <= |t| && BlockAt(t + p, i) == BlockAt(t, i)
    ensures 16 * i == |t| ==> BlockAt(t + p, i) == p
  {
    if 16 * i < |t| {
      WholeBlocks(|t|, i);
      SlicePrefix(t, p, 16 * i, 16 * i + 16);
    }
    if i > 0 {
      SlicePrefix(t, p, 16 * i - 16, 16 * i);
    }
    BlockCount(|t|);
    SliceEnd(t, p);
  }

  lemma SlicePrefix(t: seq<bv8>, p: seq<bv8>, a: nat, b: nat)
    requires a <= b <= |t|
    ensures (t + p)[a..b] == t[a..b]
  {
  }

  lemma SliceEnd(t: seq<bv8>, p: Block)
    ensures (t + p)[|t|..|t| + 16] == p
  {
  }

  lemma BlockCount(n: nat)
    requires n % 16 == 0
    ensures (n + 16) / 16 > 0 && 16 * ((n + 16) / 16) == n + 16
  {
  }

  lemma WholeBlocks(n: nat, i: nat)
    requires n % 16 == 0 && 16 * i < n
    ensures 16 * i + 16 <= n
  {
  }

  // The register is the last ciphertext block, or the initial one.
  lemma {:induction false} Registers(E: Block -> Block, iv: Block, s: seq<bv8>)
    requires |s| % 16 == 0
    ensures |CbcEncrypted(E, iv, s).1| == |s| && |CbcDecrypted(E, iv, s).1| == |s|
    ensures CbcEncrypted(E, iv, s).0 == Before(iv, CbcEncrypted(E, iv, s).1, |s| / 16)
    ensures CbcDecrypted(E, iv, s).0 == Before(iv, s, |s| / 16)
  {
    if |s| >= 16 {
      hide *;
      var t, p := s[..|s| - 16], s[|s| - 16..];
      assert s == t + p;
      OneMore(E, iv, t, p);
      Registers(E, iv, t);
      Extend(iv, CbcEncrypted(E, iv, t).1, E(XorBlock(p, CbcEncrypted(E, iv, t).0)), 0);
      Extend(iv, t, p, 0);
    }
  }

  // Each ciphertext block is E of the plaintext block added to the ciphertext block before.
  lemma {:induction false} CbcBytes(E: Block -> Block, iv: Block, s: seq<bv8>, i: nat, x: Block)
    requires |s| % 16 == 0 && 16 * i + 16 <= |s| && |CbcEncrypted(E, iv, s).1| == |s|
    requires forall j :: 0 <= j < 16 ==> x[j] == BlockAt(s, i)[j] ^ Before(iv, CbcEncrypted(E, iv, s).1, i)[j]
    ensures BlockAt(CbcEncrypted(E, iv, s).1, i) == E(x)
    decreases |s|
  {
    hide *;
    var t, p := s[..|s| - 16], s[|s| - 16..];
    assert s == t + p;
    OneMore(E, iv, t, p);
    Registers(E, iv, t);
    var (v, out) := CbcEncrypted(E, iv, t);
    Extend(iv, t, p, i);
    Extend(iv, out, E(XorBlock(p, v)), i);
    if 16 * i == |t| {
      BlockEqual(p, v, x);
    } else {
      CbcBytes(E, iv, t, i, x);
    }
  }

  lemma BlockEqual(p: Block, v: Block, x: Block)
    requires forall j :: 0 <= j < 16 ==> x[j] == p[j] ^ v[j]
    ensures x == XorBlock(p, v)
  {
    forall j | 0 <= j < 16
      ensures x[j] == XorBlock(p, v)[j]
    {
      XorBlockBytes(p, v, j);
    }
  }

  // Each plaintext block is D of the ciphertext block added to the ciphertext block before.
  lemma {:induction false} CbcDecryptBytes(D: Block -> Block, iv: Block, s: seq<bv8>, i: nat, j: nat)
    requires |s| % 16 == 0 && 16 * i + 16 <= |s| && j < 16 && |CbcDecrypted(D, iv, s).1| == |s|
    ensures BlockAt(CbcDecrypted(D, iv, s).1, i)[j] == D(BlockAt(s, i))[j] ^ Before(iv, s, i)[j]
    decreases |s|
  {
    hide *;
    var t, c := s[..|s| - 16], s[|s| - 16..];
    assert s == t + c;
    OneMore(D, iv, t, c);
    Registers(D, iv, t);
    var (v, out) := CbcDecrypted(D, iv, t);
    Extend(iv, t, c, i);
    Extend(iv, out, XorBlock(D(c), v), i);
    if 16 * i == |t| {
      XorBlockBytes(D(c), v, j);
    } else {
      CbcDecryptBytes(D, iv, t, i, j);
    }
  }

  // ---------------------------------------------------------------- methods

  // D is what aes_decrypt computes under the context.
  ghost predicate ComputesInverse(ks: seq<Word>, inf: nat, D: Block -> Block) {
    |ks| == 60 && (Keyed(inf) ==> forall s: Block :: D(s) == DecryptBytes(ks, inf / 16, s))
  }

  method DecryptBlock(s: Block, cx: Context, ghost D: Block -> Block) returns (ok: bool, r: Block)
    requires ComputesInverse(cx.ks, cx.inf, D)
    ensures ok == Keyed(cx.inf)
    ensures ok ==> r == D(s)
  {
    var b := new bv8[16](i requires 0 <= i < 16 => s[i]);
    assert b[..] == s;
    ok := Decrypt(b, b, cx);
    r := b[..];
    hide DecryptBytes;
  }

  // memcpy of a block into the output
  method PutBlock(out: array<bv8>, at: nat, b: Block)
    requires at + 16 <= out.Length
    modifies out
    ensures out[..at + 16] == old(out[..at]) + b && out[at + 16..] == old(out[at + 16..])
  {
    forall k | 0 <= k < 16 {
      out[at + k] := b[k];
    }
  }

  method SetRegister(iv: array<bv8>, b: Block)
    requires iv.Length == 16
    modifies iv
    ensures iv[..] == b
  {
    forall k | 0 <= k < 16 {
      iv[k] := b[k];
    }
  }

  // The first n bytes are done; a message that is not a whole number of blocks is refused.
  ghost predicate Chained(E: Block -> Block, iv: Block, src: seq<bv8>, n: nat, reg: Block, out: seq<bv8>) {
    n <= |src| && n % 16 == 0 && CbcEncrypted(E, iv, src[..n]) == (reg, out)
  }

  lemma ChainNext(E: Block -> Block, iv: Block, src: seq<bv8>, n: nat, reg: Block, out: seq<bv8>)
    requires Chained(E, iv, src, n, reg, out) && n + 16 <= |src|
    ensures var c := E(XorBlock(src[n..n + 16], reg)); Chained(E, iv, src, n + 16, c, out + c)
  {
    assert src[..n + 16][..n] == src[..n] && src[..n + 16][n..] == src[n..n + 16];
    hide XorBlock;
  }

  ghost predicate Unchained(D: Block -> Block, iv: Block, src: seq<bv8>, n: nat, reg: Block, out: seq<bv8>) {
    n <= |src| && n % 16 == 0 && CbcDecrypted(D, iv, src[..n]) == (reg, out)
  }

  lemma UnchainNext(D: Block -> Block, iv: Block, src: seq<bv8>, n: nat, reg: Block, out: seq<bv8>)
    requires Unchained(D, iv, src, n, reg, out) && n + 16 <= |src|
    ensures var c: Block := src[n..n + 16]; Unchained(D, iv, src, n + 16, c, out + XorBlock(D(c), reg))
  {
    assert src[..n + 16][..n] == src[..n] && src[..n + 16][n..] == src[n..n + 16];
    hide XorBlock;
  }

  lemma StartChain(E: Block -> Block, iv: Block, src: seq<bv8>)
    ensures Chained(E, iv, src, 0, iv, []) && Unchained(E, iv, src, 0, iv, [])
  {
    assert src[..0] == [];
  }

  lemma EndChain(E: Block -> Block, iv: Block, src: seq<bv8>, reg: Block, out: seq<bv8>)
    ensures Chained(E, iv, src, |src|, reg, out) ==> CbcEncrypted(E, iv, src) == (reg, out)
    ensures Unchained(E, iv, src, |src|, reg, out) ==> CbcDecrypted(E, iv, src) == (reg, out)
  {
    assert src[..|src|] == src;
  }

  method CbcEncrypt(input: array<bv8>, out: array<bv8>, iv: array<bv8>, cx: Context, ghost E: Block -> Block) returns (ok: bool)
    requires iv.Length == 16 && input.Length == out.Length && iv != input && iv != out && Computes(cx.ks, cx.inf, E)
    modifies out, iv
    ensures !ok ==> input.Length % 16 != 0 || !Keyed(cx.inf)
    ensures ok ==> input.Length % 16 == 0 && CbcEncrypted(E, old(iv[..]), old(input[..])) == (iv[..], out[..])
  {
    if input.Length % 16 != 0 {
      return false;
    }
    ghost var v, src := iv[..], input[..];
    var n := 0;
    StartChain(E, v, src);
    assert out[..0] == [];
    hide Computes, Chained, Unchained, Keyed;
    while n < input.Length
      invariant 0 <= n <= input.Length && n % 16 == 0 && Unread(input, src, n) && Chained(E, v, src, n, iv[..], out[..n])
    {
      var block: Block := input[n..n + 16];
      assert block == src[n..n + 16];
      ChainNext(E, v, src, n, iv[..], out[..n]);
      var c;
      ok, c := AesCounter.EncryptBlock(XorBlock(block, iv[..]), cx, E);
      if !ok {
        return;
      }
      StepBlock(input, out, iv, n, c, c, src);
      n := n + 16;
    }
    assert out[..n] == out[..];
    EndChain(E, v, src, iv[..], out[..]);
    ok := true;
  }

  // The block goes to the output and the register takes its new value.
  method StepBlock(input: array<bv8>, out: array<bv8>, iv: array<bv8>, n: nat, b: Block, reg: Block, ghost src: seq<bv8>)
    requires iv.Length == 16 && input.Length == out.Length && iv != input && iv != out && n + 16 <= out.Length
    requires Unread(input, src, n)
    modifies out, iv
    ensures out[..n + 16] == old(out[..n]) + b && iv[..] == reg && Unread(input, src, n + 16)
  {
    PutBlock(out, n, b);
    assert forall k :: n + 16 <= k < out.Length ==> out[k] == out[n + 16..][k - n - 16];
    SetRegister(iv, reg);
  }

  method CbcDecrypt(input: array<bv8>, out: array<bv8>, iv: array<bv8>, cx: Context, ghost D: Block -> Block) returns (ok: bool)
    requires iv.Length == 16 && input.Length == out.Length && iv != input && iv != out
    requires ComputesInverse(cx.ks, cx.inf, D)
    modifies out, iv
    ensures !ok ==> input.Length % 16 != 0 || !Keyed(cx.inf)
    ensures ok ==> input.Length % 16 == 0 && CbcDecrypted(D, old(iv[..]), old(input[..])) == (iv[..], out[..])
  {
    if input.Length % 16 != 0 {
      return false;
    }
    ghost var v, src := iv[..], input[..];
    var n := 0;
    StartChain(D, v, src);
    assert out[..0] == [];
    hide ComputesInverse, Chained, Unchained, Keyed;
    while n < input.Length
      invariant 0 <= n <= input.Length && n % 16 == 0 && Unread(input, src, n) && Unchained(D, v, src, n, iv[..], out[..n])
    {
      var tmp: Block := input[n..n + 16];
      assert tmp == src[n..n + 16];
      UnchainNext(D, v, src, n, iv[..], out[..n]);
      var d;
      ok, d := DecryptBlock(tmp, cx, D);
      if !ok {
        return;
      }
      StepBlock(input, out, iv, n, XorBlock(d, iv[..]), tmp, src);
      n := n + 16;
    }
    assert out[..n] == out[..];
    EndChain(D, v, src, iv[..], out[..]);
    ok := true;
  }
}
