// aes_modes.c: aes_cfb_encrypt, aes_cfb_decrypt, aes_ofb_crypt and aes_ctr_crypt, with their partial
// blocks, whole-block loops and carried positions, against the one-byte-at-a-time machines.

module AesStream {
  import opened AesField
  import opened AesBlock
  import opened AesModes

  // E is what aes_encrypt computes under the context.
  ghost predicate Computes(ks: seq<Word>, inf: nat, E: Block -> Block) {
    |ks| == 60 && (Keyed(inf) ==> forall s: Block :: E(s) == EncryptBytes(ks, inf / 16, s))
  }

  // The first n bytes of src have been processed, from state f, into out.
  ghost predicate Done(E: Block -> Block, m: Mode, f: Feed, src: seq<bv8>, n: nat, reg: Block, pos: nat, out: seq<bv8>) {
    f.pos < 16 && n <= |src| && Run(E, m, f, src[..n]) == (Feed(reg, pos), out)
  }

  // The same, with the register already encrypted if a new block is about to start.
  ghost predicate Ready(E: Block -> Block, m: Mode, f: Feed, src: seq<bv8>, n: nat, reg: Block, pos: nat, out: seq<bv8>) {
    f.pos < 16 && n <= |src| && var (g, o) := Run(E, m, f, src[..n]); reg == Loaded(E, g) && pos == g.pos && out == o
  }

  // Inside a block; at its end the register is what the next call will start from.
  ghost predicate Within(E: Block -> Block, m: Mode, f: Feed, src: seq<bv8>, n: nat, reg: Block, pos: nat, out: seq<bv8>) {
    if pos == 16 then Done(E, m, f, src, n, reg, 0, out) else Ready(E, m, f, src, n, reg, pos, out)
  }

  lemma Begin(E: Block -> Block, m: Mode, f: Feed, src: seq<bv8>)
    requires f.pos < 16
    ensures Done(E, m, f, src, 0, f.reg, f.pos, [])
  {
    assert src[..0] == [];
  }

  lemma Load(E: Block -> Block, m: Mode, f: Feed, src: seq<bv8>, n: nat, reg: Block, pos: nat, out: seq<bv8>)
    requires Done(E, m, f, src, n, reg, pos, out)
    ensures pos < 16 && |out| == n && Ready(E, m, f, src, n, if pos == 0 then E(reg) else reg, pos, out)
  {
    hide Run;
  }

  lemma Finish(E: Block -> Block, m: Mode, f: Feed, src: seq<bv8>, n: nat, reg: Block, pos: nat, out: seq<bv8>)
    requires Within(E, m, f, src, n, reg, pos, out) && 0 < pos <= 16
    ensures Done(E, m, f, src, n, reg, if pos == 16 then 0 else pos, out)
  {
    hide Run;
  }

  // One byte.
  lemma Advance(E: Block -> Block, m: Mode, f: Feed, src: seq<bv8>, n: nat, reg: Block, pos: nat, out: seq<bv8>)
    requires m != Ctr && pos < 16 && n < |src| && Ready(E, m, f, src, n, reg, pos, out)
    ensures Within(E, m, f, src, n + 1, Stored(m, reg, pos, src[n]), pos + 1, out + [Xor8(reg[pos], src[n])])
  {
    assert src[..n + 1][..n] == src[..n] && src[..n + 1][n] == src[n];
    StepIs(E, m, Run(E, m, f, src[..n]).0, src[n]);
    hide Stored, Xor8, Step;
  }

  lemma StepIs(E: Block -> Block, m: Mode, g: Feed, p: bv8)
    requires m != Ctr && g.pos < 16
    ensures var reg := Loaded(E, g);
            Step(E, m, g, p) == (Feed(Stored(m, reg, g.pos, p), Next(g.pos)), Xor8(reg[g.pos], p))
  {
    hide Stored, Xor8, Loaded;
  }

  // aes_encrypt(iv, iv, ctx)
  method EncryptRegister(iv: array<bv8>, cx: Context, ghost E: Block -> Block) returns (ok: bool)
    requires iv.Length == 16 && Computes(cx.ks, cx.inf, E)
    modifies iv
    ensures ok == Keyed(cx.inf)
    ensures ok ==> iv[..] == E(old(iv[..]))
  {
    ok := Encrypt(iv, iv, cx);
    hide EncryptBytes;
  }

  ghost predicate Unread(input: array<bv8>, src: seq<bv8>, n: nat)
    reads input
  {
    |src| == input.Length && forall k :: n <= k < |src| ==> input[k] == src[k]
  }

  // The inner loops: bytes are taken until the block or the input ends.
  method Bytes(m: Mode, input: array<bv8>, out: array<bv8>, iv: array<bv8>, start: nat, from: nat,
               ghost E: Block -> Block, ghost f: Feed, ghost src: seq<bv8>) returns (cnt: nat, pos: nat)
    requires m != Ctr && iv.Length == 16 && input.Length == out.Length == |src| && iv != input && iv != out
    requires start < |src| && from < 16 && Unread(input, src, start)
    requires Ready(E, m, f, src, start, iv[..], from, out[..start])
    modifies out, iv
    ensures start < cnt <= |src| && from < pos <= 16 && (cnt == |src| || pos == 16) && cnt - start == pos - from
    ensures Within(E, m, f, src, cnt, iv[..], pos, out[..cnt])
    ensures Unread(input, src, cnt)
  {
    cnt, pos := start, from;
    while pos < 16 && cnt < input.Length
      invariant start <= cnt <= |src| && from <= pos <= 16 && cnt - start == pos - from
      invariant Within(E, m, f, src, cnt, iv[..], pos, out[..cnt])
      invariant Unread(input, src, cnt)
    {
      hide Within, Ready, Done, Xor8;
      var t := input[cnt];
      cnt, pos := Byte(m, input, out, iv, cnt, pos, t, E, f, src);
    }
  }

  method Byte(m: Mode, input: array<bv8>, out: array<bv8>, iv: array<bv8>, cnt: nat, pos: nat, t: bv8,
              ghost E: Block -> Block, ghost f: Feed, ghost src: seq<bv8>) returns (cnt': nat, pos': nat)
    requires m != Ctr && iv.Length == 16 && input.Length == out.Length == |src| && iv != input && iv != out
    requires cnt < |src| && pos < 16 && t == src[cnt] && Unread(input, src, cnt)
    requires Within(E, m, f, src, cnt, iv[..], pos, out[..cnt])
    modifies out, iv
    ensures cnt' == cnt + 1 && pos' == pos + 1
    ensures Within(E, m, f, src, cnt', iv[..], pos', out[..cnt'])
    ensures Unread(input, src, cnt')
  {
    ghost var reg, o, read := iv[..], out[..], input[..];
    InBlock(E, m, f, src, cnt, reg, pos, o[..cnt]);
    WasUnread(input, src, cnt);
    hide *;
    Advance(E, m, f, src, cnt, reg, pos, o[..cnt]);
    if m == CfbEncrypt {
      Put(iv, pos, Xor8(iv[pos], t));
      Put(out, cnt, iv[pos]);
    } else if m == CfbDecrypt {
      Put(out, cnt, Xor8(iv[pos], t));
      Put(iv, pos, t);
    } else {
      Put(out, cnt, Xor8(iv[pos], t));
    }
    StoredIs(m, reg, pos, t);
    Prefix(o, cnt, Xor8(reg[pos], t));
    StillUnread(input, read, src, cnt, Xor8(reg[pos], t));
    cnt', pos' := cnt + 1, pos + 1;
  }

  lemma InBlock(E: Block -> Block, m: Mode, f: Feed, src: seq<bv8>, n: nat, reg: Block, pos: nat, out: seq<bv8>)
    requires Within(E, m, f, src, n, reg, pos, out) && pos < 16
    ensures Ready(E, m, f, src, n, reg, pos, out)
  {
    hide Run, Ready;
  }

  lemma WasUnread(input: array<bv8>, src: seq<bv8>, n: nat)
    requires Unread(input, src, n)
    ensures |src| == input.Length && forall k :: n <= k < |src| ==> input[..][k] == src[k]
  {
  }

  lemma StoredIs(m: Mode, reg: Block, pos: nat, p: bv8)
    requires m != Ctr && pos < 16
    ensures Stored(m, reg, pos, p) == if m == CfbEncrypt then reg[pos := Xor8(reg[pos], p)]
                                      else if m == CfbDecrypt then reg[pos := p] else reg
  {
  }

  lemma Prefix(o: seq<bv8>, n: nat, c: bv8)
    requires n < |o|
    ensures o[n := c][..n + 1] == o[..n] + [c]
  {
  }

  lemma StillUnread(input: array<bv8>, read: seq<bv8>, src: seq<bv8>, n: nat, c: bv8)
    requires n < |src| == |read| == input.Length && (input[..] == read || input[..] == read[n := c])
    requires forall k :: n <= k < |src| ==> read[k] == src[k]
    ensures Unread(input, src, n + 1)
  {
    assert forall k :: n < k < |src| ==> input[k] == input[..][k];
  }

  // The state a context and a register buffer hold between calls; position 16 is position 0.
  function Held(reg: Block, pos: nat): (f: Feed)
    requires pos <= 16
    ensures f.pos < 16
  {
    Feed(reg, if pos == 16 then 0 else pos)
  }

  // cnt bytes of src are processed into out, and the rest is still unread in the input buffer.
  ghost predicate Processed(E: Block -> Block, m: Mode, f: Feed, src: seq<bv8>, input: array<bv8>, out: array<bv8>,
                            iv: array<bv8>, cnt: nat, pos: nat)
    reads input, out, iv
  {
    && iv.Length == 16 && input.Length == out.Length == |src| && cnt <= |src| && iv != input && iv != out
    && Unread(input, src, cnt) && Done(E, m, f, src, cnt, iv[..], pos, out[..cnt])
  }

  // What all three loops of a mode do: load the register if a block starts, take bytes until the
  // block or the input ends, and wrap the position.
  method Piece(m: Mode, input: array<bv8>, out: array<bv8>, iv: array<bv8>, cx: Context, start: nat, from: nat,
               ghost E: Block -> Block, ghost f: Feed, ghost src: seq<bv8>) returns (ok: bool, cnt: nat, pos: nat)
    requires m != Ctr && Computes(cx.ks, cx.inf, E) && start < |src|
    requires Processed(E, m, f, src, input, out, iv, start, from)
    modifies out, iv
    ensures !ok ==> !Keyed(cx.inf)
    ensures ok ==> if from + |src| - start < 16 then cnt == |src| && pos == from + |src| - start
                   else cnt == start + 16 - from && pos == 0
    ensures ok ==> Processed(E, m, f, src, input, out, iv, cnt, pos)
  {
    hide Done, Ready, Within, Run, Computes;
    Load(E, m, f, src, start, iv[..], from, out[..start]);
    ok, cnt, pos := true, start, from;
    if from == 0 {
      ok := EncryptRegister(iv, cx, E);
      if !ok {
        return;
      }
    }
    cnt, pos := Bytes(m, input, out, iv, start, from, E, f, src);
    Finish(E, m, f, src, cnt, iv[..], pos, out[..cnt]);
    pos := if pos == 16 then 0 else pos;
  }

  // The three loops: the rest of a partial block, whole blocks, and what is left.
  method Loops(m: Mode, input: array<bv8>, out: array<bv8>, iv: array<bv8>, cx: Context, from: nat,
               ghost E: Block -> Block, ghost f: Feed, ghost src: seq<bv8>) returns (ok: bool, pos: nat)
    requires m != Ctr && Computes(cx.ks, cx.inf, E) && from < 16 && input.Length == |src|
    requires Processed(E, m, f, src, input, out, iv, 0, from)
    modifies out, iv
    ensures !ok ==> !Keyed(cx.inf)
    ensures ok ==> pos < 16 && Processed(E, m, f, src, input, out, iv, |src|, pos)
  {
    hide *;
    var cnt, len := 0, input.Length;
    pos := from;
    if pos != 0 && cnt < len {
      ok, cnt, pos := Piece(m, input, out, iv, cx, 0, pos, E, f, src);
      if !ok {
        return;
      }
    }
    if (len - cnt) / 16 != 0 {
      while cnt + 16 <= len
        invariant 0 <= cnt <= len && pos == 0 && Processed(E, m, f, src, input, out, iv, cnt, pos)
      {
        ok, cnt, pos := Piece(m, input, out, iv, cx, cnt, 0, E, f, src);
        if !ok {
          return;
        }
      }
    }
    while cnt < len
      invariant 0 <= cnt <= len && 0 <= pos < 16 && (pos == 0 || cnt == len)
      invariant Processed(E, m, f, src, input, out, iv, cnt, pos)
    {
      ok, cnt, pos := Piece(m, input, out, iv, cx, cnt, pos, E, f, src);
      if !ok {
        return;
      }
    }
    ok := true;
  }

  // aes_cfb_encrypt, aes_cfb_decrypt and aes_ofb_crypt, which differ in the assignments of their
  // inner loops only. The input and output buffers may be the same.
  method Crypt(m: Mode, input: array<bv8>, out: array<bv8>, iv: array<bv8>, cx: Context, ghost E: Block -> Block)
    returns (ok: bool)
    requires m != Ctr && iv.Length == 16 && input.Length == out.Length && iv != input && iv != out
    requires cx.pos <= 16 && Computes(cx.ks, cx.inf, E)
    modifies out, iv, cx`pos
    ensures !ok ==> !Keyed(cx.inf) && cx.pos == old(cx.pos)
    ensures ok ==> cx.pos < 16
                   && Run(E, m, Held(old(iv[..]), old(cx.pos)), old(input[..])) == (Feed(iv[..], cx.pos), out[..])
  {
    ghost var f, src := Held(iv[..], cx.pos), input[..];
    var pos := if cx.pos == 16 then 0 else cx.pos;
    BeginProcessing(E, m, f, src, input, out, iv);
    hide *;
    ok, pos := Loops(m, input, out, iv, cx, pos, E, f, src);
    if ok {
      AllDone(E, m, f, src, input, out, iv, pos);
      cx.pos := pos;
    }
  }

  lemma BeginProcessing(E: Block -> Block, m: Mode, f: Feed, src: seq<bv8>, input: array<bv8>, out: array<bv8>, iv: array<bv8>)
    requires iv.Length == 16 && input.Length == out.Length && iv != input && iv != out && src == input[..]
    requires f.pos < 16 && f.reg == iv[..]
    ensures Processed(E, m, f, src, input, out, iv, 0, f.pos)
  {
    Begin(E, m, f, src);
    assert out[..0] == [];
  }

  lemma AllDone(E: Block -> Block, m: Mode, f: Feed, src: seq<bv8>, input: array<bv8>, out: array<bv8>,
                iv: array<bv8>, pos: nat)
    requires Processed(E, m, f, src, input, out, iv, |src|, pos)
    ensures iv.Length == 16 && f.pos < 16 && Run(E, m, f, src) == (Feed(iv[..], pos), out[..])
  {
    assert src[..|src|] == src && out[..|src|] == out[..];
    hide Run;
  }
}
