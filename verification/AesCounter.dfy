// aes_modes.c: aes_ctr_crypt, which encrypts up to eight counter blocks at a time.

module AesCounter {
  import opened AesField
  import opened AesBlock
  import opened AesModes
  import opened AesStream
  import Words

  // The state between calls: position 16 of one counter block is position 0 of the next.
  function HeldCounter(reg: Block, pos: nat): (f: Feed)
    requires pos <= 16
    ensures f.pos < 16
  {
    if pos == 16 then Feed(Inc(reg), 0) else Feed(reg, pos)
  }

  // The first n bytes of out are those of src under the key stream that starts at byte p of block c.
  ghost predicate Ciphered(E: Block -> Block, c: Block, p: nat, src: seq<bv8>, out: seq<bv8>, n: nat) {
    n <= |src| == |out| && forall k :: 0 <= k < n ==> CipheredAt(E, c, p, src, out, k)
  }

  ghost predicate CipheredAt(E: Block -> Block, c: Block, p: nat, src: seq<bv8>, out: seq<bv8>, k: nat)
    requires k < |src| == |out|
  {
    out[k] == Xor8(src[k], E(CounterBlock(c, Row(p + k)))[Col(p + k)])
  }

  // The key stream is what the byte machine computes.
  lemma {:induction false} CipheredIsRun(E: Block -> Block, c: Block, p: nat, src: seq<bv8>, out: seq<bv8>, j: nat, r: nat)
    requires p < 16 && r < 16 && p + |src| == 16 * j + r && Ciphered(E, c, p, src, out, |src|)
    ensures Run(E, Ctr, Feed(c, p), src) == (Feed(CounterBlock(c, j), r), out)
  {
    hide Inc, Xor8, Row, Col;
    if |src| > 0 {
      var n := |src| - 1;
      var j', r' := if r > 0 then j else j - 1, if r > 0 then r - 1 else 15;
      assert Ciphered(E, c, p, src[..n], out[..n], n) by {
        forall k | 0 <= k < n
          ensures CipheredAt(E, c, p, src[..n], out[..n], k)
        {
          assert CipheredAt(E, c, p, src, out, k);
        }
      }
      CipheredIsRun(E, c, p, src[..n], out[..n], j', r');
      RowCol(j', r');
      assert CipheredAt(E, c, p, src, out, n);
      assert out[..n] + [out[n]] == out;
    }
  }

  // A call with a fresh context in the terms of the standard: byte 16i + j of the output is that byte
  // of the input plus byte j of E(x), where x is the i-th block the mode encrypts.
  lemma FreshCall(E: Block -> Block, m: Mode, iv: Block, s: seq<bv8>, out: seq<bv8>, i: nat, j: nat, x: Block)
    requires m != CfbDecrypt && j < 16 && 16 * i + j < |s| == |out|
    requires out == Run(E, m, if m == Ctr then HeldCounter(iv, 0) else Held(iv, 0), s).1
    requires m == Ctr ==> Words.Pow(256, 16) > 0 && Number(x) == (Number(iv) + i) % Words.Pow(256, 16)
    requires m == CfbEncrypt ==> x == if i == 0 then iv else out[16 * i - 16..16 * i]
    requires m == Ofb ==> if i == 0 then x == iv else forall k :: 0 <= k < 16 ==> x[k] == s[16 * i - 16..16 * i][k] ^ out[16 * i - 16..16 * i][k]
    ensures out[16 * i + j] == s[16 * i + j] ^ E(x)[j]
  {
    RowCol(|s| / 16, |s| % 16);
    Standard(E, m, iv, s, |s| / 16, |s| % 16);
    MaskOfBlock(E, m, iv, s, out, i, j, x);
    MaskedAt(E, m, iv, s, out, i, j);
    XorIs(Mask(E, m, iv, out, 16 * i + j), s[16 * i + j]);
  }

  lemma XorIs(a: bv8, b: bv8)
    ensures Xor8(a, b) == a ^ b == b ^ a
  {
  }

  lemma MaskedAt(E: Block -> Block, m: Mode, iv: Block, s: seq<bv8>, out: seq<bv8>, i: nat, j: nat)
    requires m != CfbDecrypt && Masked(E, m, iv, s, out) && j < 16 && 16 * i + j < |s|
    ensures |out| == |s| && Row(16 * i + j) == i && Col(16 * i + j) == j
    ensures out[16 * i + j] == Xor8(Mask(E, m, iv, out, 16 * i + j), s[16 * i + j])
  {
    RowCol(i, j);
    hide Mask, Xor8;
  }

  // The byte added is that of E(x).
  lemma MaskOfBlock(E: Block -> Block, m: Mode, iv: Block, s: seq<bv8>, out: seq<bv8>, i: nat, j: nat, x: Block)
    requires m != CfbDecrypt && Masked(E, m, iv, s, out) && j < 16 && 16 * i + j < |s| == |out|
    requires m == Ctr ==> Words.Pow(256, 16) > 0 && Number(x) == (Number(iv) + i) % Words.Pow(256, 16)
    requires m == CfbEncrypt ==> x == if i == 0 then iv else out[16 * i - 16..16 * i]
    requires m == Ofb ==> if i == 0 then x == iv else forall k :: 0 <= k < 16 ==> x[k] == s[16 * i - 16..16 * i][k] ^ out[16 * i - 16..16 * i][k]
    ensures 16 * Row(16 * i + j) <= |out| && Mask(E, m, iv, out, 16 * i + j) == E(x)[j]
  {
    RowCol(i, j);
    hide Number, CounterBlock, OutputBlock, Masked, Xor8;
    if m == Ctr {
      CounterNumber(iv, i);
      BytesOfNumber(x, CounterBlock(iv, i));
    } else if m == Ofb {
      NextOutput(E, iv, i);
      if i > 0 {
        OutputOfBlock(E, iv, s, out, i, x);
      }
    }
  }

  lemma NextOutput(E: Block -> Block, iv: Block, i: nat)
    ensures OutputBlock(E, iv, 0) == iv && OutputBlock(E, iv, i + 1) == E(OutputBlock(E, iv, i))
  {
  }

  lemma OutputOfBlock(E: Block -> Block, iv: Block, s: seq<bv8>, out: seq<bv8>, i: nat, x: Block)
    requires Masked(E, Ofb, iv, s, out) && i > 0 && 16 * i <= |s| == |out|
    requires forall k :: 0 <= k < 16 ==> x[k] == s[16 * i - 16..16 * i][k] ^ out[16 * i - 16..16 * i][k]
    ensures x == OutputBlock(E, iv, i)
  {
    hide Masked, Xor8, OutputBlock;
    forall k | 0 <= k < 16
      ensures x[k] == OutputBlock(E, iv, i)[k]
    {
      MaskedAt(E, Ofb, iv, s, out, i - 1, k);
      Uncovered(OutputBlock(E, iv, i)[k], s[16 * i - 16..16 * i][k], out[16 * i - 16..16 * i][k], x[k]);
    }
  }

  lemma Uncovered(b: bv8, s: bv8, o: bv8, x: bv8)
    requires o == Xor8(b, s) && x == s ^ o
    ensures x == b
  {
  }

  // Bytes cnt to cnt + n under n bytes of a key block, in place when the buffers are the same.
  method XorBytes(input: array<bv8>, out: array<bv8>, cnt: nat, key: Block, from: nat, n: nat, ghost src: seq<bv8>)
    requires input.Length == out.Length == |src| && cnt + n <= |src| && from + n <= 16 && Unread(input, src, cnt)
    modifies out
    ensures forall k :: 0 <= k < |src| && !(cnt <= k < cnt + n) ==> out[k] == old(out[k])
    ensures forall k :: cnt <= k < cnt + n ==> out[k] == Xor8(src[k], key[from + k - cnt])
    ensures Unread(input, src, cnt + n)
  {
    hide Xor8;
    var t := 0;
    while t < n
      invariant 0 <= t <= n && Unread(input, src, cnt + t)
      invariant forall k :: 0 <= k < |src| && !(cnt <= k < cnt + t) ==> out[k] == old(out[k])
      invariant forall k :: cnt <= k < cnt + t ==> out[k] == Xor8(src[k], key[from + k - cnt])
    {
      out[cnt + t] := Xor8(input[cnt + t], key[from + t]);
      t := t + 1;
    }
  }

  // The same, as progress along the key stream; the bytes lie in block j.
  method CipherBytes(input: array<bv8>, out: array<bv8>, cnt: nat, key: Block, from: nat, n: nat,
                     ghost E: Block -> Block, ghost c: Block, ghost p: nat, ghost j: nat, ghost src: seq<bv8>)
    requires input.Length == out.Length == |src| && cnt + n <= |src| && from + n <= 16 && Unread(input, src, cnt)
    requires p + cnt == 16 * j + from && key == E(CounterBlock(c, j)) && Ciphered(E, c, p, src, out[..], cnt)
    modifies out
    ensures Ciphered(E, c, p, src, out[..], cnt + n) && Unread(input, src, cnt + n)
  {
    ghost var o := out[..];
    XorBytes(input, out, cnt, key, from, n, src);
    Progress(E, c, p, j, src, o, out[..], cnt, from, n);
  }

  lemma Progress(E: Block -> Block, c: Block, p: nat, j: nat, src: seq<bv8>, o: seq<bv8>, out: seq<bv8>,
                 cnt: nat, from: nat, n: nat)
    requires |src| == |o| == |out| && cnt + n <= |src| && from + n <= 16 && p + cnt == 16 * j + from
    requires Ciphered(E, c, p, src, o, cnt)
    requires forall k :: 0 <= k < cnt ==> out[k] == o[k]
    requires forall k :: cnt <= k < cnt + n ==> out[k] == Xor8(src[k], E(CounterBlock(c, j))[from + k - cnt])
    ensures Ciphered(E, c, p, src, out, cnt + n)
  {
    hide Xor8, Row, Col;
    forall k | 0 <= k < cnt + n
      ensures CipheredAt(E, c, p, src, out, k)
    {
      if k < cnt {
        assert CipheredAt(E, c, p, src, o, k);
      } else {
        RowCol(j, from + k - cnt);
      }
    }
  }

  // aes_encrypt on one block of a buffer.
  method EncryptBlock(s: Block, cx: Context, ghost E: Block -> Block) returns (ok: bool, r: Block)
    requires Computes(cx.ks, cx.inf, E)
    ensures ok == Keyed(cx.inf)
    ensures ok ==> r == E(s)
  {
    var b := new bv8[16](i requires 0 <= i < 16 => s[i]);
    assert b[..] == s;
    hide Computes;
    ok := EncryptRegister(b, cx, E);
    r := b[..];
  }

  // aes_ecb_encrypt(buf, buf, 16 n, ctx)
  method EcbEncrypt(buf: array<Block>, n: nat, cx: Context, ghost E: Block -> Block) returns (ok: bool)
    requires n <= buf.Length && Computes(cx.ks, cx.inf, E)
    modifies buf
    ensures !ok ==> !Keyed(cx.inf)
    ensures ok ==> forall i :: 0 <= i < n ==> buf[i] == E(old(buf[i]))
  {
    hide Computes, Keyed;
    var i := 0;
    while i < n
      invariant 0 <= i <= n
      invariant forall k :: 0 <= k < i ==> buf[k] == E(old(buf[k]))
      invariant forall k :: i <= k < buf.Length ==> buf[k] == old(buf[k])
    {
      var b;
      ok, b := EncryptBlock(buf[i], cx, E);
      if !ok {
        return;
      }
      buf[i] := b;
      i := i + 1;
    }
    ok := true;
  }

  // Counter blocks for blen bytes: the counter moves on past every whole block only.
  method FillCounters(buf: array<Block>, cbuf: array<bv8>, blen: nat, ghost c: Block, ghost j: nat) returns (i: nat)
    requires buf.Length == 8 && cbuf.Length == 16 && blen <= 128 && cbuf[..] == CounterBlock(c, j)
    requires var b: object := buf; b != cbuf
    modifies buf, cbuf
    ensures i == (blen + 15) / 16 && cbuf[..] == CounterBlock(c, j + blen / 16)
    ensures forall k :: 0 <= k < i ==> buf[k] == CounterBlock(c, j + k)
  {
    hide Inc;
    i := 0;
    while i < blen / 16
      invariant 0 <= i <= blen / 16 && cbuf[..] == CounterBlock(c, j + i)
      invariant forall k :: 0 <= k < i ==> buf[k] == CounterBlock(c, j + k)
    {
      buf[i] := cbuf[..];
      CounterInc(cbuf);
      i := i + 1;
    }
    if blen % 16 != 0 {
      buf[i] := cbuf[..];
      i := i + 1;
    }
  }

  // One round of the main loop.
  method Chunk(input: array<bv8>, out: array<bv8>, cbuf: array<bv8>, cx: Context, buf: array<Block>, start: nat, blen: nat,
               ghost E: Block -> Block, ghost c: Block, ghost p: nat, ghost j: nat, ghost src: seq<bv8>)
    returns (ok: bool, pos: nat)
    requires input.Length == out.Length == |src| && start + blen <= |src| && 0 < blen <= 128 && Unread(input, src, start)
    requires cbuf.Length == 16 && cbuf != input && cbuf != out && buf.Length == 8
    requires var b: object := buf; b != input && b != out && b != cbuf
    requires cbuf[..] == CounterBlock(c, j) && p + start == 16 * j && Ciphered(E, c, p, src, out[..], start)
    requires Computes(cx.ks, cx.inf, E)
    modifies out, cbuf, buf
    ensures !ok ==> !Keyed(cx.inf)
    ensures ok ==> pos == blen % 16 && cbuf[..] == CounterBlock(c, j + blen / 16)
    ensures ok ==> Ciphered(E, c, p, src, out[..], start + blen) && Unread(input, src, start + blen)
  {
    hide Computes, Keyed, Ciphered, Unread, CounterBlock, Inc;
    pos := 0;
    var n := FillCounters(buf, cbuf, blen, c, j);
    ok := EcbEncrypt(buf, n, cx, E);
    if !ok {
      return;
    }
    var i, ip := 0, 0;
    while i + 16 <= blen
      invariant 0 <= i <= blen && i == 16 * ip
      invariant Ciphered(E, c, p, src, out[..], start + i) && Unread(input, src, start + i)
      invariant forall k :: 0 <= k < n ==> buf[k] == E(CounterBlock(c, j + k))
      invariant cbuf[..] == CounterBlock(c, j + blen / 16)
    {
      CipherBytes(input, out, start + i, buf[ip], 0, 16, E, c, p, j + ip, src);
      i, ip := i + 16, ip + 1;
    }
    if i < blen {
      CipherBytes(input, out, start + i, buf[ip], 0, blen - i, E, c, p, j + ip, src);
      pos := blen - i;
    }
  }

  // The position just before a block is the position past the block before it.
  lemma CipheredShift(E: Block -> Block, c: Block, src: seq<bv8>, out: seq<bv8>, n: nat)
    requires Ciphered(E, c, 16, src, out, n)
    ensures Ciphered(E, Inc(c), 0, src, out, n)
  {
    hide Xor8, Inc, CounterBlock;
    forall k | 0 <= k < n
      ensures CipheredAt(E, Inc(c), 0, src, out, k)
    {
      assert CipheredAt(E, c, 16, src, out, k);
      CounterShift(c, Row(k));
    }
  }

  lemma {:induction false} CounterShift(c: Block, j: nat)
    ensures CounterBlock(c, j + 1) == CounterBlock(Inc(c), j)
  {
    hide Inc;
    if j > 0 {
      CounterShift(c, j - 1);
    }
  }

  lemma AllCiphered(E: Block -> Block, c: Block, p: nat, src: seq<bv8>, out: seq<bv8>, reg: Block, j: nat, pos: nat)
    requires p <= 16 && pos <= 16 && p + |src| == 16 * j + pos && Ciphered(E, c, p, src, out, |src|)
    requires reg == CounterBlock(c, j)
    ensures Run(E, Ctr, HeldCounter(c, p), src) == (HeldCounter(reg, pos), out)
  {
    hide Ciphered, Inc, Run;
    var j', pos' := if pos == 16 then j + 1 else j, if pos == 16 then 0 else pos;
    if p < 16 {
      CipheredIsRun(E, c, p, src, out, j', pos');
    } else {
      CipheredShift(E, c, src, out, |src|);
      CipheredIsRun(E, Inc(c), 0, src, out, j' - 1, pos');
      CounterShift(c, j' - 1);
    }
  }

  lemma NothingCiphered(E: Block -> Block, c: Block, p: nat, src: seq<bv8>, out: seq<bv8>)
    requires |src| == |out|
    ensures Ciphered(E, c, p, src, out, 0) && CounterBlock(c, 0) == c && CounterBlock(c, 1) == Inc(c)
  {
  }

  // The input and output buffers may be the same.
  method CtrCrypt(input: array<bv8>, out: array<bv8>, cbuf: array<bv8>, cx: Context, ghost E: Block -> Block) returns (ok: bool)
    requires cbuf.Length == 16 && input.Length == out.Length && cbuf != input && cbuf != out
    requires cx.pos <= 16 && Computes(cx.ks, cx.inf, E)
    modifies out, cbuf, cx`pos
    ensures !ok ==> !Keyed(cx.inf) && cx.pos == old(cx.pos)
    ensures ok ==> cx.pos <= 16 && Run(E, Ctr, HeldCounter(old(cbuf[..]), old(cx.pos)), old(input[..]))
                                   == (HeldCounter(cbuf[..], cx.pos), out[..])
  {
    hide *;
    ghost var c, p, src := cbuf[..], cx.pos, input[..];
    var pos;
    ghost var j;
    StartReading(input);
    ok, pos, j := Counting(input, out, cbuf, cx, cx.pos, E, c, src);
    if ok {
      AllCiphered(E, c, p, src, out[..], cbuf[..], j, pos);
      cx.pos := pos;
    }
  }

  method MainLoop(input: array<bv8>, out: array<bv8>, cbuf: array<bv8>, cx: Context, start: nat, from: nat,
                  ghost E: Block -> Block, ghost c: Block, ghost p: nat, ghost first: nat, ghost src: seq<bv8>)
    returns (ok: bool, pos: nat, ghost j: nat)
    requires cbuf.Length == 16 && input.Length == out.Length == |src| && cbuf != input && cbuf != out && start <= |src|
    requires Computes(cx.ks, cx.inf, E) && Ciphered(E, c, p, src, out[..], start) && Unread(input, src, start)
    requires cbuf[..] == CounterBlock(c, first) && p + start == 16 * first + from && (from == 0 || start == |src|) && from <= 16
    modifies out, cbuf
    ensures !ok ==> !Keyed(cx.inf)
    ensures ok ==> pos <= 16 && p + |src| == 16 * j + pos && cbuf[..] == CounterBlock(c, j)
    ensures ok ==> Ciphered(E, c, p, src, out[..], |src|)
  {
    hide *;
    var zero: Block := seq(16, i => 0);
    var buf := new Block[8](_ => zero);
    var cnt, len := start, input.Length;
    pos, j := from, first;
    while cnt < len
      invariant start <= cnt <= len && Ciphered(E, c, p, src, out[..], cnt) && Unread(input, src, cnt)
      invariant cbuf[..] == CounterBlock(c, j) && p + cnt == 16 * j + pos && (pos == 0 || cnt == len) && pos <= 16
    {
      var blen := if len - cnt > 128 then 128 else len - cnt;
      ok, pos := Chunk(input, out, cbuf, cx, buf, cnt, blen, E, c, p, j, src);
      if !ok {
        return;
      }
      cnt, j := cnt + blen, j + blen / 16;
    }
    ok := true;
  }

  lemma StartReading(input: array<bv8>)
    ensures Unread(input, input[..], 0)
  {
  }

  // The rest of a partial block, then the main loop.
  method Counting(input: array<bv8>, out: array<bv8>, cbuf: array<bv8>, cx: Context, from: nat,
                  ghost E: Block -> Block, ghost c: Block, ghost src: seq<bv8>) returns (ok: bool, pos: nat, ghost j: nat)
    requires cbuf.Length == 16 && input.Length == out.Length == |src| && cbuf != input && cbuf != out
    requires from <= 16 && Computes(cx.ks, cx.inf, E) && cbuf[..] == c && Unread(input, src, 0)
    modifies out, cbuf
    ensures !ok ==> !Keyed(cx.inf)
    ensures ok ==> pos <= 16 && from + |src| == 16 * j + pos && cbuf[..] == CounterBlock(c, j)
    ensures ok ==> Ciphered(E, c, from, src, out[..], |src|)
  {
    hide *;
    ghost var p := from;
    NothingCiphered(E, c, p, src, out[..]);
    var cnt, len := 0, input.Length;
    pos, j := from, 0;
    if pos != 0 {
      var key;
      ok, key := EncryptBlock(cbuf[..], cx, E);
      if !ok {
        return;
      }
      var n := if 16 - pos < len then 16 - pos else len;
      CipherBytes(input, out, 0, key, pos, n, E, c, p, 0, src);
      cnt, pos := n, pos + n;
      if cnt < len {
        CounterInc(cbuf);
        pos, j := 0, 1;
      }
    }
    ok, pos, j := MainLoop(input, out, cbuf, cx, cnt, pos, E, c, p, j, src);
  }
}
