// aes_modes.c: the CFB, OFB and CTR modes as byte-granular state machines that may stop and resume
// at any byte.

module AesModes {
  import Words
  import Radix
  import opened AesField

  type Block = s: seq<bv8> | |s| == 16 witness seq(16, i => 0)

  // ---------------------------------------------------------------- counters

  // The number a counter block denotes, most significant byte first.
  function Number(s: seq<bv8>): (n: nat)
    ensures n < Words.Pow(256, |s|)
  {
    var d := seq(|s|, k requires 0 <= k < |s| => s[k] as int);
    Radix.NumberBound(d, 256);
    Radix.Number(d, 256)
  }

  function Ints(s: seq<bv8>): (d: seq<int>)
    ensures |d| == |s| && Radix.Digits(d, 256) && forall k :: 0 <= k < |s| ==> d[k] == s[k] as int
  {
    seq(|s|, k requires 0 <= k < |s| => s[k] as int)
  }

  lemma NumberOf(s: seq<bv8>)
    ensures Number(s) == Radix.Number(Ints(s), 256)
  {
    assert Ints(s) == seq(|s|, k requires 0 <= k < |s| => s[k] as int);
  }

  // Byte strings of one length are determined by their number.
  lemma BytesOfNumber(s: seq<bv8>, t: seq<bv8>)
    requires |s| == |t| && Number(s) == Number(t)
    ensures s == t
  {
    NumberOf(s);
    NumberOf(t);
    Radix.NumberInjective(Ints(s), Ints(t), 256);
    forall k | 0 <= k < |s|
      ensures s[k] == t[k]
    {
      assert Ints(s)[k] == Ints(t)[k];
    }
  }

  lemma NumberLast(s: seq<bv8>, b: bv8)
    ensures Number(s + [b]) == Number(s) * 256 + b as int
  {
    var d := seq(|s|, k requires 0 <= k < |s| => s[k] as int);
    var e := seq(|s| + 1, k requires 0 <= k < |s| + 1 => (s + [b])[k] as int);
    assert e == d + [b as int] && e[..|s|] == d;
  }

  // The last |s| bytes incremented with carry, and all zero when the carry runs out.
  function Incremented(s: seq<bv8>): (r: seq<bv8>)
    ensures |r| == |s|
  {
    if s == [] then []
    else if s[|s| - 1] == 255 then Incremented(s[..|s| - 1]) + [0]
    else s[..|s| - 1] + [s[|s| - 1] + 1]
  }

  function Inc(s: Block): Block {
    Incremented(s)
  }

  // Incrementing adds one modulo 2^(8n).
  lemma {:induction false} IncrementAdds(s: seq<bv8>)
    ensures Number(Incremented(s)) == if Number(s) + 1 == Words.Pow(256, |s|) then 0 else Number(s) + 1
  {
    if s != [] {
      var t, b := s[..|s| - 1], s[|s| - 1];
      assert s == t + [b];
      NumberLast(t, b);
      Words.PowNext(256, |t|);
      hide Number;
      if b == 255 {
        IncrementAdds(t);
        NumberLast(Incremented(t), 0);
      } else {
        NumberLast(t, b + 1);
      }
    }
  }

  // The carry has reached byte i: the bytes above are still those of c, those below are done.
  ghost predicate Carrying(c: seq<bv8>, b: seq<bv8>, i: int) {
    -1 <= i < |c| == |b| && b[..i + 1] == c[..i + 1] && Incremented(c) == Incremented(c[..i + 1]) + b[i + 1..]
  }

  lemma StartCarry(c: seq<bv8>)
    requires |c| == 16
    ensures Carrying(c, c, 15)
  {
    assert c[..16] == c && c[16..] == [];
    hide Incremented;
    assert Incremented(c) == Incremented(c) + [];
  }

  lemma Carry(c: seq<bv8>, b: seq<bv8>, i: nat, d: bv8)
    requires Carrying(c, b, i) && d == b[i] + 1
    ensures d != 0 ==> b[i := d] == Incremented(c)
    ensures d == 0 ==> Carrying(c, b[i := d], i - 1)
  {
    var t := c[..i + 1];
    assert t[..i] == c[..i] == b[..i] && t[i] == c[i] && b[..i + 1][i] == b[i];
    CarryByte(t, d);
    hide Incremented;
    var b' := b[i := d];
    assert b' == b[..i] + [d] + b[i + 1..];
    assert b'[i..] == [d] + b[i + 1..] && b'[..i] == b[..i];
  }

  lemma CarryByte(t: seq<bv8>, d: bv8)
    requires t != [] && d == t[|t| - 1] + 1
    ensures Incremented(t) == if d == 0 then Incremented(t[..|t| - 1]) + [d] else t[..|t| - 1] + [d]
  {
  }

  lemma EndCarry(c: seq<bv8>, b: seq<bv8>)
    requires Carrying(c, b, -1)
    ensures b == Incremented(c)
  {
    assert c[..0] == [] && b[0..] == b;
  }

  // aes_ctr_cbuf_inc
  method CounterInc(cbuf: array<bv8>)
    requires cbuf.Length == 16
    modifies cbuf
    ensures cbuf[..] == Inc(old(cbuf[..]))
  {
    hide Carrying, Incremented;
    ghost var c := cbuf[..];
    var i := 15;
    StartCarry(c);
    while i >= 0
      invariant -1 <= i <= 15 && Carrying(c, cbuf[..], i)
    {
      Carry(c, cbuf[..], i, cbuf[i] + 1);
      Put(cbuf, i, cbuf[i] + 1);
      if cbuf[i] != 0 {
        return;
      }
      i := i - 1;
    }
    EndCarry(c, cbuf[..]);
  }

  method Put(a: array<bv8>, i: nat, x: bv8)
    requires i < a.Length
    modifies a
    ensures a[..] == old(a[..])[i := x]
  {
    a[i] := x;
  }

  // ---------------------------------------------------------------- one byte at a time

  datatype Mode = CfbEncrypt | CfbDecrypt | Ofb | Ctr

  // What a call leaves behind for the next: the iv or counter block, and the position in it.
  datatype Feed = Feed(reg: Block, pos: nat)

  // The feedback block in use for the next byte: it is encrypted when a new block starts.
  function Loaded(E: Block -> Block, f: Feed): Block {
    if f.pos == 0 then E(f.reg) else f.reg
  }

  function Next(pos: nat): nat {
    if pos + 1 == 16 then 0 else pos + 1
  }

  function Stored(m: Mode, reg: Block, pos: nat, p: bv8): Block
    requires pos < 16
  {
    match m
    case CfbEncrypt => reg[pos := Xor8(reg[pos], p)]
    case CfbDecrypt => reg[pos := p]
    case _ => reg
  }

  function Step(E: Block -> Block, m: Mode, f: Feed, p: bv8): (Feed, bv8)
    requires f.pos < 16
  {
    if m == Ctr then
      (Feed(if f.pos == 15 then Inc(f.reg) else f.reg, Next(f.pos)), Xor8(p, E(f.reg)[f.pos]))
    else
      var reg := Loaded(E, f);
      (Feed(Stored(m, reg, f.pos, p), Next(f.pos)), Xor8(reg[f.pos], p))
  }

  // A whole message from state f: the state it leaves and the bytes it produces.
  function Run(E: Block -> Block, m: Mode, f: Feed, s: seq<bv8>): (r: (Feed, seq<bv8>))
    requires f.pos < 16
    ensures r.0.pos < 16 && |r.1| == |s|
  {
    if s == [] then (f, [])
    else
      var (g, out) := Run(E, m, f, s[..|s| - 1]);
      var (h, c) := Step(E, m, g, s[|s| - 1]);
      (h, out + [c])
  }

  // ---------------------------------------------------------------- any split gives the same bytes

  lemma {:induction false} Split(E: Block -> Block, m: Mode, f: Feed, a: seq<bv8>, b: seq<bv8>)
    requires f.pos < 16
    ensures var (g, out) := Run(E, m, f, a);
            var (h, out') := Run(E, m, g, b);
            Run(E, m, f, a + b) == (h, out + out')
  {
    hide Step;
    var (g, out) := Run(E, m, f, a);
    if b == [] {
      assert a + b == a && out + [] == out;
    } else {
      Split(E, m, f, a, b[..|b| - 1]);
      assert (a + b)[..|a + b| - 1] == a + b[..|b| - 1];
      assert (a + b)[|a + b| - 1] == b[|b| - 1];
      var (h, o) := Run(E, m, g, b[..|b| - 1]);
      var (h', c) := Step(E, m, h, b[|b| - 1]);
      assert out + (o + [c]) == (out + o) + [c];
    }
  }

  function Concat(chunks: seq<seq<bv8>>): seq<bv8> {
    if chunks == [] then [] else Concat(chunks[..|chunks| - 1]) + chunks[|chunks| - 1]
  }

  // A sequence of calls.
  function Calls(E: Block -> Block, m: Mode, f: Feed, chunks: seq<seq<bv8>>): (r: (Feed, seq<bv8>))
    requires f.pos < 16
    ensures r.0.pos < 16
  {
    if chunks == [] then (f, [])
    else
      var (g, out) := Calls(E, m, f, chunks[..|chunks| - 1]);
      var (h, o) := Run(E, m, g, chunks[|chunks| - 1]);
      (h, out + o)
  }

  lemma {:induction false} CallsAreOne(E: Block -> Block, m: Mode, f: Feed, chunks: seq<seq<bv8>>)
    requires f.pos < 16
    ensures Calls(E, m, f, chunks) == Run(E, m, f, Concat(chunks))
  {
    if chunks != [] {
      var front := chunks[..|chunks| - 1];
      CallsAreOne(E, m, f, front);
      Split(E, m, f, Concat(front), chunks[|chunks| - 1]);
    }
    hide Step;
  }

  // ---------------------------------------------------------------- decryption undoes encryption

  function Reverse(m: Mode): Mode {
    match m
    case CfbEncrypt => CfbDecrypt
    case CfbDecrypt => CfbEncrypt
    case Ofb => Ofb
    case Ctr => Ctr
  }

  lemma StepReverse(E: Block -> Block, m: Mode, f: Feed, p: bv8)
    requires f.pos < 16
    ensures var (g, c) := Step(E, m, f, p); Step(E, Reverse(m), f, c) == (g, p)
  {
    var k := if m == Ctr then E(f.reg)[f.pos] else Loaded(E, f)[f.pos];
    UndoByte(k, p);
    hide Xor8, Inc, Next;
  }

  lemma UndoByte(k: bv8, p: bv8)
    ensures Xor8(k, Xor8(k, p)) == p && Xor8(Xor8(p, k), k) == p && Xor8(k, p) == Xor8(p, k)
  {
    Laws8(k, k, p);
    Laws8(p, k, k);
    Laws8(p, 0, 0);
    Laws8(k, p, k);
    hide Xor8;
  }

  lemma {:induction false} RunReverse(E: Block -> Block, m: Mode, f: Feed, s: seq<bv8>)
    requires f.pos < 16
    ensures var (g, out) := Run(E, m, f, s); Run(E, Reverse(m), f, out) == (g, s)
  {
    if s != [] {
      hide *;
      var t, p := s[..|s| - 1], s[|s| - 1];
      assert s == t + [p];
      RunReverse(E, m, f, t);
      var (g, out) := Run(E, m, f, t);
      var (h, c) := Step(E, m, g, p);
      StepReverse(E, m, g, p);
      RunNext(E, m, f, t, p);
      RunNext(E, Reverse(m), f, out, c);
    }
  }

  lemma RunNext(E: Block -> Block, m: Mode, f: Feed, t: seq<bv8>, p: bv8)
    requires f.pos < 16
    ensures var (g, out) := Run(E, m, f, t);
            var (h, c) := Step(E, m, g, p);
            Run(E, m, f, t + [p]) == (h, out + [c])
  {
    assert (t + [p])[..|t|] == t;
    hide Step;
  }

  // Whatever the two ways of cutting plaintext and ciphertext into calls, the plaintext comes back
  // and both sides are left in the same state.
  lemma DecryptAnySplit(E: Block -> Block, m: Mode, f: Feed, plain: seq<seq<bv8>>, cipher: seq<seq<bv8>>)
    requires f.pos < 16 && Concat(cipher) == Calls(E, m, f, plain).1
    ensures Calls(E, Reverse(m), f, cipher) == (Calls(E, m, f, plain).0, Concat(plain))
  {
    CallsAreOne(E, m, f, plain);
    CallsAreOne(E, Reverse(m), f, cipher);
    RunReverse(E, m, f, Concat(plain));
    hide Run, Calls, Concat, Reverse;
  }

  // ---------------------------------------------------------------- the modes of NIST SP 800-38A

  function Row(k: nat): nat { k / 16 }

  function Col(k: nat): (c: nat)
    ensures c < 16
  {
    k % 16
  }

  lemma RowCol(q: nat, r: nat)
    requires r < 16
    ensures Row(16 * q + r) == q && Col(16 * q + r) == r
  {
    Words.DivModUnique(16 * q + r, 16, q, r);
  }

  // Section 6.4: output blocks, each the encryption of the one before.
  function OutputBlock(E: Block -> Block, iv: Block, j: nat): Block {
    if j == 0 then iv else E(OutputBlock(E, iv, j - 1))
  }

  // Section 6.5: counter blocks.
  function CounterBlock(iv: Block, j: nat): Block {
    if j == 0 then iv else Inc(CounterBlock(iv, j - 1))
  }

  // Section 6.3: input blocks, the iv and then the ciphertext blocks.
  function InputBlock(iv: Block, cipher: seq<bv8>, j: nat): Block
    requires 16 * j <= |cipher|
  {
    if j == 0 then iv else cipher[16 * j - 16..16 * j]
  }

  // The byte that masks byte k of the message.
  function Mask(E: Block -> Block, m: Mode, iv: Block, out: seq<bv8>, k: nat): bv8
    requires m != CfbDecrypt && 16 * Row(k) <= |out|
  {
    if m == Ofb then OutputBlock(E, iv, Row(k) + 1)[Col(k)]
    else if m == Ctr then E(CounterBlock(iv, Row(k)))[Col(k)]
    else E(InputBlock(iv, out, Row(k)))[Col(k)]
  }

  // The register after n = 16 q + r bytes.
  ghost predicate Holds(E: Block -> Block, m: Mode, iv: Block, out: seq<bv8>, reg: Block, q: nat, r: nat)
    requires m != CfbDecrypt && |out| == 16 * q + r && r < 16
  {
    if m == Ofb then reg == OutputBlock(E, iv, if r == 0 then q else q + 1)
    else if m == Ctr then reg == CounterBlock(iv, q)
    else if r == 0 then reg == InputBlock(iv, out, q)
    else reg == out[16 * q..] + E(InputBlock(iv, out, q))[r..]
  }

  lemma Splice(done: seq<bv8>, x: Block, r: nat, c: bv8)
    requires |done| == r < 16
    ensures (done + x[r..])[r := c] == done + [c] + x[r + 1..] && (done + x[r..])[r] == x[r]
    ensures r == 15 ==> done + [c] + x[r + 1..] == done + [c]
  {
  }

  lemma StepCfb(E: Block -> Block, iv: Block, out: seq<bv8>, f: Feed, q: nat, r: nat, p: bv8)
    requires |out| == 16 * q + r && r < 16 && f.pos == r && Holds(E, CfbEncrypt, iv, out, f.reg, q, r)
    ensures var (g, c) := Step(E, CfbEncrypt, f, p);
            && g.pos == Next(r) && c == Xor8(E(InputBlock(iv, out, q))[r], p)
            && Holds(E, CfbEncrypt, iv, out + [c], g.reg, if r == 15 then q + 1 else q, Next(r))
  {
    hide Xor8;
    var x := E(InputBlock(iv, out, q));
    var (g, c) := Step(E, CfbEncrypt, f, p);
    var done := out[16 * q..];
    assert InputBlock(iv, out + [c], q) == InputBlock(iv, out, q);
    assert (out + [c])[16 * q..] == done + [c];
    assert Loaded(E, f) == done + x[r..] by {
      if r == 0 {
        assert done == [] && x[0..] == x;
      }
    }
    Splice(done, x, r, c);
  }

  // One more byte, at column r of row q.
  lemma StepMeans(E: Block -> Block, m: Mode, iv: Block, out: seq<bv8>, f: Feed, q: nat, r: nat, p: bv8)
    requires m != CfbDecrypt && |out| == 16 * q + r && r < 16 && f.pos == r && Holds(E, m, iv, out, f.reg, q, r)
    ensures 16 * Row(|out|) <= |out|
    ensures var (g, c) := Step(E, m, f, p);
            && g.pos == Next(r) && c == Xor8(Mask(E, m, iv, out, |out|), p)
            && Holds(E, m, iv, out + [c], g.reg, if r == 15 then q + 1 else q, Next(r))
  {
    hide Xor8, Inc, Row, Col;
    RowCol(q, r);
    if m == CfbEncrypt {
      hide Step, Holds, InputBlock;
      StepCfb(E, iv, out, f, q, r, p);
    } else {
      UndoByte(p, E(f.reg)[r]);
    }
  }

  // From a fresh iv, every mode computes what the standard says: each byte is the plaintext byte
  // plus the mask byte, and the register is the block the next byte needs.
  lemma {:induction false} Standard(E: Block -> Block, m: Mode, iv: Block, s: seq<bv8>, q: nat, r: nat)
    requires m != CfbDecrypt && |s| == 16 * q + r && r < 16
    ensures var (g, out) := Run(E, m, Feed(iv, 0), s);
            g.pos == r && Holds(E, m, iv, out, g.reg, q, r) && Masked(E, m, iv, s, out)
  {
    hide Step, Mask, Holds, Masked;
    if |s| == 0 {
      NothingHeld(E, m, iv);
    } else {
      var t, p := s[..|s| - 1], s[|s| - 1];
      var q', r' := if r > 0 then q else q - 1, if r > 0 then r - 1 else 15;
      Standard(E, m, iv, t, q', r');
      var (f, o) := Run(E, m, Feed(iv, 0), t);
      StepMeans(E, m, iv, o, f, q', r', p);
      MaskedNext(E, m, iv, t, o, p, Step(E, m, f, p).1);
      assert t + [p] == s;
    }
  }

  // Every byte of out is the byte of s plus its mask.
  ghost predicate Masked(E: Block -> Block, m: Mode, iv: Block, s: seq<bv8>, out: seq<bv8>)
    requires m != CfbDecrypt
  {
    |out| == |s| && forall k :: 0 <= k < |s| ==> 16 * Row(k) <= k && out[k] == Xor8(Mask(E, m, iv, out, k), s[k])
  }

  lemma MaskedNext(E: Block -> Block, m: Mode, iv: Block, t: seq<bv8>, o: seq<bv8>, p: bv8, c: bv8)
    requires m != CfbDecrypt && Masked(E, m, iv, t, o) && 16 * Row(|o|) <= |o| && c == Xor8(Mask(E, m, iv, o, |o|), p)
    ensures Masked(E, m, iv, t + [p], o + [c])
  {
    hide Mask, Row, Xor8;
    forall k | 0 <= k < |t| + 1
      ensures 16 * Row(k) <= k && (o + [c])[k] == Xor8(Mask(E, m, iv, o + [c], k), (t + [p])[k])
    {
      MaskPrefix(E, m, iv, o, c, k);
    }
  }

  lemma NothingHeld(E: Block -> Block, m: Mode, iv: Block)
    requires m != CfbDecrypt
    ensures Holds(E, m, iv, [], iv, 0, 0) && Masked(E, m, iv, [], [])
  {
  }

  lemma MaskPrefix(E: Block -> Block, m: Mode, iv: Block, o: seq<bv8>, c: bv8, k: nat)
    requires m != CfbDecrypt && 16 * Row(k) <= |o|
    ensures Mask(E, m, iv, o + [c], k) == Mask(E, m, iv, o, k)
  {
    assert InputBlock(iv, o + [c], Row(k)) == InputBlock(iv, o, Row(k));
  }

  // Counter block j is the iv's number plus j, modulo 2^128.
  lemma {:induction false} CounterNumber(iv: Block, j: nat)
    ensures Words.Pow(256, 16) > 0 && Number(CounterBlock(iv, j)) == (Number(iv) + j) % Words.Pow(256, 16)
  {
    Words.PowPositive(256, 16);
    hide Words.Pow, Number, Inc;
    if j == 0 {
      Words.DivModUnique(Number(iv), Words.Pow(256, 16), 0, Number(iv));
    } else {
      CounterNumber(iv, j - 1);
      IncNumber(CounterBlock(iv, j - 1));
      WrapOnce(Number(iv) + j - 1, Words.Pow(256, 16));
    }
  }

  lemma IncNumber(c: Block)
    ensures Number(Inc(c)) == if Number(c) + 1 == Words.Pow(256, 16) then 0 else Number(c) + 1
  {
    IncrementAdds(c);
    hide Number, Incremented, Words.Pow;
  }

  lemma WrapOnce(x: nat, m: nat)
    requires m > 0
    ensures (x + 1) % m == if x % m + 1 == m then 0 else x % m + 1
  {
    var q, r := x / m, x % m;
    if r + 1 == m {
      Words.DivModUnique(x + 1, m, q + 1, 0);
    } else {
      Words.DivModUnique(x + 1, m, q, r + 1);
    }
  }
}
