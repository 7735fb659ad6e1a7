// sha2.c: the buffering, padding and counting of SHA-512 around an uninterpreted compression
// function. A 64-bit word is its eight bytes, most significant first.

module Sha512 {
  import opened Words

  type Bytes = seq<bv8>

  // sha512_Transform and sha512_initial_hash_value.
  datatype Compression = Compression(T: (Bytes, Bytes) -> Bytes, iv: Bytes)

  ghost predicate IsCompression(C: Compression) {
    |C.iv| == 64 && forall s, b :: |C.T(s, b)| == 64
  }

  // ---------------------------------------------------------------- the hash of FIPS 180-4

  function Zeros(n: nat): (s: Bytes)
    ensures |s| == n && forall k :: 0 <= k < n ==> s[k] == 0
  {
    seq(n, _ => 0)
  }

  // Section 6.4.2: whole blocks one after the other.
  function Absorb(C: Compression, state: Bytes, m: Bytes): Bytes
  {
    if |m| < 128 then state else C.T(Absorb(C, state, m[..|m| - 128]), m[|m| - 128..])
  }

  // A number as eight bytes.
  function Word64(v: uint64): (s: Bytes)
    ensures |s| == 8
  {
    seq(8, k requires 0 <= k < 8 => ByteOf(v, 7 - k))
  }

  function ByteOf(v: nat, k: nat): bv8 {
    PowPositive(256, k);
    (v / Pow(256, k) % 256) as bv8
  }

  // The length field: 8 |m| modulo 2^128.
  function Length(n: nat): (s: Bytes)
    ensures |s| == 16
  {
    Word64(8 * n / W64 % W64) + Word64(8 * n % W64)
  }

  function Residue(n: nat): (r: nat)
    ensures r < 128
  {
    n % 128
  }

  // Section 5.1.2: how many zero bytes follow the 0x80.
  function PadZeros(n: nat): nat {
    if Residue(n) < 112 then 111 - Residue(n) else 239 - Residue(n)
  }

  function Pad(m: Bytes): Bytes {
    m + [0x80] + Zeros(PadZeros(|m|)) + Length(|m|)
  }

  function Hash(C: Compression, m: Bytes): Bytes {
    Absorb(C, C.iv, Pad(m))
  }

  lemma {:induction false} AbsorbSize(C: Compression, state: Bytes, m: Bytes)
    requires IsCompression(C) && |state| == 64
    ensures |Absorb(C, state, m)| == 64
  {
    if |m| >= 128 {
      AbsorbSize(C, state, m[..|m| - 128]);
    }
  }

  lemma HashSize(C: Compression, m: Bytes)
    requires IsCompression(C)
    ensures |Hash(C, m)| == 64
  {
    AbsorbSize(C, C.iv, Pad(m));
  }

  lemma ResidueAdd(n: nat, k: nat)
    ensures Residue(128 * k + n) == Residue(n)
  {
    var q, r := n / 128, n % 128;
    DivModUnique(128 * k + n, 128, k + q, r);
  }

  // ---------------------------------------------------------------- contexts

  // The bytes of m that fill whole blocks, and the rest.
  function Full(m: Bytes): Bytes {
    m[..|m| - Residue(|m|)]
  }

  function Rest(m: Bytes): Bytes {
    m[|m| - Residue(|m|)..]
  }

  // The bytes of m have been taken in: the whole blocks are in the state, the rest in the buffer.
  ghost predicate Taken(C: Compression, m: Bytes, state: Bytes, low: uint64, high: uint64, buffer: Bytes) {
    && IsCompression(C) && |buffer| == 128 && |state| == 64 && state == Absorb(C, C.iv, Full(m))
    && buffer[..Residue(|m|)] == Rest(m) && high * W64 + low == 8 * |m| % (W64 * W64)
  }

  // SHA512_CTX
  class Context {
    var state: Bytes
    var low: uint64
    var high: uint64
    const buffer: array<bv8>

    // sha512_Init
    constructor (iv: Bytes)
      ensures state == iv && low == 0 && high == 0 && buffer.Length == 128 && fresh(buffer)
    {
      state, low, high := iv, 0, 0;
      buffer := new bv8[128](_ => 0);
    }

    ghost predicate Holds(C: Compression, m: Bytes)
      reads this, buffer
    {
      Taken(C, m, state, low, high, buffer[..])
    }
  }

  // ADDINC128(w, n)
  method AddInc(w0: uint64, w1: uint64, n: uint64) returns (v0: uint64, v1: uint64)
    ensures v1 * W64 + v0 == (w1 * W64 + w0 + n) % (W64 * W64)
  {
    v0 := (w0 + n) % W64;
    v1 := if v0 < n then (w1 + 1) % W64 else w1;
    CarryMeans(w0, w1, n);
  }

  lemma CarryMeans(w0: uint64, w1: uint64, n: uint64)
    ensures var v0 := (w0 + n) % W64;
            (if v0 < n then (w1 + 1) % W64 else w1) * W64 + v0 == (w1 * W64 + w0 + n) % (W64 * W64)
  {
    var s := w0 + n;
    if s < W64 {
      DivModUnique(s, W64, 0, s);
      DivModUnique(w1 * W64 + s, W64 * W64, 0, w1 * W64 + s);
    } else {
      DivModUnique(s, W64, 1, s - W64);
      if w1 + 1 < W64 {
        DivModUnique(w1 + 1, W64, 0, w1 + 1);
        DivModUnique(w1 * W64 + s, W64 * W64, 0, w1 * W64 + s);
      } else {
        DivModUnique(w1 + 1, W64, 1, 0);
        DivModUnique(w1 * W64 + s, W64 * W64, 1, s - W64);
      }
    }
  }

  // The counter after n more bytes.
  lemma Counted(low: uint64, high: uint64, a: nat, n: nat, v: int)
    requires high * W64 + low == 8 * a % (W64 * W64) && v == (high * W64 + low + 8 * n) % (W64 * W64)
    ensures v == 8 * (a + n) % (W64 * W64)
  {
    var m := W64 * W64;
    var q, r := 8 * a / m, 8 * a % m;
    var q', r' := (r + 8 * n) / m, (r + 8 * n) % m;
    DivModUnique(8 * (a + n), m, q + q', r');
  }

  // (bitcount >> 3) % 128
  lemma UsedSpace(low: uint64, high: uint64, n: nat)
    requires high * W64 + low == 8 * n % (W64 * W64)
    ensures low / 8 % 128 == Residue(n)
  {
    var m := W64 * W64;
    var q := 8 * n / m;
    var t := q * W64 + high;
    assert 8 * n == q * m + high * W64 + low;
    assert q * m == W64 * (q * W64);
    assert 8 * n == W64 * t + low;
    var l := n - 0x2000_0000_0000_0000 * t;
    assert low == 8 * l;
    DivModUnique(low, 8, l, 0);
    var u, r := n / 128, n % 128;
    DivModUnique(l, 128, u - 0x40_0000_0000_0000 * t, r);
  }

  lemma Start(C: Compression, buffer: Bytes)
    requires IsCompression(C) && |buffer| == 128
    ensures Taken(C, [], C.iv, 0, 0, buffer)
  {
    DivModUnique(0, W64 * W64, 0, 0);
  }

  // Bytes that do not fill the block stay in the buffer.
  lemma TakePart(C: Compression, m: Bytes, state: Bytes, low: uint64, high: uint64, buffer: Bytes,
                 d: Bytes, buffer': Bytes, low': uint64, high': uint64)
    requires Taken(C, m, state, low, high, buffer) && Residue(|m|) + |d| < 128 && |buffer'| == 128
    requires buffer'[..Residue(|m|)] == buffer[..Residue(|m|)] && buffer'[Residue(|m|)..Residue(|m|) + |d|] == d
    requires high' * W64 + low' == (high * W64 + low + 8 * |d|) % (W64 * W64)
    ensures Taken(C, m + d, state, low', high', buffer')
  {
    hide Absorb, Full, Rest, Residue;
    PartLength(|m|, |d|);
    PartSplit(m, d);
    Slices(buffer', Residue(|m|), Residue(|m|) + |d|);
    Counted(low, high, |m|, |d|, high' * W64 + low');
  }

  lemma PartSplit(m: Bytes, d: Bytes)
    requires Residue(|m| + |d|) == Residue(|m|) + |d|
    ensures Full(m + d) == Full(m) && Rest(m + d) == Rest(m) + d
  {
    ResidueSmall(|m|);
    hide Residue;
    CutAt(m, d, |m| - Residue(|m|));
  }

  lemma ResidueSmall(n: nat)
    ensures Residue(n) <= n
  {
  }

  lemma CutAt(m: Bytes, d: Bytes, k: nat)
    requires k <= |m|
    ensures (m + d)[..k] == m[..k] && (m + d)[k..] == m[k..] + d
  {
  }

  lemma Slices(b: Bytes, i: nat, j: nat)
    requires i <= j <= |b|
    ensures b[..j] == b[..i] + b[i..j]
  {
  }

  lemma PartLength(n: nat, k: nat)
    requires Residue(n) + k < 128
    ensures Residue(n + k) == Residue(n) + k
  {
    DivModUnique(n + k, 128, n / 128, n % 128 + k);
  }

  lemma FullLength(n: nat, k: nat)
    requires Residue(n) + k == 128
    ensures Residue(n + k) == 0
  {
    DivModUnique(n + k, 128, n / 128 + 1, 0);
  }

  // Bytes that fill the block are compressed with what was in the buffer.
  lemma TakeBlock(C: Compression, m: Bytes, state: Bytes, low: uint64, high: uint64, buffer: Bytes,
                  d: Bytes, block: Bytes, low': uint64, high': uint64)
    requires Taken(C, m, state, low, high, buffer) && Residue(|m|) + |d| == 128 && |block| == 128
    requires block[..Residue(|m|)] == buffer[..Residue(|m|)] && block[Residue(|m|)..] == d
    requires high' * W64 + low' == (high * W64 + low + 8 * |d|) % (W64 * W64)
    ensures Taken(C, m + d, C.T(state, block), low', high', block)
  {
    var u := Residue(|m|);
    FullLength(|m|, |d|);
    assert block == Rest(m) + d;
    assert Full(m + d) == m + d;
    assert (m + d)[..|m + d| - 128] == Full(m) && (m + d)[|m + d| - 128..] == block;
    assert Rest(m + d) == [];
    Counted(low, high, |m|, |d|, high' * W64 + low');
  }

  // ---------------------------------------------------------------- sha512_Update

  // memcpy into the buffer at an offset
  method Copy(dst: array<bv8>, at: nat, src: Bytes)
    requires at + |src| <= dst.Length
    modifies dst
    ensures dst[..at] == old(dst[..at]) && dst[at..at + |src|] == src && dst[at + |src|..] == old(dst[at + |src|..])
  {
    forall k | 0 <= k < |src| {
      dst[at + k] := src[k];
    }
  }

  // A chunk that fits the block, without filling it.
  method Keep(cx: Context, used: nat, d: Bytes, ghost C: Compression, ghost m: Bytes)
    requires cx.Holds(C, m) && used == Residue(|m|) && used + |d| < 128
    modifies cx, cx.buffer
    ensures cx.Holds(C, m + d)
  {
    ghost var b := cx.buffer[..];
    assert cx.buffer.Length == 128;
    ghost var state, low, high := cx.state, cx.low, cx.high;
    assert Taken(C, m, state, low, high, b);
    hide Taken;
    Copy(cx.buffer, used, d);
    cx.low, cx.high := AddInc(cx.low, cx.high, 8 * |d|);
    assert cx.buffer[..][..used] == b[..used] && cx.buffer[..][used..used + |d|] == d;
    TakePart(C, m, state, low, high, b, d, cx.buffer[..], cx.low, cx.high);
  }

  // A chunk that completes the block.
  method Compress(cx: Context, used: nat, d: Bytes, C: Compression, ghost m: Bytes)
    requires cx.Holds(C, m) && used == Residue(|m|) && used + |d| == 128
    modifies cx, cx.buffer
    ensures cx.Holds(C, m + d) && Residue(|m + d|) == 0
  {
    ghost var b := cx.buffer[..];
    assert cx.buffer.Length == 128;
    ghost var state, low, high := cx.state, cx.low, cx.high;
    assert Taken(C, m, state, low, high, b);
    hide Taken;
    Copy(cx.buffer, used, d);
    cx.low, cx.high := AddInc(cx.low, cx.high, 8 * |d|);
    assert cx.buffer[..][..used] == b[..used] && cx.buffer[..][used..] == d;
    TakeBlock(C, m, state, low, high, b, d, cx.buffer[..], cx.low, cx.high);
    FullLength(|m|, |d|);
    cx.state := C.T(cx.state, cx.buffer[..]);
  }

  // However a message is cut into calls, the context holds the bytes of all of them.
  method Update(cx: Context, data: Bytes, C: Compression, ghost m: Bytes)
    requires cx.Holds(C, m)
    modifies cx, cx.buffer
    ensures cx.Holds(C, m + data)
  {
    if |data| == 0 {
      assert m + data == m;
      return;
    }
    UsedSpace(cx.low, cx.high, |m|);
    hide Taken, Context.Holds, Residue;
    var pos := 0;
    var usedspace := cx.low / 8 % 128;
    Pieces(m, data, 0, 0);
    if usedspace > 0 {
      var freespace := 128 - usedspace;
      if |data| >= freespace {
        Compress(cx, usedspace, data[..freespace], C, m);
        pos := freespace;
      } else {
        Keep(cx, usedspace, data, C, m);
        return;
      }
    }
    pos := Blocks(cx, data, pos, C, m);
    Pieces(m, data, pos, |data|);
    if |data| - pos > 0 {
      Keep(cx, 0, data[pos..], C, m + data[..pos]);
    }
  }

  // The whole blocks of the chunk.
  method Blocks(cx: Context, data: Bytes, start: nat, C: Compression, ghost m: Bytes) returns (pos: nat)
    requires start <= |data| && cx.Holds(C, m + data[..start]) && Residue(|m + data[..start]|) == 0
    modifies cx, cx.buffer
    ensures pos <= |data| < pos + 128 && cx.Holds(C, m + data[..pos]) && Residue(|m + data[..pos]|) == 0
  {
    hide Taken, Context.Holds, Residue;
    pos := start;
    while |data| - pos >= 128
      invariant pos <= |data| && cx.Holds(C, m + data[..pos]) && Residue(|m + data[..pos]|) == 0
    {
      Pieces(m, data, pos, pos + 128);
      Compress(cx, 0, data[pos..pos + 128], C, m + data[..pos]);
      pos := pos + 128;
    }
  }

  lemma Pieces(m: Bytes, data: Bytes, a: nat, b: nat)
    requires a <= b <= |data|
    ensures m + data[..a] + data[a..b] == m + data[..b] && m + data[..0] == m
    ensures data[..|data|] == data && data[a..|data|] == data[a..]
  {
  }

  // ---------------------------------------------------------------- sha512_Last and sha512_Final

  lemma LengthWords(low: uint64, high: uint64, n: nat)
    requires high * W64 + low == 8 * n % (W64 * W64)
    ensures Word64(high) + Word64(low) == Length(n)
  {
    var q := 8 * n / (W64 * W64);
    assert 8 * n == q * (W64 * W64) + high * W64 + low;
    assert q * (W64 * W64) == (q * W64) * W64;
    DivModUnique(8 * n, W64, q * W64 + high, low);
    DivModUnique(q * W64 + high, W64, q, high);
  }

  lemma AbsorbBlock(C: Compression, state: Bytes, a: Bytes, b: Bytes)
    requires |b| == 128
    ensures Absorb(C, state, a + b) == C.T(Absorb(C, state, a), b)
  {
    assert (a + b)[..|a + b| - 128] == a && (a + b)[|a + b| - 128..] == b;
  }

  // The padding, when the length fits the block the message ends in.
  lemma PadShort(C: Compression, m: Bytes, len: Bytes)
    requires Residue(|m|) < 112 && len == Length(|m|)
    ensures Hash(C, m) == C.T(Absorb(C, C.iv, Full(m)), Rest(m) + [0x80] + Zeros(111 - Residue(|m|)) + len)
  {
    hide Absorb, Length;
    var b := Rest(m) + [0x80] + Zeros(111 - Residue(|m|)) + len;
    assert Pad(m) == Full(m) + b;
    AbsorbBlock(C, C.iv, Full(m), b);
  }

  // And when it takes one more block.
  lemma PadLong(C: Compression, m: Bytes, len: Bytes)
    requires Residue(|m|) >= 112 && len == Length(|m|)
    ensures var b := Rest(m) + [0x80] + Zeros(127 - Residue(|m|));
            Hash(C, m) == C.T(C.T(Absorb(C, C.iv, Full(m)), b), Zeros(112) + len)
  {
    hide Absorb, Length;
    var b := Rest(m) + [0x80] + Zeros(127 - Residue(|m|));
    assert Zeros(239 - Residue(|m|)) == Zeros(127 - Residue(|m|)) + Zeros(112);
    assert Pad(m) == Full(m) + b + (Zeros(112) + len);
    AbsorbBlock(C, C.iv, Full(m), b);
    AbsorbBlock(C, C.iv, Full(m) + b, Zeros(112) + len);
  }

  // memset(buffer + at, 0, n)
  method Clear(dst: array<bv8>, at: nat, n: nat)
    requires at + n <= dst.Length
    modifies dst
    ensures dst[..at] == old(dst[..at]) && dst[at..at + n] == Zeros(n) && dst[at + n..] == old(dst[at + n..])
  {
    forall k | 0 <= k < n {
      dst[at + k] := 0;
    }
  }

  // The zero bytes up to the length field, the length, and the final transform.
  method FinalBlock(cx: Context, at: nat, C: Compression, ghost prefix: Bytes)
    requires at <= 112 && cx.buffer.Length == 128 && cx.buffer[..at] == prefix
    modifies cx`state, cx.buffer
    ensures cx.state == C.T(old(cx.state), prefix + Zeros(112 - at) + (Word64(cx.high) + Word64(cx.low)))
  {
    hide Word64;
    Clear(cx.buffer, at, 112 - at);
    ghost var b := cx.buffer[..];
    assert b[..112] == b[..at] + b[at..112] == prefix + Zeros(112 - at);
    Copy(cx.buffer, 112, Word64(cx.high));
    ghost var b' := cx.buffer[..];
    assert b'[..112] == b[..112] && b'[112..120] == Word64(cx.high);
    Copy(cx.buffer, 120, Word64(cx.low));
    ghost var b'' := cx.buffer[..];
    assert b''[..120] == b'[..120] && b''[120..] == Word64(cx.low);
    assert b'[..120] == b'[..112] + b'[112..120];
    assert b'' == b''[..120] + b''[120..];
    assert b'' == prefix + Zeros(112 - at) + (Word64(cx.high) + Word64(cx.low));
    cx.state := C.T(cx.state, cx.buffer[..]);
  }

  // The 0x80 and, if the length no longer fits, a transform of its own.
  method FirstPad(cx: Context, used: nat, C: Compression, ghost rest: Bytes) returns (at: nat)
    requires used < 128 && cx.buffer.Length == 128 && cx.buffer[..used] == rest
    modifies cx`state, cx.buffer
    ensures at <= 112
    ensures used < 112 ==> at == used + 1 && cx.state == old(cx.state) && cx.buffer[..at] == rest + [0x80]
    ensures used >= 112 ==> at == 0 && cx.state == C.T(old(cx.state), rest + [0x80] + Zeros(127 - used))
  {
    ghost var b := cx.buffer[..];
    cx.buffer[used] := 0x80;
    at := used + 1;
    ghost var b' := cx.buffer[..];
    assert b'[..used] == b[..used] == rest && b'[..at] == b'[..used] + [0x80];
    if at > 112 {
      Clear(cx.buffer, at, 128 - at);
      ghost var b'' := cx.buffer[..];
      assert b''[..at] == b'[..at] && b''[at..] == Zeros(127 - used);
      assert b'' == b''[..at] + b''[at..];
      cx.state := C.T(cx.state, cx.buffer[..]);
      at := 0;
    }
  }

  // sha512_Last: the state becomes the hash of everything taken in.
  method Last(cx: Context, C: Compression, ghost m: Bytes)
    requires cx.Holds(C, m)
    modifies cx`state, cx.buffer
    ensures cx.state == Hash(C, m) && |cx.state| == 64
  {
    HashSize(C, m);
    UsedSpace(cx.low, cx.high, |m|);
    LengthWords(cx.low, cx.high, |m|);
    ghost var rest, u, len := Rest(m), Residue(|m|), Length(|m|);
    if u < 112 {
      PadShort(C, m, len);
    } else {
      PadLong(C, m, len);
    }
    assert cx.buffer.Length == 128 && cx.state == Absorb(C, C.iv, Full(m)) && cx.buffer[..u] == rest;
    hide Taken, Hash, Absorb, Length, Word64, Residue;
    var at := FirstPad(cx, cx.low / 8 % 128, C, rest);
    FinalBlock(cx, at, C, if u < 112 then rest + [0x80] else []);
    assert u >= 112 ==> [] + Zeros(112) + len == Zeros(112) + len;
  }

  // sha512_Final and sha512_Raw
  method Final(cx: Context, C: Compression, ghost m: Bytes) returns (digest: Bytes)
    requires cx.Holds(C, m)
    modifies cx, cx.buffer
    ensures digest == Hash(C, m) && |digest| == 64
  {
    Last(cx, C, m);
    digest := cx.state;
    Clear(cx.buffer, 0, cx.buffer.Length);
    cx.state, cx.low, cx.high := Zeros(64), 0, 0;
  }

  method Raw(data: Bytes, C: Compression) returns (digest: Bytes)
    requires IsCompression(C)
    ensures digest == Hash(C, data) && |digest| == 64
  {
    var cx := Begin(C);
    Update(cx, data, C, []);
    assert [] + data == data;
    digest := Final(cx, C, data);
  }

  // Any way of cutting a message into calls gives the same digest.
  method Chunked(chunks: seq<Bytes>, C: Compression) returns (digest: Bytes)
    requires IsCompression(C)
    ensures digest == Hash(C, Joined(chunks))
  {
    var cx := Begin(C);
    hide *;
    JoinedNone(chunks);
    var i := 0;
    while i < |chunks|
      invariant 0 <= i <= |chunks| && fresh(cx) && fresh(cx.buffer) && cx.Holds(C, Joined(chunks[..i]))
    {
      JoinedNext(chunks, i);
      Update(cx, chunks[i], C, Joined(chunks[..i]));
      i := i + 1;
    }
    digest := Final(cx, C, Joined(chunks));
  }

  // sha512_Init
  method Begin(C: Compression) returns (cx: Context)
    requires IsCompression(C)
    ensures fresh(cx) && fresh(cx.buffer) && cx.Holds(C, [])
  {
    cx := new Context(C.iv);
    Start(C, cx.buffer[..]);
  }

  lemma JoinedNone(chunks: seq<Bytes>)
    ensures Joined(chunks[..0]) == [] && Joined(chunks[..|chunks|]) == Joined(chunks)
  {
    assert chunks[..|chunks|] == chunks;
  }

  lemma JoinedNext(chunks: seq<Bytes>, i: nat)
    requires i < |chunks|
    ensures Joined(chunks[..i + 1]) == Joined(chunks[..i]) + chunks[i]
  {
    assert chunks[..i + 1][..i] == chunks[..i];
  }

  function Joined(chunks: seq<Bytes>): Bytes {
    if chunks == [] then [] else Joined(chunks[..|chunks| - 1]) + chunks[|chunks| - 1]
  }
}
