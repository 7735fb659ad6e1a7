// hmac.c: HMAC-SHA-512, and the two midstates that stand for a key.

module Hmac512 {
  import opened Words
  import opened Sha512
  import AesField

  // ---------------------------------------------------------------- RFC 2104

  // The key as one block: hashed first if it is longer.
  function KeyBlock(C: Compression, key: Bytes): (s: Bytes)
    requires IsCompression(C)
    ensures |s| == 128
  {
    HashSize(C, key);
    if |key| > 128 then Hash(C, key) + Zeros(64) else key + Zeros(128 - |key|)
  }

  function Padded(s: Bytes, b: bv8): (t: Bytes)
    ensures |t| == |s|
  {
    seq(|s|, k requires 0 <= k < |s| => AesField.Xor8(s[k], b))
  }

  function Ipad(C: Compression, key: Bytes): (s: Bytes)
    requires IsCompression(C)
    ensures |s| == 128
  {
    Padded(KeyBlock(C, key), 0x36)
  }

  function Opad(C: Compression, key: Bytes): (s: Bytes)
    requires IsCompression(C)
    ensures |s| == 128
  {
    Padded(KeyBlock(C, key), 0x5C)
  }

  function Hmac(C: Compression, key: Bytes, msg: Bytes): (s: Bytes)
    requires IsCompression(C)
    ensures |s| == 64
  {
    HashSize(C, Opad(C, key) + Hash(C, Ipad(C, key) + msg));
    Hash(C, Opad(C, key) + Hash(C, Ipad(C, key) + msg))
  }

  // ---------------------------------------------------------------- hmac_sha512_Init, Update and Final

  // HMAC_SHA512_CTX
  class HmacContext {
    const ctx: Context
    var oKeyPad: Bytes

    constructor (ctx: Context, oKeyPad: Bytes)
      ensures this.ctx == ctx && this.oKeyPad == oKeyPad
    {
      this.ctx, this.oKeyPad := ctx, oKeyPad;
    }

    ghost predicate Keyed(C: Compression, key: Bytes, msg: Bytes)
      reads this, ctx, ctx.buffer
    {
      IsCompression(C) && oKeyPad == Opad(C, key) && ctx.Holds(C, Ipad(C, key) + msg)
    }
  }

  method KeyIn(C: Compression, key: Bytes) returns (block: Bytes)
    requires IsCompression(C)
    ensures block == KeyBlock(C, key)
  {
    if |key| > 128 {
      var h := Raw(key, C);
      block := h + Zeros(64);
    } else {
      block := key + Zeros(128 - |key|);
    }
  }

  // The pad loop.
  method XorPad(block: Bytes, b: bv8) returns (pad: Bytes)
    ensures pad == Padded(block, b)
  {
    pad := [];
    var i := 0;
    while i < |block|
      invariant 0 <= i <= |block| && pad == Padded(block, b)[..i]
    {
      pad := pad + [AesField.Xor8(block[i], b)];
      i := i + 1;
    }
  }

  method HmacInit(C: Compression, key: Bytes) returns (h: HmacContext)
    requires IsCompression(C)
    ensures fresh(h) && fresh(h.ctx) && fresh(h.ctx.buffer) && h.Keyed(C, key, [])
  {
    hide *;
    var block := KeyIn(C, key);
    var opad := XorPad(block, 0x5C);
    var ipad := XorPad(block, 0x36);
    var ctx := Begin(C);
    Update(ctx, ipad, C, []);
    PadsOf(C, key);
    h := new HmacContext(ctx, opad);
    IsKeyed(C, h, key);
  }

  lemma PadsOf(C: Compression, key: Bytes)
    requires IsCompression(C)
    ensures Padded(KeyBlock(C, key), 0x5C) == Opad(C, key) && [] + Padded(KeyBlock(C, key), 0x36) == Ipad(C, key) + []
  {
    hide Padded, KeyBlock;
  }

  lemma IsKeyed(C: Compression, h: HmacContext, key: Bytes)
    requires IsCompression(C) && h.oKeyPad == Opad(C, key) && h.ctx.Holds(C, Ipad(C, key) + [])
    ensures h.Keyed(C, key, [])
  {
    hide Context.Holds, Opad, Ipad;
  }

  method HmacUpdate(C: Compression, h: HmacContext, data: Bytes, ghost key: Bytes, ghost msg: Bytes)
    requires h.Keyed(C, key, msg)
    modifies h.ctx, h.ctx.buffer
    ensures h.Keyed(C, key, msg + data)
  {
    assert Ipad(C, key) + msg + data == Ipad(C, key) + (msg + data);
    hide Context.Holds, Ipad, Opad;
    Update(h.ctx, data, C, Ipad(C, key) + msg);
  }

  method HmacFinal(C: Compression, h: HmacContext, ghost key: Bytes, ghost msg: Bytes) returns (mac: Bytes)
    requires h.Keyed(C, key, msg)
    modifies h, h.ctx, h.ctx.buffer
    ensures mac == Hmac(C, key, msg)
  {
    hide Context.Holds, Ipad, Opad, Hash;
    var opad := h.oKeyPad;
    var hash := Final(h.ctx, C, Ipad(C, key) + msg);
    var ctx := Begin(C);
    Update(ctx, opad, C, []);
    assert [] + opad == opad;
    Update(ctx, hash, C, opad);
    mac := Final(ctx, C, opad + hash);
    h.oKeyPad := Zeros(128);
  }

  method HmacSha512(C: Compression, key: Bytes, msg: Bytes) returns (mac: Bytes)
    requires IsCompression(C)
    ensures mac == Hmac(C, key, msg)
  {
    hide HmacContext.Keyed;
    var h := HmacInit(C, key);
    HmacUpdate(C, h, msg, key, []);
    assert [] + msg == msg;
    mac := HmacFinal(C, h, key, msg);
  }

  // ---------------------------------------------------------------- hmac_sha512_prepare

  // The midstate after one block.
  function Midstate(C: Compression, block: Bytes): (s: Bytes)
    requires IsCompression(C)
    ensures |s| == 64
  {
    C.T(C.iv, block)
  }

  method Prepare(C: Compression, key: Bytes) returns (odig: Bytes, idig: Bytes)
    requires IsCompression(C)
    ensures odig == Midstate(C, Opad(C, key)) && idig == Midstate(C, Ipad(C, key))
  {
    var block := KeyIn(C, key);
    var opad := XorPad(block, 0x5C);
    var ipad := XorPad(block, 0x36);
    odig, idig := C.T(C.iv, opad), C.T(C.iv, ipad);
  }

  // A context set to the midstate of a block holds that block.
  lemma Resume(C: Compression, block: Bytes, buffer: Bytes)
    requires IsCompression(C) && |block| == 128 && |buffer| == 128
    ensures Taken(C, block, Midstate(C, block), 1024, 0, buffer)
  {
    assert Residue(128) == 0;
    assert Full(block) == block && Rest(block) == [];
    assert block[..0] == [] && block[0..] == block;
    assert Absorb(C, C.iv, []) == C.iv;
    DivModUnique(1024, W64 * W64, 0, 1024);
  }

  // The fixed second half of a block that pads a 64-byte digest after one block.
  function FixedPad(): (s: Bytes)
    ensures |s| == 64
  {
    [0x80] + Zeros(55) + Word64(1536)
  }

  lemma FixedLength()
    ensures [0x80] + Zeros(47) + Length(192) == FixedPad()
  {
    DivModUnique(1536, W64, 0, 1536);
    DivModUnique(0, W64, 0, 0);
    forall k | 0 <= k < 8
      ensures Word64(0)[k] == 0
    {
      PowPositive(256, 7 - k);
      DivModUnique(0, Pow(256, 7 - k), 0, 0);
    }
    hide Word64;
    assert Word64(0) == Zeros(8);
    assert Zeros(47) + Zeros(8) == Zeros(55);
  }

  // Hashing a block and a digest is one transform from the block's midstate.
  lemma OneTransform(C: Compression, block: Bytes, d: Bytes)
    requires IsCompression(C) && |block| == 128 && |d| == 64
    ensures Hash(C, block + d) == C.T(Midstate(C, block), d + FixedPad())
  {
    var m := block + d;
    ResidueAdd(64, 1);
    assert Residue(64) == 64;
    FixedLength();
    hide FixedPad, Length, Word64;
    assert Pad(m) == block + (d + FixedPad());
    AbsorbBlock(C, C.iv, block, d + FixedPad());
    AbsorbBlock(C, C.iv, [], block);
    assert [] + block == block;
  }

  // HMAC of a digest in two transforms.
  lemma TwoTransforms(C: Compression, key: Bytes, d: Bytes)
    requires IsCompression(C) && |d| == 64
    ensures Hmac(C, key, d) == C.T(Midstate(C, Opad(C, key)), C.T(Midstate(C, Ipad(C, key)), d + FixedPad()) + FixedPad())
  {
    HashSize(C, Ipad(C, key) + d);
    hide Ipad, Opad, Hash, FixedPad, Midstate;
    OneTransform(C, Ipad(C, key), d);
    OneTransform(C, Opad(C, key), Hash(C, Ipad(C, key) + d));
  }
}
