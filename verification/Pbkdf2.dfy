// pbkdf2.c: PBKDF2 with HMAC-SHA-512 from two midstates and a prepadded block, against section 5.2
// of RFC 8018.

module Pbkdf2 {
  import opened Words
  import opened Sha512
  import opened Hmac512
  import AesField

  // ---------------------------------------------------------------- RFC 8018

  // U_j for the first block.
  function U(C: Compression, pass: Bytes, salt: Bytes, j: nat): (u: Bytes)
    requires IsCompression(C) && j >= 1
    ensures |u| == 64
  {
    if j == 1 then Hmac(C, pass, salt + [0, 0, 0, 1]) else Hmac(C, pass, U(C, pass, salt, j - 1))
  }

  function XorBytes(a: Bytes, b: Bytes): (r: Bytes)
    requires |a| == |b|
    ensures |r| == |a|
  {
    seq(|a|, k requires 0 <= k < |a| => AesField.Xor8(a[k], b[k]))
  }

  // U_1 xor ... xor U_c
  function F(C: Compression, pass: Bytes, salt: Bytes, c: nat): (f: Bytes)
    requires IsCompression(C) && c >= 1
    ensures |f| == 64
  {
    if c == 1 then U(C, pass, salt, 1) else XorBytes(F(C, pass, salt, c - 1), U(C, pass, salt, c))
  }

  // ---------------------------------------------------------------- contexts

  // PBKDF2_HMAC_SHA512_CTX; g is one block.
  class Context512 {
    var odig: Bytes
    var idig: Bytes
    var f: Bytes
    var g: Bytes
    var first: nat

    constructor (odig: Bytes, idig: Bytes, f: Bytes, g: Bytes)
      ensures this.odig == odig && this.idig == idig && this.f == f && this.g == g && first == 1
    {
      this.odig, this.idig, this.f, this.g, this.first := odig, idig, f, g, 1;
    }

    // c of the U have been added up.
    ghost predicate Derived(C: Compression, pass: Bytes, salt: Bytes, c: nat)
      reads this`odig, this`idig, this`f, this`g
    {
      && IsCompression(C) && c >= 1 && odig == Midstate(C, Opad(C, pass)) && idig == Midstate(C, Ipad(C, pass))
      && f == F(C, pass, salt, c) && g == U(C, pass, salt, c) + FixedPad() && |g| == 128 && |f| == 64
    }
  }

  // sha512_Transform(dig, g, g): the first half of g becomes the output, the padding stays.
  function Transformed(C: Compression, dig: Bytes, g: Bytes): Bytes
    requires |g| == 128
  {
    C.T(dig, g) + g[64..]
  }

  lemma FirstU(C: Compression, pass: Bytes, salt: Bytes, inner: Bytes)
    requires IsCompression(C) && inner == Hash(C, Ipad(C, pass) + salt + [0, 0, 0, 1]) && |inner| == 64
    ensures C.T(Midstate(C, Opad(C, pass)), inner + FixedPad()) == U(C, pass, salt, 1)
  {
    assert Ipad(C, pass) + salt + [0, 0, 0, 1] == Ipad(C, pass) + (salt + [0, 0, 0, 1]);
    hide Ipad, Opad, Hash, FixedPad, Midstate;
    OneTransform(C, Opad(C, pass), inner);
  }

  // The padding words of g: "g[8] = 0x8000000000000000" and "g[15] = (128 + 64) * 8".
  method FixedWords(digest: Bytes) returns (g: Bytes)
    requires |digest| == 64
    ensures g == digest + FixedPad()
  {
    hide Word64;
    var length := Word64((128 + 64) * 8);
    g := Zeros(128);
    g := g[64 := 0x80];
    g := g[..120] + length;
    assert g[64] == 0x80 && (forall k :: 65 <= k < 120 ==> g[k] == 0) && g[120..] == length;
    PadWords(g, length);
    g := digest + g[64..];
  }

  lemma PadWords(g: Bytes, length: Bytes)
    requires |g| == 128 && g[64] == 0x80 && (forall k :: 65 <= k < 120 ==> g[k] == 0) && g[120..] == length
    ensures g[64..] == [0x80] + Zeros(55) + length
  {
    assert g[65..120] == Zeros(55);
    assert g[64..] == [g[64]] + g[65..120] + g[120..];
  }

  // pbkdf2_hmac_sha512_Init
  method Init(C: Compression, pass: Bytes, salt: Bytes) returns (p: Context512)
    requires IsCompression(C)
    ensures fresh(p) && p.first == 1 && p.Derived(C, pass, salt, 1)
  {
    var odig, idig := Prepare(C, pass);
    ghost var ipad := Ipad(C, pass);
    var ctx := new Sha512.Context(idig);
    ctx.low, ctx.high := 1024, 0;
    Resume(C, ipad, ctx.buffer[..]);
    hide Taken, Ipad, Opad, Hash, Midstate;
    Sha512.Update(ctx, salt, C, ipad);
    Sha512.Update(ctx, [0, 0, 0, 1], C, ipad + salt);
    var inner := Sha512.Final(ctx, C, ipad + salt + [0, 0, 0, 1]);
    var g := FixedWords(inner);
    FirstU(C, pass, salt, inner);
    hide FixedPad, U;
    assert g[64..] == FixedPad();
    g := Transformed(C, odig, g);
    assert g[..64] == U(C, pass, salt, 1);
    p := new Context512(odig, idig, g[..64], g);
  }

  // One more U.
  lemma NextU(C: Compression, pass: Bytes, salt: Bytes, c: nat, g: Bytes)
    requires IsCompression(C) && c >= 1 && g == U(C, pass, salt, c) + FixedPad()
    ensures var h := Transformed(C, Midstate(C, Ipad(C, pass)), g);
            |h| == 128 && Transformed(C, Midstate(C, Opad(C, pass)), h) == U(C, pass, salt, c + 1) + FixedPad()
  {
    var u := U(C, pass, salt, c);
    TwoTransforms(C, pass, u);
    hide Ipad, Opad, FixedPad, Midstate, Hmac;
    assert g[64..] == FixedPad();
    var h := Transformed(C, Midstate(C, Ipad(C, pass)), g);
    assert h[64..] == FixedPad();
  }

  // The body of the iteration loop.
  method Iterate(C: Compression, p: Context512, ghost pass: Bytes, ghost salt: Bytes, ghost c: nat)
    requires p.Derived(C, pass, salt, c)
    modifies p`g, p`f
    ensures p.Derived(C, pass, salt, c + 1)
  {
    NextU(C, pass, salt, c, p.g);
    hide FixedPad, U, Midstate, Ipad, Opad, XorBytes;
    p.g := Transformed(C, p.idig, p.g);
    p.g := Transformed(C, p.odig, p.g);
    assert p.g[..64] == U(C, pass, salt, c + 1);
    ghost var f := p.f;
    p.f := XorWords(p.f, p.g[..64]);
  }

  // The loop over the words of f.
  method XorWords(f: Bytes, g: Bytes) returns (r: Bytes)
    requires |f| == |g|
    ensures r == XorBytes(f, g)
  {
    r := f;
    var j := 0;
    while j < |f|
      invariant 0 <= j <= |f| && |r| == |f|
      invariant forall k :: 0 <= k < |f| ==> r[k] == if k < j then AesField.Xor8(f[k], g[k]) else f[k]
    {
      r := r[j := AesField.Xor8(f[j], g[j])];
      j := j + 1;
    }
  }

  // The count after a call: the first call includes the U that Init computed, and counts it even if
  // no iteration is asked for.
  function Count(c: nat, first: nat, iterations: nat): nat {
    if first == 1 then (if iterations == 0 then 1 else iterations) else c + iterations
  }

  // pbkdf2_hmac_sha512_Update
  method Update(C: Compression, p: Context512, iterations: uint32, ghost pass: Bytes, ghost salt: Bytes, ghost c: nat)
    requires p.Derived(C, pass, salt, c) && p.first <= 1 && (p.first == 1 ==> c == 1)
    modifies p`g, p`f, p`first
    ensures p.first == 0 && p.Derived(C, pass, salt, Count(c, old(p.first), iterations))
  {
    hide Context512.Derived;
    var i := p.first;
    ghost var n := c;
    while i < iterations
      invariant p.first <= i && (i <= iterations || i == p.first) && n == c + i - p.first
      invariant p.first == old(p.first) && p.Derived(C, pass, salt, n)
    {
      Iterate(C, p, pass, salt, n);
      i, n := i + 1, n + 1;
    }
    p.first := 0;
    assert n == Count(c, old(p.first), iterations);
  }

  // pbkdf2_hmac_sha512_Final
  method Final(C: Compression, p: Context512, ghost pass: Bytes, ghost salt: Bytes, ghost c: nat) returns (key: Bytes)
    requires p.Derived(C, pass, salt, c)
    modifies p
    ensures key == F(C, pass, salt, c)
  {
    key := p.f;
    p.odig, p.idig, p.f, p.g, p.first := Zeros(64), Zeros(64), Zeros(64), Zeros(128), 0;
  }

  // pbkdf2_hmac_sha512: no iterations at all give what one does.
  method Pbkdf2HmacSha512(C: Compression, pass: Bytes, salt: Bytes, iterations: uint32) returns (key: Bytes)
    requires IsCompression(C)
    ensures key == F(C, pass, salt, if iterations == 0 then 1 else iterations)
  {
    hide Context512.Derived;
    var p := Init(C, pass, salt);
    Update(C, p, iterations, pass, salt, 1);
    key := Final(C, p, pass, salt, if iterations == 0 then 1 else iterations);
  }

  function Sum(its: seq<uint32>): nat {
    if its == [] then 0 else Sum(its[..|its| - 1]) + its[|its| - 1]
  }

  // The count any sequence of calls reaches.
  function Total(its: seq<uint32>): (c: nat)
    ensures c >= 1
  {
    if its == [] then 1 else if |its| == 1 then Count(1, 1, its[0]) else Count(Total(its[..|its| - 1]), 0, its[|its| - 1])
  }

  // The calls add up exactly when there is one and the first asks for at least one iteration.
  lemma {:induction false} TotalIsSum(its: seq<uint32>)
    ensures Total(its) == Sum(its) <==> its != [] && its[0] >= 1
  {
    if its != [] {
      var front := its[..|its| - 1];
      assert |its| == 1 ==> front == [];
      if |its| > 1 {
        TotalIsSum(front);
      }
    }
  }

  // Any sequence of update calls.
  method AnyUpdates(C: Compression, pass: Bytes, salt: Bytes, its: seq<uint32>) returns (key: Bytes)
    requires IsCompression(C)
    ensures key == F(C, pass, salt, Total(its))
    ensures its != [] && its[0] >= 1 ==> Total(its) == Sum(its)
  {
    hide Context512.Derived;
    var p := Init(C, pass, salt);
    var i := 0;
    while i < |its|
      invariant 0 <= i <= |its| && fresh(p) && p.first == (if i == 0 then 1 else 0) && p.Derived(C, pass, salt, Total(its[..i]))
    {
      assert its[..i + 1][..i] == its[..i];
      Update(C, p, its[i], pass, salt, Total(its[..i]));
      i := i + 1;
    }
    assert its[..i] == its;
    TotalIsSum(its);
    key := Final(C, p, pass, salt, Total(its));
  }
}
