// bip32.c: hdnode_fill_public_key, hdnode_private_ckd and hdnode_public_ckd.

module Bip32 {
  import opened Words
  import opened Bignum
  import opened Field
  import opened Curves
  import opened Multiples
  import opened Points
  import opened Jacobian
  import opened PointMultiply
  import opened ScalarMultiply
  import opened Bytes
  import opened PublicKeys
  import opened Ecdsa
  import opened Bip32Spec
  import BignumAdd

  // The struct HDNode; curve is null for the curves that have no parameters.
  class HDNode {
    var depth: uint32
    var childNum: uint32
    var chainCode: seq<uint8>
    var privateKey: seq<uint8>
    var publicKey: seq<uint8>
    const curve: EcdsaCurve?

    constructor (x: Node, curve: EcdsaCurve?)
      ensures Value() == x && this.curve == curve
    {
      depth, childNum, chainCode, privateKey, publicKey := x.depth, x.childNum, x.chainCode, x.privateKey, x.publicKey;
      this.curve := curve;
    }

    function Value(): Node
      reads this
    {
      Node(depth, childNum, chainCode, privateKey, publicKey)
    }
  }

  // ---------------------------------------------------------------- public keys

  // "0x02 | (y & 0x01)" and x
  method Compress(R: CurvePoint, ghost c: Curve, ghost n: int) returns (bytes: seq<uint8>)
    requires c.p > 0 && c.p < B256 && Coordinates(c, R.x.val, R.y.val) && PointOf(R.x.val, R.y.val).Affine?
    ensures Compressed(PointOf(R.x.val, R.y.val), bytes)
  {
    PointBounds(c, R.x.val, R.y.val);
    LimbParity(R.y.val);
    hide V, Normalized, BigEndian, Coordinates;
    ParityByte(R.y.val[0]);
    var x := WriteBE(R.x);
    bytes := [2 + R.y.val[0] % 2] + x;
    assert bytes[1..] == x;
  }

  lemma ParityByte(d: int)
    ensures 0 <= 2 + d % 2 < 256
  {
  }

  // ecdsa_get_public_key33
  method PublicKey33(curve: EcdsaCurve, priv: seq<uint8>, random: Limbs9, ghost c: Curve, ghost n: int, ghost G: Point)
    returns (pub: seq<uint8>)
    requires Parameters(curve, c, n, G) && |priv| == 32 && 0 < BigEndian(priv) < n && Denominator(random)
    ensures HasOrder(c, n, G) && Compressed(Mult(c, BigEndian(priv), G), pub)
  {
    ParametersBasics(curve, c, n, G);
    CurveFits(curve, c, n, G);
    hide V, HasOrder, CombTable, IsPrime, OnCurve, Normalized, Denominator, BigEndian, Mult, Coordinates, PointOf, Compressed;
    var k := new Bignum256(ZERO);
    var R := new CurvePoint(ZERO, ZERO);
    ReadBE(priv, k);
    ScalarMultiply.ScalarMultiply(curve, k, R, random, c, n, G);
    MultInfinite(c, n, BigEndian(priv), G);
    SmallMod(BigEndian(priv), n);
    NotInfinite(PointOf(R.x.val, R.y.val));
    pub := Compress(R, c, n);
  }

  lemma NotInfinite(q: Point)
    requires q != Infinity
    ensures q.Affine?
  {
  }

  lemma CurveFits(curve: EcdsaCurve, c: Curve, n: int, G: Point)
    requires Parameters(curve, c, n, G)
    ensures 0 < c.p < B256
  {
    OrderRange(curve.prime.val, c.p);
  }

  // hdnode_fill_public_key: nothing to do if the key is there already.
  method FillPublicKey(node: HDNode, random: Limbs9, ghost c: Curve, ghost n: int, ghost G: Point)
    requires node.curve != null && Parameters(node.curve, c, n, G) && Denominator(random) && PrivateNode(c, n, G, node.Value())
    modifies node`publicKey
    ensures Parameters(node.curve, c, n, G)
    ensures Compressed(Mult(c, BigEndian(node.privateKey), G), node.publicKey)
  {
    hide HasOrder, Compressed, BigEndian, Mult, Denominator, Parameters;
    if node.publicKey[0] != 0 {
      return;
    }
    node.publicKey := PublicKey33(node.curve, node.privateKey, random, c, n, G);
  }

  // ---------------------------------------------------------------- hdnode_private_ckd

  // Earlier rounds were all rejected; one up to last is accepted.
  ghost predicate PrivateWaiting(mac: Mac, n: int, k: int, chain: seq<uint8>, head: seq<uint8>, i: uint32, t: nat, last: nat)
    requires IsMac(mac) && n > 0
  {
    && t <= last && PrivateAccepts(n, k, Output(mac, chain, head, i, last))
    && forall s :: 0 <= s < t ==> !PrivateAccepts(n, k, Output(mac, chain, head, i, s))
  }

  lemma PrivateNext(mac: Mac, n: int, k: int, chain: seq<uint8>, head: seq<uint8>, i: uint32, t: nat, last: nat)
    requires IsMac(mac) && n > 0 && PrivateWaiting(mac, n, k, chain, head, i, t, last)
    ensures if PrivateAccepts(n, k, Output(mac, chain, head, i, t)) then PrivateRound(mac, n, k, chain, head, i, t)
            else PrivateWaiting(mac, n, k, chain, head, i, t + 1, last) && t < last
  {
    hide PrivateAccepts, Output;
  }

  // One round: the child key, if this output is accepted.
  method PrivateTry(curve: EcdsaCurve, a: Bignum256, I: seq<uint8>, ghost c: Curve, ghost n: int, ghost G: Point)
    returns (failed: bool, key: seq<uint8>)
    requires Parameters(curve, c, n, G) && Normalized(a.val) && 0 < V(a.val) < n && |I| == 64
    ensures n > 0 && (!failed <==> PrivateAccepts(n, V(a.val), I))
    ensures !failed ==> |key| == 32 && BigEndian(key) == (Left(I) + V(a.val)) % n
  {
    hide V, HasOrder, CombTable, IsPrime, OnCurve, Normalized, BigEndian, Fe, Parameters, ValidCurve, Modulus;
    ParametersBasics(curve, c, n, G);
    ModulusOf(curve, c, n, G);
    key := [];
    var b := new Bignum256(ZERO);
    ReadBE(I[..32], b);
    var less := IsLess(b, curve.order);
    if !less {
      return true, key;
    }
    AddReduced(b, a, curve.order);
    failed := IsZero(b);
    if !failed {
      key := WriteBE(b);
    }
  }

  // "bn_addmod ... bn_mod"
  method AddReduced(b: Bignum256, a: Bignum256, order: Bignum256)
    requires Modulus(order.val) && Reduced(b.val, V(order.val)) && Reduced(a.val, V(order.val)) && b !in {a, order}
    modifies b
    ensures Normalized(b.val) && 0 <= V(b.val) < B256 && V(b.val) == (old(V(b.val)) + V(a.val)) % V(order.val)
  {
    ghost var n := V(order.val);
    Field.AddMod(V(b.val), V(a.val), n);
    FeResidue(a.val, n);
    FeResidue(b.val, n);
    hide V, Fe;
    BignumAdd.AddMod(b, a, order);
    BignumAdd.Mod(b, order);
    ReducedNormal(b.val, n);
  }

  lemma ModulusOf(curve: EcdsaCurve, c: Curve, n: int, G: Point)
    requires Parameters(curve, c, n, G)
    ensures Modulus(curve.order.val) && Normalized(curve.order.val) && V(curve.order.val) == n
  {
  }

  lemma FeResidue(s: seq<int>, n: int)
    requires n > 0
    ensures Fe(s, n) == V(s) % n
  {
  }

  lemma ReducedNormal(s: seq<int>, n: int)
    requires |s| == 9 && Reduced(s, n) && n < B256
    ensures Normalized(s) && 0 <= V(s) < B256
  {
    Range(s);
  }

  // The retry loop; last stands for an accepted output, which exists with overwhelming probability.
  method PrivateRounds(curve: EcdsaCurve, a: Bignum256, mac: Mac, chain: seq<uint8>, head: seq<uint8>, i: uint32,
                       ghost last: nat, ghost c: Curve, ghost n: int, ghost G: Point)
    returns (key: seq<uint8>, I: seq<uint8>, ghost t: nat)
    requires IsMac(mac) && Parameters(curve, c, n, G) && Normalized(a.val) && 0 < V(a.val) < n
    requires n > 0 && PrivateAccepts(n, V(a.val), Output(mac, chain, head, i, last))
    ensures PrivateRound(mac, n, V(a.val), chain, head, i, t) && I == Output(mac, chain, head, i, t)
    ensures |key| == 32 && BigEndian(key) == (Left(I) + V(a.val)) % n
  {
    ghost var k := V(a.val);
    t := 0;
    I := mac(chain, Message(head, i));
    assert PrivateWaiting(mac, n, k, chain, head, i, 0, last);
    assert I == Output(mac, chain, head, i, 0);
    hide V, Parameters, Normalized, PrivateWaiting, PrivateRound, PrivateAccepts, BigEndian, Left;
    while true
      invariant PrivateWaiting(mac, n, k, chain, head, i, t, last) && I == Output(mac, chain, head, i, t)
      decreases last - t
    {
      var failed;
      failed, key := PrivateTry(curve, a, I, c, n, G);
      PrivateNext(mac, n, k, chain, head, i, t, last);
      if !failed {
        return;
      }
      I := mac(chain, Message([1] + I[32..], i));
      t := t + 1;
      assert I == Output(mac, chain, head, i, t);
    }
  }

  // The 33 bytes the MAC is fed with: the private key, or the public key filled in first.
  method PrivateData(node: HDNode, i: uint32, random: Limbs9, ghost head: seq<uint8>, ghost c: Curve,
                     ghost n: int, ghost G: Point)
    returns (data: seq<uint8>)
    requires node.curve != null && Parameters(node.curve, c, n, G) && Denominator(random)
    requires PrivateNode(c, n, G, node.Value()) && PrivateHead(c, n, G, node.Value(), i, head)
    modifies node`publicKey
    ensures data == head
  {
    ghost var x := node.Value();
    HeadFits(c, n, G, x, i, head);
    hide V, HasOrder, Parameters, PrivateHead, BigEndian, Compressed, Mult, PrivateNode;
    if i >= HARDENED {
      data := [0] + node.privateKey;
    } else {
      FillPublicKey(node, random, c, n, G);
      data := node.publicKey;
      CompressedUnique(Mult(c, BigEndian(x.privateKey), G), head, data);
    }
  }

  lemma HeadFits(c: Curve, n: int, G: Point, x: Node, i: uint32, head: seq<uint8>)
    requires HasOrder(c, n, G) && PrivateHead(c, n, G, x, i, head)
    ensures if i >= HARDENED then head == [0] + x.privateKey else Compressed(Mult(c, BigEndian(x.privateKey), G), head)
  {
    hide HasOrder, Mult, BigEndian, Compressed;
  }

  lemma PrivateKeyRange(c: Curve, n: int, G: Point, x: Node)
    requires HasOrder(c, n, G) && PrivateNode(c, n, G, x)
    ensures |x.privateKey| == 32 && 0 < BigEndian(x.privateKey) < n
  {
    hide HasOrder, Mult, BigEndian, Compressed;
  }

  lemma IsChild(mac: Mac, c: Curve, n: int, G: Point, x: Node, i: uint32, y: Node, head: seq<uint8>, t: nat)
    requires IsMac(mac) && HasOrder(c, n, G) && n > 0
    requires PrivateHead(c, n, G, x, i, head) && PrivateRound(mac, n, BigEndian(x.privateKey), x.chainCode, head, i, t)
    requires var I := Output(mac, x.chainCode, head, i, t);
             |y.privateKey| == 32 && BigEndian(y.privateKey) == (Left(I) + BigEndian(x.privateKey)) % n && y.chainCode == I[32..]
    requires y.depth == (x.depth + 1) % W32 && y.childNum == i && y.publicKey == seq(33, _ => 0)
    ensures PrivateChild(mac, c, n, G, x, i, y)
  {
    hide HasOrder, Mult, BigEndian, Compressed, PrivateRound, PrivateHead, Left, Output;
    assert PrivateChildAt(mac, c, n, G, x, i, y, head, t);
  }

  // On a curve with parameters.
  method DeriveOnCurve(node: HDNode, i: uint32, mac: Mac, random: Limbs9, ghost head: seq<uint8>, ghost last: nat,
                       ghost c: Curve, ghost n: int, ghost G: Point)
    requires IsMac(mac) && node.curve != null && Parameters(node.curve, c, n, G) && Denominator(random)
    requires PrivateNode(c, n, G, node.Value()) && PrivateHead(c, n, G, node.Value(), i, head)
    requires n > 0 && PrivateAccepts(n, BigEndian(node.privateKey), Output(mac, node.chainCode, head, i, last))
    modifies node
    ensures HasOrder(c, n, G) && PrivateChild(mac, c, n, G, old(node.Value()), i, node.Value())
  {
    ghost var x := node.Value();
    ParametersBasics(node.curve, c, n, G);
    PrivateKeyRange(c, n, G, x);
    hide V, HasOrder, Parameters, Normalized, PrivateAccepts, PrivateRound, PrivateHead, BigEndian, Compressed, Output, Left, Mult,
         PrivateNode, PrivateChild, OnCurve, IsPrime, ValidCurve, Denominator;
    var data := PrivateData(node, i, random, head, c, n, G);
    FinishPrivate(node, node.curve, data, i, mac, last, c, n, G, x);
  }

  // hdnode_private_ckd from the data it hashes on; x is the node as it was.
  method FinishPrivate(node: HDNode, curve: EcdsaCurve, data: seq<uint8>, i: uint32, mac: Mac, ghost last: nat,
                       ghost c: Curve, ghost n: int, ghost G: Point, ghost x: Node)
    requires IsMac(mac) && Parameters(curve, c, n, G) && PrivateNode(c, n, G, x) && PrivateHead(c, n, G, x, i, data)
    requires node.privateKey == x.privateKey && node.chainCode == x.chainCode && node.depth == x.depth
    requires n > 0 && PrivateAccepts(n, BigEndian(x.privateKey), Output(mac, x.chainCode, data, i, last))
    modifies node
    ensures HasOrder(c, n, G) && PrivateChild(mac, c, n, G, x, i, node.Value())
  {
    hide V, HasOrder, Parameters, Normalized, PrivateAccepts, PrivateRound, PrivateHead, BigEndian, Output, Left, Mult, PrivateNode,
         PrivateChild, OnCurve, IsPrime, ValidCurve;
    ParametersBasics(curve, c, n, G);
    PrivateKeyRange(c, n, G, x);
    var a := new Bignum256(ZERO);
    ReadBE(node.privateKey, a);
    ghost var t;
    var key, I;
    key, I, t := PrivateRounds(curve, a, mac, node.chainCode, data, i, last, c, n, G);
    node.privateKey, node.chainCode, node.depth, node.childNum := key, I[32..], Next32(node.depth), i;
    node.publicKey := seq(33, _ => 0);
    IsChild(mac, c, n, G, x, i, node.Value(), data, t);
  }

  // The child on a curve without parameters: the private key is the left half as it is.
  ghost predicate PlainChild(mac: Mac, x: Node, i: uint32, y: Node)
    requires IsMac(mac)
  {
    var I := Output(mac, x.chainCode, [0] + x.privateKey, i, 0);
    y == Node((x.depth + 1) % W32, i, Right(I), I[..32], seq(33, _ => 0))
  }

  // hdnode_private_ckd: only a non-hardened child of a node without parameters is refused.
  method PrivateCkd(node: HDNode, i: uint32, mac: Mac, random: Limbs9, ghost head: seq<uint8>, ghost last: nat,
                    ghost c: Curve, ghost n: int, ghost G: Point) returns (ok: bool)
    requires IsMac(mac) && Denominator(random) && |node.privateKey| == 32 && |node.publicKey| == 33
    requires node.curve != null ==>
      && Parameters(node.curve, c, n, G) && PrivateNode(c, n, G, node.Value()) && PrivateHead(c, n, G, node.Value(), i, head)
      && n > 0 && PrivateAccepts(n, BigEndian(node.privateKey), Output(mac, node.chainCode, head, i, last))
    modifies node
    ensures ok <==> i >= HARDENED || node.curve != null
    ensures !ok ==> node.Value() == old(node.Value())
    ensures ok && node.curve != null ==> HasOrder(c, n, G) && PrivateChild(mac, c, n, G, old(node.Value()), i, node.Value())
    ensures ok && node.curve == null ==> PlainChild(mac, old(node.Value()), i, node.Value())
  {
    if node.curve != null {
      DeriveOnCurve(node, i, mac, random, head, last, c, n, G);
      return true;
    }
    if i < HARDENED {
      return false;
    }
    var I := mac(node.chainCode, Message([0] + node.privateKey, i));
    node.privateKey, node.chainCode, node.depth, node.childNum := I[..32], I[32..], Next32(node.depth), i;
    node.publicKey := seq(33, _ => 0);
    ok := true;
  }

  // depth++ of a uint32_t
  function Next32(d: uint32): (e: uint32)
    ensures e == (d + 1) % W32
  {
    if d == 0xFFFF_FFFF then 0 else d + 1
  }

  // ---------------------------------------------------------------- hdnode_public_ckd

  ghost predicate PublicWaiting(mac: Mac, c: Curve, n: int, G: Point, Q: Point, chain: seq<uint8>, head: seq<uint8>, i: uint32,
                                t: nat, last: nat)
    requires IsMac(mac) && ValidCurve(c) && OnCurve(c, G) && OnCurve(c, Q)
  {
    && t <= last && PublicAccepts(c, n, G, Q, Output(mac, chain, head, i, last))
    && forall s :: 0 <= s < t ==> !PublicAccepts(c, n, G, Q, Output(mac, chain, head, i, s))
  }

  lemma PublicNext(mac: Mac, c: Curve, n: int, G: Point, Q: Point, chain: seq<uint8>, head: seq<uint8>,
                   i: uint32, t: nat, last: nat)
    requires IsMac(mac) && ValidCurve(c) && OnCurve(c, G) && OnCurve(c, Q)
    requires PublicWaiting(mac, c, n, G, Q, chain, head, i, t, last)
    ensures if PublicAccepts(c, n, G, Q, Output(mac, chain, head, i, t)) then PublicRound(mac, c, n, G, Q, chain, head, i, t)
            else PublicWaiting(mac, c, n, G, Q, chain, head, i, t + 1, last) && t < last
  {
    hide PublicAccepts, Output, ValidCurve, OnCurve;
  }

  lemma TryBasics(curve: EcdsaCurve, c: Curve, n: int, G: Point)
    requires Parameters(curve, c, n, G)
    ensures Describes(curve, c, n) && HasOrder(c, n, G) && ValidCurve(c) && OnCurve(c, G) && CombTable(c, G, curve.cp)
    ensures Represented(c, curve.prime.val) && curve.a == c.a && 0 < c.p < B256 && 0 < n < B256
    ensures Normalized(curve.order.val) && V(curve.order.val) == n
  {
    ParametersBasics(curve, c, n, G);
    CurveFits(curve, c, n, G);
    OrderRange(curve.order.val, n);
    hide V, HasOrder, CombTable, IsPrime, OnCurve, Normalized, ValidCurve;
  }

  lemma FieldPoint(c: Curve, q: Point)
    requires c.p > 0 && OnCurve(c, q)
    ensures InField(c, q)
  {
  }

  // One round: b = a + left * G, if this output is accepted.
  method PublicTry(curve: EcdsaCurve, a: CurvePoint, I: seq<uint8>, random: Limbs9,
                   ghost c: Curve, ghost n: int, ghost G: Point, ghost Q: Point) returns (failed: bool, key: seq<uint8>)
    requires Parameters(curve, c, n, G) && Denominator(random) && |I| == 64 && ValidCurve(c) && OnCurve(c, G)
    requires Coordinates(c, a.x.val, a.y.val) && OnCurve(c, Q) && Q == PointOf(a.x.val, a.y.val)
    ensures !failed <==> PublicAccepts(c, n, G, Q, I)
    ensures !failed ==> Compressed(Plus(c, Q, Mult(c, Left(I), G)), key)
  {
    hide V, HasOrder, CombTable, IsPrime, OnCurve, Normalized, BigEndian, Coordinates, PointOf, Mult, Compressed, Denominator, Sum,
         Parameters, Describes, ValidCurve, Represented;
    TryBasics(curve, c, n, G);
    FieldPoint(c, Q);
    FieldPoint(c, Mult(c, Left(I), G));
    key := [];
    var e := new Bignum256(ZERO);
    ReadBE(I[..32], e);
    var less := IsLess(e, curve.order);
    if !less {
      return true, key;
    }
    var b := new CurvePoint(ZERO, ZERO);
    ScalarMultiply.ScalarMultiply(curve, e, b, random, c, n, G);
    PointAdd(a, b, curve.prime, c, curve.a);
    NormalCoordinates(c, b.x.val, b.y.val);
    failed := IsInfinity(b);
    if !failed {
      NotInfinite(PointOf(b.x.val, b.y.val));
      key := Compress(b, c, n);
    }
  }

  lemma NormalCoordinates(c: Curve, x: seq<int>, y: seq<int>)
    requires |x| == |y| == 9 && Coordinates(c, x, y)
    ensures Normalized(x) && Normalized(y)
  {
    PointBounds(c, x, y);
  }

  method PublicRounds(curve: EcdsaCurve, a: CurvePoint, mac: Mac, chain: seq<uint8>, head: seq<uint8>, i: uint32,
                      random: Limbs9,
                      ghost last: nat, ghost c: Curve, ghost n: int, ghost G: Point, ghost Q: Point)
    returns (key: seq<uint8>, I: seq<uint8>, ghost t: nat)
    requires IsMac(mac) && Parameters(curve, c, n, G) && Denominator(random) && ValidCurve(c) && OnCurve(c, G)
    requires Coordinates(c, a.x.val, a.y.val) && OnCurve(c, Q) && Q == PointOf(a.x.val, a.y.val)
    requires PublicAccepts(c, n, G, Q, Output(mac, chain, head, i, last))
    ensures PublicRound(mac, c, n, G, Q, chain, head, i, t) && I == Output(mac, chain, head, i, t)
    ensures Compressed(Plus(c, Q, Mult(c, Left(I), G)), key)
  {
    t := 0;
    var data := head;
    I := mac(chain, Message(data, i));
    assert PublicWaiting(mac, c, n, G, Q, chain, head, i, 0, last);
    assert I == Output(mac, chain, head, i, 0);
    hide V, Parameters, Normalized, PublicWaiting, PublicRound, PublicAccepts, BigEndian, Left, OnCurve, ValidCurve, Coordinates,
         PointOf, Mult, Plus, Compressed, Denominator;
    while true
      invariant PublicWaiting(mac, c, n, G, Q, chain, head, i, t, last) && I == Output(mac, chain, head, i, t)
      decreases last - t
    {
      var failed;
      failed, key := PublicTry(curve, a, I, random, c, n, G, Q);
      PublicNext(mac, c, n, G, Q, chain, head, i, t, last);
      if !failed {
        return;
      }
      data := [1] + I[32..];
      I := mac(chain, Message(data, i));
      t := t + 1;
      assert I == Output(mac, chain, head, i, t);
    }
  }

  lemma IsPublicChild(mac: Mac, c: Curve, n: int, G: Point, x: Node, i: uint32, y: Node, Q: Point, t: nat)
    requires IsMac(mac) && HasOrder(c, n, G) && OnCurve(c, Q) && Compressed(Q, x.publicKey)
    requires PublicRound(mac, c, n, G, Q, x.chainCode, x.publicKey, i, t)
    requires var I := Output(mac, x.chainCode, x.publicKey, i, t);
             Compressed(Plus(c, Q, Mult(c, Left(I), G)), y.publicKey) && y.chainCode == I[32..]
    requires y.depth == (x.depth + 1) % W32 && y.childNum == i && y.privateKey == seq(32, _ => 0)
    ensures PublicChild(mac, c, n, G, x, i, y)
  {
    assert |x.publicKey| == 33;
    hide HasOrder, Mult, Plus, OnCurve, Compressed, PublicRound, Left, Output;
    assert PublicChildAt(mac, c, n, G, x, i, y, Q, t);
  }

  // A readable compressed key is the compressed form of its point.
  lemma KeyCompressed(c: Curve, bytes: seq<uint8>, q: Point)
    requires c.p > 0 && |bytes| == 33 && bytes[0] != 4 && KeyBytes(c, bytes, q)
    ensures OnCurve(c, q) && Compressed(q, bytes)
  {
    assert bytes[1..33] == bytes[1..];
  }

  // Whatever point the key denotes, some output is accepted for it.
  ghost predicate PublicReady(mac: Mac, c: Curve, n: int, G: Point, x: Node, i: uint32, last: nat)
    requires IsMac(mac) && ValidCurve(c) && OnCurve(c, G) && |x.publicKey| == 33 && x.publicKey[0] != 4
  {
    forall q :: OnCurve(c, q) && KeyBytes(c, x.publicKey, q) ==>
      PublicAccepts(c, n, G, q, Output(mac, x.chainCode, x.publicKey, i, last))
  }

  // hdnode_public_ckd: refused for hardened children, without parameters, and for unreadable keys.
  method PublicCkd(node: HDNode, i: uint32, mac: Mac, random: Limbs9, ghost last: nat,
                   ghost c: Curve, ghost n: int, ghost G: Point) returns (ok: bool)
    requires IsMac(mac) && Denominator(random) && |node.publicKey| == 33
    requires i < HARDENED && node.curve != null ==>
      && node.publicKey[0] != 4 && Parameters(node.curve, c, n, G) && c.p % 4 == 3 && ValidCurve(c) && OnCurve(c, G)
      && PublicReady(mac, c, n, G, node.Value(), i, last)
    modifies node
    ensures !ok ==> node.publicKey == old(node.publicKey) && node.chainCode == old(node.chainCode)
                    && node.depth == old(node.depth) && node.childNum == old(node.childNum)
    ensures ok <==> i < HARDENED && node.curve != null && exists q :: KeyBytes(c, old(node.publicKey), q)
    ensures ok ==> HasOrder(c, n, G) && PublicChild(mac, c, n, G, old(node.Value()), i, node.Value())
  {
    if i >= HARDENED || node.curve == null {
      return false;
    }
    var curve: EcdsaCurve := node.curve;
    ghost var x := node.Value();
    ParametersBasics(curve, c, n, G);
    hide V, HasOrder, Normalized, KeyBytes, OnCurve, PublicChild, PublicReady, CombTable, IsPrime, Coordinates, PointOf;
    node.privateKey := seq(32, _ => 0);
    var a := new CurvePoint(ZERO, ZERO);
    ok := ReadPubkey(curve, node.publicKey, a, c, n);
    if ok {
      DerivePublic(node, curve, a, i, mac, random, last, c, n, G, x);
    }
  }

  // The rest of hdnode_public_ckd, for the point a of the public key; x is the node as it was.
  method DerivePublic(node: HDNode, curve: EcdsaCurve, a: CurvePoint, i: uint32, mac: Mac, random: Limbs9, ghost last: nat,
                      ghost c: Curve, ghost n: int, ghost G: Point, ghost x: Node)
    requires IsMac(mac) && Denominator(random) && |node.publicKey| == 33 && node.publicKey[0] != 4
    requires Parameters(curve, c, n, G) && ValidCurve(c) && OnCurve(c, G)
    requires node.publicKey == x.publicKey && node.chainCode == x.chainCode && node.depth == x.depth
    requires PublicReady(mac, c, n, G, x, i, last) && node.privateKey == seq(32, _ => 0)
    requires Coordinates(c, a.x.val, a.y.val) && KeyBytes(c, node.publicKey, PointOf(a.x.val, a.y.val))
    modifies node
    ensures HasOrder(c, n, G) && PublicChild(mac, c, n, G, x, i, node.Value())
  {
    ParametersBasics(curve, c, n, G);
    hide V, HasOrder, Normalized, Parameters, PublicAccepts, PublicRound, BigEndian, Compressed, Output, Left, Mult, Plus,
         KeyBytes, OnCurve, PublicChild, CombTable, IsPrime;
    ghost var Q := PointOf(a.x.val, a.y.val);
    KeyCompressed(c, x.publicKey, Q);
    ghost var t;
    var key, I;
    key, I, t := PublicRounds(curve, a, mac, node.chainCode, node.publicKey, i, random, last, c, n, G, Q);
    node.publicKey, node.depth, node.childNum, node.chainCode := key, Next32(node.depth), i, I[32..];
    IsPublicChild(mac, c, n, G, x, i, node.Value(), Q, t);
  }
}
