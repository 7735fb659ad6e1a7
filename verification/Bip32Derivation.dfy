// bip32.c: the derivation functions run against each other and under the cache.

module Bip32Derivation {
  import opened Options
  import opened Words
  import opened Bignum
  import opened Curves
  import opened Multiples
  import opened Jacobian
  import opened PointMultiply
  import opened Bytes
  import opened PublicKeys
  import opened Ecdsa
  import opened Bip32Spec
  import opened Bip32
  import opened Bip32Cache

  // ---------------------------------------------------------------- the square

  // The public key of a private node is readable, and denotes one point.
  lemma OwnPublicKey(c: Curve, n: int, G: Point, x: Node, x': Node)
    requires HasOrder(c, n, G) && PrivateNode(c, n, G, x) && Neutered(c, n, G, x, x')
    ensures |x'.publicKey| == 33 && x'.publicKey[0] != 4
    ensures KeyBytes(c, x'.publicKey, Mult(c, BigEndian(x.privateKey), G))
    ensures forall q :: OnCurve(c, q) && KeyBytes(c, x'.publicKey, q) ==> q == Mult(c, BigEndian(x.privateKey), G)
  {
    var Q := Mult(c, BigEndian(x.privateKey), G);
    ReadableKey(c, Q, x'.publicKey);
    hide HasOrder, BigEndian, Compressed, Mult, KeyBytes, OnCurve;
    forall q | OnCurve(c, q) && KeyBytes(c, x'.publicKey, q)
      ensures q == Q
    {
      KeyCompressed(c, x'.publicKey, q);
      SamePoint(c, q, Q, x'.publicKey);
    }
  }

  lemma ReadableKey(c: Curve, q: Point, bytes: seq<uint8>)
    requires ValidCurve(c) && OnCurve(c, q) && Compressed(q, bytes)
    ensures |bytes| == 33 && bytes[0] != 4 && KeyBytes(c, bytes, q)
  {
    OriginOffCurve(c);
    assert bytes[1..33] == bytes[1..];
    hide BigEndian;
  }

  // An output that is accepted for the private key is accepted for its public key.
  lemma ReadyTogether(mac: Mac, c: Curve, n: int, G: Point, x: Node, i: uint32, x': Node, head: seq<uint8>, last: nat)
    requires IsMac(mac) && HasOrder(c, n, G) && PrivateNode(c, n, G, x) && Neutered(c, n, G, x, x') && i < HARDENED
    requires PrivateHead(c, n, G, x, i, head)
    requires n > 0 && PrivateAccepts(n, BigEndian(x.privateKey), Output(mac, x.chainCode, head, i, last))
    ensures ValidCurve(c) && OnCurve(c, G) && |x'.publicKey| == 33 && x'.publicKey[0] != 4
    ensures PublicReady(mac, c, n, G, x', i, last)
    ensures exists q :: KeyBytes(c, x'.publicKey, q)
  {
    OwnPublicKey(c, n, G, x, x');
    SquareHead(c, n, G, x, i, x', head);
    SameRound(c, n, G, BigEndian(x.privateKey), Output(mac, x.chainCode, head, i, last));
    hide HasOrder, BigEndian, Compressed, Mult, KeyBytes, PublicAccepts, PrivateAccepts, Output, OnCurve, PrivateHead;
  }

  lemma NodeParts(c: Curve, n: int, G: Point, x: Node)
    requires HasOrder(c, n, G) && PrivateNode(c, n, G, x)
    ensures |x.privateKey| == 32 && |x.publicKey| == 33
  {
    hide HasOrder;
  }

  // A child derived privately and then filled in, and one derived from the public half alone.
  method DeriveBothWays(x: Node, curve: EcdsaCurve, i: uint32, mac: Mac, randoms: seq<Limbs9>,
                        ghost head: seq<uint8>, ghost last: nat, ghost c: Curve, ghost n: int, ghost G: Point)
    returns (priv: HDNode, pub: HDNode)
    requires IsMac(mac) && Parameters(curve, c, n, G) && c.p % 4 == 3 && PrivateNode(c, n, G, x) && i < HARDENED
    requires |randoms| == 4 && forall j :: 0 <= j < 4 ==> Denominator(randoms[j])
    requires PrivateHead(c, n, G, x, i, head)
    requires n > 0 && PrivateAccepts(n, BigEndian(x.privateKey), Output(mac, x.chainCode, head, i, last))
    ensures fresh(priv) && fresh(pub) && HasOrder(c, n, G) && Neutered(c, n, G, priv.Value(), pub.Value())
    ensures pub.publicKey == priv.publicKey && pub.chainCode == priv.chainCode
    ensures pub.depth == priv.depth && pub.childNum == priv.childNum
  {
    var random0, random1, random2, random3 := randoms[0], randoms[1], randoms[2], randoms[3];
    hide *;
    ParametersBasics(curve, c, n, G);
    NodeParts(c, n, G, x);
    pub := new HDNode(x, curve);
    FillPublicKey(pub, random0, c, n, G);
    pub.privateKey := seq(32, _ => 0);
    ghost var x' := pub.Value();
    IsNeutered(c, n, G, x, x');
    ReadyTogether(mac, c, n, G, x, i, x', head, last);
    var ok := PublicCkd(pub, i, mac, random1, last, c, n, G);
    assert ok;
    priv := new HDNode(x, curve);
    ok := PrivateCkd(priv, i, mac, random2, head, last, c, n, G);
    assert ok;
    ghost var y := priv.Value();
    PrivateChildUsable(mac, c, n, G, x, i, y);
    Square(mac, c, n, G, x, i, y, x', pub.Value());
    FillPublicKey(priv, random3, c, n, G);
    SameKey(c, n, G, y, pub.Value(), priv.publicKey);
    StillNeutered(c, n, G, y, priv.Value(), pub.Value());
  }

  lemma IsNeutered(c: Curve, n: int, G: Point, x: Node, x': Node)
    requires HasOrder(c, n, G) && Compressed(Mult(c, BigEndian(x.privateKey), G), x'.publicKey)
    requires x'.privateKey == seq(32, _ => 0)
    requires x'.depth == x.depth && x'.childNum == x.childNum && x'.chainCode == x.chainCode
    ensures Neutered(c, n, G, x, x')
  {
    hide HasOrder, Compressed, BigEndian, Mult;
  }

  lemma SameKey(c: Curve, n: int, G: Point, y: Node, y': Node, key: seq<uint8>)
    requires HasOrder(c, n, G) && Neutered(c, n, G, y, y') && Compressed(Mult(c, BigEndian(y.privateKey), G), key)
    ensures y'.publicKey == key && y'.chainCode == y.chainCode && y'.depth == y.depth && y'.childNum == y.childNum
  {
    CompressedUnique(Mult(c, BigEndian(y.privateKey), G), y'.publicKey, key);
    hide HasOrder, Compressed, BigEndian, Mult;
  }

  lemma StillNeutered(c: Curve, n: int, G: Point, y: Node, z: Node, y': Node)
    requires HasOrder(c, n, G) && Neutered(c, n, G, y, y')
    requires z.privateKey == y.privateKey && z.depth == y.depth && z.childNum == y.childNum && z.chainCode == y.chainCode
    ensures Neutered(c, n, G, z, y')
  {
    hide HasOrder, Compressed, BigEndian, Mult;
  }

  // ---------------------------------------------------------------- derivation under the cache

  ghost predicate DerivesAt(ckd: Ckd, mac: Mac, c: Curve, n: int, G: Point, x: Item, i: uint32)
    requires IsMac(mac) && HasOrder(c, n, G)
  {
    PrivateNode(c, n, G, x.node) ==>
      && ckd(x, i).Some? && ckd(x, i).value.curve == x.curve
      && PrivateChild(mac, c, n, G, x.node, i, ckd(x, i).value.node)
  }

  // ckd gives the private children of usable nodes.
  ghost predicate Derives(ckd: Ckd, mac: Mac, c: Curve, n: int, G: Point)
    requires IsMac(mac) && HasOrder(c, n, G)
  {
    forall x, i :: DerivesAt(ckd, mac, c, n, G, x, i)
  }

  // There is only one such function on usable nodes, and hdnode_private_ckd computes it.
  method ComputesCkd(node: HDNode, i: uint32, mac: Mac, random: Limbs9, ghost id: nat, ghost ckd: Ckd, ghost head: seq<uint8>,
                     ghost last: nat, ghost c: Curve, ghost n: int, ghost G: Point) returns (ok: bool)
    requires IsMac(mac) && Denominator(random) && node.curve != null && Parameters(node.curve, c, n, G)
    requires PrivateNode(c, n, G, node.Value()) && PrivateHead(c, n, G, node.Value(), i, head)
    requires n > 0 && PrivateAccepts(n, BigEndian(node.privateKey), Output(mac, node.chainCode, head, i, last))
    requires HasOrder(c, n, G) && Derives(ckd, mac, c, n, G)
    modifies node
    ensures ok && ckd(Item(old(node.Value()), id), i) == Some(Item(node.Value(), id))
  {
    hide HasOrder, Parameters, Denominator, PrivateNode, PrivateHead, PrivateAccepts, BigEndian, Output, PrivateChild, Derives;
    ghost var x := Item(node.Value(), id);
    NodeParts(c, n, G, x.node);
    ok := PrivateCkd(node, i, mac, random, head, last, c, n, G);
    assert ok;
    OnlyChild(ckd, mac, c, n, G, x, i, node.Value());
  }

  lemma OnlyChild(ckd: Ckd, mac: Mac, c: Curve, n: int, G: Point, x: Item, i: uint32, y: Node)
    requires IsMac(mac) && HasOrder(c, n, G) && Derives(ckd, mac, c, n, G) && PrivateNode(c, n, G, x.node)
    requires PrivateChild(mac, c, n, G, x.node, i, y)
    ensures ckd(x, i) == Some(Item(y, x.curve))
  {
    hide HasOrder, PrivateNode, PrivateChild;
    assert DerivesAt(ckd, mac, c, n, G, x, i);
    PrivateChildUnique(mac, c, n, G, x.node, i, y, ckd(x, i).value.node);
  }

  // y is reached from x along the path by private children.
  ghost predicate Descends(mac: Mac, c: Curve, n: int, G: Point, x: Node, path: seq<uint32>, y: Node)
    requires IsMac(mac) && HasOrder(c, n, G)
  {
    if path == [] then y == x
    else
      var i, front := path[|path| - 1], path[..|path| - 1];
      exists z :: PrivateChild(mac, c, n, G, z, i, y) && Descends(mac, c, n, G, x, front, z)
  }

  // What plain derivation along a path reaches is a usable node, and the only one down that path.
  lemma {:induction false} FoldDescends(ckd: Ckd, mac: Mac, c: Curve, n: int, G: Point, x: Item, path: seq<uint32>)
    requires IsMac(mac) && HasOrder(c, n, G) && Derives(ckd, mac, c, n, G) && PrivateNode(c, n, G, x.node)
    ensures var (ok, y) := Fold(ckd, x, path);
      ok && y.curve == x.curve && PrivateNode(c, n, G, y.node) && Descends(mac, c, n, G, x.node, path, y.node)
    ensures forall z :: Descends(mac, c, n, G, x.node, path, z) ==> z == Fold(ckd, x, path).1.node
  {
    if path != [] {
      hide HasOrder, PrivateNode, PrivateChild;
      var i, front := path[|path| - 1], path[..|path| - 1];
      FoldDescends(ckd, mac, c, n, G, x, front);
      var y := Fold(ckd, x, front).1;
      assert DerivesAt(ckd, mac, c, n, G, y, i);
      PrivateChildUsable(mac, c, n, G, y.node, i, ckd(y, i).value.node);
      forall z | Descends(mac, c, n, G, x.node, path, z)
        ensures z == ckd(y, i).value.node
      {
        var w :| PrivateChild(mac, c, n, G, w, i, z) && Descends(mac, c, n, G, x.node, front, w);
        PrivateChildUnique(mac, c, n, G, y.node, i, z, ckd(y, i).value.node);
      }
    }
  }

  // Any calls of the cached function on usable nodes return the nodes down their paths.
  method CachedDescents(calls: seq<(Item, seq<uint32>)>, blank: Item, ckd: Ckd,
                        ghost mac: Mac, ghost c: Curve, ghost n: int, ghost G: Point)
    returns (results: seq<(bool, Item)>)
    requires IsMac(mac) && HasOrder(c, n, G) && Derives(ckd, mac, c, n, G)
    requires forall k :: 0 <= k < |calls| ==> |calls[k].1| <= MAX_DEPTH + 1 && PrivateNode(c, n, G, calls[k].0.node)
    ensures |results| == |calls|
    ensures forall k :: 0 <= k < |calls| ==> results[k].0 && Descends(mac, c, n, G, calls[k].0.node, calls[k].1, results[k].1.node)
    ensures forall k, z :: 0 <= k < |calls| && Descends(mac, c, n, G, calls[k].0.node, calls[k].1, z) ==> z == results[k].1.node
  {
    hide HasOrder, PrivateNode, Descends, Derives, Fold;
    results := AnyCalls(calls, blank, ckd);
    forall k | 0 <= k < |calls|
      ensures results[k].0 && Descends(mac, c, n, G, calls[k].0.node, calls[k].1, results[k].1.node)
      ensures forall z :: Descends(mac, c, n, G, calls[k].0.node, calls[k].1, z) ==> z == results[k].1.node
    {
      FoldDescends(ckd, mac, c, n, G, calls[k].0, calls[k].1);
    }
  }
}
