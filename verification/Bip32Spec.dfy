// Child key derivation of BIP-32 with the retry rule of SLIP-0010, over an arbitrary MAC: the
// private and the public derivation of a child agree, retries included.

module Bip32Spec {
  import opened Words
  import opened Field
  import opened Curves
  import opened Multiples
  import opened Bytes

  const HARDENED: int := 0x8000_0000

  // hmac_sha512(chain_code, 32, data, 37, I), left uninterpreted.
  type Mac = (seq<uint8>, seq<uint8>) -> seq<uint8>

  ghost predicate IsMac(mac: Mac) {
    forall k, d :: |mac(k, d)| == 64
  }

  // data: 33 bytes and the index.
  function Message(head: seq<uint8>, i: uint32): seq<uint8> {
    head + WriteWord(i)
  }

  // The output of round t: each further round is keyed alike and fed with the right half of the last.
  function Output(mac: Mac, chain: seq<uint8>, head: seq<uint8>, i: uint32, t: nat): (r: seq<uint8>)
    requires IsMac(mac)
    ensures |r| == 64
  {
    if t == 0 then mac(chain, Message(head, i))
    else mac(chain, Message([1] + Output(mac, chain, head, i, t - 1)[32..], i))
  }

  function Left(I: seq<uint8>): nat
    requires |I| == 64
  {
    BigEndian(I[..32])
  }

  function Right(I: seq<uint8>): seq<uint8>
    requires |I| == 64
  {
    I[32..]
  }

  // ---------------------------------------------------------------- what each side accepts

  // The private side: the left half is in range and the child key is not zero.
  predicate PrivateAccepts(n: int, k: int, I: seq<uint8>)
    requires |I| == 64 && n > 0
  {
    Left(I) < n && (Left(I) + k) % n != 0
  }

  // The public side: the left half is in range and the child point is not the point at infinity.
  ghost predicate PublicAccepts(c: Curve, n: int, G: Point, Q: Point, I: seq<uint8>)
    requires |I| == 64 && ValidCurve(c) && OnCurve(c, G) && OnCurve(c, Q)
  {
    Left(I) < n && Plus(c, Q, Mult(c, Left(I), G)) != Infinity
  }

  // Round t is the first the private side accepts.
  ghost predicate PrivateRound(mac: Mac, n: int, k: int, chain: seq<uint8>, head: seq<uint8>, i: uint32, t: nat)
    requires IsMac(mac) && n > 0
  {
    && PrivateAccepts(n, k, Output(mac, chain, head, i, t))
    && forall s :: 0 <= s < t ==> !PrivateAccepts(n, k, Output(mac, chain, head, i, s))
  }

  ghost predicate PublicRound(mac: Mac, c: Curve, n: int, G: Point, Q: Point, chain: seq<uint8>,
                              head: seq<uint8>, i: uint32, t: nat)
    requires IsMac(mac) && ValidCurve(c) && OnCurve(c, G) && OnCurve(c, Q)
  {
    && PublicAccepts(c, n, G, Q, Output(mac, chain, head, i, t))
    && forall s :: 0 <= s < t ==> !PublicAccepts(c, n, G, Q, Output(mac, chain, head, i, s))
  }

  // There is only one first accepted round.
  lemma FirstRound(mac: Mac, n: int, k: int, chain: seq<uint8>, head: seq<uint8>, i: uint32, t: nat, t': nat)
    requires IsMac(mac) && n > 0
    requires PrivateRound(mac, n, k, chain, head, i, t) && PrivateRound(mac, n, k, chain, head, i, t')
    ensures t == t'
  {
    hide PrivateAccepts, Output;
  }

  // ---------------------------------------------------------------- the square commutes

  // For the key pair k and Q = k*G both sides accept the same outputs and the child of Q is the
  // point of the child of k.
  lemma SameRound(c: Curve, n: int, G: Point, k: int, I: seq<uint8>)
    requires |I| == 64 && HasOrder(c, n, G)
    ensures n > 0 && ValidCurve(c) && OnCurve(c, G)
    ensures PrivateAccepts(n, k, I) <==> PublicAccepts(c, n, G, Mult(c, k, G), I)
    ensures Plus(c, Mult(c, k, G), Mult(c, Left(I), G)) == Mult(c, (Left(I) + k) % n, G)
  {
    var l := Left(I);
    hide Associative, Mult, IsPrime, Left;
    MultAdd(c, k, l, G);
    assert k + l == l + k;
    MultMod(c, n, l + k, G);
    MultInfinite(c, n, l + k, G);
  }

  lemma SameRounds(mac: Mac, c: Curve, n: int, G: Point, k: int, chain: seq<uint8>, head: seq<uint8>, i: uint32, t: nat)
    requires IsMac(mac) && HasOrder(c, n, G)
    ensures n > 0 && ValidCurve(c) && OnCurve(c, G)
    ensures PrivateRound(mac, n, k, chain, head, i, t)
       <==> PublicRound(mac, c, n, G, Mult(c, k, G), chain, head, i, t)
  {
    assert n > 0 && ValidCurve(c) && OnCurve(c, G);
    hide HasOrder, PrivateAccepts, PublicAccepts, Output, Mult;
    forall s: nat | true
      ensures PrivateAccepts(n, k, Output(mac, chain, head, i, s))
         <==> PublicAccepts(c, n, G, Mult(c, k, G), Output(mac, chain, head, i, s))
    {
      SameRound(c, n, G, k, Output(mac, chain, head, i, s));
    }
  }

  // ---------------------------------------------------------------- nodes

  // The value of an HDNode struct, its curve aside.
  datatype Node = Node(depth: uint32, childNum: uint32, chainCode: seq<uint8>, privateKey: seq<uint8>, publicKey: seq<uint8>)

  // 33 bytes: 02 or 03 by the parity of y, then x.
  ghost predicate Compressed(q: Point, bytes: seq<uint8>) {
    q.Affine? && |bytes| == 33 && bytes[0] == 2 + q.y % 2 && BigEndian(bytes[1..]) == q.x
  }

  lemma CompressedUnique(q: Point, s: seq<uint8>, t: seq<uint8>)
    requires Compressed(q, s) && Compressed(q, t)
    ensures s == t
  {
    BigEndianInjective(s[1..], t[1..]);
    assert s == [s[0]] + s[1..] && t == [t[0]] + t[1..];
  }

  // A node with a usable private key and, if it is filled in at all, the public key that goes with it.
  ghost predicate PrivateNode(c: Curve, n: int, G: Point, x: Node)
    requires HasOrder(c, n, G)
  {
    && |x.chainCode| == 32 && |x.privateKey| == 32 && |x.publicKey| == 33
    && 0 < BigEndian(x.privateKey) < n
    && (x.publicKey[0] == 0 || Compressed(Mult(c, BigEndian(x.privateKey), G), x.publicKey))
  }

  // The 33 bytes the MAC is fed with first.
  ghost predicate PrivateHead(c: Curve, n: int, G: Point, x: Node, i: uint32, head: seq<uint8>)
    requires HasOrder(c, n, G)
  {
    if i >= HARDENED then head == [0] + x.privateKey else Compressed(Mult(c, BigEndian(x.privateKey), G), head)
  }

  ghost predicate PrivateChildAt(mac: Mac, c: Curve, n: int, G: Point, x: Node, i: uint32, y: Node, head: seq<uint8>, t: nat)
    requires IsMac(mac) && HasOrder(c, n, G)
  {
    var k := BigEndian(x.privateKey);
    var I := Output(mac, x.chainCode, head, i, t);
    && PrivateHead(c, n, G, x, i, head) && PrivateRound(mac, n, k, x.chainCode, head, i, t)
    && |y.privateKey| == 32 && BigEndian(y.privateKey) == (Left(I) + k) % n && y.chainCode == Right(I)
    && y.depth == (x.depth + 1) % W32 && y.childNum == i && y.publicKey == seq(33, _ => 0)
  }

  // y is the private child i of x.
  ghost predicate PrivateChild(mac: Mac, c: Curve, n: int, G: Point, x: Node, i: uint32, y: Node)
    requires IsMac(mac) && HasOrder(c, n, G)
  {
    exists head, t :: PrivateChildAt(mac, c, n, G, x, i, y, head, t)
  }

  ghost predicate PublicChildAt(mac: Mac, c: Curve, n: int, G: Point, x: Node, i: uint32, y: Node, Q: Point, t: nat)
    requires IsMac(mac) && HasOrder(c, n, G)
  {
    && |x.publicKey| == 33 && OnCurve(c, Q) && Compressed(Q, x.publicKey)
    && PublicRound(mac, c, n, G, Q, x.chainCode, x.publicKey, i, t)
    && var I := Output(mac, x.chainCode, x.publicKey, i, t);
       && Compressed(Plus(c, Q, Mult(c, Left(I), G)), y.publicKey) && y.chainCode == Right(I)
       && y.depth == (x.depth + 1) % W32 && y.childNum == i && y.privateKey == seq(32, _ => 0)
  }

  // y is the public child i of x.
  ghost predicate PublicChild(mac: Mac, c: Curve, n: int, G: Point, x: Node, i: uint32, y: Node)
    requires IsMac(mac) && HasOrder(c, n, G)
  {
    exists Q, t :: PublicChildAt(mac, c, n, G, x, i, y, Q, t)
  }

  // y is x with its private key wiped and its public key filled in.
  ghost predicate Neutered(c: Curve, n: int, G: Point, x: Node, y: Node)
    requires HasOrder(c, n, G)
  {
    && Compressed(Mult(c, BigEndian(x.privateKey), G), y.publicKey) && y.privateKey == seq(32, _ => 0)
    && y.depth == x.depth && y.childNum == x.childNum && y.chainCode == x.chainCode
  }

  // Deriving a private child stays within usable private nodes.
  lemma PrivateChildUsable(mac: Mac, c: Curve, n: int, G: Point, x: Node, i: uint32, y: Node)
    requires IsMac(mac) && HasOrder(c, n, G) && PrivateNode(c, n, G, x) && PrivateChild(mac, c, n, G, x, i, y)
    ensures PrivateNode(c, n, G, y)
  {
    var head, t :| PrivateChildAt(mac, c, n, G, x, i, y, head, t);
    hide HasOrder, Compressed, BigEndian, Output, Mult;
    Residue(Left(Output(mac, x.chainCode, head, i, t)) + BigEndian(x.privateKey), n);
  }

  // A private child is determined by its parent and its index.
  lemma PrivateChildUnique(mac: Mac, c: Curve, n: int, G: Point, x: Node, i: uint32, y: Node, z: Node)
    requires IsMac(mac) && HasOrder(c, n, G) && PrivateChild(mac, c, n, G, x, i, y) && PrivateChild(mac, c, n, G, x, i, z)
    ensures y == z
  {
    var head, t :| PrivateChildAt(mac, c, n, G, x, i, y, head, t);
    var head', t' :| PrivateChildAt(mac, c, n, G, x, i, z, head', t');
    if i < HARDENED {
      CompressedUnique(Mult(c, BigEndian(x.privateKey), G), head, head');
    }
    hide HasOrder, Compressed, BigEndian, Output, Mult, PrivateRound;
    FirstRound(mac, n, BigEndian(x.privateKey), x.chainCode, head, i, t, t');
    BigEndianInjective(y.privateKey, z.privateKey);
  }

  lemma Residue(a: int, n: int)
    requires n > 0
    ensures 0 <= a % n < n
  {
  }

  // The square: wiping the child of a private node gives the public child of the wiped node.
  lemma Square(mac: Mac, c: Curve, n: int, G: Point, x: Node, i: uint32, y: Node, x': Node, y': Node)
    requires IsMac(mac) && HasOrder(c, n, G) && PrivateNode(c, n, G, x) && i < HARDENED
    requires PrivateChild(mac, c, n, G, x, i, y) && Neutered(c, n, G, x, x')
    ensures PublicChild(mac, c, n, G, x', i, y') <==> Neutered(c, n, G, y, y')
  {
    var head, t :| PrivateChildAt(mac, c, n, G, x, i, y, head, t);
    var k := BigEndian(x.privateKey);
    var Q := Mult(c, k, G);
    hide HasOrder, Compressed, BigEndian, Output, Mult, PublicRound, PrivateRound, Plus, OnCurve;
    SquareHead(c, n, G, x, i, x', head);
    SameRounds(mac, c, n, G, k, x.chainCode, head, i, t);
    var I := Output(mac, x.chainCode, head, i, t);
    SameRound(c, n, G, k, I);
    if Neutered(c, n, G, y, y') {
      assert PublicChildAt(mac, c, n, G, x', i, y', Q, t);
    }
    if PublicChild(mac, c, n, G, x', i, y') {
      var Q', t' :| PublicChildAt(mac, c, n, G, x', i, y', Q', t');
      SquareBack(mac, c, n, G, x, i, x', head, t, Q', t');
    }
  }

  lemma SquareHead(c: Curve, n: int, G: Point, x: Node, i: uint32, x': Node, head: seq<uint8>)
    requires HasOrder(c, n, G) && i < HARDENED && PrivateHead(c, n, G, x, i, head) && Neutered(c, n, G, x, x')
    ensures head == x'.publicKey && |head| == 33
  {
    CompressedUnique(Mult(c, BigEndian(x.privateKey), G), head, x'.publicKey);
    hide HasOrder, Mult;
  }

  // The point behind the wiped node's public key, and the accepted round, are the private node's.
  lemma SquareBack(mac: Mac, c: Curve, n: int, G: Point, x: Node, i: uint32, x': Node, head: seq<uint8>, t: nat,
                   Q: Point, t': nat)
    requires IsMac(mac) && HasOrder(c, n, G) && head == x'.publicKey && x'.chainCode == x.chainCode && OnCurve(c, Q)
    requires Compressed(Mult(c, BigEndian(x.privateKey), G), head) && Compressed(Q, head)
    requires PrivateRound(mac, n, BigEndian(x.privateKey), x.chainCode, head, i, t)
    requires PublicRound(mac, c, n, G, Q, x.chainCode, head, i, t')
    ensures Q == Mult(c, BigEndian(x.privateKey), G) && t' == t
  {
    var k := BigEndian(x.privateKey);
    SamePoint(c, Q, Mult(c, k, G), head);
    SameRounds(mac, c, n, G, k, x.chainCode, head, i, t');
    hide HasOrder, Compressed, BigEndian, Output, Mult, PublicRound, PrivateRound, OnCurve;
    FirstRound(mac, n, k, x.chainCode, head, i, t, t');
  }

  // A compressed key has one point of the curve.
  lemma SamePoint(c: Curve, q: Point, r: Point, bytes: seq<uint8>)
    requires ValidCurve(c) && OnCurve(c, q) && OnCurve(c, r) && Compressed(q, bytes) && Compressed(r, bytes)
    ensures q == r
  {
    var p := c.p;
    var s := q.x * q.x * q.x + c.a * q.x + c.b;
    CongSym(r.y * r.y, s, p);
    CongTrans(q.y * q.y, s, r.y * r.y, p);
    if q.y != r.y {
      OddPrime(p);
      SquareRoots(q.y, r.y, p);
    }
  }

  lemma OddPrime(p: int)
    requires IsPrime(p) && p > 3
    ensures p % 2 == 1
  {
    assert p % 2 != 0;
  }

  // Two roots of one square are opposite, so in an odd field they differ in parity.
  lemma SquareRoots(y: int, z: int, p: int)
    requires IsPrime(p) && p % 2 == 1 && 0 <= y < p && 0 <= z < p && Cong(y * y, z * z, p) && y != z
    ensures y % 2 != z % 2
  {
    hide Cong, IsPrime;
    OppositeRoots(y, z, p);
    if z == 0 {
      SmallMod(0, p);
    } else {
      DivModUnique(-z, p, -1, p - z);
    }
  }
}
