// bip32.c in bytes: which messages the MAC is fed, round by round, and which bytes of its outputs
// make the child.

module Bip32Bytes {
  import opened Words
  import opened Field
  import opened Curves
  import opened Multiples
  import opened Bytes
  import opened Bip32Spec
  import opened Bip32

  // ---------------------------------------------------------------- messages

  // The index comes last, in four bytes, most significant first.
  lemma MessageBytes(head: seq<uint8>, i: uint32)
    ensures |Message(head, i)| == |head| + 4 && Message(head, i)[..|head|] == head
    ensures BigEndian(Message(head, i)[|head|..]) == i
  {
    WordValue(WriteWord(i));
    assert Message(head, i)[|head|..] == WriteWord(i);
    hide BigEndian, ReadWord, WriteWord;
  }

  lemma MessageIs(head: seq<uint8>, i: uint32, m: seq<uint8>)
    requires |m| == |head| + 4 && m[..|head|] == head && BigEndian(m[|head|..]) == i
    ensures m == Message(head, i)
  {
    MessageBytes(head, i);
    hide BigEndian, Message;
    BigEndianInjective(m[|head|..], Message(head, i)[|head|..]);
    assert m == m[..|head|] + m[|head|..];
    assert Message(head, i) == Message(head, i)[..|head|] + Message(head, i)[|head|..];
  }

  // Round t hashes ms[t] under the chain code into os[t]: 33 bytes and the index, after the first
  // round 01 and the right half of the output before.
  ghost predicate Rounds(mac: Mac, chain: seq<uint8>, i: uint32, ms: seq<seq<uint8>>, os: seq<seq<uint8>>) {
    && |ms| == |os| >= 1
    && (forall t :: 0 <= t < |ms| ==>
          |ms[t]| == 37 && BigEndian(ms[t][33..]) == i && os[t] == mac(chain, ms[t]) && |os[t]| == 64)
    && (forall t :: 1 <= t < |ms| ==> ms[t][0] == 1 && ms[t][1..33] == os[t - 1][32..])
  }

  lemma {:induction false} RoundsAreOutputs(mac: Mac, chain: seq<uint8>, head: seq<uint8>, i: uint32,
                                            ms: seq<seq<uint8>>, os: seq<seq<uint8>>, t: nat)
    requires IsMac(mac) && Rounds(mac, chain, i, ms, os) && |head| == 33 && ms[0][..33] == head && t < |os|
    ensures os[t] == Output(mac, chain, head, i, t)
  {
    hide Message, BigEndian;
    if t == 0 {
      MessageIs(head, i, ms[0]);
    } else {
      RoundsAreOutputs(mac, chain, head, i, ms, os, t - 1);
      var next := [1] + os[t - 1][32..];
      assert ms[t][..33] == [ms[t][0]] + ms[t][1..33];
      MessageIs(next, i, ms[t]);
    }
  }

  lemma {:induction false} OutputsAreRounds(mac: Mac, chain: seq<uint8>, head: seq<uint8>, i: uint32, t: nat)
    returns (ms: seq<seq<uint8>>, os: seq<seq<uint8>>)
    requires IsMac(mac) && |head| == 33
    ensures |ms| == |os| == t + 1 && |ms[0]| == 37 && ms[0][..33] == head
    ensures Rounds(mac, chain, i, ms, os)
    ensures forall s :: 0 <= s <= t ==> os[s] == Output(mac, chain, head, i, s)
  {
    if t == 0 {
      MessageBytes(head, i);
      hide Message, BigEndian;
      ms, os := [Message(head, i)], [mac(chain, Message(head, i))];
    } else {
      hide Message, BigEndian, Rounds;
      var ms0, os0 := OutputsAreRounds(mac, chain, head, i, t - 1);
      var I := os0[t - 1];
      assert I == Output(mac, chain, head, i, t - 1);
      var m := Message([1] + I[32..], i);
      MessageBytes([1] + I[32..], i);
      MoreRounds(mac, chain, i, ms0, os0, m);
      assert mac(chain, m) == Output(mac, chain, head, i, t);
      ms, os := ms0 + [m], os0 + [mac(chain, m)];
    }
  }

  lemma MoreRounds(mac: Mac, chain: seq<uint8>, i: uint32, ms: seq<seq<uint8>>, os: seq<seq<uint8>>, m: seq<uint8>)
    requires IsMac(mac) && Rounds(mac, chain, i, ms, os)
    requires |m| == 37 && |os[|os| - 1]| == 64 && m[..33] == [1] + os[|os| - 1][32..] && BigEndian(m[33..]) == i
    ensures Rounds(mac, chain, i, ms + [m], os + [mac(chain, m)])
  {
    hide BigEndian;
    FedBack(os[|os| - 1], m);
  }

  lemma FedBack(I: seq<uint8>, m: seq<uint8>)
    requires |I| == 64 && |m| == 37 && m[..33] == [1] + I[32..]
    ensures m[0] == 1 && m[1..33] == I[32..]
  {
    assert m[1..33] == m[..33][1..] && m[0] == m[..33][0];
  }

  // ---------------------------------------------------------------- private children

  // The first message: 00 and the private key, or the compressed public key.
  ghost predicate FirstMessage(c: Curve, n: int, G: Point, x: Node, i: uint32, m: seq<uint8>)
    requires HasOrder(c, n, G)
  {
    && |m| == 37
    && if i >= 0x8000_0000 then m[0] == 0 && m[1..33] == x.privateKey
       else
         var Q := Mult(c, BigEndian(x.privateKey), G);
         Q.Affine? && m[0] == 2 + Q.y % 2 && BigEndian(m[1..33]) == Q.x
  }

  // A whole derivation: the last output is the first whose left half is below n and does not cancel
  // the key; the child key is their sum, its chain code the right half.
  ghost predicate PrivateRun(mac: Mac, c: Curve, n: int, G: Point, x: Node, i: uint32, y: Node,
                             ms: seq<seq<uint8>>, os: seq<seq<uint8>>)
    requires HasOrder(c, n, G)
  {
    && Rounds(mac, x.chainCode, i, ms, os) && FirstMessage(c, n, G, x, i, ms[0])
    && var (k, last) := (BigEndian(x.privateKey), os[|os| - 1]);
       && (forall t :: 0 <= t < |os| - 1 ==> BigEndian(os[t][..32]) >= n || (BigEndian(os[t][..32]) + k) % n == 0)
       && BigEndian(last[..32]) < n && (BigEndian(last[..32]) + k) % n != 0
       && |y.privateKey| == 32 && BigEndian(y.privateKey) == (BigEndian(last[..32]) + k) % n && y.chainCode == last[32..]
       && y.depth == (x.depth + 1) % W32 && y.childNum == i && y.publicKey == seq(33, _ => 0)
  }

  lemma FirstHead(c: Curve, n: int, G: Point, x: Node, i: uint32, m: seq<uint8>)
    requires HasOrder(c, n, G) && |x.privateKey| == 32 && |m| == 37
    ensures FirstMessage(c, n, G, x, i, m) <==> PrivateHead(c, n, G, x, i, m[..33])
  {
    assert m[..33][1..] == m[1..33] && m[..33][0] == m[0];
    assert m[..33] == [m[0]] + m[1..33];
    hide HasOrder, Mult, BigEndian;
  }

  lemma PrivateChildBytes(mac: Mac, c: Curve, n: int, G: Point, x: Node, i: uint32, y: Node)
    requires IsMac(mac) && HasOrder(c, n, G) && |x.privateKey| == 32
    ensures PrivateChild(mac, c, n, G, x, i, y) <==> exists ms, os :: PrivateRun(mac, c, n, G, x, i, y, ms, os)
  {
    if PrivateChild(mac, c, n, G, x, i, y) {
      var head, t :| PrivateChildAt(mac, c, n, G, x, i, y, head, t);
      HeadSize(c, n, G, x, i, head);
      var ms, os := OutputsAreRounds(mac, x.chainCode, head, i, t);
      FirstHead(c, n, G, x, i, ms[0]);
      RunOf(mac, c, n, G, x, i, y, head, t, ms, os);
    }
    if ms, os :| PrivateRun(mac, c, n, G, x, i, y, ms, os) {
      ChildOf(mac, c, n, G, x, i, y, ms, os);
    }
  }

  lemma HeadSize(c: Curve, n: int, G: Point, x: Node, i: uint32, head: seq<uint8>)
    requires HasOrder(c, n, G) && |x.privateKey| == 32 && PrivateHead(c, n, G, x, i, head)
    ensures |head| == 33
  {
    hide HasOrder, Mult, BigEndian;
  }

  // The acceptance test of a round, in bytes.
  lemma Accepting(mac: Mac, n: int, k: int, chain: seq<uint8>, head: seq<uint8>, i: uint32, os: seq<seq<uint8>>, t: nat)
    requires IsMac(mac) && n > 0 && t < |os|
    requires forall s :: 0 <= s <= t ==> |os[s]| == 64 && os[s] == Output(mac, chain, head, i, s)
    ensures PrivateRound(mac, n, k, chain, head, i, t) <==>
      && (forall s :: 0 <= s < t ==> BigEndian(os[s][..32]) >= n || (BigEndian(os[s][..32]) + k) % n == 0)
      && BigEndian(os[t][..32]) < n && (BigEndian(os[t][..32]) + k) % n != 0
  {
    hide BigEndian, Output;
    forall s | 0 <= s <= t
      ensures PrivateAccepts(n, k, Output(mac, chain, head, i, s)) <==>
              BigEndian(os[s][..32]) < n && (BigEndian(os[s][..32]) + k) % n != 0
    {
      assert os[s] == Output(mac, chain, head, i, s);
    }
    hide PrivateAccepts;
    if PrivateRound(mac, n, k, chain, head, i, t) {
      forall s | 0 <= s < t
        ensures BigEndian(os[s][..32]) >= n || (BigEndian(os[s][..32]) + k) % n == 0
      {
        assert !PrivateAccepts(n, k, Output(mac, chain, head, i, s));
      }
    }
  }

  lemma ChildFields(mac: Mac, c: Curve, n: int, G: Point, x: Node, i: uint32, y: Node, head: seq<uint8>, t: nat, last: seq<uint8>)
    requires IsMac(mac) && HasOrder(c, n, G) && last == Output(mac, x.chainCode, head, i, t) && |last| == 64
    ensures n > 0
    ensures PrivateChildAt(mac, c, n, G, x, i, y, head, t) <==>
      && PrivateHead(c, n, G, x, i, head) && PrivateRound(mac, n, BigEndian(x.privateKey), x.chainCode, head, i, t)
      && |y.privateKey| == 32 && BigEndian(y.privateKey) == (BigEndian(last[..32]) + BigEndian(x.privateKey)) % n
      && y.chainCode == last[32..]
      && y.depth == (x.depth + 1) % W32 && y.childNum == i && y.publicKey == seq(33, _ => 0)
  {
    assert n > 0;
    hide HasOrder, BigEndian, Output, PrivateHead, PrivateRound;
  }

  lemma RunOf(mac: Mac, c: Curve, n: int, G: Point, x: Node, i: uint32, y: Node, head: seq<uint8>, t: nat,
              ms: seq<seq<uint8>>, os: seq<seq<uint8>>)
    requires IsMac(mac) && HasOrder(c, n, G) && PrivateChildAt(mac, c, n, G, x, i, y, head, t)
    requires Rounds(mac, x.chainCode, i, ms, os) && |os| == t + 1 && FirstMessage(c, n, G, x, i, ms[0])
    requires forall s :: 0 <= s <= t ==> os[s] == Output(mac, x.chainCode, head, i, s)
    ensures PrivateRun(mac, c, n, G, x, i, y, ms, os)
  {
    hide HasOrder, BigEndian, Output, FirstMessage, PrivateHead, PrivateRound, PrivateChildAt, Rounds, Message;
    RoundSizes(mac, x.chainCode, i, ms, os);
    ChildFields(mac, c, n, G, x, i, y, head, t, os[t]);
    Accepting(mac, n, BigEndian(x.privateKey), x.chainCode, head, i, os, t);
  }

  lemma RoundSizes(mac: Mac, chain: seq<uint8>, i: uint32, ms: seq<seq<uint8>>, os: seq<seq<uint8>>)
    requires Rounds(mac, chain, i, ms, os)
    ensures |ms| == |os| >= 1 && (forall s :: 0 <= s < |os| ==> |os[s]| == 64) && |ms[0]| == 37
  {
    hide BigEndian;
  }

  lemma ChildOf(mac: Mac, c: Curve, n: int, G: Point, x: Node, i: uint32, y: Node, ms: seq<seq<uint8>>, os: seq<seq<uint8>>)
    requires IsMac(mac) && HasOrder(c, n, G) && |x.privateKey| == 32 && PrivateRun(mac, c, n, G, x, i, y, ms, os)
    ensures PrivateChild(mac, c, n, G, x, i, y)
  {
    hide HasOrder, BigEndian, Output, FirstMessage, PrivateHead, PrivateRound, PrivateChildAt, Rounds, Message;
    RoundSizes(mac, x.chainCode, i, ms, os);
    var head, t := ms[0][..33], |os| - 1;
    FirstHead(c, n, G, x, i, ms[0]);
    forall s | 0 <= s <= t
      ensures os[s] == Output(mac, x.chainCode, head, i, s)
    {
      RoundsAreOutputs(mac, x.chainCode, head, i, ms, os, s);
    }
    ChildFields(mac, c, n, G, x, i, y, head, t, os[t]);
    Accepting(mac, n, BigEndian(x.privateKey), x.chainCode, head, i, os, t);
    assert PrivateChildAt(mac, c, n, G, x, i, y, head, t);
  }

  // Without curve parameters: one output, its left half the key as it is.
  lemma PlainChildBytes(mac: Mac, x: Node, i: uint32, y: Node, m: seq<uint8>)
    requires IsMac(mac) && |x.privateKey| == 32
    requires |m| == 37 && m[0] == 0 && m[1..33] == x.privateKey && BigEndian(m[33..]) == i
    ensures PlainChild(mac, x, i, y) <==>
      y == Node((x.depth + 1) % W32, i, mac(x.chainCode, m)[32..], mac(x.chainCode, m)[..32], seq(33, _ => 0))
  {
    assert m[..33] == [m[0]] + m[1..33];
    MessageIs([0] + x.privateKey, i, m);
    hide Message, BigEndian;
  }

  // ---------------------------------------------------------------- public children

  ghost predicate PublicRun(mac: Mac, c: Curve, n: int, G: Point, x: Node, i: uint32, y: Node, Q: Point,
                            ms: seq<seq<uint8>>, os: seq<seq<uint8>>)
    requires HasOrder(c, n, G) && OnCurve(c, Q)
  {
    && Rounds(mac, x.chainCode, i, ms, os) && ms[0][..33] == x.publicKey
    && Q.Affine? && ms[0][0] == 2 + Q.y % 2 && BigEndian(ms[0][1..33]) == Q.x
    && var last := os[|os| - 1];
       && (forall t :: 0 <= t < |os| - 1 ==>
             BigEndian(os[t][..32]) >= n || Plus(c, Q, Mult(c, BigEndian(os[t][..32]), G)) == Infinity)
       && BigEndian(last[..32]) < n
       && var R := Plus(c, Q, Mult(c, BigEndian(last[..32]), G));
          && R.Affine? && |y.publicKey| == 33 && y.publicKey[0] == 2 + R.y % 2 && BigEndian(y.publicKey[1..]) == R.x
          && y.chainCode == last[32..] && y.depth == (x.depth + 1) % W32 && y.childNum == i
          && y.privateKey == seq(32, _ => 0)
  }

  lemma PublicChildBytes(mac: Mac, c: Curve, n: int, G: Point, x: Node, i: uint32, y: Node)
    requires IsMac(mac) && HasOrder(c, n, G)
    ensures PublicChild(mac, c, n, G, x, i, y) <==>
      exists Q, ms, os :: OnCurve(c, Q) && PublicRun(mac, c, n, G, x, i, y, Q, ms, os)
  {
    if PublicChild(mac, c, n, G, x, i, y) {
      var Q, t :| PublicChildAt(mac, c, n, G, x, i, y, Q, t);
      var ms, os := OutputsAreRounds(mac, x.chainCode, x.publicKey, i, t);
      RoundSizes(mac, x.chainCode, i, ms, os);
      PublicRunOf(mac, c, n, G, x, i, y, Q, t, ms, os);
    }
    if Q, ms, os :| OnCurve(c, Q) && PublicRun(mac, c, n, G, x, i, y, Q, ms, os) {
      PublicChildOf(mac, c, n, G, x, i, y, Q, ms, os);
    }
  }

  lemma PublicAccepting(mac: Mac, c: Curve, n: int, G: Point, Q: Point, chain: seq<uint8>, head: seq<uint8>, i: uint32,
                        os: seq<seq<uint8>>, t: nat)
    requires IsMac(mac) && ValidCurve(c) && OnCurve(c, G) && OnCurve(c, Q) && t < |os|
    requires forall s :: 0 <= s <= t ==> |os[s]| == 64 && os[s] == Output(mac, chain, head, i, s)
    ensures PublicRound(mac, c, n, G, Q, chain, head, i, t) <==>
      && (forall s :: 0 <= s < t ==>
            BigEndian(os[s][..32]) >= n || Plus(c, Q, Mult(c, BigEndian(os[s][..32]), G)) == Infinity)
      && BigEndian(os[t][..32]) < n && Plus(c, Q, Mult(c, BigEndian(os[t][..32]), G)) != Infinity
  {
    hide BigEndian, Output, Plus, Mult, OnCurve;
    forall s | 0 <= s <= t
      ensures PublicAccepts(c, n, G, Q, Output(mac, chain, head, i, s)) <==>
              BigEndian(os[s][..32]) < n && Plus(c, Q, Mult(c, BigEndian(os[s][..32]), G)) != Infinity
    {
      assert os[s] == Output(mac, chain, head, i, s);
    }
    hide PublicAccepts;
    if PublicRound(mac, c, n, G, Q, chain, head, i, t) {
      forall s | 0 <= s < t
        ensures BigEndian(os[s][..32]) >= n || Plus(c, Q, Mult(c, BigEndian(os[s][..32]), G)) == Infinity
      {
        assert !PublicAccepts(c, n, G, Q, Output(mac, chain, head, i, s));
      }
    }
  }

  lemma PublicFields(mac: Mac, c: Curve, n: int, G: Point, x: Node, i: uint32, y: Node, Q: Point, t: nat, m: seq<uint8>,
                     last: seq<uint8>)
    requires IsMac(mac) && HasOrder(c, n, G) && OnCurve(c, Q) && |m| == 37
    requires last == Output(mac, x.chainCode, x.publicKey, i, t) && |last| == 64
    ensures PublicChildAt(mac, c, n, G, x, i, y, Q, t) && m[..33] == x.publicKey <==>
      && m[..33] == x.publicKey && Q.Affine? && m[0] == 2 + Q.y % 2 && BigEndian(m[1..33]) == Q.x
      && PublicRound(mac, c, n, G, Q, x.chainCode, x.publicKey, i, t)
      && var R := Plus(c, Q, Mult(c, BigEndian(last[..32]), G));
         && R.Affine? && |y.publicKey| == 33 && y.publicKey[0] == 2 + R.y % 2 && BigEndian(y.publicKey[1..]) == R.x
         && y.chainCode == last[32..] && y.depth == (x.depth + 1) % W32 && y.childNum == i
         && y.privateKey == seq(32, _ => 0)
  {
    assert m[1..33] == m[..33][1..] && m[0] == m[..33][0];
    hide HasOrder, BigEndian, Output, Plus, Mult, PublicRound, OnCurve;
  }

  lemma PublicRunOf(mac: Mac, c: Curve, n: int, G: Point, x: Node, i: uint32, y: Node, Q: Point, t: nat,
                    ms: seq<seq<uint8>>, os: seq<seq<uint8>>)
    requires IsMac(mac) && HasOrder(c, n, G) && OnCurve(c, Q) && PublicChildAt(mac, c, n, G, x, i, y, Q, t)
    requires Rounds(mac, x.chainCode, i, ms, os) && |os| == t + 1 && |ms[0]| == 37 && ms[0][..33] == x.publicKey
    requires forall s :: 0 <= s <= t ==> os[s] == Output(mac, x.chainCode, x.publicKey, i, s)
    ensures PublicRun(mac, c, n, G, x, i, y, Q, ms, os)
  {
    hide BigEndian, Output, Plus, Mult, PublicRound, PublicChildAt, Rounds, Message, IsPrime, Associative, OnCurve;
    RoundSizes(mac, x.chainCode, i, ms, os);
    PublicFields(mac, c, n, G, x, i, y, Q, t, ms[0], os[t]);
    PublicAccepting(mac, c, n, G, Q, x.chainCode, x.publicKey, i, os, t);
  }

  lemma PublicChildOf(mac: Mac, c: Curve, n: int, G: Point, x: Node, i: uint32, y: Node, Q: Point,
                      ms: seq<seq<uint8>>, os: seq<seq<uint8>>)
    requires IsMac(mac) && HasOrder(c, n, G) && OnCurve(c, Q) && PublicRun(mac, c, n, G, x, i, y, Q, ms, os)
    ensures PublicChild(mac, c, n, G, x, i, y)
  {
    hide BigEndian, Output, Plus, Mult, PublicRound, PublicChildAt, Rounds, Message, IsPrime, Associative, OnCurve;
    RoundSizes(mac, x.chainCode, i, ms, os);
    var t := |os| - 1;
    forall s | 0 <= s <= t
      ensures os[s] == Output(mac, x.chainCode, x.publicKey, i, s)
    {
      RoundsAreOutputs(mac, x.chainCode, x.publicKey, i, ms, os, s);
    }
    PublicFields(mac, c, n, G, x, i, y, Q, t, ms[0], os[t]);
    PublicAccepting(mac, c, n, G, Q, x.chainCode, x.publicKey, i, os, t);
    assert PublicChildAt(mac, c, n, G, x, i, y, Q, t);
  }
}
