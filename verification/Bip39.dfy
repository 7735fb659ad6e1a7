// bip39.c: mnemonics as a bijection between entropy and text.

module Bip39 {
  import opened Words
  import opened Bits

  type Hash = seq<bv8> -> seq<bv8>

  // Any hash of 32 bytes.
  ghost predicate IsHash(H: Hash) {
    forall s :: |H(s)| == 32
  }

  // All that matters of the word list: 2048 distinct words of one to eight letters, no spaces.
  ghost predicate IsList(W: seq<string>) {
    && |W| == 2048
    && (forall k :: 0 <= k < 2048 ==> 1 <= |W[k]| <= 8 && NoSpace(W[k]))
    && forall k, l :: 0 <= k < 2048 && 0 <= l < 2048 && W[k] == W[l] ==> k == l
  }

  // A C string has no NUL; a word has no space either.
  predicate NoSpace(s: string) {
    forall k :: 0 <= k < |s| ==> s[k] != ' ' && s[k] != '\0'
  }

  // ---------------------------------------------------------------- entropy to indexes

  // The entropy with its checksum byte.
  function Extended(H: Hash, data: seq<bv8>): (s: seq<bv8>)
    requires IsHash(H)
    ensures |s| == |data| + 1
  {
    data + [H(data)[0]]
  }

  function Group(s: seq<bv8>, i: nat): (b: seq<bool>)
    requires 11 * i + 11 <= 8 * |s|
    ensures |b| == 11
  {
    seq(11, j requires 0 <= j < 11 => Bit(s, 11 * i + j))
  }

  function WordCount(len: nat): nat {
    len * 3 / 4
  }

  lemma Lengths(len: nat)
    requires len % 4 == 0
    ensures 4 * WordCount(len) == 3 * len && 11 * WordCount(len) == 8 * len + len / 4
    ensures len <= 32 ==> 11 * WordCount(len) <= 8 * (len + 1)
  {
    var q := len / 4;
    DivModUnique(len, 4, q, 0);
    DivModUnique(len * 3, 4, 3 * q, 0);
  }

  // Word i of the mnemonic for some entropy, as an index.
  function EntropyIndex(H: Hash, data: seq<bv8>, i: nat): (k: nat)
    requires IsHash(H) && |data| % 4 == 0 && |data| <= 32 && i < WordCount(|data|)
    ensures k < 2048
  {
    Lengths(|data|);
    IndexBound(Group(Extended(H, data), i));
    Pow2Values();
    Index(Group(Extended(H, data), i))
  }

  function Indexes(H: Hash, data: seq<bv8>): (ks: seq<nat>)
    requires IsHash(H) && |data| % 4 == 0 && |data| <= 32
    ensures |ks| == WordCount(|data|) && forall i :: 0 <= i < |ks| ==> ks[i] < 2048
  {
    seq(WordCount(|data|), i requires 0 <= i < WordCount(|data|) => EntropyIndex(H, data, i))
  }

  // ---------------------------------------------------------------- words and spaces

  function Join(ws: seq<string>): string {
    if |ws| == 0 then "" else if |ws| == 1 then ws[0] else ws[0] + " " + Join(ws[1..])
  }

  // The words of a text, between single spaces.
  function Split(s: string): (ws: seq<string>)
    ensures |ws| >= 1
    decreases |s|
  {
    var p := Stop(s, 0);
    if p == |s| then [s] else [s[..p]] + Split(s[p + 1..])
  }

  // The position of the next space, or the end.
  function Stop(s: string, i: nat): (p: nat)
    requires i <= |s|
    ensures i <= p <= |s| && (p < |s| ==> s[p] == ' ') && forall k :: i <= k < p ==> s[k] != ' '
    decreases |s| - i
  {
    if i == |s| || s[i] == ' ' then i else Stop(s, i + 1)
  }

  lemma StopIs(s: string, i: nat, p: nat)
    requires i <= p <= |s| && (p < |s| ==> s[p] == ' ') && forall k :: i <= k < p ==> s[k] != ' '
    ensures Stop(s, i) == p
  {
  }

  ghost predicate Spaceless(ws: seq<string>) {
    forall i :: 0 <= i < |ws| ==> forall k :: 0 <= k < |ws[i]| ==> ws[i][k] != ' '
  }

  lemma {:induction false} SplitJoin(ws: seq<string>)
    requires |ws| >= 1 && Spaceless(ws)
    ensures Split(Join(ws)) == ws
  {
    var s := Join(ws);
    if |ws| == 1 {
      StopIs(s, 0, |s|);
    } else {
      SplitJoin(ws[1..]);
      StopIs(s, 0, |ws[0]|);
      assert s[|ws[0]| + 1..] == Join(ws[1..]) && s[..|ws[0]|] == ws[0];
      assert ws == [ws[0]] + ws[1..];
    }
  }

  // Texts grow by a space and a word.
  lemma {:induction false} JoinLast(ws: seq<string>, w: string)
    ensures Join(ws + [w]) == if ws == [] then w else Join(ws) + " " + w
  {
    if ws == [] {
      assert ws + [w] == [w];
    } else {
      JoinLast(ws[1..], w);
      assert (ws + [w])[1..] == ws[1..] + [w] && (ws + [w])[0] == ws[0];
      if |ws| == 1 {
        assert ws[1..] == [];
      }
    }
  }

  lemma {:induction false} JoinSplit(s: string)
    ensures Join(Split(s)) == s && Spaceless(Split(s))
    decreases |s|
  {
    var p := Stop(s, 0);
    if p < |s| {
      JoinSplit(s[p + 1..]);
      var rest := Split(s[p + 1..]);
      assert Split(s)[1..] == rest;
      assert s == s[..p] + " " + s[p + 1..];
    }
  }

  // ---------------------------------------------------------------- texts

  function Spell(W: seq<string>, ks: seq<nat>): (ws: seq<string>)
    requires |W| == 2048 && forall i :: 0 <= i < |ks| ==> ks[i] < 2048
    ensures |ws| == |ks| && forall i :: 0 <= i < |ks| ==> ws[i] == W[ks[i]]
  {
    seq(|ks|, i requires 0 <= i < |ks| => W[ks[i]])
  }

  // The mnemonic of some entropy.
  function Text(W: seq<string>, H: Hash, data: seq<bv8>): string
    requires |W| == 2048 && IsHash(H) && |data| % 4 == 0 && |data| <= 32
  {
    Join(Spell(W, Indexes(H, data)))
  }

  // ---------------------------------------------------------------- indexes back to entropy

  // The first 11 |ks| bits of s are the bits of the indexes, and the rest are clear.
  ghost predicate Packed(s: seq<bv8>, ks: seq<nat>, m: nat) {
    && 11 * |ks| <= m <= 8 * |s|
    && (forall i, j :: 0 <= i < |ks| && 0 <= j < 11 ==> PackedAt(s, ks, i, j))
    && forall k :: m <= k < 8 * |s| ==> !Bit(s, k)
  }

  ghost predicate PackedAt(s: seq<bv8>, ks: seq<nat>, i: nat, j: nat)
    requires i < |ks| && j < 11 && 11 * |ks| <= 8 * |s|
  {
    Bit(s, 11 * i + j) == NumberBit(ks[i], 10 - j)
  }

  // The indexes of entropy, packed again, give the entropy and its checksum bits.
  lemma PackedIndexes(H: Hash, data: seq<bv8>, s: seq<bv8>, ks: seq<nat>)
    requires IsHash(H) && |data| % 4 == 0 && |data| <= 32 && |ks| == WordCount(|data|) && |s| > |data|
    requires Packed(s, ks, 11 * |ks|) && forall i :: 0 <= i < |ks| ==> ks[i] < 2048
    ensures ks == Indexes(H, data)
       <==> s[..|data|] == data && forall r :: 0 <= r < |data| / 4 ==> Set(s[|data|], r) == Set(H(data)[0], r)
  {
    Lengths(|data|);
    var e := Extended(H, data);
    hide Bit, Set, NumberBit, Indexes, Group, WordCount;
    if ks == Indexes(H, data) {
      forall k | 0 <= k < 11 * |ks|
        ensures Bit(s, k) == Bit(e, k)
      {
        IndexedBit(H, data, s, ks, k);
      }
      EntropyFromBits(H, data, s);
    }
    if s[..|data|] == data && forall r :: 0 <= r < |data| / 4 ==> Set(s[|data|], r) == Set(H(data)[0], r) {
      forall k | 0 <= k < 11 * |ks|
        ensures Bit(s, k) == Bit(e, k)
      {
        BitFromEntropy(H, data, s, k);
      }
      forall i | 0 <= i < |ks|
        ensures ks[i] == Indexes(H, data)[i]
      {
        IndexFromBits(H, data, s, ks, i);
      }
    }
  }

  lemma IndexedBit(H: Hash, data: seq<bv8>, s: seq<bv8>, ks: seq<nat>, k: nat)
    requires IsHash(H) && |data| % 4 == 0 && |data| <= 32 && ks == Indexes(H, data) && Packed(s, ks, 11 * |ks|) && k < 11 * |ks|
    ensures k < 8 * (|data| + 1) && Bit(s, k) == Bit(Extended(H, data), k)
  {
    Lengths(|data|);
    var i, j := k / 11, k % 11;
    assert k == 11 * i + j;
    assert PackedAt(s, ks, i, j);
    var g := Group(Extended(H, data), i);
    IndexBits(g, j);
    hide Bit, NumberBit, Index;
  }

  lemma IndexFromBits(H: Hash, data: seq<bv8>, s: seq<bv8>, ks: seq<nat>, i: nat)
    requires IsHash(H) && |data| % 4 == 0 && |data| <= 32 && |ks| == WordCount(|data|) && i < |ks|
    requires Packed(s, ks, 11 * |ks|) && ks[i] < 2048 && 11 * |ks| <= 8 * (|data| + 1)
    requires forall k :: 0 <= k < 11 * |ks| ==> Bit(s, k) == Bit(Extended(H, data), k)
    ensures ks[i] == Indexes(H, data)[i]
  {
    var g := Group(Extended(H, data), i);
    forall j | 0 <= j < 11
      ensures NumberBit(ks[i], |g| - 1 - j) == g[j]
    {
      assert PackedAt(s, ks, i, j);
    }
    Pow2Values();
    hide Bit, NumberBit, Index;
    IndexOf(ks[i], g);
  }

  lemma EntropyFromBits(H: Hash, data: seq<bv8>, s: seq<bv8>)
    requires IsHash(H) && |data| % 4 == 0 && |data| <= 32 && |s| > |data|
    requires forall k :: 0 <= k < 8 * |data| + |data| / 4 ==> Bit(s, k) == Bit(Extended(H, data), k)
    ensures s[..|data|] == data && forall r :: 0 <= r < |data| / 4 ==> Set(s[|data|], r) == Set(H(data)[0], r)
  {
    var e := Extended(H, data);
    hide Bit, Set;
    SameBits(s, e, |data|);
    assert e[..|data|] == data;
    forall r | 0 <= r < |data| / 4
      ensures Set(s[|data|], r) == Set(H(data)[0], r)
    {
      BitAt(s, |data|, r);
      BitAt(e, |data|, r);
    }
  }

  lemma BitFromEntropy(H: Hash, data: seq<bv8>, s: seq<bv8>, k: nat)
    requires IsHash(H) && |data| % 4 == 0 && |data| <= 32 && |s| > |data| && k < 8 * |data| + |data| / 4
    requires s[..|data|] == data && forall r :: 0 <= r < |data| / 4 ==> Set(s[|data|], r) == Set(H(data)[0], r)
    ensures Bit(s, k) == Bit(Extended(H, data), k)
  {
    var e := Extended(H, data);
    Bits.Within(k, |data| + 1);
    var q, r := Row(k), Col(k);
    hide Bit, Set, Row, Col;
    BitAt(s, q, r);
    BitAt(e, q, r);
    if q < |data| {
      assert s[q] == s[..|data|][q] == data[q] == e[q];
    } else {
      assert q == |data| && r < |data| / 4;
    }
  }
}
