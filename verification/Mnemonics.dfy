// bip39.c: mnemonic_from_data_indexes, mnemonic_from_data and data_from_mnemonic.

module Mnemonics {
  import opened Options
  import opened Bits
  import opened Bip39

  // len % 4 || len < 16 || len > 32
  predicate GoodLength(len: nat) {
    len % 4 == 0 && 16 <= len <= 32
  }

  // ---------------------------------------------------------------- entropy to mnemonic

  // bits: the entropy followed by one checksum byte.
  method ChecksummedBits(H: Hash, data: seq<bv8>) returns (bits: array<bv8>)
    requires IsHash(H) && |data| <= 32
    ensures fresh(bits) && bits.Length == 33 && bits[..|data| + 1] == Extended(H, data)
  {
    bits := new bv8[33](_ => 0);
    var h := H(data);
    var len := |data|;
    bits[len] := h[0];
    var i := 0;
    while i < len
      invariant 0 <= i <= len && bits[len] == h[0] && forall k :: 0 <= k < i ==> bits[k] == data[k]
    {
      bits[i] := data[i];
      i := i + 1;
    }
  }

  // The inner loop: eleven bits shifted into an index.
  method ReadIndex(bits: array<bv8>, i: nat, ghost H: Hash, ghost data: seq<bv8>) returns (idx: nat)
    requires IsHash(H) && GoodLength(|data|) && i < WordCount(|data|) && bits.Length == 33
    requires bits[..|data| + 1] == Extended(H, data)
    ensures idx == EntropyIndex(H, data, i) < 2048
  {
    Lengths(|data|);
    ghost var g := Group(Extended(H, data), i);
    idx := 0;
    var j := 0;
    hide EntropyIndex, Row, Col, Set, Group, Extended;
    while j < 11
      invariant 0 <= j <= 11 && idx == Index(g[..j])
    {
      assert g[..j + 1][..j] == g[..j] && g[..j + 1][j] == g[j];
      Within(i * 11 + j, |data| + 1);
      var q, r := Row(i * 11 + j), Col(i * 11 + j);
      var on := Set(bits[q], r);
      assert bits[q] == bits[..|data| + 1][q];
      GroupBit(Extended(H, data), i, j, q, r);
      idx := 2 * idx;
      idx := idx + if on then 1 else 0;
      j := j + 1;
    }
    assert g[..11] == g;
    IndexIs(H, data, i);
  }

  lemma GroupBit(s: seq<bv8>, i: nat, j: nat, q: nat, r: nat)
    requires j < 11 && 11 * i + 11 <= 8 * |s| && q < |s| && r < 8 && 11 * i + j == 8 * q + r
    ensures Group(s, i)[j] == Set(s[q], r)
  {
    BitAt(s, q, r);
  }

  lemma IndexIs(H: Hash, data: seq<bv8>, i: nat)
    requires IsHash(H) && |data| % 4 == 0 && |data| <= 32 && i < WordCount(|data|)
    ensures 11 * i + 11 <= 8 * |Extended(H, data)| && EntropyIndex(H, data, i) == Index(Group(Extended(H, data), i))
  {
    Lengths(|data|);
    hide Index, Group;
  }

  // The source returns 0 for a bad length; None here.
  method IndexesFromData(H: Hash, data: seq<bv8>, mnemo: array<nat>) returns (r: Option<nat>)
    requires IsHash(H) && mnemo.Length == 24
    modifies mnemo
    ensures r.Some? <==> |data| % 4 == 0 && 16 <= |data| <= 32
    ensures r.Some? ==> r.value == |Indexes(H, data)| && mnemo[..r.value] == Indexes(H, data)
    ensures r.None? ==> mnemo[..] == old(mnemo[..])
  {
    if |data| % 4 != 0 || |data| < 16 || |data| > 32 {
      return None;
    }
    var bits := ChecksummedBits(H, data);
    var mlen := |data| * 3 / 4;
    hide EntropyIndex, Extended;
    var i := 0;
    while i < mlen
      invariant 0 <= i <= mlen && bits[..|data| + 1] == Extended(H, data)
      invariant forall k :: 0 <= k < i ==> mnemo[k] == EntropyIndex(H, data, k)
    {
      mnemo[i] := ReadIndex(bits, i, H, data);
      i := i + 1;
    }
    r := Some(mlen);
  }

  // The text of the first n words, as it stands in the buffer: each word but the last of all is
  // followed by a space.
  function Partial(ws: seq<string>, n: nat): string
    requires n <= |ws|
  {
    if n == 0 then "" else Partial(ws, n - 1) + ws[n - 1] + (if n < |ws| then " " else "")
  }

  lemma {:induction false} PartialJoin(ws: seq<string>, n: nat)
    requires n < |ws|
    ensures Partial(ws, n) + Join(ws[n..]) == Join(ws)
  {
    if n > 0 {
      PartialJoin(ws, n - 1);
      assert ws[n - 1..][1..] == ws[n..];
    } else {
      assert ws[0..] == ws;
    }
  }

  lemma PartialWhole(ws: seq<string>)
    requires |ws| >= 1
    ensures Partial(ws, |ws|) == Join(ws)
  {
    var n := |ws| - 1;
    PartialJoin(ws, n);
    assert ws[n..] == [ws[n]];
  }

  lemma {:induction false} PartialBound(ws: seq<string>, n: nat)
    requires n <= |ws| && forall i :: 0 <= i < |ws| ==> |ws[i]| <= 8
    ensures |Partial(ws, n)| <= 9 * n
  {
    if n > 0 {
      PartialBound(ws, n - 1);
    }
  }

  // strcpy(p, s), at an offset of a buffer
  method CopyString(mnemo: array<char>, p: nat, s: string)
    requires p + |s| < mnemo.Length
    modifies mnemo
    ensures mnemo[..p] == old(mnemo[..p]) && mnemo[p..p + |s|] == s && mnemo[p + |s|] == '\0'
  {
    var i := 0;
    while i < |s|
      invariant 0 <= i <= |s| && mnemo[..p] == old(mnemo[..p]) && forall k :: 0 <= k < i ==> mnemo[p + k] == s[k]
    {
      mnemo[p + i] := s[i];
      i := i + 1;
    }
    mnemo[p + |s|] := '\0';
  }

  // i words are in the buffer m, and p is where the next one goes.
  ghost predicate Printed(ws: seq<string>, m: seq<char>, i: nat, p: nat) {
    && 1 <= |ws| <= 24 && i <= |ws| && |m| == 240 && (forall k :: 0 <= k < |ws| ==> |ws[k]| <= 8) && p <= 9 * i + 1
    && var t := Partial(ws, i);
       && p == |t| + (if i == |ws| then 1 else 0) && |t| <= |m| && m[..|t|] == t && (i == |ws| ==> p <= |m| && m[p - 1] == '\0')
  }

  lemma PrintNext(ws: seq<string>, m: seq<char>, i: nat, p: nat, m': seq<char>)
    requires Printed(ws, m, i, p) && i < |ws| && |m'| == 240 && p + |ws[i]| < 240
    requires m'[..p] == m[..p] && m'[p..p + |ws[i]|] == ws[i] && m'[p + |ws[i]|] == if i < |ws| - 1 then ' ' else '\0'
    ensures Printed(ws, m', i + 1, p + |ws[i]| + 1)
  {
    PartialNext(ws, i);
    PartialBound(ws, i + 1);
    var e := p + |ws[i]|;
    assert m'[..e] == m'[..p] + m'[p..e];
    assert m'[..e + 1] == m'[..e] + [m'[e]];
    hide Partial;
  }

  lemma PrintRoom(ws: seq<string>, m: seq<char>, i: nat, p: nat)
    requires Printed(ws, m, i, p) && i < |ws|
    ensures p + |ws[i]| < 239
  {
    PartialBound(ws, i);
    hide Partial;
  }

  lemma PrintEnd(ws: seq<string>, m: seq<char>, p: nat)
    requires Printed(ws, m, |ws|, p)
    ensures p > 0 && p - 1 == |Join(ws)| < 240 && |m| == 240 && m[..p - 1] == Join(ws) && m[p - 1] == '\0'
  {
    PartialWhole(ws);
    hide Partial, Join;
  }

  // 240 bytes always hold the text and its NUL.
  method MnemonicFromData(W: seq<string>, H: Hash, data: seq<bv8>, mnemo: array<char>) returns (r: Option<nat>)
    requires IsList(W) && IsHash(H) && mnemo.Length == 240
    modifies mnemo
    ensures r.Some? <==> |data| % 4 == 0 && 16 <= |data| <= 32
    ensures r.Some? ==> r.value == |Text(W, H, data)| < 240
                        && mnemo[..r.value] == Text(W, H, data) && mnemo[r.value] == '\0'
    ensures r.None? ==> mnemo[..] == old(mnemo[..])
  {
    if |data| % 4 != 0 || |data| < 16 || |data| > 32 {
      return None;
    }
    var bits := ChecksummedBits(H, data);
    var mlen := |data| * 3 / 4;
    ghost var ws := Spell(W, Indexes(H, data));
    var p, i := 0, 0;
    assert Printed(ws, mnemo[..], 0, 0);
    hide EntropyIndex, Extended, Printed, Join;
    while i < mlen
      invariant 0 <= i <= mlen && p >= 0 && bits[..|data| + 1] == Extended(H, data) && Printed(ws, mnemo[..], i, p)
    {
      var idx := ReadIndex(bits, i, H, data);
      p := PrintWord(mnemo, p, W[idx], i, mlen, ws);
      i := i + 1;
    }
    PrintEnd(ws, mnemo[..], p);
    r := Some(p - 1);
  }

  method PrintWord(mnemo: array<char>, p: nat, word: string, i: nat, mlen: nat, ghost ws: seq<string>) returns (p': nat)
    requires mnemo.Length == 240 && mlen == |ws| && i < mlen && word == ws[i] && Printed(ws, mnemo[..], i, p)
    modifies mnemo
    ensures Printed(ws, mnemo[..], i + 1, p')
  {
    ghost var m := mnemo[..];
    PrintRoom(ws, m, i, p);
    hide Printed;
    CopyString(mnemo, p, word);
    p' := p + |word|;
    mnemo[p'] := if i < mlen - 1 then ' ' else '\0';
    assert mnemo[..][..p] == m[..p] && mnemo[..][p..p'] == word;
    PrintNext(ws, m, i, p, mnemo[..]);
    p' := p' + 1;
  }

  lemma PartialNext(ws: seq<string>, n: nat)
    requires n < |ws|
    ensures Partial(ws, n + 1) == Partial(ws, n) + ws[n] + (if n + 1 < |ws| then " " else "")
  {
  }
}
