// bip39.c: data_from_mnemonic accepts exactly the texts mnemonic_from_data prints for 16, 24 or 32
// bytes, and recovers those bytes.

module MnemonicDecode {
  import opened Bits
  import opened Bip39
  import opened Mnemonics

  // ---------------------------------------------------------------- counting words

  function Spaces(s: string): nat {
    if s == "" then 0 else (if s[0] == ' ' then 1 else 0) + Spaces(s[1..])
  }

  lemma {:induction false} SpacesConcat(s: string, t: string)
    ensures Spaces(s + t) == Spaces(s) + Spaces(t)
  {
    if s == "" {
      assert s + t == t;
    } else {
      SpacesConcat(s[1..], t);
      assert (s + t)[1..] == s[1..] + t;
    }
  }

  lemma {:induction false} NoSpaces(s: string)
    requires forall k :: 0 <= k < |s| ==> s[k] != ' '
    ensures Spaces(s) == 0
  {
    if s != "" {
      NoSpaces(s[1..]);
    }
  }

  lemma {:induction false} SplitCount(s: string)
    ensures |Split(s)| == Spaces(s) + 1
    decreases |s|
  {
    var p := Stop(s, 0);
    NoSpaces(s[..p]);
    if p < |s| {
      var rest := s[p + 1..];
      SplitCount(rest);
      assert s == s[..p] + ([' '] + rest);
      SpacesConcat(s[..p], [' '] + rest);
      assert ([' '] + rest)[1..] == rest;
    } else {
      assert s[..p] == s;
    }
  }

  // The first loop: the number of words is the number of spaces plus one.
  method CountWords(str: string) returns (n: nat)
    ensures n == |Split(str)|
  {
    var i := 0;
    n := 0;
    assert str[0..] == str;
    while i < |str|
      invariant 0 <= i <= |str| && n + Spaces(str[i..]) == Spaces(str)
    {
      if str[i] == ' ' {
        n := n + 1;
      }
      assert str[i..][1..] == str[i + 1..];
      i := i + 1;
    }
    n := n + 1;
    SplitCount(str);
  }

  // ---------------------------------------------------------------- looking words up

  // The scan of the word list, which ends at its null entry.
  method Lookup(W: seq<string>, word: string) returns (k: nat)
    ensures k <= |W| && (k < |W| ==> W[k] == word) && forall l :: 0 <= l < k ==> W[l] != word
  {
    k := 0;
    while k < |W|
      invariant k <= |W| && forall l :: 0 <= l < k ==> W[l] != word
    {
      if W[k] == word {
        return;
      }
      k := k + 1;
    }
  }

  // One word from position i; more than nine letters do not fit the buffer.
  method ReadWord(str: string, i: nat) returns (ok: bool, stop: nat)
    requires i < |str|
    ensures ok ==> stop == Stop(str, i) && stop - i <= 9
    ensures !ok ==> Stop(str, i) - i > 9
  {
    var j := 0;
    stop := i;
    while stop < |str| && str[stop] != ' '
      invariant i <= stop <= |str| && j == stop - i <= 9 && Stop(str, stop) == Stop(str, i)
    {
      if j >= 9 {
        return false, stop;
      }
      stop, j := stop + 1, j + 1;
    }
    ok := true;
  }

  // ---------------------------------------------------------------- setting bits

  // The first j bits of the next index k are set as well.
  ghost predicate Packing(s: seq<bv8>, ks: seq<nat>, k: nat, j: nat) {
    && j <= 11 && 11 * |ks| + j <= 8 * |s|
    && (forall i, q :: 0 <= i < |ks| && 0 <= q < 11 ==> PackedAt(s, ks, i, q))
    && (forall q :: 0 <= q < j ==> PackingAt(s, 11 * |ks|, k, q))
    && forall b :: 11 * |ks| + j <= b < 8 * |s| ==> !Bit(s, b)
  }

  ghost predicate PackingAt(s: seq<bv8>, a: nat, k: nat, q: nat)
    requires q < 11 && a + q < 8 * |s|
  {
    Bit(s, a + q) == NumberBit(k, 10 - q)
  }

  lemma PackBit(s: seq<bv8>, ks: seq<nat>, k: nat, j: nat)
    requires Packing(s, ks, k, j) && j < 11 && 11 * |ks| + 11 <= 8 * |s|
    ensures var b := 11 * |ks| + j;
            && Row(b) < |s|
            && Packing(if NumberBit(k, 10 - j) then s[Row(b) := s[Row(b)] | Mask(Col(b))] else s, ks, k, j + 1)
  {
    hide Bit, NumberBit;
    var b := 11 * |ks| + j;
    Within(b, |s|);
    var s' := if NumberBit(k, 10 - j) then s[Row(b) := s[Row(b)] | Mask(Col(b))] else s;
    forall q | 0 <= q < 8 * |s|
      ensures Bit(s', q) == (Bit(s, q) || (q == b && NumberBit(k, 10 - j)))
    {
      BitOr(s, b, q);
    }
    hide Row, Col, Mask;
    forall i, q | 0 <= i < |ks| && 0 <= q < 11
      ensures PackedAt(s', ks, i, q)
    {
      assert PackedAt(s, ks, i, q);
    }
    forall q | 0 <= q < j + 1
      ensures PackingAt(s', 11 * |ks|, k, q)
    {
      assert q < j ==> PackingAt(s, 11 * |ks|, k, q);
    }
  }

  lemma PackStart(s: seq<bv8>, ks: seq<nat>, k: nat)
    requires Packed(s, ks, 11 * |ks|)
    ensures Packing(s, ks, k, 0)
  {
    hide Bit, NumberBit;
  }

  lemma PackDone(s: seq<bv8>, ks: seq<nat>, k: nat)
    requires Packing(s, ks, k, 11)
    ensures Packed(s, ks + [k], 11 * |ks| + 11)
  {
    hide Bit, NumberBit;
    forall i, j | 0 <= i < |ks| + 1 && 0 <= j < 11
      ensures PackedAt(s, ks + [k], i, j)
    {
      if i < |ks| {
        assert PackedAt(s, ks, i, j);
      } else {
        assert PackingAt(s, 11 * |ks|, k, j);
      }
    }
  }

  // data[b / 8] |= 1 << (7 - (b % 8)), if the bit is on.
  method OrBit(data: array<bv8>, b: nat, on: bool)
    requires b < 8 * data.Length
    modifies data
    ensures Row(b) < data.Length
    ensures data[..] == if on then old(data[..])[Row(b) := old(data[..])[Row(b)] | Mask(Col(b))] else old(data[..])
  {
    Within(b, data.Length);
    hide Row, Col, Mask;
    if on {
      data[Row(b)] := data[Row(b)] | Mask(Col(b));
    }
  }

  // The eleven bits of index k, or-ed into the zeroed buffer.
  method PackIndex(data: array<bv8>, bi: nat, k: nat, ghost ks: seq<nat>) returns (bi': nat)
    requires bi == 11 * |ks| && bi + 11 <= 8 * data.Length && Packed(data[..], ks, bi)
    modifies data
    ensures bi' == bi + 11 && Packed(data[..], ks + [k], bi')
  {
    hide *;
    var ki := 0;
    bi' := bi;
    PackStart(data[..], ks, k);
    while ki < 11
      invariant 0 <= ki <= 11 && bi' == bi + ki && Packing(data[..], ks, k, ki)
    {
      PackBit(data[..], ks, k, ki);
      OrBit(data, bi', NumberBit(k, 10 - ki));
      bi', ki := bi' + 1, ki + 1;
    }
    PackDone(data[..], ks, k);
  }

  // ---------------------------------------------------------------- parsing

  ghost predicate InList(ks: seq<nat>) {
    forall i :: 0 <= i < |ks| ==> ks[i] < 2048
  }

  // The words before position i have been found, as the indexes ks; more says that another word,
  // possibly empty, is still to come.
  ghost predicate Parsed(W: seq<string>, str: string, i: nat, ks: seq<nat>, more: bool) {
    && |W| == 2048 && i <= |str| && InList(ks)
    && Split(str) == Spell(W, ks) + (if more then Split(str[i..]) else []) && (!more ==> i == |str|)
  }

  lemma ParseStart(W: seq<string>, str: string)
    requires |W| == 2048
    ensures Parsed(W, str, 0, [], true)
  {
    assert str[0..] == str;
  }

  lemma SplitFrom(str: string, i: nat)
    requires i <= |str|
    ensures var p := Stop(str, i);
            Split(str[i..]) == [str[i..p]] + (if p < |str| then Split(str[p + 1..]) else [])
  {
    var p, rest := Stop(str, i), str[i..];
    StopIs(rest, 0, p - i);
    assert rest[..p - i] == str[i..p];
    if p < |str| {
      assert rest[p - i + 1..] == str[p + 1..];
    } else {
      assert rest == str[i..p];
    }
  }

  lemma ParseNext(W: seq<string>, str: string, i: nat, ks: seq<nat>, k: nat)
    requires Parsed(W, str, i, ks, true) && k < 2048
    ensures i <= |str|
    ensures var p := Stop(str, i);
            && |Split(str)| > |ks| && Split(str)[|ks|] == str[i..p]
            && (W[k] == str[i..p] ==> if p < |str| then Parsed(W, str, p + 1, ks + [k], true)
                                      else Parsed(W, str, p, ks + [k], false))
  {
    hide Split, Stop;
    SplitFrom(str, i);
    var p := Stop(str, i);
    assert Spell(W, ks + [k]) == Spell(W, ks) + [W[k]];
    var rest := if p < |str| then Split(str[p + 1..]) else [];
    assert Spell(W, ks) + ([str[i..p]] + rest) == (Spell(W, ks) + [str[i..p]]) + rest;
  }

  // A text printed from entropy splits into the words of its indexes.
  lemma TextWords(W: seq<string>, H: Hash, d: seq<bv8>)
    requires IsList(W) && IsHash(H) && |d| % 4 == 0 && 16 <= |d| <= 32
    ensures Split(Text(W, H, d)) == Spell(W, Indexes(H, d)) && |Indexes(H, d)| == WordCount(|d|)
  {
    var ws := Spell(W, Indexes(H, d));
    Lengths(|d|);
    hide Indexes;
    SplitJoin(ws);
  }

  // The lengths the decoder takes.
  predicate Decodable(len: nat) {
    len == 16 || len == 24 || len == 32
  }

  ghost predicate IsText(W: seq<string>, H: Hash, str: string, d: seq<bv8>)
    requires |W| == 2048 && IsHash(H)
  {
    Decodable(|d|) && str == Text(W, H, d)
  }

  lemma WrongCount(W: seq<string>, H: Hash, str: string, d: seq<bv8>)
    requires IsList(W) && IsHash(H) && IsText(W, H, str, d)
    ensures |Split(str)| == 12 || |Split(str)| == 18 || |Split(str)| == 24
    ensures |Split(str)| == WordCount(|d|)
  {
    TextWords(W, H, d);
  }

  ghost predicate Unlisted(W: seq<string>, word: string) {
    forall k :: 0 <= k < |W| ==> W[k] != word
  }

  // Every word of a printed text is in the list.
  lemma WrongWord(W: seq<string>, H: Hash, str: string, d: seq<bv8>, j: nat)
    requires IsList(W) && IsHash(H) && IsText(W, H, str, d) && j < |Split(str)|
    ensures !Unlisted(W, Split(str)[j])
  {
    TextWords(W, H, d);
    var ks := Indexes(H, d);
    hide Indexes;
    assert Split(str)[j] == W[ks[j]];
  }

  // Distinct words: the indexes parsed from a printed text are its own.
  lemma RightIndexes(W: seq<string>, H: Hash, str: string, d: seq<bv8>, ks: seq<nat>)
    requires IsList(W) && IsHash(H) && IsText(W, H, str, d) && InList(ks) && Split(str) == Spell(W, ks)
    ensures ks == Indexes(H, d)
  {
    TextWords(W, H, d);
    var ls := Indexes(H, d);
    hide Indexes;
    assert |ks| == |ls|;
    forall i | 0 <= i < |ks|
      ensures ks[i] == ls[i]
    {
      assert W[ks[i]] == Spell(W, ks)[i] == Spell(W, ls)[i] == W[ls[i]];
    }
  }

  ghost predicate Progress(W: seq<string>, str: string, data: seq<bv8>, i: nat, bi: nat, ks: seq<nat>, more: bool) {
    bi == 11 * |ks| && |data| == 65 && Packed(data, ks, bi) && Parsed(W, str, i, ks, more)
  }

  // One round of the main loop: a word is read, looked up and packed.
  method ParseWord(W: seq<string>, str: string, data: array<bv8>, i: nat, bi: nat, ghost ks: seq<nat>)
    returns (ok: bool, i': nat, bi': nat, ghost ks': seq<nat>, ghost more: bool)
    requires IsList(W) && |W| == 2048 && data.Length == 65 && |Split(str)| <= 24 && i < |str|
    requires Progress(W, str, data[..], i, bi, ks, true)
    modifies data
    ensures ok ==> i < i' <= |str| && (i' < |str| ==> more) && Progress(W, str, data[..], i', bi', ks', more)
    ensures !ok ==> |ks'| < |Split(str)| && Unlisted(W, Split(str)[|ks'|])
  {
    assert bi == 11 * |ks| && Packed(data[..], ks, bi) && Parsed(W, str, i, ks, true);
    hide *;
    i', bi', ks', more := i, bi, ks, true;
    ParseNext(W, str, i, ks, 0);
    var stop;
    ok, stop := ReadWord(str, i);
    if !ok {
      LongWord(W, Split(str)[|ks|]);
      return;
    }
    var k := Lookup(W, str[i..stop]);
    if k == |W| {
      NoWord(W, Split(str)[|ks|]);
      ok := false;
      return;
    }
    ParseNext(W, str, i, ks, k);
    bi' := PackIndex(data, bi, k, ks);
    ks', more := ks + [k], stop < |str|;
    i' := if stop < |str| then stop + 1 else stop;
    Progressed(W, str, data[..], i', bi', ks', more);
  }

  lemma Progressed(W: seq<string>, str: string, data: seq<bv8>, i: nat, bi: nat, ks: seq<nat>, more: bool)
    requires bi == 11 * |ks| && |data| == 65 && Packed(data, ks, bi) && Parsed(W, str, i, ks, more)
    ensures Progress(W, str, data, i, bi, ks, more)
  {
    hide Packed, Parsed;
  }

  // The main loop.
  method ParseWords(W: seq<string>, str: string, data: array<bv8>) returns (ok: bool, bi: nat, ghost ks: seq<nat>)
    requires IsList(W) && |W| == 2048 && data.Length == 65 && |Split(str)| <= 24 && forall k :: 0 <= k < 65 ==> data[k] == 0
    modifies data
    ensures ok ==> bi == 11 * |ks| && Packed(data[..], ks, bi) && InList(ks)
    ensures ok ==> Split(str) == Spell(W, ks) || (|Split(str)| == |ks| + 1 && Split(str)[|ks|] == "")
    ensures !ok ==> |ks| < |Split(str)| && Unlisted(W, Split(str)[|ks|])
  {
    hide *;
    var i := 0;
    bi, ks := 0, [];
    ghost var more := true;
    ParseStart(W, str);
    AllClear(data[..]);
    Progressed(W, str, data[..], 0, 0, [], true);
    while i < |str|
      invariant 0 <= i <= |str| && (i < |str| ==> more) && Progress(W, str, data[..], i, bi, ks, more)
    {
      ok, i, bi, ks, more := ParseWord(W, str, data, i, bi, ks);
      if !ok {
        return;
      }
    }
    ParseEnd(W, str, data[..], bi, ks, more);
    ok := true;
  }

  lemma LongWord(W: seq<string>, word: string)
    requires IsList(W) && |word| > 9
    ensures Unlisted(W, word)
  {
  }

  lemma NoWord(W: seq<string>, word: string)
    requires forall l :: 0 <= l < |W| ==> W[l] != word
    ensures Unlisted(W, word)
  {
  }

  lemma AllClear(s: seq<bv8>)
    requires forall k :: 0 <= k < |s| ==> s[k] == 0
    ensures Packed(s, [], 0)
  {
    forall k | 0 <= k < 8 * |s|
      ensures !Bit(s, k)
    {
      Within(k, |s|);
      Clear(Col(k));
    }
  }

  lemma Clear(r: nat)
    requires r < 8
    ensures !Set(0, r)
  {
  }

  lemma ParseEnd(W: seq<string>, str: string, data: seq<bv8>, bi: nat, ks: seq<nat>, more: bool)
    requires Progress(W, str, data, |str|, bi, ks, more)
    ensures |W| == 2048 && bi == 11 * |ks| && Packed(data, ks, bi) && InList(ks)
    ensures if more then |Split(str)| == |ks| + 1 && Split(str)[|ks|] == "" else Split(str) == Spell(W, ks)
  {
    assert str[|str|..] == "";
    assert Split("") == [""];
    hide Packed;
  }

  // ---------------------------------------------------------------- data_from_mnemonic

  // The mask loop.
  method ChecksumMask(t: nat) returns (mask: bv8)
    requires t <= 8
    ensures mask == TopMask(t)
  {
    mask := 0;
    var i := 0;
    while i < t
      invariant 0 <= i <= t && mask == TopMask(i)
    {
      TopMaskNext(i);
      mask := mask | Mask(i);
      i := i + 1;
    }
  }

  // Masked checksums agree exactly when the indexes are those of the decoded bytes.
  lemma ChecksumMeans(H: Hash, s: seq<bv8>, ks: seq<nat>, d: seq<bv8>)
    requires IsHash(H) && Decodable(|d|) && |ks| == WordCount(|d|) && |s| > |d| && InList(ks)
    requires Packed(s, ks, 11 * |ks|) && s[..|d|] == d
    ensures ks == Indexes(H, d) <==> Agree(H(d)[0], s[|d|], |d| / 4)
  {
    PackedIndexes(H, d, s, ks);
    MaskedEqual(H(d)[0], s[|d|], |d| / 4);
    hide Indexes, Packed, Set, Agree, WordCount, IsHash;
  }

  lemma RejectedText(W: seq<string>, H: Hash, str: string, s: seq<bv8>, ks: seq<nat>, d: seq<bv8>, d': seq<bv8>)
    requires IsList(W) && IsHash(H) && IsText(W, H, str, d') && Decodable(|d|) && |d| < |s| && d == s[..|d|]
    requires |ks| == WordCount(|d|) && InList(ks) && Packed(s, ks, 11 * |ks|) && Split(str) == Spell(W, ks)
    ensures d' == d && ks == Indexes(H, d)
  {
    RightIndexes(W, H, str, d', ks);
    WrongCount(W, H, str, d');
    hide Indexes, Packed, Split, Set;
    PackedIndexes(H, d', s, ks);
  }

  // What the decoder's result r and its buffer say about a string: it is the text printed from the
  // first r bytes, and from no others; or r is zero and it is not a printed text at all.
  ghost predicate Decided(W: seq<string>, H: Hash, str: string, r: nat, out: seq<bv8>)
    requires |W| == 2048 && IsHash(H)
  {
    && r <= |out| && (r > 0 ==> IsText(W, H, str, out[..r]))
    && forall d :: IsText(W, H, str, d) ==> r == |d| && d == out[..r]
  }

  method ChecksumHolds(H: Hash, data: array<bv8>, n: nat) returns (ok: bool)
    requires IsHash(H) && data.Length == 65 && (n == 12 || n == 18 || n == 24)
    ensures var len := n * 4 / 3;
            |H(data[..len])| == 32 && len / 4 <= 8 && (ok <==> Agree(H(data[..len])[0], data[len], len / 4))
  {
    hide *;
    CountLength(n);
    var len := n * 4 / 3;
    var expected, entropy := data[len], data[..len];
    HashLength(H, entropy);
    var computed := H(entropy)[0];
    var mask := ChecksumMask(n / 3);
    SameAgree(computed, expected, n / 3);
    ok := Same(computed, expected, mask);
  }

  // (computedChecksum[0] & mask) == (expectedChecksum & mask)
  predicate Same(a: bv8, b: bv8, mask: bv8) {
    a & mask == b & mask
  }

  lemma SameAgree(a: bv8, b: bv8, t: nat)
    requires t <= 8
    ensures Same(a, b, TopMask(t)) == Agree(a, b, t)
  {
  }

  // The decoder returns the length of the entropy exactly for the texts printed from 16, 24 or 32
  // bytes, and 0 for every other string.
  method ReadMnemonic(W: seq<string>, H: Hash, str: string, data: array<bv8>) returns (r: nat)
    requires IsList(W) && IsHash(H) && |W| == 2048 && data.Length == 65
    modifies data
    ensures Decided(W, H, str, r, data[..])
  {
    hide *;
    var n := CountWords(str);
    if n != 12 && n != 18 && n != 24 {
      RejectCount(W, H, str);
      Rejection(W, H, str, data[..]);
      return 0;
    }
    Zero(data);
    var ok, bi;
    ghost var ks;
    ok, bi, ks := ParseWords(W, str, data);
    if !ok {
      RejectWord(W, H, str, |ks|);
      Rejection(W, H, str, data[..]);
      return 0;
    }
    if bi != n * 11 {
      RejectTrailing(W, H, str, ks);
      Rejection(W, H, str, data[..]);
      return 0;
    }
    ok := ChecksumHolds(H, data, n);
    CountLength(n);
    if !ok {
      RejectChecksum(W, H, str, data[..], ks, n * 4 / 3);
      Rejection(W, H, str, data[..]);
      return 0;
    }
    AcceptChecksum(W, H, str, data[..], ks, n * 4 / 3);
    r := n * 4 / 3;
  }

  ghost predicate Rejected(W: seq<string>, H: Hash, str: string)
    requires |W| == 2048 && IsHash(H)
  {
    forall d :: !IsText(W, H, str, d)
  }

  lemma Rejection(W: seq<string>, H: Hash, str: string, out: seq<bv8>)
    requires |W| == 2048 && IsHash(H) && Rejected(W, H, str)
    ensures Decided(W, H, str, 0, out)
  {
    hide IsText;
  }

  method Zero(data: array<bv8>)
    modifies data
    ensures forall k :: 0 <= k < data.Length ==> data[k] == 0
  {
    var i := 0;
    while i < data.Length
      invariant 0 <= i <= data.Length && forall k :: 0 <= k < i ==> data[k] == 0
    {
      data[i] := 0;
      i := i + 1;
    }
  }

  lemma HashLength(H: Hash, s: seq<bv8>)
    requires IsHash(H)
    ensures |H(s)| == 32
  {
  }

  lemma CountLength(n: nat)
    requires n == 12 || n == 18 || n == 24
    ensures Decodable(n * 4 / 3) && WordCount(n * 4 / 3) == n && n * 4 / 3 / 4 == n / 3 && n * 4 / 3 <= 32 && n / 3 <= 8
  {
  }

  lemma RejectCount(W: seq<string>, H: Hash, str: string)
    requires IsList(W) && IsHash(H) && |W| == 2048 && |Split(str)| != 12 && |Split(str)| != 18 && |Split(str)| != 24
    ensures Rejected(W, H, str)
  {
    hide IsText, IsList, IsHash, Unlisted, Split;
    forall d
      ensures !IsText(W, H, str, d)
    {
      if IsText(W, H, str, d) {
        WrongCount(W, H, str, d);
      }
    }
  }

  lemma RejectWord(W: seq<string>, H: Hash, str: string, j: nat)
    requires IsList(W) && IsHash(H) && |W| == 2048 && j < |Split(str)| && Unlisted(W, Split(str)[j])
    ensures Rejected(W, H, str)
  {
    hide IsText, IsList, IsHash, Unlisted, Split;
    forall d
      ensures !IsText(W, H, str, d)
    {
      if IsText(W, H, str, d) {
        WrongWord(W, H, str, d, j);
      }
    }
  }

  lemma RejectTrailing(W: seq<string>, H: Hash, str: string, ks: seq<nat>)
    requires IsList(W) && IsHash(H) && |W| == 2048 && |Split(str)| == |ks| + 1 && Split(str)[|ks|] == ""
    ensures Rejected(W, H, str)
  {
    assert Unlisted(W, "");
    RejectWord(W, H, str, |ks|);
  }

  lemma RejectChecksum(W: seq<string>, H: Hash, str: string, s: seq<bv8>, ks: seq<nat>, len: nat)
    requires IsList(W) && IsHash(H) && |W| == 2048 && Decodable(len) && len < |s| && |ks| == WordCount(len) && InList(ks)
    requires Packed(s, ks, 11 * |ks|) && Split(str) == Spell(W, ks) && |H(s[..len])| == 32 && len / 4 <= 8
    requires !Agree(H(s[..len])[0], s[len], len / 4)
    ensures Rejected(W, H, str)
  {
    hide IsText, IsList, IsHash, Split, Packed, InList, Indexes, Agree;
    ChecksumMeans(H, s, ks, s[..len]);
    forall d
      ensures !IsText(W, H, str, d)
    {
      if IsText(W, H, str, d) {
        RejectedText(W, H, str, s, ks, s[..len], d);
      }
    }
  }

  lemma AcceptChecksum(W: seq<string>, H: Hash, str: string, s: seq<bv8>, ks: seq<nat>, len: nat)
    requires IsList(W) && IsHash(H) && |W| == 2048 && Decodable(len) && len < |s| && |ks| == WordCount(len) && InList(ks)
    requires Packed(s, ks, 11 * |ks|) && Split(str) == Spell(W, ks) && |H(s[..len])| == 32 && len / 4 <= 8
    requires Agree(H(s[..len])[0], s[len], len / 4)
    ensures Decided(W, H, str, len, s)
  {
    assert len > 0 && len % 4 == 0 && len <= 32;
    ChecksumMeans(H, s, ks, s[..len]);
    hide Packed, Indexes, Split, Agree;
    JoinSplit(str);
    forall d | IsText(W, H, str, d)
      ensures d == s[..len]
    {
      RejectedText(W, H, str, s, ks, s[..len], d);
    }
  }

  // data_from_mnemonic: the accepted strings are the printed texts of 16, 24 and 32 bytes, and the
  // bytes returned are the only ones that print that way.
  method DataFromMnemonic(W: seq<string>, H: Hash, str: string, data: array<bv8>) returns (r: nat)
    requires IsList(W) && IsHash(H) && |W| == 2048 && data.Length == 65
    modifies data
    ensures r == 0 || r == 16 || r == 24 || r == 32
    ensures r > 0 ==> str == Text(W, H, data[..r])
    ensures forall d: seq<bv8> :: (|d| == 16 || |d| == 24 || |d| == 32) && str == Text(W, H, d) ==> r == |d| && d == data[..r]
  {
    hide *;
    r := ReadMnemonic(W, H, str, data);
    if r > 0 {
      DecidedText(W, H, str, r, data[..]);
    }
    forall d: seq<bv8> | (|d| == 16 || |d| == 24 || |d| == 32) && str == Text(W, H, d)
      ensures r == |d| && d == data[..r]
    {
      DecidedOnly(W, H, str, r, data[..], d);
    }
    assert data[..][..r] == data[..r];
  }

  lemma DecidedText(W: seq<string>, H: Hash, str: string, r: nat, out: seq<bv8>)
    requires |W| == 2048 && IsHash(H) && Decided(W, H, str, r, out) && r > 0
    ensures (r == 16 || r == 24 || r == 32) && r <= |out| && str == Text(W, H, out[..r])
  {
    hide Text, IsHash;
  }

  lemma DecidedOnly(W: seq<string>, H: Hash, str: string, r: nat, out: seq<bv8>, d: seq<bv8>)
    requires |W| == 2048 && IsHash(H) && Decided(W, H, str, r, out)
    requires (|d| == 16 || |d| == 24 || |d| == 32) && str == Text(W, H, d)
    ensures r <= |out| && r == |d| && d == out[..r]
  {
    hide Text, IsHash;
    assert IsText(W, H, str, d);
  }

  lemma PrintedOnly(W: seq<string>, H: Hash, data: seq<bv8>)
    requires IsList(W) && IsHash(H) && |W| == 2048 && |data| % 4 == 0 && 16 <= |data| <= 32
    ensures |data| == 20 || |data| == 28 ==>
      forall d: seq<bv8> :: |d| == 16 || |d| == 24 || |d| == 32 ==> Text(W, H, d) != Text(W, H, data)
  {
    AcceptedLengths(W, H, data);
    hide Text, IsList, IsHash, IsText;
    if |data| == 20 || |data| == 28 {
      forall d: seq<bv8> | |d| == 16 || |d| == 24 || |d| == 32
        ensures Text(W, H, d) != Text(W, H, data)
      {
        TextIs(W, H, Text(W, H, data), d);
      }
    }
  }

  lemma TextIs(W: seq<string>, H: Hash, str: string, d: seq<bv8>)
    requires |W| == 2048 && IsHash(H) && (|d| == 16 || |d| == 24 || |d| == 32)
    ensures IsText(W, H, str, d) <==> str == Text(W, H, d)
  {
    hide Text;
  }

  // Printing and reading back.
  method PrintAndRead(W: seq<string>, H: Hash, data: seq<bv8>) returns (r: nat, back: array<bv8>)
    requires IsList(W) && IsHash(H) && |W| == 2048 && |data| % 4 == 0 && 16 <= |data| <= 32
    ensures fresh(back) && back.Length == 65
    ensures if |data| == 20 || |data| == 28 then r == 0 else r == |data| && back[..r] == data
  {
    hide *;
    PrintedOnly(W, H, data);
    var mnemo := new char[240];
    var written := MnemonicFromData(W, H, data, mnemo);
    var str := mnemo[..written.value];
    back := new bv8[65];
    r := DataFromMnemonic(W, H, str, back);
  }

  // Of the texts the printer makes, those of 20 and 28 bytes are never accepted.
  lemma AcceptedLengths(W: seq<string>, H: Hash, d: seq<bv8>)
    requires IsList(W) && IsHash(H) && GoodLength(|d|)
    ensures (exists e :: IsText(W, H, Text(W, H, d), e)) <==> |d| == 16 || |d| == 24 || |d| == 32
  {
    var str := Text(W, H, d);
    TextWords(W, H, d);
    if e :| IsText(W, H, str, e) {
      WrongCount(W, H, str, e);
    }
    if Decodable(|d|) {
      assert IsText(W, H, str, d);
    }
  }
}
