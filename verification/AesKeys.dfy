// aeskey.c: the key schedules for 128- and 256-bit keys, against section 5.2 of FIPS 197.

module AesKeys {
  import Words
  import opened AesField
  import opened AesCipher
  import opened AesBlock
  import opened AesBasis

  // ---------------------------------------------------------------- the key expansion of FIPS 197

  function RotWord(w: Word): Word {
    Word(w.b1, w.b2, w.b3, w.b0)
  }

  // Powers of x in GF(2^8), the first byte of the round constants.
  function Rcon(j: nat): bv8 {
    if j == 0 then 1 else F2(Rcon(j - 1))
  }

  // i mod Nk, and i / Nk.
  function Phase(i: nat, nk: nat): nat
    requires nk > 0
  {
    i % nk
  }

  function Turn(i: nat, nk: nat): (q: nat)
    requires 0 < nk <= i
    ensures q >= 1
  {
    Words.DivModUnique(i, nk, i / nk, i % nk);
    i / nk
  }

  // What word i of the schedule adds to word i - |key|.
  function Temp(key: seq<Word>, i: nat): Word
    requires 4 <= |key| <= i
    decreases i, 0
  {
    var w := Expanded(key, i - 1);
    if Phase(i, |key|) == 0 then Xor(SubWord(RotWord(w)), W0(Rcon(Turn(i, |key|) - 1)))
    else if |key| > 6 && Phase(i, |key|) == 4 then SubWord(w)
    else w
  }

  function Expanded(key: seq<Word>, i: nat): Word
    requires |key| >= 4
    decreases i, 1
  {
    if i < |key| then key[i] else Xor(Expanded(key, i - |key|), Temp(key, i))
  }

  // What the decryption schedule stores for word j; n is the index of the last round key.
  function Stored(key: seq<Word>, n: nat, j: nat): Word
    requires |key| >= 4
  {
    if 4 <= j < n then InvMixColumn(Expanded(key, j)) else Expanded(key, j)
  }

  // v(n, i): the reversed position of word i.
  function Pos(n: nat, i: nat): int {
    n - i + 2 * (i % 4)
  }

  // ---------------------------------------------------------------- tables

  // ls_box(x, 3) and ls_box(x, 0), which read the tables of the last round.
  function LsBox3(x: Word): Word {
    Sum(W0(SBox(x.b1)), W1(SBox(x.b2)), W2(SBox(x.b3)), W3(SBox(x.b0)))
  }

  function LsBox0(x: Word): Word {
    Sum(W0(SBox(x.b0)), W1(SBox(x.b1)), W2(SBox(x.b2)), W3(SBox(x.b3)))
  }

  // inv_mcol, which reads the tables of the inverse column mix.
  function InvMcol(x: Word): Word {
    Sum(V0(x.b0), V1(x.b1), V2(x.b2), V3(x.b3))
  }

  // t_use(r, c)
  const RCON: seq<bv8> := [0x01, 0x02, 0x04, 0x08, 0x10, 0x20, 0x40, 0x80, 0x1B, 0x36]

  function Rc(i: nat): Word
    requires i < 10
  {
    W0(RCON[i])
  }

  lemma BoxMeans(x: Word)
    ensures LsBox3(x) == SubWord(RotWord(x)) && LsBox0(x) == SubWord(x) && InvMcol(x) == InvMixColumn(x)
  {
    LastTables(SBox(x.b1), SBox(x.b2), SBox(x.b3), SBox(x.b0));
    LastTables(SBox(x.b0), SBox(x.b1), SBox(x.b2), SBox(x.b3));
    ForwardTables(x.b0, x.b1, x.b2, x.b3);
    hide SBox, Sum, InvMixColumn, W0, W1, W2, W3, V0, V1, V2, V3;
  }

  lemma {:induction false} RconTable(i: nat)
    requires i < 10
    ensures Rcon(i) == RCON[i]
  {
    if i > 0 {
      RconTable(i - 1);
    }
  }

  // ---------------------------------------------------------------- encryption schedules

  ghost predicate Expanding(ks: seq<Word>, key: seq<Word>, m: nat) {
    |ks| == 60 && |key| >= 4 && m <= 60 && forall j :: 0 <= j < m ==> ks[j] == Expanded(key, j)
  }

  // ss holds words a, a + 1, ... of the schedule.
  ghost predicate Window(ss: seq<Word>, key: seq<Word>, a: nat) {
    |key| >= 4 && forall t :: 0 <= t < |ss| ==> ss[t] == Expanded(key, a + t)
  }

  lemma Cycle(nk: nat, i: nat, r: nat)
    requires r < nk
    ensures Phase(nk * i + nk + r, nk) == r && Turn(nk * i + nk + r, nk) == i + 1
  {
    Words.DivModUnique(nk * i + nk + r, nk, i + 1, r);
  }

  // Word j + Nk of the schedule, where j = Nk i + r.
  lemma NextWord(key: seq<Word>, i: nat, r: nat, j: nat)
    requires (|key| == 4 || |key| == 8) && i < 10 && r < |key| && j == |key| * i + r
    ensures Expanded(key, j + |key|) == Xor(Expanded(key, j),
              if r == 0 then Xor(LsBox3(Expanded(key, j + |key| - 1)), Rc(i))
              else if r == 4 then LsBox0(Expanded(key, j + |key| - 1))
              else Expanded(key, j + |key| - 1))
  {
    Cycle(|key|, i, r);
    hide Phase, Turn;
    assert Phase(j + |key|, |key|) == r && Turn(j + |key|, |key|) == i + 1;
    WordAfter(key, i, r, j);
  }

  lemma WordAfter(key: seq<Word>, i: nat, r: nat, j: nat)
    requires (|key| == 4 || |key| == 8) && i < 10 && r < |key| && Phase(j + |key|, |key|) == r && Turn(j + |key|, |key|) == i + 1
    ensures Expanded(key, j + |key|) == Xor(Expanded(key, j),
              if r == 0 then Xor(LsBox3(Expanded(key, j + |key| - 1)), Rc(i))
              else if r == 4 then LsBox0(Expanded(key, j + |key| - 1))
              else Expanded(key, j + |key| - 1))
  {
    hide Xor, SubWord, RotWord, LsBox3, LsBox0, InvMcol, InvMixColumn, W0, Rcon, Phase, Turn;
    BoxMeans(Expanded(key, j + |key| - 1));
    if r == 0 {
      RconTable(i);
    }
  }

  // The boxes and constants of the two key lengths; one round key of four words is a quarter turn or
  // half a turn.
  function TurnBox(nk: nat): Box {
    (q: nat, w: Word) =>
      if nk == 8 && q % 2 == 1 then LsBox0(w)
      else
        var i := if nk == 8 then q / 2 - 1 else q - 1;
        if 0 <= i < 10 then Xor(LsBox3(w), Rc(i)) else w
  }

  lemma TurnFed(nk: nat, i: nat, r: nat, w: Word)
    requires (nk == 4 || nk == 8) && i < 10 && r < nk
    ensures Fed(TurnBox(nk), nk * i + r + nk, w) ==
            if r == 0 then Xor(LsBox3(w), Rc(i)) else if r == 4 then LsBox0(w) else w
  {
    hide Xor, LsBox3, LsBox0, Rc;
  }

  // The next word, by the position of its turn.
  lemma ExpandedNext(key: seq<Word>, i: nat, r: nat, j: nat)
    requires (|key| == 4 || |key| == 8) && i < 10 && r < |key| && j == |key| * i + r
    ensures Expanded(key, j + |key|) == Xor(Expanded(key, j), Fed(TurnBox(|key|), j + |key|, Expanded(key, j + |key| - 1)))
  {
    hide *;
    NextWord(key, i, r, j);
    TurnFed(|key|, i, r, Expanded(key, j + |key| - 1));
  }

  lemma ExpandedAt(key: seq<Word>, j: nat)
    requires (|key| == 4 || |key| == 8) && |key| <= j < 11 * |key|
    ensures Expanded(key, j) == Xor(Expanded(key, j - |key|), Fed(TurnBox(|key|), j, Expanded(key, j - 1)))
  {
    hide *;
    if |key| == 4 {
      ExpandedNext(key, j / 4 - 1, j % 4, j - 4);
    } else {
      ExpandedNext(key, j / 8 - 1, j % 8, j - 8);
    }
  }

  // The expansion of the standard is the general one with these boxes.
  lemma {:induction false} GrownIs(key: seq<Word>, j: nat)
    requires (|key| == 4 || |key| == 8) && j < 11 * |key|
    ensures Grown(TurnBox(|key|), key, j) == Expanded(key, j)
    decreases j
  {
    hide *;
    if j >= |key| {
      GrownIs(key, j - |key|);
      GrownIs(key, j - 1);
      GrownLast(TurnBox(|key|), key, j);
      ExpandedAt(key, j);
    } else {
      KeyWord(key, j);
    }
  }

  lemma KeyWord(key: seq<Word>, j: nat)
    requires 4 <= |key| && j < |key|
    ensures Grown(TurnBox(|key|), key, j) == key[j] == Expanded(key, j)
  {
    hide Temp, Xor;
  }

  // ---------------------------------------------------------------- the expansion in bytes

  lemma BoxBytes(w: Word, rc: bv8)
    ensures Xor(LsBox3(w), W0(rc)) == Word(SBox(w.b1) ^ rc, SBox(w.b2), SBox(w.b3), SBox(w.b0))
    ensures LsBox0(w) == Word(SBox(w.b0), SBox(w.b1), SBox(w.b2), SBox(w.b3))
  {
    SumOfBytes(SBox(w.b1), SBox(w.b2), SBox(w.b3), SBox(w.b0), rc);
    SumOfBytes(SBox(w.b0), SBox(w.b1), SBox(w.b2), SBox(w.b3), 0);
    hide SBox, Sum, Xor, W0, W1, W2, W3;
  }

  lemma SumOfBytes(a: bv8, b: bv8, c: bv8, d: bv8, rc: bv8)
    ensures Sum(W0(a), W1(b), W2(c), W3(d)) == Word(a, b, c, d)
    ensures Xor(Word(a, b, c, d), W0(rc)) == Word(a ^ rc, b, c, d)
  {
  }

  // Every word of the expansion of a 128-bit key from the two before it that make it up.
  lemma ExpandedBytes128(key: seq<Word>, j: nat)
    requires |key| == 4 && 4 <= j < 44
    ensures var w := Expanded(key, j - 1);
      Expanded(key, j) == Xor(Expanded(key, j - 4),
        if j % 4 == 0 then Word(SBox(w.b1) ^ RCON[j / 4 - 1], SBox(w.b2), SBox(w.b3), SBox(w.b0)) else w)
  {
    hide *;
    ExpandedAt(key, j);
    FedBytes128(j, Expanded(key, j - 1));
  }

  lemma FedBytes128(j: nat, w: Word)
    requires 4 <= j < 44
    ensures Fed(TurnBox(4), j, w) ==
            if j % 4 == 0 then Word(SBox(w.b1) ^ RCON[j / 4 - 1], SBox(w.b2), SBox(w.b3), SBox(w.b0)) else w
  {
    hide Xor, SBox, LsBox3, LsBox0, W0;
    if j % 4 == 0 {
      var q := j / 4;
      BoxBytes(w, RCON[q - 1]);
      assert TurnBox(4)(q, w) == Xor(LsBox3(w), Rc(q - 1));
    }
  }

  lemma ExpandedBytes256(key: seq<Word>, j: nat)
    requires |key| == 8 && 8 <= j < 60
    ensures var w := Expanded(key, j - 1);
      Expanded(key, j) == Xor(Expanded(key, j - 8),
        if j % 8 == 0 then Word(SBox(w.b1) ^ RCON[j / 8 - 1], SBox(w.b2), SBox(w.b3), SBox(w.b0))
        else if j % 8 == 4 then Word(SBox(w.b0), SBox(w.b1), SBox(w.b2), SBox(w.b3))
        else w)
  {
    hide *;
    ExpandedAt(key, j);
    FedBytes256(j, Expanded(key, j - 1));
  }

  lemma FedBytes256(j: nat, w: Word)
    requires 8 <= j < 60
    ensures Fed(TurnBox(8), j, w) ==
            if j % 8 == 0 then Word(SBox(w.b1) ^ RCON[j / 8 - 1], SBox(w.b2), SBox(w.b3), SBox(w.b0))
            else if j % 8 == 4 then Word(SBox(w.b0), SBox(w.b1), SBox(w.b2), SBox(w.b3))
            else w
  {
    hide Xor, SBox, LsBox3, LsBox0, W0;
    Halves(j);
    if j % 8 == 0 {
      BoxBytes(w, RCON[j / 8 - 1]);
    } else if j % 8 == 4 {
      BoxBytes(w, 0);
    }
  }

  lemma Halves(j: nat)
    ensures j % 8 == 0 ==> j % 4 == 0 && j / 4 % 2 == 0 && j / 4 / 2 == j / 8
    ensures j % 8 == 4 ==> j % 4 == 0 && j / 4 % 2 == 1
    ensures j % 8 != 0 && j % 8 != 4 ==> j % 4 != 0
  {
  }

  // Each word takes in the one before it.
  method Chain(s0: Word, s1: Word, s2: Word, s3: Word) returns (r1: Word, r2: Word, r3: Word)
    ensures r1 == Xor(s1, s0) && r2 == Xor(s2, r1) && r3 == Xor(s3, r2)
  {
    r1 := Xor(s1, s0);
    r2 := Xor(s2, r1);
    r3 := Xor(s3, r2);
  }

  // Four consecutive words of the schedule written.
  function Store4(ks: seq<Word>, p: nat, w0: Word, w1: Word, w2: Word, w3: Word): (r: seq<Word>)
    requires p + 4 <= |ks|
    ensures |r| == |ks| && r[p] == w0 && r[p + 1] == w1 && r[p + 2] == w2 && r[p + 3] == w3
    ensures forall j :: 0 <= j < |ks| && !(p <= j < p + 4) ==> r[j] == ks[j]
  {
    ks[p := w0][p + 1 := w1][p + 2 := w2][p + 3 := w3]
  }

  lemma Extended(ks: seq<Word>, key: seq<Word>, m: nat, w0: Word, w1: Word, w2: Word, w3: Word)
    requires Expanding(ks, key, m) && m + 4 <= 60 && Window([w0, w1, w2, w3], key, m)
    ensures |ks| == 60 && Expanding(Store4(ks, m, w0, w1, w2, w3), key, m + 4)
  {
    hide Expanded, Store4;
    ghost var w := [w0, w1, w2, w3];
    assert w[0] == w0 && w[1] == w1 && w[2] == w2 && w[3] == w3;
  }

  // Four words derived from the four Nk before them.
  lemma Derived(key: seq<Word>, i: nat, r: nat, w0: Word, w1: Word, w2: Word, w3: Word)
    requires (|key| == 4 || |key| == 8) && i < 10 && r + 4 <= |key| && r % 4 == 0
    requires var j := |key| * i + r;
             && w0 == Xor(Expanded(key, j), if r == 0 then Xor(LsBox3(Expanded(key, j + |key| - 1)), Rc(i))
                                            else LsBox0(Expanded(key, j + |key| - 1)))
             && w1 == Xor(Expanded(key, j + 1), w0) && w2 == Xor(Expanded(key, j + 2), w1) && w3 == Xor(Expanded(key, j + 3), w2)
    ensures Window([w0, w1, w2, w3], key, |key| * i + r + |key|)
  {
    hide Expanded, LsBox3, LsBox0, Xor, Rc, Temp, Rcon;
    var j := |key| * i + r;
    NextWord(key, i, r, j);
    NextWord(key, i, r + 1, j + 1);
    NextWord(key, i, r + 2, j + 2);
    NextWord(key, i, r + 3, j + 3);
  }

  // ke4
  method Ke4(cx: Context, s: seq<Word>, i: nat, ghost key: seq<Word>) returns (ss: seq<Word>)
    requires i < 10 && |key| == 4 && |s| == 4 && Expanding(cx.ks, key, 4 * i + 4) && Window(s, key, 4 * i)
    modifies cx
    ensures |ss| == 4 && Expanding(cx.ks, key, 4 * i + 8) && Window(ss, key, 4 * i + 4)
  {
    hide Expanded, LsBox3, Xor, Rc, Expanding, Store4;
    var k := 4 * i;
    var s0 := Xor(s[0], Xor(LsBox3(s[3]), Rc(i)));
    var s1, s2, s3 := Chain(s0, s[1], s[2], s[3]);
    Derived(key, i, 0, s0, s1, s2, s3);
    Extended(cx.ks, key, k + 4, s0, s1, s2, s3);
    cx.ks := Store4(cx.ks, k + 4, s0, s1, s2, s3);
    ss := [s0, s1, s2, s3];
  }

  // kef8, and the second half of ke8.
  method Kef8(cx: Context, s: seq<Word>, i: nat, ghost key: seq<Word>) returns (ss: seq<Word>)
    requires i < 7 && |key| == 8 && |s| == 8 && Expanding(cx.ks, key, 8 * i + 8) && Window(s, key, 8 * i)
    modifies cx
    ensures |ss| == 8 && Expanding(cx.ks, key, 8 * i + 12) && Window(ss[..4], key, 8 * i + 8)
    ensures forall t :: 4 <= t < 8 ==> ss[t] == s[t]
  {
    hide Expanded, LsBox3, LsBox0, Xor, Rc, Expanding, Store4;
    var k := 8 * i;
    var s0 := Xor(s[0], Xor(LsBox3(s[7]), Rc(i)));
    var s1, s2, s3 := Chain(s0, s[1], s[2], s[3]);
    Derived(key, i, 0, s0, s1, s2, s3);
    Extended(cx.ks, key, k + 8, s0, s1, s2, s3);
    cx.ks := Store4(cx.ks, k + 8, s0, s1, s2, s3);
    ss := [s0, s1, s2, s3, s[4], s[5], s[6], s[7]];
    assert ss[..4] == [s0, s1, s2, s3];
  }

  method Ke8(cx: Context, s: seq<Word>, i: nat, ghost key: seq<Word>) returns (ss: seq<Word>)
    requires i < 6 && |key| == 8 && |s| == 8 && Expanding(cx.ks, key, 8 * i + 8) && Window(s, key, 8 * i)
    modifies cx
    ensures |ss| == 8 && Expanding(cx.ks, key, 8 * i + 16) && Window(ss, key, 8 * i + 8)
  {
    hide Expanded, LsBox3, LsBox0, Xor, Rc, Expanding, Store4;
    var k := 8 * i;
    ss := Kef8(cx, s, i, key);
    ghost var w := ss[..4];
    assert w[0] == ss[0] && w[1] == ss[1] && w[2] == ss[2] && w[3] == ss[3];
    var s4 := Xor(ss[4], LsBox0(ss[3]));
    var s5, s6, s7 := Chain(s4, ss[5], ss[6], ss[7]);
    Derived(key, i, 4, s4, s5, s6, s7);
    Extended(cx.ks, key, k + 12, s4, s5, s6, s7);
    cx.ks := Store4(cx.ks, k + 12, s4, s5, s6, s7);
    ghost var v := [s4, s5, s6, s7];
    assert v[0] == s4 && v[1] == s5 && v[2] == s6 && v[3] == s7;
    ss := [ss[0], ss[1], ss[2], ss[3], s4, s5, s6, s7];
  }

  // The key words of a byte buffer.
  function KeyWords(s: seq<bv8>): (key: seq<Word>)
    requires |s| == 16 || |s| == 32
    ensures |key| == |s| / 4 && forall c :: 0 <= c < |key| ==> key[c] == WordAt(s, c)
  {
    if |s| == 16 then [WordAt(s, 0), WordAt(s, 1), WordAt(s, 2), WordAt(s, 3)]
    else [WordAt(s, 0), WordAt(s, 1), WordAt(s, 2), WordAt(s, 3), WordAt(s, 4), WordAt(s, 5), WordAt(s, 6), WordAt(s, 7)]
  }

  lemma StartExpanding(ks: seq<Word>, key: seq<Word>)
    requires |ks| == 60 && 4 <= |key| <= 8 && forall c :: 0 <= c < |key| ==> ks[c] == key[c]
    ensures Expanding(ks, key, |key|) && Window(key, key, 0)
  {
    hide Temp, Xor;
  }

  lemma WordBytes128(ks: seq<Word>, key: seq<Word>, j: nat)
    requires Expanding(ks, key, 44) && |key| == 4 && 4 <= j < 44
    ensures |ks| == 60
    ensures ks[j] == Xor(ks[j - 4],
      if j % 4 == 0 then Word(SBox(ks[j - 1].b1) ^ RCON[j / 4 - 1], SBox(ks[j - 1].b2), SBox(ks[j - 1].b3), SBox(ks[j - 1].b0))
      else ks[j - 1])
  {
    ExpandedBytes128(key, j);
    hide Expanded, Xor, SBox;
  }

  // The same of a schedule in memory: the key bytes, then every word from two earlier ones.
  ghost predicate FromBytes128(ks: seq<Word>, j: nat)
    requires |ks| == 60 && 4 <= j < 44
  {
    ks[j] == Xor(ks[j - 4],
      if j % 4 == 0 then Word(SBox(ks[j - 1].b1) ^ RCON[j / 4 - 1], SBox(ks[j - 1].b2), SBox(ks[j - 1].b3), SBox(ks[j - 1].b0))
      else ks[j - 1])
  }

  lemma ScheduleBytes128(ks: seq<Word>, k: seq<bv8>)
    requires |k| == 16 && Expanding(ks, KeyWords(k), 44)
    ensures |ks| == 60
    ensures ks[0] == Word(k[0], k[1], k[2], k[3]) && ks[1] == Word(k[4], k[5], k[6], k[7])
    ensures ks[2] == Word(k[8], k[9], k[10], k[11]) && ks[3] == Word(k[12], k[13], k[14], k[15])
    ensures forall j :: 4 <= j < 44 ==> FromBytes128(ks, j)
  {
    hide Expanding, KeyWords, Xor, SBox, Expanded, Temp;
    FirstWordsOf(ks, k, 44);
    forall j | 4 <= j < 44
      ensures FromBytes128(ks, j)
    {
      WordBytes128(ks, KeyWords(k), j);
    }
  }

  lemma WordBytes256(ks: seq<Word>, key: seq<Word>, j: nat)
    requires Expanding(ks, key, 60) && |key| == 8 && 8 <= j < 60
    ensures |ks| == 60
    ensures ks[j] == Xor(ks[j - 8],
      if j % 8 == 0 then Word(SBox(ks[j - 1].b1) ^ RCON[j / 8 - 1], SBox(ks[j - 1].b2), SBox(ks[j - 1].b3), SBox(ks[j - 1].b0))
      else if j % 8 == 4 then Word(SBox(ks[j - 1].b0), SBox(ks[j - 1].b1), SBox(ks[j - 1].b2), SBox(ks[j - 1].b3))
      else ks[j - 1])
  {
    ExpandedBytes256(key, j);
    hide Expanded, Xor, SBox;
  }

  ghost predicate FromBytes256(ks: seq<Word>, j: nat)
    requires |ks| == 60 && 8 <= j < 60
  {
    ks[j] == Xor(ks[j - 8],
      if j % 8 == 0 then Word(SBox(ks[j - 1].b1) ^ RCON[j / 8 - 1], SBox(ks[j - 1].b2), SBox(ks[j - 1].b3), SBox(ks[j - 1].b0))
      else if j % 8 == 4 then Word(SBox(ks[j - 1].b0), SBox(ks[j - 1].b1), SBox(ks[j - 1].b2), SBox(ks[j - 1].b3))
      else ks[j - 1])
  }

  lemma ScheduleBytes256(ks: seq<Word>, k: seq<bv8>)
    requires |k| == 32 && Expanding(ks, KeyWords(k), 60)
    ensures |ks| == 60
    ensures ks[0] == Word(k[0], k[1], k[2], k[3]) && ks[1] == Word(k[4], k[5], k[6], k[7])
    ensures ks[2] == Word(k[8], k[9], k[10], k[11]) && ks[3] == Word(k[12], k[13], k[14], k[15])
    ensures ks[4] == Word(k[16], k[17], k[18], k[19]) && ks[5] == Word(k[20], k[21], k[22], k[23])
    ensures ks[6] == Word(k[24], k[25], k[26], k[27]) && ks[7] == Word(k[28], k[29], k[30], k[31])
    ensures forall j :: 8 <= j < 60 ==> FromBytes256(ks, j)
  {
    hide Expanding, KeyWords, Xor, SBox, Expanded, Temp;
    FirstWordsOf(ks, k, 60);
    forall j | 8 <= j < 60
      ensures FromBytes256(ks, j)
    {
      WordBytes256(ks, KeyWords(k), j);
    }
  }

  lemma FirstWordsOf(ks: seq<Word>, k: seq<bv8>, m: nat)
    requires (|k| == 16 || |k| == 32) && Expanding(ks, KeyWords(k), m) && |k| / 4 <= m
    ensures |ks| == 60
    ensures ks[0] == Word(k[0], k[1], k[2], k[3]) && ks[1] == Word(k[4], k[5], k[6], k[7])
    ensures ks[2] == Word(k[8], k[9], k[10], k[11]) && ks[3] == Word(k[12], k[13], k[14], k[15])
    ensures |k| == 32 ==> ks[4] == Word(k[16], k[17], k[18], k[19]) && ks[5] == Word(k[20], k[21], k[22], k[23])
    ensures |k| == 32 ==> ks[6] == Word(k[24], k[25], k[26], k[27]) && ks[7] == Word(k[28], k[29], k[30], k[31])
  {
    hide Temp, Xor;
    assert forall c :: 0 <= c < |KeyWords(k)| ==> ks[c] == KeyWords(k)[c];
  }

  method LoadKey128(k: array<bv8>, cx: Context) returns (ss: seq<Word>)
    requires k.Length == 16 && |cx.ks| == 60
    modifies cx
    ensures |cx.ks| == 60 && ss == KeyWords(k[..]) && |ss| == 4 && Expanding(cx.ks, ss, 4) && Window(ss, ss, 0)
  {
    ss := [Word(k[0], k[1], k[2], k[3]), Word(k[4], k[5], k[6], k[7]), Word(k[8], k[9], k[10], k[11]),
           Word(k[12], k[13], k[14], k[15])];
    assert ss == KeyWords(k[..]);
    hide KeyWords;
    cx.ks := Store4(cx.ks, 0, ss[0], ss[1], ss[2], ss[3]);
    StartExpanding(cx.ks, ss);
  }

  method Expand128(k: array<bv8>, cx: Context)
    requires k.Length == 16 && |cx.ks| == 60
    modifies cx
    ensures cx.inf == 160 && cx.pos == 0 && Expanding(cx.ks, KeyWords(k[..]), 44)
  {
    hide *;
    var ss := LoadKey128(k, cx);
    ghost var key := ss;
    ss := Ke4(cx, ss, 0, key);
    ss := Ke4(cx, ss, 1, key);
    ss := Ke4(cx, ss, 2, key);
    ss := Ke4(cx, ss, 3, key);
    ss := Ke4(cx, ss, 4, key);
    ss := Ke4(cx, ss, 5, key);
    ss := Ke4(cx, ss, 6, key);
    ss := Ke4(cx, ss, 7, key);
    ss := Ke4(cx, ss, 8, key);
    ss := Ke4(cx, ss, 9, key);
    cx.inf, cx.pos := 160, 0;
  }

  method EncryptKey128(k: array<bv8>, cx: Context)
    requires k.Length == 16 && |cx.ks| == 60
    modifies cx
    ensures cx.inf == 160 && cx.pos == 0 && Expanding(cx.ks, KeyWords(k[..]), 44)
    ensures |cx.ks| == 60
    ensures cx.ks[0] == Word(k[0], k[1], k[2], k[3]) && cx.ks[1] == Word(k[4], k[5], k[6], k[7])
    ensures cx.ks[2] == Word(k[8], k[9], k[10], k[11]) && cx.ks[3] == Word(k[12], k[13], k[14], k[15])
    ensures forall j :: 4 <= j < 44 ==> FromBytes128(cx.ks, j)
  {
    hide *;
    Expand128(k, cx);
    ScheduleBytes128(cx.ks, k[..]);
  }

  method KeyIn(k: array<bv8>) returns (ss: seq<Word>)
    requires k.Length == 32
    ensures ss == KeyWords(k[..])
  {
    ss := [Word(k[0], k[1], k[2], k[3]), Word(k[4], k[5], k[6], k[7]), Word(k[8], k[9], k[10], k[11]),
           Word(k[12], k[13], k[14], k[15]), Word(k[16], k[17], k[18], k[19]), Word(k[20], k[21], k[22], k[23]),
           Word(k[24], k[25], k[26], k[27]), Word(k[28], k[29], k[30], k[31])];
  }

  method LoadKey256(k: array<bv8>, cx: Context) returns (ss: seq<Word>)
    requires k.Length == 32 && |cx.ks| == 60
    modifies cx
    ensures |cx.ks| == 60 && ss == KeyWords(k[..]) && |ss| == 8 && Expanding(cx.ks, ss, 8) && Window(ss, ss, 0)
  {
    ss := KeyIn(k);
    hide KeyWords;
    cx.ks := Store4(Store4(cx.ks, 0, ss[0], ss[1], ss[2], ss[3]), 4, ss[4], ss[5], ss[6], ss[7]);
    StartExpanding(cx.ks, ss);
  }

  method Expand256(k: array<bv8>, cx: Context)
    requires k.Length == 32 && |cx.ks| == 60
    modifies cx
    ensures cx.inf == 224 && cx.pos == 0 && Expanding(cx.ks, KeyWords(k[..]), 60)
  {
    hide *;
    var ss := LoadKey256(k, cx);
    ghost var key := ss;
    ss := Ke8(cx, ss, 0, key);
    ss := Ke8(cx, ss, 1, key);
    ss := Ke8(cx, ss, 2, key);
    ss := Ke8(cx, ss, 3, key);
    ss := Ke8(cx, ss, 4, key);
    ss := Ke8(cx, ss, 5, key);
    ss := Kef8(cx, ss, 6, key);
    cx.inf, cx.pos := 224, 0;
  }

  method EncryptKey256(k: array<bv8>, cx: Context)
    requires k.Length == 32 && |cx.ks| == 60
    modifies cx
    ensures cx.inf == 224 && cx.pos == 0 && Expanding(cx.ks, KeyWords(k[..]), 60)
    ensures |cx.ks| == 60
    ensures cx.ks[0] == Word(k[0], k[1], k[2], k[3]) && cx.ks[1] == Word(k[4], k[5], k[6], k[7])
    ensures cx.ks[2] == Word(k[8], k[9], k[10], k[11]) && cx.ks[3] == Word(k[12], k[13], k[14], k[15])
    ensures cx.ks[4] == Word(k[16], k[17], k[18], k[19]) && cx.ks[5] == Word(k[20], k[21], k[22], k[23])
    ensures cx.ks[6] == Word(k[24], k[25], k[26], k[27]) && cx.ks[7] == Word(k[28], k[29], k[30], k[31])
    ensures forall j :: 8 <= j < 60 ==> FromBytes256(cx.ks, j)
  {
    hide *;
    Expand256(k, cx);
    ScheduleBytes256(cx.ks, k[..]);
  }

  // ---------------------------------------------------------------- decryption schedules

  // Word c of round m is in its place.
  ghost predicate StoredAt(ks: seq<Word>, key: seq<Word>, n: nat, m: nat, c: nat)
    requires |ks| == 60 && |key| >= 4 && 4 * m <= n <= 56 && c < 4
  {
    ks[n - 4 * m + c] == Stored(key, n, 4 * m + c)
  }

  // The first r round keys are.
  ghost predicate Storing(ks: seq<Word>, key: seq<Word>, n: nat, r: nat) {
    |ks| == 60 && |key| >= 4 && 4 * r <= n + 4 <= 60 && forall m, c :: 0 <= m < r && 0 <= c < 4 ==> StoredAt(ks, key, n, m, c)
  }

  lemma Positions(n: nat, m: nat, c: nat)
    requires c < 4
    ensures Pos(n, 4 * m + c) == n - 4 * m + c
  {
    Words.DivModUnique(4 * m + c, 4, m, c);
  }

  lemma StoreRound(ks: seq<Word>, key: seq<Word>, n: nat, r: nat, w0: Word, w1: Word, w2: Word, w3: Word)
    requires Storing(ks, key, n, r) && 4 * r <= n
    requires w0 == Stored(key, n, 4 * r) && w1 == Stored(key, n, 4 * r + 1)
    requires w2 == Stored(key, n, 4 * r + 2) && w3 == Stored(key, n, 4 * r + 3)
    ensures |ks| == 60 && Storing(Store4(ks, n - 4 * r, w0, w1, w2, w3), key, n, r + 1)
  {
    hide Stored, Store4;
    var ks' := Store4(ks, n - 4 * r, w0, w1, w2, w3);
    forall m, c | 0 <= m < r + 1 && 0 <= c < 4
      ensures StoredAt(ks', key, n, m, c)
    {
      if m < r {
        assert StoredAt(ks, key, n, m, c);
      }
    }
  }

  lemma Recall(ks: seq<Word>, key: seq<Word>, n: nat, r: nat, m: nat)
    requires Storing(ks, key, n, r) && m < r
    ensures ks[n - 4 * m] == Stored(key, n, 4 * m) && ks[n - 4 * m + 1] == Stored(key, n, 4 * m + 1)
    ensures ks[n - 4 * m + 2] == Stored(key, n, 4 * m + 2) && ks[n - 4 * m + 3] == Stored(key, n, 4 * m + 3)
  {
    hide Stored;
    assert StoredAt(ks, key, n, m, 0) && StoredAt(ks, key, n, m, 1) && StoredAt(ks, key, n, m, 2) && StoredAt(ks, key, n, m, 3);
  }

  // The inverse column mix is linear, so its images obey the same recurrence.
  lemma StoredNext(key: seq<Word>, n: nat, i: nat, r: nat, j: nat)
    requires (|key| == 4 || |key| == 8) && i < 10 && r < |key| && j == |key| * i + r && 4 <= j && j + |key| < n
    ensures Stored(key, n, j + |key|) == Xor(Stored(key, n, j),
              if r == 0 then InvMcol(Xor(LsBox3(Expanded(key, j + |key| - 1)), Rc(i)))
              else if r == 4 then InvMcol(LsBox0(Expanded(key, j + |key| - 1)))
              else Stored(key, n, j + |key| - 1))
  {
    hide *;
    var w := Expanded(key, j + |key| - 1);
    StoredIs(key, n, j);
    StoredIs(key, n, j + |key|);
    StoredIs(key, n, j + |key| - 1);
    GrownIs(key, j + |key| - 1);
    McolLinear();
    ImageNext(TurnBox(|key|), InvMixColumn, key, j);
    TurnFed(|key|, i, r, w);
    BoxMeans(Fed(TurnBox(|key|), j + |key|, w));
  }

  lemma StoredIs(key: seq<Word>, n: nat, j: nat)
    requires (|key| == 4 || |key| == 8) && 4 <= j < n && j < 11 * |key|
    ensures Stored(key, n, j) == InvMixColumn(Grown(TurnBox(|key|), key, j))
  {
    GrownIs(key, j);
    hide Expanded, Grown, TurnBox, InvMixColumn;
  }

  // kd4's and kd8's tail: the running word takes in the four words at p and is stored at q.
  function Accumulated(ks: seq<Word>, e: Word, p: nat, q: nat): (r: seq<Word>)
    requires q + 4 <= p && p + 4 <= |ks|
    ensures |r| == |ks|
  {
    var w0 := Xor(e, ks[p]);
    var w1 := Xor(w0, ks[p + 1]);
    var w2 := Xor(w1, ks[p + 2]);
    Store4(ks, q, w0, w1, w2, Xor(w2, ks[p + 3]))
  }

  method Accumulate(cx: Context, e: Word, p: nat, q: nat)
    requires |cx.ks| == 60 && q + 4 <= p && p + 4 <= 60
    modifies cx
    ensures cx.inf == old(cx.inf)
    ensures cx.ks == Accumulated(old(cx.ks), e, p, q)
  {
    hide Xor;
    var w := Xor(e, cx.ks[p]);
    cx.ks := cx.ks[q := w];
    w := Xor(w, cx.ks[p + 1]);
    cx.ks := cx.ks[q + 1 := w];
    w := Xor(w, cx.ks[p + 2]);
    cx.ks := cx.ks[q + 2 := w];
    w := Xor(w, cx.ks[p + 3]);
    cx.ks := cx.ks[q + 3 := w];
  }

  // kdf4's tail, which stores the image of the running word.
  function AccumulatedPlain(ks: seq<Word>, e: Word, p: nat, q: nat): (r: seq<Word>)
    requires q + 4 <= p && p + 4 <= |ks|
    ensures |r| == |ks|
  {
    var w0 := Xor(e, ks[p]);
    var w1 := Xor(w0, ks[p + 1]);
    var w2 := Xor(w1, ks[p + 2]);
    Store4(ks, q, InvMcol(w0), InvMcol(w1), InvMcol(w2), InvMcol(Xor(w2, ks[p + 3])))
  }

  method AccumulatePlain(cx: Context, e: Word, p: nat, q: nat)
    requires |cx.ks| == 60 && q + 4 <= p && p + 4 <= 60
    modifies cx
    ensures cx.inf == old(cx.inf)
    ensures cx.ks == AccumulatedPlain(old(cx.ks), e, p, q)
  {
    hide Xor, InvMcol;
    var w := Xor(e, cx.ks[p]);
    cx.ks := cx.ks[q := InvMcol(w)];
    w := Xor(w, cx.ks[p + 1]);
    cx.ks := cx.ks[q + 1 := InvMcol(w)];
    w := Xor(w, cx.ks[p + 2]);
    cx.ks := cx.ks[q + 2 := InvMcol(w)];
    w := Xor(w, cx.ks[p + 3]);
    cx.ks := cx.ks[q + 3 := InvMcol(w)];
  }

  lemma AccumulatedIs(ks: seq<Word>, e: Word, p: nat, q: nat, w0: Word, w1: Word, w2: Word, w3: Word)
    requires q + 4 <= p && p + 4 <= |ks|
    requires w0 == Xor(ks[p], e) && w1 == Xor(ks[p + 1], w0) && w2 == Xor(ks[p + 2], w1) && w3 == Xor(ks[p + 3], w2)
    ensures Accumulated(ks, e, p, q) == Store4(ks, q, w0, w1, w2, w3)
  {
    hide Xor, Store4;
    Commute(e, ks[p]);
    Commute(w0, ks[p + 1]);
    Commute(w1, ks[p + 2]);
    Commute(w2, ks[p + 3]);
  }

  // The next inner round key, derived from the stored image of an earlier one.
  lemma NextInner4(ks: seq<Word>, key: seq<Word>, i: nat, e: Word)
    requires |ks| == 60 && |key| == 4 && 1 <= i <= 8 && Storing(ks, key, 40, i + 1)
    requires e == InvMcol(Xor(LsBox3(Expanded(key, 4 * i + 3)), Rc(i)))
    ensures Storing(Accumulated(ks, e, 40 - 4 * i, 36 - 4 * i), key, 40, i + 2)
  {
    hide *;
    NextImages(key, 40, i, 0, 4 * i, 4 * i + 4, e);
    NextStored(ks, key, 40, i, i + 1, e);
  }

  lemma NextInner8(ks: seq<Word>, key: seq<Word>, i: nat, upper: bool, e: Word)
    requires |ks| == 60 && |key| == 8 && 1 <= i <= 5 && Storing(ks, key, 56, if upper then 2 * i + 3 else 2 * i + 2)
    requires e == InvMcol(if upper then LsBox0(Expanded(key, 8 * i + 11)) else Xor(LsBox3(Expanded(key, 8 * i + 7)), Rc(i)))
    ensures !upper ==> Storing(Accumulated(ks, e, 56 - 8 * i, 48 - 8 * i), key, 56, 2 * i + 3)
    ensures upper ==> Storing(Accumulated(ks, e, 52 - 8 * i, 44 - 8 * i), key, 56, 2 * i + 4)
  {
    hide *;
    if upper {
      NextImages(key, 56, i, 4, 8 * i + 4, 8 * i + 12, e);
      NextStored(ks, key, 56, 2 * i + 1, 2 * i + 3, e);
    } else {
      NextImages(key, 56, i, 0, 8 * i, 8 * i + 8, e);
      NextStored(ks, key, 56, 2 * i, 2 * i + 2, e);
    }
  }

  lemma NextStored(ks: seq<Word>, key: seq<Word>, n: nat, m: nat, m': nat, e: Word)
    requires m < m' && 4 * m' + 4 <= n && Storing(ks, key, n, m')
    requires Stored(key, n, 4 * m') == Xor(Stored(key, n, 4 * m), e)
    requires Stored(key, n, 4 * m' + 1) == Xor(Stored(key, n, 4 * m + 1), Stored(key, n, 4 * m'))
    requires Stored(key, n, 4 * m' + 2) == Xor(Stored(key, n, 4 * m + 2), Stored(key, n, 4 * m' + 1))
    requires Stored(key, n, 4 * m' + 3) == Xor(Stored(key, n, 4 * m + 3), Stored(key, n, 4 * m' + 2))
    ensures |ks| == 60 && n <= 56
    ensures Storing(Accumulated(ks, e, n - 4 * m, n - 4 * m'), key, n, m' + 1)
  {
    assert |ks| == 60 && n <= 56;
    hide Stored, Expanded, Xor, Storing, Store4, Accumulated;
    var w0, w1, w2, w3 := Stored(key, n, 4 * m'), Stored(key, n, 4 * m' + 1), Stored(key, n, 4 * m' + 2), Stored(key, n, 4 * m' + 3);
    Recall(ks, key, n, m', m);
    AccumulatedIs(ks, e, n - 4 * m, n - 4 * m', w0, w1, w2, w3);
    StoreRound(ks, key, n, m', w0, w1, w2, w3);
  }

  lemma NextImages(key: seq<Word>, n: nat, i: nat, r: nat, j: nat, k: nat, e: Word)
    requires (|key| == 4 || |key| == 8) && i < 10 && r + 4 <= |key| && r % 4 == 0 && j == |key| * i + r && k == j + |key|
    requires 4 <= j && k + 4 <= n
    requires e == InvMcol(if r == 0 then Xor(LsBox3(Expanded(key, k - 1)), Rc(i)) else LsBox0(Expanded(key, k - 1)))
    ensures Stored(key, n, k) == Xor(Stored(key, n, j), e)
    ensures Stored(key, n, k + 1) == Xor(Stored(key, n, j + 1), Stored(key, n, k))
    ensures Stored(key, n, k + 2) == Xor(Stored(key, n, j + 2), Stored(key, n, k + 1))
    ensures Stored(key, n, k + 3) == Xor(Stored(key, n, j + 3), Stored(key, n, k + 2))
  {
    hide Stored, Expanded, LsBox3, LsBox0, Xor, Rc, InvMcol;
    StoredNext(key, n, i, r, j);
    StoredNext(key, n, i, r + 1, j + 1);
    StoredNext(key, n, i, r + 2, j + 2);
    StoredNext(key, n, i, r + 3, j + 3);
  }

  // ---------------------------------------------------------------- the rotated basis of decrypt_key128

  // Before turn i the slots hold the last words of rounds i - 3 to i, rotated by i.
  ghost predicate Basis(ss: seq<Word>, key: seq<Word>, i: nat) {
    |ss| == 4 && |key| == 4 && OnBasis(TurnBox(4), ss, key, i)
  }

  function PivotTemp(key: seq<Word>, i: nat): Word
    requires |key| == 4 && i < 10
  {
    Xor(LsBox3(Expanded(key, 4 * i + 3)), Rc(i))
  }

  lemma BasisStep(ss: seq<Word>, key: seq<Word>, i: nat)
    requires |ss| == 4 && |key| == 4 && Basis(ss, key, i) && i < 10
    ensures ss[Slot(i + 3)] == Expanded(key, 4 * i + 3)
    ensures Basis(ss[Slot(i) := Xor(ss[Slot(i)], PivotTemp(key, i))], key, i + 1)
  {
    hide Expanded, Xor, Slot, OnBasis, LsBox3, Rc, Grown;
    RotatedStep(TurnBox(4), ss, key, i);
    GrownIs(key, 4 * i + 3);
  }

  lemma StartBasis(key: seq<Word>)
    requires |key| == 4
    ensures Basis([Xor(Xor(Xor(key[0], key[2]), key[1]), key[3]), Xor(key[1], key[3]), Xor(key[2], key[3]), key[3]], key, 0)
  {
    StartRotated(TurnBox(4), key);
    hide Xor, OnBasis, TurnBox;
  }

  // The last round key from the basis.
  lemma LastRound(ss: seq<Word>, key: seq<Word>)
    requires |ss| == 4 && |key| == 4 && Basis(ss, key, 10)
    ensures var s0 := Xor(ss[0], ss[1]);
            && Expanded(key, 40) == Xor(Xor(s0, ss[2]), ss[3]) && Expanded(key, 41) == Xor(ss[1], ss[3])
            && Expanded(key, 42) == s0 && Expanded(key, 43) == ss[1]
  {
    hide Expanded, Xor, Slot, OnBasis, TurnBox, Grown;
    LastSlots();
    LastWords(TurnBox(4), ss, key, 10);
    GrownIs(key, 40);
    GrownIs(key, 41);
    GrownIs(key, 42);
    GrownIs(key, 43);
  }

  // The fast schedule of the code, ls_box and inv_mcol put in, stores the mixed round keys.
  lemma FastSchedule(key: seq<Word>, n: nat, c: nat)
    requires |key| == 4 && 1 <= n <= 10 && c < 4
    ensures FastTurns(TurnBox(4), InvMcol, key, n).1[c] == InvMixColumn(Expanded(key, 4 * n + c))
  {
    hide Expanded, Xor, TurnBox, Grown, FastTurns, InvMcol, InvMixColumn, OnBasis;
    McolLinear();
    FastIsExpansion(TurnBox(4), InvMcol, key, n);
    GrownIs(key, 4 * n + c);
    BoxMeans(Expanded(key, 4 * n + c));
  }

  lemma McolLinear()
    ensures XorLinear(InvMcol) && XorLinear(InvMixColumn)
  {
    hide Xor, InvMcol, InvMixColumn;
    forall a, b
      ensures InvMcol(Xor(a, b)) == Xor(InvMcol(a), InvMcol(b)) && InvMixColumn(Xor(a, b)) == Xor(InvMixColumn(a), InvMixColumn(b))
    {
      InvMixLinear(a, b);
      BoxMeans(a);
      BoxMeans(b);
      BoxMeans(Xor(a, b));
    }
  }

  // ---------------------------------------------------------------- decrypt_key128

  // kdf4: the first turn changes to the rotated basis.
  method Kdf4(cx: Context, s: seq<Word>, ghost key: seq<Word>) returns (ss: seq<Word>)
    requires |cx.ks| == 60 && |key| == 4 && s == key && Storing(cx.ks, key, 40, 1)
    modifies cx
    ensures |cx.ks| == 60 && Storing(cx.ks, key, 40, 2) && |ss| == 4 && Basis(ss, key, 1)
  {
    hide *;
    StartBasis(key);
    ss := [Xor(Xor(Xor(s[0], s[2]), s[1]), s[3]), Xor(s[1], s[3]), Xor(s[2], s[3]), s[3]];
    BasisStep(ss, key, 0);
    var e := Xor(LsBox3(ss[3]), Rc(0));
    FirstTurn(cx.ks, ss, key, e);
    ss := ss[0 := Xor(ss[0], e)];
    AccumulatePlain(cx, e, Pos(40, 0), Pos(40, 4));
  }

  lemma TurnPositions(i: nat)
    ensures Pos(40, 4 * i) == 40 - 4 * i && Pos(40, 4 * i + 4) == 36 - 4 * i
  {
    Positions(40, i, 0);
    Positions(40, i + 1, 0);
    hide Pos;
  }

  lemma FirstTurn(ks: seq<Word>, ss: seq<Word>, key: seq<Word>, e: Word)
    requires |ks| == 60 && |ss| == 4 && |key| == 4 && Storing(ks, key, 40, 1)
    requires e == Xor(LsBox3(ss[3]), Rc(0)) && ss[Slot(3)] == Expanded(key, 3)
    ensures Pos(40, 0) == 40 && Pos(40, 4) == 36 && Slot(0) == 0 && e == PivotTemp(key, 0)
    ensures Storing(AccumulatedPlain(ks, e, 40, 36), key, 40, 2)
  {
    hide *;
    TurnPositions(0);
    FirstSlots();
    PivotTempIs(key, 0);
    FirstWords(key, e);
    Recall(ks, key, 40, 1, 0);
    PlainWords(key);
    AccumulatedPlainIs(ks, e, 40, 36, Expanded(key, 4), Expanded(key, 5), Expanded(key, 6), Expanded(key, 7));
    StoreRound(ks, key, 40, 1, Stored(key, 40, 4), Stored(key, 40, 5), Stored(key, 40, 6), Stored(key, 40, 7));
  }

  lemma FirstWords(key: seq<Word>, e: Word)
    requires |key| == 4 && e == PivotTemp(key, 0)
    ensures Expanded(key, 4) == Xor(Expanded(key, 0), e) && Expanded(key, 5) == Xor(Expanded(key, 1), Expanded(key, 4))
    ensures Expanded(key, 6) == Xor(Expanded(key, 2), Expanded(key, 5))
    ensures Expanded(key, 7) == Xor(Expanded(key, 3), Expanded(key, 6))
  {
    hide Expanded, Xor, LsBox3, Rc;
    NextWord(key, 0, 0, 0);
    NextWord(key, 0, 1, 1);
    NextWord(key, 0, 2, 2);
    NextWord(key, 0, 3, 3);
  }

  lemma PlainWords(key: seq<Word>)
    requires |key| == 4
    ensures forall c {:trigger Stored(key, 40, c)} :: 0 <= c < 4 ==> Stored(key, 40, c) == Expanded(key, c)
    ensures forall c {:trigger Stored(key, 40, c)} :: 4 <= c < 8 ==> Stored(key, 40, c) == InvMcol(Expanded(key, c))
  {
    hide Expanded, InvMcol, InvMixColumn;
    forall c | 4 <= c < 8
      ensures Stored(key, 40, c) == InvMcol(Expanded(key, c))
    {
      BoxMeans(Expanded(key, c));
    }
  }

  lemma AccumulatedPlainIs(ks: seq<Word>, e: Word, p: nat, q: nat, w0: Word, w1: Word, w2: Word, w3: Word)
    requires q + 4 <= p && p + 4 <= |ks|
    requires w0 == Xor(ks[p], e) && w1 == Xor(ks[p + 1], w0) && w2 == Xor(ks[p + 2], w1) && w3 == Xor(ks[p + 3], w2)
    ensures AccumulatedPlain(ks, e, p, q) == Store4(ks, q, InvMcol(w0), InvMcol(w1), InvMcol(w2), InvMcol(w3))
  {
    hide Xor, Store4, InvMcol;
    Commute(e, ks[p]);
    Commute(w0, ks[p + 1]);
    Commute(w1, ks[p + 2]);
    Commute(w2, ks[p + 3]);
  }

  lemma MiddleTurn(ks: seq<Word>, s: seq<Word>, key: seq<Word>, i: nat, e: Word)
    requires |ks| == 60 && |key| == 4 && |s| == 4 && 1 <= i <= 8 && Storing(ks, key, 40, i + 1) && Basis(s, key, i)
    requires e == Xor(LsBox3(s[Slot(i + 3)]), Rc(i))
    ensures Basis(s[Slot(i) := Xor(s[Slot(i)], e)], key, i + 1)
    ensures Pos(40, 4 * i) == 40 - 4 * i && Pos(40, 4 * i + 4) == 36 - 4 * i
    ensures Storing(Accumulated(ks, InvMcol(e), 40 - 4 * i, 36 - 4 * i), key, 40, i + 2)
  {
    hide *;
    TurnPositions(i);
    BasisStep(s, key, i);
    PivotTempIs(key, i);
    NextInner4(ks, key, i, InvMcol(e));
  }

  lemma PivotTempIs(key: seq<Word>, i: nat)
    requires |key| == 4 && i < 10
    ensures PivotTemp(key, i) == Xor(LsBox3(Expanded(key, 4 * i + 3)), Rc(i))
  {
    hide Xor, LsBox3, Expanded, Rc;
  }

  // kd4
  method Kd4(cx: Context, s: seq<Word>, i: nat, ghost key: seq<Word>) returns (ss: seq<Word>)
    requires |cx.ks| == 60 && |key| == 4 && |s| == 4 && 1 <= i <= 8 && Storing(cx.ks, key, 40, i + 1) && Basis(s, key, i)
    modifies cx
    ensures |cx.ks| == 60 && Storing(cx.ks, key, 40, i + 2) && |ss| == 4 && Basis(ss, key, i + 1)
  {
    hide *;
    var e := Xor(LsBox3(s[Slot(i + 3)]), Rc(i));
    MiddleTurn(cx.ks, s, key, i, e);
    ss := s[Slot(i) := Xor(s[Slot(i)], e)];
    e := InvMcol(e);
    Accumulate(cx, e, Pos(40, 4 * i), Pos(40, 4 * i + 4));
  }

  // kdl4
  method Kdl4(cx: Context, s: seq<Word>, ghost key: seq<Word>)
    requires |cx.ks| == 60 && |key| == 4 && |s| == 4 && Storing(cx.ks, key, 40, 10) && Basis(s, key, 9)
    modifies cx
    ensures |cx.ks| == 60 && Storing(cx.ks, key, 40, 11)
  {
    hide *;
    var e := Xor(LsBox3(s[Slot(12)]), Rc(9));
    LastTurn(s, key, e);
    var s0, s1, s2, s3 := s[0], Xor(s[1], e), s[2], s[3];
    s0 := Xor(s0, s1);
    StoreRound(cx.ks, key, 40, 10, Xor(Xor(s0, s2), s3), Xor(s1, s3), s0, s1);
    cx.ks := Store4(cx.ks, Pos(40, 40), Xor(Xor(s0, s2), s3), Xor(s1, s3), s0, s1);
  }

  lemma LastTurn(s: seq<Word>, key: seq<Word>, e: Word)
    requires |key| == 4 && |s| == 4 && Basis(s, key, 9) && e == Xor(LsBox3(s[Slot(12)]), Rc(9))
    ensures Pos(40, 40) == 0
    ensures var s1 := Xor(s[1], e);
            var s0 := Xor(s[0], s1);
            && Stored(key, 40, 40) == Xor(Xor(s0, s[2]), s[3]) && Stored(key, 40, 41) == Xor(s1, s[3])
            && Stored(key, 40, 42) == s0 && Stored(key, 40, 43) == s1
  {
    hide *;
    LastSlots();
    Positions(40, 10, 0);
    BasisStep(s, key, 9);
    PivotTempIs(key, 9);
    LastRound(s[1 := Xor(s[1], e)], key);
    LastPlain(key);
  }

  lemma LastPlain(key: seq<Word>)
    requires |key| == 4
    ensures Stored(key, 40, 40) == Expanded(key, 40) && Stored(key, 40, 41) == Expanded(key, 41)
    ensures Stored(key, 40, 42) == Expanded(key, 42) && Stored(key, 40, 43) == Expanded(key, 43)
  {
    hide Expanded;
  }

  lemma StartStoring(ks: seq<Word>, key: seq<Word>, n: nat)
    requires |ks| == 60 && 4 <= |key| <= 8 && 4 < n <= 56
    ensures Storing(Store4(ks, n, key[0], key[1], key[2], key[3]), key, n, 1)
  {
    hide Temp, Xor;
    assert Storing(ks, key, n, 0);
    assert Expanded(key, 0) == key[0] && Expanded(key, 1) == key[1] && Expanded(key, 2) == key[2] && Expanded(key, 3) == key[3];
    hide Expanded, Store4;
    StoreRound(ks, key, n, 0, key[0], key[1], key[2], key[3]);
  }

  // Loading the key and storing the first round key at the far end.
  method StartKey128(k: array<bv8>, cx: Context) returns (ss: seq<Word>)
    requires k.Length == 16 && |cx.ks| == 60
    modifies cx
    ensures |cx.ks| == 60 && ss == KeyWords(k[..]) && |ss| == 4 && Storing(cx.ks, ss, 40, 1)
  {
    ss := [Word(k[0], k[1], k[2], k[3]), Word(k[4], k[5], k[6], k[7]), Word(k[8], k[9], k[10], k[11]),
           Word(k[12], k[13], k[14], k[15])];
    assert ss == KeyWords(k[..]);
    assert Pos(40, 0) == 40;
    hide *;
    StartStoring(cx.ks, ss, 40);
    cx.ks := Store4(cx.ks, Pos(40, 0), ss[0], ss[1], ss[2], ss[3]);
  }

  method DecryptKey128(k: array<bv8>, cx: Context)
    requires k.Length == 16 && |cx.ks| == 60
    modifies cx
    ensures cx.inf == 160 && cx.pos == 0 && Storing(cx.ks, KeyWords(k[..]), 40, 11)
  {
    hide *;
    var ss := StartKey128(k, cx);
    ghost var key := ss;
    ss := Kdf4(cx, ss, key);
    ss := Kd4(cx, ss, 1, key);
    ss := Kd4(cx, ss, 2, key);
    ss := Kd4(cx, ss, 3, key);
    ss := Kd4(cx, ss, 4, key);
    ss := Kd4(cx, ss, 5, key);
    ss := Kd4(cx, ss, 6, key);
    ss := Kd4(cx, ss, 7, key);
    ss := Kd4(cx, ss, 8, key);
    Kdl4(cx, ss, key);
    cx.inf, cx.pos := 160, 0;
  }

  // ---------------------------------------------------------------- decrypt_key256

  // The eight working words before turn i, and the four words each half of a turn derives.
  ghost predicate Working(s: seq<Word>, key: seq<Word>, i: nat) {
    && |key| == 8 && |s| == 8
    && s[0] == Expanded(key, 8 * i) && s[1] == Expanded(key, 8 * i + 1)
    && s[2] == Expanded(key, 8 * i + 2) && s[3] == Expanded(key, 8 * i + 3)
    && s[4] == Expanded(key, 8 * i + 4) && s[5] == Expanded(key, 8 * i + 5)
    && s[6] == Expanded(key, 8 * i + 6) && s[7] == Expanded(key, 8 * i + 7)
  }

  method Lower(s: seq<Word>, i: nat, ghost key: seq<Word>) returns (e: Word, s0: Word, s1: Word, s2: Word, s3: Word)
    requires |key| == 8 && |s| == 8 && i < 10 && Working(s, key, i)
    ensures e == Xor(LsBox3(Expanded(key, 8 * i + 7)), Rc(i))
    ensures s0 == Expanded(key, 8 * i + 8) && s1 == Expanded(key, 8 * i + 9)
    ensures s2 == Expanded(key, 8 * i + 10) && s3 == Expanded(key, 8 * i + 11)
  {
    hide Expanded, LsBox3, LsBox0, Xor, Rc;
    e := Xor(LsBox3(s[7]), Rc(i));
    s0 := Xor(s[0], e);
    s1, s2, s3 := Chain(s0, s[1], s[2], s[3]);
    NextWord(key, i, 0, 8 * i);
    NextWord(key, i, 1, 8 * i + 1);
    NextWord(key, i, 2, 8 * i + 2);
    NextWord(key, i, 3, 8 * i + 3);
  }

  method Upper(s: seq<Word>, s3: Word, i: nat, ghost key: seq<Word>) returns (e: Word, s4: Word, s5: Word, s6: Word, s7: Word)
    requires |key| == 8 && |s| == 8 && i < 10 && Working(s, key, i) && s3 == Expanded(key, 8 * i + 11)
    ensures e == LsBox0(Expanded(key, 8 * i + 11))
    ensures s4 == Expanded(key, 8 * i + 12) && s5 == Expanded(key, 8 * i + 13)
    ensures s6 == Expanded(key, 8 * i + 14) && s7 == Expanded(key, 8 * i + 15)
  {
    hide Expanded, LsBox3, LsBox0, Xor, Rc;
    e := LsBox0(s3);
    s4 := Xor(s[4], e);
    s5, s6, s7 := Chain(s4, s[5], s[6], s[7]);
    NextWord(key, i, 4, 8 * i + 4);
    NextWord(key, i, 5, 8 * i + 5);
    NextWord(key, i, 6, 8 * i + 6);
    NextWord(key, i, 7, 8 * i + 7);
  }

  lemma StillWorking(s: seq<Word>, key: seq<Word>, i: nat)
    requires |key| == 8 && |s| == 8
    requires s[0] == Expanded(key, 8 * i + 8) && s[1] == Expanded(key, 8 * i + 9)
    requires s[2] == Expanded(key, 8 * i + 10) && s[3] == Expanded(key, 8 * i + 11)
    requires s[4] == Expanded(key, 8 * i + 12) && s[5] == Expanded(key, 8 * i + 13)
    requires s[6] == Expanded(key, 8 * i + 14) && s[7] == Expanded(key, 8 * i + 15)
    ensures Working(s, key, i + 1)
  {
    hide Expanded;
  }

  lemma StoreImages(ks: seq<Word>, key: seq<Word>, n: nat, r: nat, w0: Word, w1: Word, w2: Word, w3: Word)
    requires |ks| == 60 && |key| >= 4 && Storing(ks, key, n, r) && 1 <= r && 4 * r + 4 <= n <= 56
    requires w0 == Expanded(key, 4 * r) && w1 == Expanded(key, 4 * r + 1)
    requires w2 == Expanded(key, 4 * r + 2) && w3 == Expanded(key, 4 * r + 3)
    ensures Pos(n, 4 * r) == n - 4 * r
    ensures Storing(Store4(ks, n - 4 * r, InvMcol(w0), InvMcol(w1), InvMcol(w2), InvMcol(w3)), key, n, r + 1)
  {
    hide Expanded, Storing, Store4, InvMcol, InvMixColumn;
    Positions(n, r, 0);
    BoxMeans(w0);
    BoxMeans(w1);
    BoxMeans(w2);
    BoxMeans(w3);
    StoreRound(ks, key, n, r, InvMcol(w0), InvMcol(w1), InvMcol(w2), InvMcol(w3));
  }

  // kdf8
  method Kdf8(cx: Context, s: seq<Word>, ghost key: seq<Word>) returns (ss: seq<Word>)
    requires |cx.ks| == 60 && |key| == 8 && |s| == 8 && Storing(cx.ks, key, 56, 2) && Working(s, key, 0)
    modifies cx
    ensures |cx.ks| == 60 && Storing(cx.ks, key, 56, 4) && |ss| == 8 && Working(ss, key, 1)
  {
    hide *;
    var e, s0, s1, s2, s3 := Lower(s, 0, key);
    StoreImages(cx.ks, key, 56, 2, s0, s1, s2, s3);
    cx.ks := Store4(cx.ks, Pos(56, 8), InvMcol(s0), InvMcol(s1), InvMcol(s2), InvMcol(s3));
    var f, s4, s5, s6, s7 := Upper(s, s3, 0, key);
    StoreImages(cx.ks, key, 56, 3, s4, s5, s6, s7);
    cx.ks := Store4(cx.ks, Pos(56, 12), InvMcol(s4), InvMcol(s5), InvMcol(s6), InvMcol(s7));
    ss := [s0, s1, s2, s3, s4, s5, s6, s7];
    StillWorking(ss, key, 0);
  }

  lemma TurnPositions8(i: nat)
    ensures Pos(56, 8 * i) == 56 - 8 * i && Pos(56, 8 * i + 4) == 52 - 8 * i
    ensures Pos(56, 8 * i + 8) == 48 - 8 * i && Pos(56, 8 * i + 12) == 44 - 8 * i
  {
    Positions(56, 2 * i, 0);
    Positions(56, 2 * i + 1, 0);
    Positions(56, 2 * i + 2, 0);
    Positions(56, 2 * i + 3, 0);
    hide Pos;
  }

  // kd8
  method Kd8(cx: Context, s: seq<Word>, i: nat, ghost key: seq<Word>) returns (ss: seq<Word>)
    requires |cx.ks| == 60 && |key| == 8 && |s| == 8 && 1 <= i <= 5 && Storing(cx.ks, key, 56, 2 * i + 2) && Working(s, key, i)
    modifies cx
    ensures |cx.ks| == 60 && Storing(cx.ks, key, 56, 2 * i + 4) && |ss| == 8 && Working(ss, key, i + 1)
  {
    hide *;
    TurnPositions8(i);
    var e, s0, s1, s2, s3 := Lower(s, i, key);
    e := InvMcol(e);
    NextInner8(cx.ks, key, i, false, e);
    Accumulate(cx, e, Pos(56, 8 * i), Pos(56, 8 * i + 8));
    var f, s4, s5, s6, s7 := Upper(s, s3, i, key);
    f := InvMcol(f);
    NextInner8(cx.ks, key, i, true, f);
    Accumulate(cx, f, Pos(56, 8 * i + 4), Pos(56, 8 * i + 12));
    ss := [s0, s1, s2, s3, s4, s5, s6, s7];
    StillWorking(ss, key, i);
  }

  // kdl8
  method Kdl8(cx: Context, s: seq<Word>, ghost key: seq<Word>)
    requires |cx.ks| == 60 && |key| == 8 && |s| == 8 && Storing(cx.ks, key, 56, 14) && Working(s, key, 6)
    modifies cx
    ensures |cx.ks| == 60 && Storing(cx.ks, key, 56, 15)
  {
    hide *;
    var e, s0, s1, s2, s3 := Lower(s, 6, key);
    LastPlain8(key);
    TurnPositions8(7);
    StoreRound(cx.ks, key, 56, 14, s0, s1, s2, s3);
    cx.ks := Store4(cx.ks, Pos(56, 56), s0, s1, s2, s3);
  }

  lemma LastPlain8(key: seq<Word>)
    requires |key| == 8
    ensures Stored(key, 56, 56) == Expanded(key, 56) && Stored(key, 56, 57) == Expanded(key, 57)
    ensures Stored(key, 56, 58) == Expanded(key, 58) && Stored(key, 56, 59) == Expanded(key, 59)
  {
    hide Expanded;
  }

  lemma KeyIsWorking(key: seq<Word>)
    requires |key| == 8
    ensures Working(key, key, 0)
    ensures key[4] == Expanded(key, 4) && key[5] == Expanded(key, 5) && key[6] == Expanded(key, 6) && key[7] == Expanded(key, 7)
  {
    hide Xor, Temp;
  }

  // The eight words of the key; the upper four belong to an inner round key.
  method StartKey256(k: array<bv8>, cx: Context) returns (ss: seq<Word>)
    requires k.Length == 32 && |cx.ks| == 60
    modifies cx
    ensures |cx.ks| == 60 && ss == KeyWords(k[..]) && |ss| == 8 && Storing(cx.ks, ss, 56, 2) && Working(ss, ss, 0)
  {
    hide *;
    ss := KeyIn(k);
    ghost var key := ss;
    TurnPositions8(0);
    StartStoring(cx.ks, key, 56);
    cx.ks := Store4(cx.ks, Pos(56, 0), ss[0], ss[1], ss[2], ss[3]);
    KeyIsWorking(key);
    StoreImages(cx.ks, key, 56, 1, ss[4], ss[5], ss[6], ss[7]);
    cx.ks := Store4(cx.ks, Pos(56, 4), InvMcol(ss[4]), InvMcol(ss[5]), InvMcol(ss[6]), InvMcol(ss[7]));
  }

  method DecryptKey256(k: array<bv8>, cx: Context)
    requires k.Length == 32 && |cx.ks| == 60
    modifies cx
    ensures cx.inf == 224 && cx.pos == 0 && Storing(cx.ks, KeyWords(k[..]), 56, 15)
  {
    hide *;
    var ss := StartKey256(k, cx);
    ghost var key := ss;
    ss := Kdf8(cx, ss, key);
    ss := Kd8(cx, ss, 1, key);
    ss := Kd8(cx, ss, 2, key);
    ss := Kd8(cx, ss, 3, key);
    ss := Kd8(cx, ss, 4, key);
    ss := Kd8(cx, ss, 5, key);
    Kdl8(cx, ss, key);
    cx.inf, cx.pos := 224, 0;
  }

  // ---------------------------------------------------------------- round trip

  // The fast schedule is the encryption schedule in reverse, its inner round keys mixed.
  lemma StoredIsReversed(ek: seq<Word>, dk: seq<Word>, key: seq<Word>, rounds: nat)
    requires 1 <= rounds <= 14 && Expanding(ek, key, 4 * rounds + 4) && Storing(dk, key, 4 * rounds, rounds + 1)
    ensures Reversed(ek, dk, rounds)
  {
    hide Expanded, InvMixColumn;
    forall r, c | 0 <= r <= rounds && 0 <= c < 4
      ensures ReversedAt(ek, dk, rounds, r, c)
    {
      assert StoredAt(dk, key, 4 * rounds, r, c);
    }
  }

  // Decryption under the decryption schedule of a key undoes encryption under its encryption
  // schedule, for every block.
  lemma DecryptUndoesEncrypt(ek: seq<Word>, dk: seq<Word>, key: seq<Word>, rounds: nat, s: seq<bv8>)
    requires 1 <= rounds <= 14 && Expanding(ek, key, 4 * rounds + 4) && Storing(dk, key, 4 * rounds, rounds + 1)
    requires |ek| == 60 && |dk| == 60 && |s| == 16
    ensures DecryptBytes(dk, rounds, EncryptBytes(ek, rounds, s)) == s
  {
    hide *;
    StoredIsReversed(ek, dk, key, rounds);
    EncryptedBytes(ek, rounds, s);
    var block := Columns(s);
    DecryptInverts(ek, dk, block, rounds);
    OctetsWords(s, Encrypted(ek, block, rounds));
    EncryptedBytes(dk, rounds, EncryptBytes(ek, rounds, s));
  }
}
