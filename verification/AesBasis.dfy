// aeskey.c: why the 128-bit decryption schedule can be run forward on four words of a rotated basis,
// storing images of the round keys only.  Nothing but the shape of the key expansion is used: ls_box
// and the round constants are any function, ff any function that is linear over exclusive or.

module AesBasis {
  import opened AesField
  import opened AesCipher

  // What word 4q takes from the word before it.
  type Box = (nat, Word) -> Word

  function Fed(box: Box, j: nat, w: Word): Word {
    if j % 4 == 0 then box(j / 4, w) else w
  }

  // The key expansion, for keys of four or eight words.
  function Grown(box: Box, key: seq<Word>, j: nat): Word
    requires |key| >= 4
  {
    if j < |key| then key[j] else Xor(Grown(box, key, j - |key|), Fed(box, j, Grown(box, key, j - 1)))
  }

  lemma GrownLast(box: Box, key: seq<Word>, j: nat)
    requires 4 <= |key| <= j
    ensures Grown(box, key, j) == Xor(Grown(box, key, j - |key|), Fed(box, j, Grown(box, key, j - 1)))
  {
    hide Xor, Fed;
  }

  ghost predicate XorLinear(ff: Word -> Word) {
    forall a, b :: ff(Xor(a, b)) == Xor(ff(a), ff(b))
  }

  // The images of the words obey the recurrence of the words.
  lemma ImageNext(box: Box, ff: Word -> Word, key: seq<Word>, j: nat)
    requires |key| >= 4 && XorLinear(ff)
    ensures ff(Grown(box, key, j + |key|)) ==
            Xor(ff(Grown(box, key, j)), ff(Fed(box, j + |key|, Grown(box, key, j + |key| - 1))))
  {
    hide Fed, Xor;
    assert Grown(box, key, j + |key|) == Xor(Grown(box, key, j), Fed(box, j + |key|, Grown(box, key, j + |key| - 1)));
  }

  lemma FourFed(box: Box, i: nat, w: Word)
    ensures Fed(box, 4 * i + 4, w) == box(i + 1, w) && Fed(box, 4 * i + 5, w) == w
    ensures Fed(box, 4 * i + 6, w) == w && Fed(box, 4 * i + 7, w) == w
  {
  }

  // One round of the expansion of a four-word key.
  lemma GrownNext(box: Box, key: seq<Word>, i: nat)
    requires |key| == 4
    ensures Grown(box, key, 4 * i + 4) == Xor(Grown(box, key, 4 * i), box(i + 1, Grown(box, key, 4 * i + 3)))
    ensures Grown(box, key, 4 * i + 5) == Xor(Grown(box, key, 4 * i + 1), Grown(box, key, 4 * i + 4))
    ensures Grown(box, key, 4 * i + 6) == Xor(Grown(box, key, 4 * i + 2), Grown(box, key, 4 * i + 5))
    ensures Grown(box, key, 4 * i + 7) == Xor(Grown(box, key, 4 * i + 3), Grown(box, key, 4 * i + 6))
  {
    hide Fed, Xor;
    FourFed(box, i, Grown(box, key, 4 * i + 3));
    FourFed(box, i, Grown(box, key, 4 * i + 4));
    FourFed(box, i, Grown(box, key, 4 * i + 5));
    FourFed(box, i, Grown(box, key, 4 * i + 6));
  }

  // ---------------------------------------------------------------- exclusive-or bookkeeping

  lemma Regroup(a: Word, b: Word, c: Word)
    ensures Xor(Xor(a, b), c) == Xor(a, Xor(b, c)) && Xor(Xor(a, b), c) == Xor(b, Xor(a, c))
    ensures Xor(Xor(a, b), c) == Xor(Xor(a, c), b)
  {
    Laws(a, b, c);
    Laws(b, a, c);
    Laws(a, c, b);
    Laws(b, c, c);
    hide Xor;
  }

  lemma Commute(a: Word, b: Word)
    ensures Xor(a, b) == Xor(b, a)
  {
    Laws(a, b, b);
    hide Xor;
  }

  // The sum of four consecutive words collapses to the two words before the odd ones.
  lemma Pairs(a: Word, b: Word, c: Word, d: Word)
    ensures Sum(a, Xor(b, a), c, Xor(d, c)) == Xor(b, d) && Xor(a, Xor(c, Xor(b, a))) == Xor(b, c)
    ensures Xor(a, Xor(Xor(c, b), Xor(b, a))) == c && Sum(a, c, b, d) == Sum(a, b, c, d)
  {
    Undo(b, a);
    Undo(d, c);
    Laws(b, c, Xor(d, c));
    Laws(c, b, a);
    Undo(Xor(c, b), a);
    Laws(c, b, Xor(b, a));
    Undo(a, b);
    Undo(c, a);
    Regroup(a, c, b);
    hide Xor;
  }

  lemma SwappedSum(a: Word, b: Word, c: Word, d: Word)
    ensures Xor(Xor(Xor(a, c), b), d) == Sum(a, b, c, d)
  {
    Pairs(a, b, c, d);
    hide Xor;
  }

  lemma Chained(w0: Word, w1: Word, w2: Word, w3: Word, t: Word)
    ensures Xor(w3, Xor(w2, Xor(w1, Xor(w0, t)))) == Xor(Sum(w0, w1, w2, w3), t)
  {
    Commute(w1, Xor(w0, t));
    Commute(w2, Xor(w1, Xor(w0, t)));
    Commute(w3, Xor(w2, Xor(w1, Xor(w0, t))));
    Regroup(w0, t, w1);
    Regroup(Xor(w0, w1), t, w2);
    Regroup(Xor(Xor(w0, w1), w2), t, w3);
    hide Xor;
  }

  // w43 + w35 = w41, where w39 = w35 + w38, w42 = w38 + w41 and w43 = w39 + w42.
  lemma Unwind1(w35: Word, w38: Word, w41: Word)
    ensures Xor(Xor(Xor(w35, w38), Xor(w38, w41)), w35) == w41
  {
    Laws(w35, w38, Xor(w38, w41));
    Undo(w41, w38);
    Laws(w38, w41, w41);
    Undo(w41, w35);
    Laws(w35, w41, w41);
    hide Xor;
  }

  // w42 + w31 + w35 = w40, where w35 = w31 + w34, w38 = w34 + w37, w41 = w37 + w40 and w42 = w38 + w41.
  lemma Unwind0(w31: Word, w34: Word, w37: Word, w40: Word)
    ensures Xor(Xor(Xor(Xor(w34, w37), Xor(w37, w40)), w31), Xor(w31, w34)) == w40
  {
    Laws(w34, w37, Xor(w37, w40));
    Undo(w40, w37);
    Laws(w37, w40, w40);
    Laws(Xor(w34, w40), w31, Xor(w31, w34));
    Undo(w34, w31);
    Laws(w31, w34, w34);
    Undo(w40, w34);
    Laws(w34, w40, w40);
    hide Xor;
  }

  // ---------------------------------------------------------------- the rotated basis

  // The last word of round m, extended back to the three combinations the basis starts from.
  function Pivot(box: Box, key: seq<Word>, m: int): Word
    requires |key| == 4
  {
    if m < -2 then Sum(key[0], key[1], key[2], key[3])
    else if m == -2 then Xor(key[1], key[3])
    else if m == -1 then Xor(key[2], key[3])
    else Grown(box, key, 4 * m + 3)
  }

  function Slot(i: nat): (s: nat)
    ensures s < 4
  {
    i % 4
  }

  lemma Slots(i: nat)
    ensures Slot(i + 4) == Slot(i) && Slot(i) != Slot(i + 1) && Slot(i) != Slot(i + 2) && Slot(i) != Slot(i + 3)
  {
  }

  lemma FirstSlots()
    ensures Slot(0) == 0 && Slot(1) == 1 && Slot(2) == 2 && Slot(3) == 3
  {
  }

  lemma LastSlots()
    ensures Slot(9) == 1 && Slot(10) == 2 && Slot(11) == 3 && Slot(12) == 0 && Slot(13) == 1
  {
  }

  // Before turn i the slots hold pivots i - 3 to i, rotated by i.
  ghost predicate OnBasis(box: Box, ss: seq<Word>, key: seq<Word>, i: nat) {
    && |ss| == 4 && |key| == 4
    && ss[Slot(i)] == Pivot(box, key, i - 3) && ss[Slot(i + 1)] == Pivot(box, key, i - 2)
    && ss[Slot(i + 2)] == Pivot(box, key, i - 1) && ss[Slot(i + 3)] == Pivot(box, key, i)
  }

  function RoundSum(box: Box, key: seq<Word>, i: nat): Word
    requires |key| == 4
  {
    Sum(Grown(box, key, 4 * i), Grown(box, key, 4 * i + 1), Grown(box, key, 4 * i + 2), Grown(box, key, 4 * i + 3))
  }

  // The sum of a round collapses to the pivot three rounds back.
  lemma RoundSumPivot(box: Box, key: seq<Word>, i: nat)
    requires |key| == 4
    ensures RoundSum(box, key, i) == Pivot(box, key, i - 3)
  {
    hide Fed, Xor, Sum;
    if i > 0 {
      FirstGrown(box, key);
      hide Grown;
      GrownNext(box, key, i - 1);
      Pairs(Grown(box, key, 4 * i), Grown(box, key, 4 * i - 3), Grown(box, key, 4 * i + 2), Grown(box, key, 4 * i - 1));
      if i > 1 {
        GrownNext(box, key, i - 2);
        Pairs(Grown(box, key, 4 * i - 3), Grown(box, key, 4 * i - 6), Grown(box, key, 4 * i - 5), ZERO);
        if i > 2 {
          GrownNext(box, key, i - 3);
          Pairs(Grown(box, key, 4 * i - 3), Grown(box, key, 4 * i - 6), Grown(box, key, 4 * i - 9), ZERO);
        }
      }
    }
  }

  lemma FirstGrown(box: Box, key: seq<Word>)
    requires |key| == 4
    ensures Grown(box, key, 0) == key[0] && Grown(box, key, 1) == key[1]
    ensures Grown(box, key, 2) == key[2] && Grown(box, key, 3) == key[3]
  {
  }

  // The recurrence of the pivots: each turn touches one slot only.
  lemma PivotStep(box: Box, key: seq<Word>, i: nat)
    requires |key| == 4
    ensures Pivot(box, key, i + 1) == Xor(Pivot(box, key, i - 3), box(i + 1, Grown(box, key, 4 * i + 3)))
  {
    hide Grown, Xor, Sum;
    RoundSumPivot(box, key, i);
    GrownNext(box, key, i);
    Chained(Grown(box, key, 4 * i), Grown(box, key, 4 * i + 1), Grown(box, key, 4 * i + 2), Grown(box, key, 4 * i + 3),
            box(i + 1, Grown(box, key, 4 * i + 3)));
  }

  lemma RotatedStep(box: Box, ss: seq<Word>, key: seq<Word>, i: nat)
    requires |ss| == 4 && |key| == 4 && OnBasis(box, ss, key, i)
    ensures ss[Slot(i + 3)] == Grown(box, key, 4 * i + 3)
    ensures OnBasis(box, ss[Slot(i) := Xor(ss[Slot(i)], box(i + 1, ss[Slot(i + 3)]))], key, i + 1)
  {
    hide Grown, Xor, Sum, Slot;
    PivotStep(box, key, i);
    Slots(i);
  }

  // kdf4's change of basis.
  function StartWords(key: seq<Word>): (ss: seq<Word>)
    requires |key| == 4
    ensures |ss| == 4
  {
    [Xor(Xor(Xor(key[0], key[2]), key[1]), key[3]), Xor(key[1], key[3]), Xor(key[2], key[3]), key[3]]
  }

  lemma StartRotated(box: Box, key: seq<Word>)
    requires |key| == 4
    ensures OnBasis(box, StartWords(key), key, 0)
  {
    hide Xor, Sum, Slot, Grown;
    FirstGrown(box, key);
    FirstSlots();
    SwappedSum(key[0], key[1], key[2], key[3]);
  }

  // The words of round n from the basis.
  lemma LastWords(box: Box, ss: seq<Word>, key: seq<Word>, n: nat)
    requires |ss| == 4 && |key| == 4 && n >= 3 && OnBasis(box, ss, key, n)
    ensures var (p0, p1, p2, p3) := (ss[Slot(n)], ss[Slot(n + 1)], ss[Slot(n + 2)], ss[Slot(n + 3)]);
            && Grown(box, key, 4 * n) == Xor(Xor(Xor(p2, p3), p0), p1) && Grown(box, key, 4 * n + 1) == Xor(p3, p1)
            && Grown(box, key, 4 * n + 2) == Xor(p2, p3) && Grown(box, key, 4 * n + 3) == p3
  {
    hide Grown, Xor;
    GrownNext(box, key, n - 1);
    GrownNext(box, key, n - 2);
    GrownNext(box, key, n - 3);
    var w := (j: nat) => Grown(box, key, j);
    Undo(w(4 * n - 1), w(4 * n + 2));
    Undo(w(4 * n + 2), w(4 * n - 1));
    Unwind1(w(4 * n - 5), w(4 * n - 2), w(4 * n + 1));
    Unwind0(w(4 * n - 9), w(4 * n - 6), w(4 * n - 3), w(4 * n));
  }

  // ---------------------------------------------------------------- the fast schedule

  // The four stored words from the running word e and the four stored before.
  function Sums(e: Word, st: seq<Word>): (r: seq<Word>)
    requires |st| == 4
    ensures |r| == 4
  {
    var w0 := Xor(e, st[0]);
    var w1 := Xor(w0, st[1]);
    var w2 := Xor(w1, st[2]);
    [w0, w1, w2, Xor(w2, st[3])]
  }

  // The basis and the stored words after n turns: kdf4 once, then kd4.
  function FastTurns(box: Box, ff: Word -> Word, key: seq<Word>, n: nat): (r: (seq<Word>, seq<Word>))
    requires |key| == 4 && n >= 1
    ensures |r.0| == 4 && |r.1| == 4
  {
    var (ss, st) := if n == 1 then (StartWords(key), key) else FastTurns(box, ff, key, n - 1);
    var e := box(n, ss[Slot(n + 2)]);
    var ss' := ss[Slot(n - 1) := Xor(ss[Slot(n - 1)], e)];
    if n == 1 then
      var w := Sums(e, key);
      (ss', [ff(w[0]), ff(w[1]), ff(w[2]), ff(w[3])])
    else (ss', Sums(ff(e), st))
  }

  // What n turns should leave: the images of round key n, and the basis of turn n.
  ghost predicate Turned(box: Box, ff: Word -> Word, key: seq<Word>, n: nat, ss: seq<Word>, st: seq<Word>) {
    && |key| == |st| == 4 && OnBasis(box, ss, key, n)
    && st[0] == ff(Grown(box, key, 4 * n)) && st[1] == ff(Grown(box, key, 4 * n + 1))
    && st[2] == ff(Grown(box, key, 4 * n + 2)) && st[3] == ff(Grown(box, key, 4 * n + 3))
  }

  // The fast schedule stores the images of the round keys, for as many turns as it is run, and its
  // basis holds what kdl4 recovers the plain round key from.
  lemma {:induction false} FastIsExpansion(box: Box, ff: Word -> Word, key: seq<Word>, n: nat)
    requires |key| == 4 && n >= 1 && XorLinear(ff)
    ensures var (ss, st) := FastTurns(box, ff, key, n); Turned(box, ff, key, n, ss, st)
  {
    hide Xor, OnBasis, Grown, Slot, Turned, StartWords, Sums, XorLinear;
    if n == 1 {
      FirstTurn(box, ff, key);
    } else {
      FastIsExpansion(box, ff, key, n - 1);
      var (ss, st) := FastTurns(box, ff, key, n - 1);
      NextTurn(box, ff, key, n - 1, ss, st);
    }
  }

  lemma FirstTurn(box: Box, ff: Word -> Word, key: seq<Word>)
    requires |key| == 4
    ensures var ss := StartWords(key);
            var e := box(1, ss[Slot(3)]);
            var w := Sums(e, key);
            Turned(box, ff, key, 1, ss[Slot(0) := Xor(ss[Slot(0)], e)], [ff(w[0]), ff(w[1]), ff(w[2]), ff(w[3])])
  {
    hide Xor, OnBasis, Grown, Slot, StartWords, Sums;
    StartRotated(box, key);
    RotatedStep(box, StartWords(key), key, 0);
    FirstGrown(box, key);
    GrownNext(box, key, 0);
    LastOfStart(key);
    FirstSum(box(1, key[3]), key, Grown(box, key, 4), Grown(box, key, 5), Grown(box, key, 6), Grown(box, key, 7));
  }

  lemma NextTurn(box: Box, ff: Word -> Word, key: seq<Word>, i: nat, ss: seq<Word>, st: seq<Word>)
    requires |ss| == 4 && Turned(box, ff, key, i, ss, st) && XorLinear(ff)
    ensures var e := box(i + 1, ss[Slot(i + 3)]);
            Turned(box, ff, key, i + 1, ss[Slot(i) := Xor(ss[Slot(i)], e)], Sums(ff(e), st))
  {
    hide Xor, OnBasis, Grown, Slot, Sums, XorLinear;
    RotatedStep(box, ss, key, i);
    ImageSums(box, ff, key, i, st, box(i + 1, ss[Slot(i + 3)]));
  }

  lemma LastOfStart(key: seq<Word>)
    requires |key| == 4
    ensures StartWords(key)[Slot(3)] == key[3] && Slot(0) == 0
  {
    FirstSlots();
    hide Xor;
  }

  lemma FirstSum(e: Word, st: seq<Word>, w0: Word, w1: Word, w2: Word, w3: Word)
    requires |st| == 4
    requires w0 == Xor(st[0], e) && w1 == Xor(st[1], w0) && w2 == Xor(st[2], w1) && w3 == Xor(st[3], w2)
    ensures Sums(e, st) == [w0, w1, w2, w3]
  {
    Commute(st[0], e);
    Commute(st[1], w0);
    Commute(st[2], w1);
    Commute(st[3], w2);
    hide Xor;
  }

  lemma ImageSums(box: Box, ff: Word -> Word, key: seq<Word>, i: nat, st: seq<Word>, e: Word)
    requires |key| == 4 && |st| == 4 && XorLinear(ff) && e == box(i + 1, Grown(box, key, 4 * i + 3))
    requires st[0] == ff(Grown(box, key, 4 * i)) && st[1] == ff(Grown(box, key, 4 * i + 1))
    requires st[2] == ff(Grown(box, key, 4 * i + 2)) && st[3] == ff(Grown(box, key, 4 * i + 3))
    ensures Sums(ff(e), st) == [ff(Grown(box, key, 4 * i + 4)), ff(Grown(box, key, 4 * i + 5)),
                                ff(Grown(box, key, 4 * i + 6)), ff(Grown(box, key, 4 * i + 7))]
  {
    hide Xor, Grown;
    GrownNext(box, key, i);
    FirstSum(ff(e), st, ff(Grown(box, key, 4 * i + 4)), ff(Grown(box, key, 4 * i + 5)),
             ff(Grown(box, key, 4 * i + 6)), ff(Grown(box, key, 4 * i + 7)));
  }
}
