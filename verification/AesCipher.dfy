// aescrypt.c: the table-driven rounds, and why decryption undoes encryption.

module AesCipher {
  import opened AesField

  type State = s: seq<Word> | |s| == 4 witness [ZERO, ZERO, ZERO, ZERO]

  // ---------------------------------------------------------------- tables

  // The columns u0..u3 and v0..v3 of aestab.c, and w0..w3 for the last rounds.
  function U0(p: bv8): Word { Word(F2(p), p, p, F3(p)) }
  function U1(p: bv8): Word { Word(F3(p), F2(p), p, p) }
  function U2(p: bv8): Word { Word(p, F3(p), F2(p), p) }
  function U3(p: bv8): Word { Word(p, p, F3(p), F2(p)) }

  function V0(p: bv8): Word { Word(FE(p), F9(p), FD(p), FB(p)) }
  function V1(p: bv8): Word { Word(FB(p), FE(p), F9(p), FD(p)) }
  function V2(p: bv8): Word { Word(FD(p), FB(p), FE(p), F9(p)) }
  function V3(p: bv8): Word { Word(F9(p), FD(p), FB(p), FE(p)) }

  function W0(p: bv8): Word { Word(p, 0, 0, 0) }
  function W1(p: bv8): Word { Word(0, p, 0, 0) }
  function W2(p: bv8): Word { Word(0, 0, p, 0) }
  function W3(p: bv8): Word { Word(0, 0, 0, p) }

  // four_tables
  function Sum(a: Word, b: Word, c: Word, d: Word): Word {
    Xor(Xor(Xor(a, b), c), d)
  }

  // ---------------------------------------------------------------- the steps of FIPS 197

  // Section 5.1.3 of FIPS 197 and its inverse, section 5.3.3.
  function MixColumn(w: Word): Word {
    Word(Sum8(F2(w.b0), F3(w.b1), w.b2, w.b3), Sum8(w.b0, F2(w.b1), F3(w.b2), w.b3),
         Sum8(w.b0, w.b1, F2(w.b2), F3(w.b3)), Sum8(F3(w.b0), w.b1, w.b2, F2(w.b3)))
  }

  function InvMixColumn(w: Word): Word {
    Word(Sum8(FE(w.b0), FB(w.b1), FD(w.b2), F9(w.b3)), Sum8(F9(w.b0), FE(w.b1), FB(w.b2), FD(w.b3)),
         Sum8(FD(w.b0), F9(w.b1), FE(w.b2), FB(w.b3)), Sum8(FB(w.b0), FD(w.b1), F9(w.b2), FE(w.b3)))
  }

  // One column of SubBytes followed by ShiftRows, and of their inverses.
  function SubShift(x: State, c: nat): Word
    requires c < 4
  {
    Word(SBox(x[c].b0), SBox(x[(c + 1) % 4].b1), SBox(x[(c + 2) % 4].b2), SBox(x[(c + 3) % 4].b3))
  }

  function InvSubShift(x: State, c: nat): Word
    requires c < 4
  {
    Word(InvSBox(x[c].b0), InvSBox(x[(c + 3) % 4].b1), InvSBox(x[(c + 2) % 4].b2), InvSBox(x[(c + 1) % 4].b3))
  }

  // ---------------------------------------------------------------- rounds

  // fwd_rnd, fwd_lrnd, inv_rnd and inv_lrnd for one column.
  function FwdRound(x: State, k: Word, c: nat): Word
    requires c < 4
  {
    Xor(k, Sum(U0(SBox(x[c].b0)), U1(SBox(x[(c + 1) % 4].b1)), U2(SBox(x[(c + 2) % 4].b2)), U3(SBox(x[(c + 3) % 4].b3))))
  }

  function FwdLast(x: State, k: Word, c: nat): Word
    requires c < 4
  {
    Xor(k, Sum(W0(SBox(x[c].b0)), W1(SBox(x[(c + 1) % 4].b1)), W2(SBox(x[(c + 2) % 4].b2)), W3(SBox(x[(c + 3) % 4].b3))))
  }

  function InvRound(x: State, k: Word, c: nat): Word
    requires c < 4
  {
    Xor(k, Sum(V0(InvSBox(x[c].b0)), V1(InvSBox(x[(c + 3) % 4].b1)), V2(InvSBox(x[(c + 2) % 4].b2)),
               V3(InvSBox(x[(c + 1) % 4].b3))))
  }

  function InvLast(x: State, k: Word, c: nat): Word
    requires c < 4
  {
    Xor(k, Sum(W0(InvSBox(x[c].b0)), W1(InvSBox(x[(c + 3) % 4].b1)), W2(InvSBox(x[(c + 2) % 4].b2)),
               W3(InvSBox(x[(c + 1) % 4].b3))))
  }

  lemma ForwardTables(a: bv8, b: bv8, c: bv8, d: bv8)
    ensures Sum(U0(a), U1(b), U2(c), U3(d)) == MixColumn(Word(a, b, c, d))
    ensures Sum(V0(a), V1(b), V2(c), V3(d)) == InvMixColumn(Word(a, b, c, d))
  {
    hide F2, F3, F9, FB, FD, FE, Xor8;
  }

  lemma LastTables(a: bv8, b: bv8, c: bv8, d: bv8)
    ensures Sum(W0(a), W1(b), W2(c), W3(d)) == Word(a, b, c, d)
  {
    Zeros(a);
    Zeros(b);
    Zeros(c);
    Zeros(d);
    hide Xor8;
  }

  lemma Zeros(a: bv8)
    ensures Xor8(a, 0) == a && Xor8(0, a) == a && Xor8(0, 0) == 0
  {
  }

  // What each round computes.
  lemma ForwardMeans(x: State, k: Word, c: nat)
    requires c < 4
    ensures FwdRound(x, k, c) == Xor(k, MixColumn(SubShift(x, c)))
  {
    ForwardTables(SBox(x[c].b0), SBox(x[(c + 1) % 4].b1), SBox(x[(c + 2) % 4].b2), SBox(x[(c + 3) % 4].b3));
    hide SBox, Sum, Xor, MixColumn, U0, U1, U2, U3;
  }

  lemma ForwardLastMeans(x: State, k: Word, c: nat)
    requires c < 4
    ensures FwdLast(x, k, c) == Xor(k, SubShift(x, c))
  {
    LastTables(SBox(x[c].b0), SBox(x[(c + 1) % 4].b1), SBox(x[(c + 2) % 4].b2), SBox(x[(c + 3) % 4].b3));
    hide SBox, Sum, Xor, W0, W1, W2, W3;
  }

  lemma BackwardMeans(x: State, k: Word, c: nat)
    requires c < 4
    ensures InvRound(x, k, c) == Xor(k, InvMixColumn(InvSubShift(x, c)))
  {
    ForwardTables(InvSBox(x[c].b0), InvSBox(x[(c + 3) % 4].b1), InvSBox(x[(c + 2) % 4].b2), InvSBox(x[(c + 1) % 4].b3));
    hide InvSBox, Sum, Xor, InvMixColumn, V0, V1, V2, V3;
  }

  lemma BackwardLastMeans(x: State, k: Word, c: nat)
    requires c < 4
    ensures InvLast(x, k, c) == Xor(k, InvSubShift(x, c))
  {
    LastTables(InvSBox(x[c].b0), InvSBox(x[(c + 3) % 4].b1), InvSBox(x[(c + 2) % 4].b2), InvSBox(x[(c + 1) % 4].b3));
    hide InvSBox, Sum, Xor, W0, W1, W2, W3;
  }

  // ---------------------------------------------------------------- inverses

  // One byte of the product of the two column matrices; the other three are its rotations.
  lemma MixedByte(a: bv8, b: bv8, c: bv8, d: bv8)
    ensures Sum8(FE(Sum8(F2(a), F3(b), c, d)), FB(Sum8(a, F2(b), F3(c), d)), FD(Sum8(a, b, F2(c), F3(d))),
                 F9(Sum8(F3(a), b, c, F2(d)))) == a
  {
    LinearSum(F2(a), F3(b), c, d);
    LinearSum(a, F2(b), F3(c), d);
    LinearSum(a, b, F2(c), F3(d));
    LinearSum(F3(a), b, c, F2(d));
    MatrixDiagonal(a);
    MatrixUpper(b);
    MatrixOpposite(c);
    MatrixLower(d);
    Zeros(a);
    hide F2, F3, F9, FB, FD, FE, Xor8;
    Transpose(FE(F2(a)), FE(F3(b)), FE(c), FE(d), FB(a), FB(F2(b)), FB(F3(c)), FB(d),
              FD(a), FD(b), FD(F2(c)), FD(F3(d)), F9(F3(a)), F9(b), F9(c), F9(F2(d)));
  }

  lemma MixInverse(w: Word)
    ensures InvMixColumn(MixColumn(w)) == w
  {
    var a, b, c, d := w.b0, w.b1, w.b2, w.b3;
    MixedByte(a, b, c, d);
    MixedByte(b, c, d, a);
    MixedByte(c, d, a, b);
    MixedByte(d, a, b, c);
    RotatedRows(a, b, c, d);
    RotatedRows(b, c, d, a);
    RotatedRows(c, d, a, b);
    RotatedRows(d, a, b, c);
    hide F2, F3, F9, FB, FD, FE, Sum8;
    var m := MixColumn(w);
    RotatedSums(FE(m.b1), FB(m.b2), FD(m.b3), F9(m.b0));
    RotatedSums(FE(m.b2), FB(m.b3), FD(m.b0), F9(m.b1));
    RotatedSums(FE(m.b3), FB(m.b0), FD(m.b1), F9(m.b2));
  }

  lemma RotatedSums(a: bv8, b: bv8, c: bv8, d: bv8)
    ensures Sum8(a, b, c, d) == Sum8(b, c, d, a) && Sum8(a, b, c, d) == Sum8(c, d, a, b) && Sum8(a, b, c, d) == Sum8(d, a, b, c)
  {
    Rotated(a, b, c, d);
    Rotated(b, c, d, a);
    Rotated(c, d, a, b);
    hide Sum8;
  }

  // The rows of the forward matrix, each starting from the byte a.
  lemma RotatedRows(a: bv8, b: bv8, c: bv8, d: bv8)
    ensures Sum8(F2(a), F3(b), c, d) == Sum8(F3(b), c, d, F2(a)) && Sum8(F2(a), F3(b), c, d) == Sum8(c, d, F2(a), F3(b))
    ensures Sum8(F2(a), F3(b), c, d) == Sum8(d, F2(a), F3(b), c)
  {
    RotatedSums(F2(a), F3(b), c, d);
    hide Sum8, F2, F3;
  }

  lemma InvMixLinear(x: Word, y: Word)
    ensures InvMixColumn(Xor(x, y)) == Xor(InvMixColumn(x), InvMixColumn(y))
  {
    Linear(x.b0, y.b0);
    Linear(x.b1, y.b1);
    Linear(x.b2, y.b2);
    Linear(x.b3, y.b3);
    hide F9, FB, FD, FE, Xor8, Sum8;
    PairSum(FE(x.b0), FB(x.b1), FD(x.b2), F9(x.b3), FE(y.b0), FB(y.b1), FD(y.b2), F9(y.b3));
    PairSum(F9(x.b0), FE(x.b1), FB(x.b2), FD(x.b3), F9(y.b0), FE(y.b1), FB(y.b2), FD(y.b3));
    PairSum(FD(x.b0), F9(x.b1), FE(x.b2), FB(x.b3), FD(y.b0), F9(y.b1), FE(y.b2), FB(y.b3));
    PairSum(FB(x.b0), FD(x.b1), F9(x.b2), FE(x.b3), FB(y.b0), FD(y.b1), F9(y.b2), FE(y.b3));
  }

  // y holds the substituted and shifted columns of x.
  ghost predicate Substituted(y: State, x: State) {
    forall c :: 0 <= c < 4 ==> y[c] == SubShift(x, c)
  }

  lemma Turns(c: nat)
    requires c < 4
    ensures ((c + 3) % 4 + 1) % 4 == c && ((c + 2) % 4 + 2) % 4 == c && ((c + 1) % 4 + 3) % 4 == c
  {
  }

  lemma SubShiftInverse(y: State, x: State, c: nat)
    requires Substituted(y, x) && c < 4
    ensures InvSubShift(y, c) == x[c]
  {
    InverseTables(x[c].b0);
    InverseTables(x[c].b1);
    InverseTables(x[c].b2);
    InverseTables(x[c].b3);
    Turns(c);
    var c1, c2, c3 := (c + 1) % 4, (c + 2) % 4, (c + 3) % 4;
    assert y[c] == SubShift(x, c) && y[c1] == SubShift(x, c1) && y[c2] == SubShift(x, c2) && y[c3] == SubShift(x, c3);
    hide SBox, InvSBox, Substituted;
  }

  // ---------------------------------------------------------------- whole blocks

  // The state with round key kp..kp+3 added to a block's words.
  function AddKey(words: State, ks: seq<Word>, kp: nat): State
    requires kp + 4 <= |ks|
  {
    [Xor(words[0], ks[kp]), Xor(words[1], ks[kp + 1]), Xor(words[2], ks[kp + 2]), Xor(words[3], ks[kp + 3])]
  }

  function Forward(x: State, ks: seq<Word>, kp: nat): State
    requires kp + 4 <= |ks|
  {
    [FwdRound(x, ks[kp], 0), FwdRound(x, ks[kp + 1], 1), FwdRound(x, ks[kp + 2], 2), FwdRound(x, ks[kp + 3], 3)]
  }

  function ForwardLast(x: State, ks: seq<Word>, kp: nat): State
    requires kp + 4 <= |ks|
  {
    [FwdLast(x, ks[kp], 0), FwdLast(x, ks[kp + 1], 1), FwdLast(x, ks[kp + 2], 2), FwdLast(x, ks[kp + 3], 3)]
  }

  function Backward(x: State, ks: seq<Word>, kp: nat): State
    requires kp + 4 <= |ks|
  {
    [InvRound(x, ks[kp], 0), InvRound(x, ks[kp + 1], 1), InvRound(x, ks[kp + 2], 2), InvRound(x, ks[kp + 3], 3)]
  }

  function BackwardLast(x: State, ks: seq<Word>, kp: nat): State
    requires kp + 4 <= |ks|
  {
    [InvLast(x, ks[kp], 0), InvLast(x, ks[kp + 1], 1), InvLast(x, ks[kp + 2], 2), InvLast(x, ks[kp + 3], 3)]
  }

  // The state after i full rounds, forwards and backwards.
  function EncState(ks: seq<Word>, block: State, i: nat): State
    requires 4 * i + 4 <= |ks|
  {
    if i == 0 then AddKey(block, ks, 0) else Forward(EncState(ks, block, i - 1), ks, 4 * i)
  }

  function DecState(ks: seq<Word>, block: State, i: nat): State
    requires 4 * i + 4 <= |ks|
  {
    if i == 0 then AddKey(block, ks, 0) else Backward(DecState(ks, block, i - 1), ks, 4 * i)
  }

  function Encrypted(ks: seq<Word>, block: State, rounds: nat): State
    requires 1 <= rounds && 4 * rounds + 4 <= |ks|
  {
    ForwardLast(EncState(ks, block, rounds - 1), ks, 4 * rounds)
  }

  function Decrypted(ks: seq<Word>, block: State, rounds: nat): State
    requires 1 <= rounds && 4 * rounds + 4 <= |ks|
  {
    BackwardLast(DecState(ks, block, rounds - 1), ks, 4 * rounds)
  }

  // The decryption schedule of section 5.3.5 of FIPS 197: the encryption schedule in reverse order
  // of rounds, with the inverse column mix applied to all but the outer two round keys.
  ghost predicate Reversed(ek: seq<Word>, dk: seq<Word>, rounds: nat) {
    && |ek| >= 4 * rounds + 4 && |dk| >= 4 * rounds + 4
    && forall r, c :: 0 <= r <= rounds && 0 <= c < 4 ==> ReversedAt(ek, dk, rounds, r, c)
  }

  ghost predicate ReversedAt(ek: seq<Word>, dk: seq<Word>, rounds: nat, r: nat, c: nat)
    requires |ek| >= 4 * rounds + 4 && |dk| >= 4 * rounds + 4 && r <= rounds && c < 4
  {
    dk[4 * (rounds - r) + c] == if 0 < r < rounds then InvMixColumn(ek[4 * r + c]) else ek[4 * r + c]
  }

  // Peeling off one round: the decryption state is the substituted encryption state.
  lemma PeelColumn(x: State, x': State, y: State, k: Word, c: nat)
    requires c < 4 && Substituted(y, x) && x[c] == FwdRound(x', k, c)
    ensures InvRound(y, InvMixColumn(k), c) == SubShift(x', c)
  {
    hide InvMixColumn, MixColumn, Xor, SubShift, InvSubShift, FwdRound, InvRound, Substituted;
    ForwardMeans(x', k, c);
    BackwardMeans(y, InvMixColumn(k), c);
    SubShiftInverse(y, x, c);
    var m := MixColumn(SubShift(x', c));
    InvMixLinear(k, m);
    MixInverse(SubShift(x', c));
    Undo(InvMixColumn(m), InvMixColumn(k));
  }

  lemma OuterState(ek: seq<Word>, dk: seq<Word>, x: State, ct: State, rounds: nat)
    requires rounds >= 1 && Reversed(ek, dk, rounds) && ct == ForwardLast(x, ek, 4 * rounds)
    ensures Substituted(AddKey(ct, dk, 0), x)
  {
    hide AddKey, ForwardLast, SubShift;
    forall c | 0 <= c < 4
      ensures AddKey(ct, dk, 0)[c] == SubShift(x, c)
    {
      OuterColumn(ek, dk, x, ct, rounds, c);
    }
  }

  // x is the state after round r of encryption and y its substituted form; one inverse round goes
  // back to the substituted state before.
  lemma InnerState(ek: seq<Word>, dk: seq<Word>, x: State, x': State, y: State, rounds: nat, r: nat)
    requires Reversed(ek, dk, rounds) && 0 < r < rounds && x == Forward(x', ek, 4 * r) && Substituted(y, x)
    ensures Substituted(Backward(y, dk, 4 * (rounds - r)), x')
  {
    hide Backward, Forward, SubShift, ReversedAt;
    forall c | 0 <= c < 4
      ensures Backward(y, dk, 4 * (rounds - r))[c] == SubShift(x', c)
    {
      MiddleColumn(ek, dk, x, x', y, rounds, r, c);
    }
  }

  lemma MiddleColumn(ek: seq<Word>, dk: seq<Word>, x: State, x': State, y: State, rounds: nat, r: nat, c: nat)
    requires Reversed(ek, dk, rounds) && 0 < r < rounds && c < 4
    requires x == Forward(x', ek, 4 * r) && Substituted(y, x)
    ensures Backward(y, dk, 4 * (rounds - r))[c] == SubShift(x', c)
  {
    hide Forward, Backward, SubShift, InvMixColumn, FwdRound, InvRound, ForwardLast, BackwardLast, AddKey, Substituted, Xor, FwdLast,
         InvLast;
    assert ReversedAt(ek, dk, rounds, r, c);
    var kp := 4 * (rounds - r);
    ForwardColumn(x', ek, 4 * r, c);
    BackwardColumn(y, dk, kp, c);
    assert dk[kp + c] == InvMixColumn(ek[4 * r + c]);
    PeelColumn(x, x', y, ek[4 * r + c], c);
  }

  lemma {:induction false} Unwound(ek: seq<Word>, dk: seq<Word>, block: State, rounds: nat, i: nat)
    requires |ek| >= 4 * rounds + 4 && |dk| >= 4 * rounds + 4 && Reversed(ek, dk, rounds) && i < rounds
    ensures Substituted(DecState(dk, Encrypted(ek, block, rounds), i), EncState(ek, block, rounds - 1 - i))
  {
    hide *;
    if i == 0 {
      Unwind0(ek, dk, block, rounds);
    } else {
      Unwound(ek, dk, block, rounds, i - 1);
      UnwindNext(ek, dk, block, rounds, i);
    }
  }

  lemma Unwind0(ek: seq<Word>, dk: seq<Word>, block: State, rounds: nat)
    requires |ek| >= 4 * rounds + 4 && |dk| >= 4 * rounds + 4 && Reversed(ek, dk, rounds) && rounds > 0
    ensures Substituted(DecState(dk, Encrypted(ek, block, rounds), 0), EncState(ek, block, rounds - 1))
  {
    EncStep(ek, block, rounds, rounds - 1);
    DecStep(dk, Encrypted(ek, block, rounds), 0);
    hide *;
    OuterState(ek, dk, EncState(ek, block, rounds - 1), Encrypted(ek, block, rounds), rounds);
  }

  lemma UnwindNext(ek: seq<Word>, dk: seq<Word>, block: State, rounds: nat, i: nat)
    requires |ek| >= 4 * rounds + 4 && |dk| >= 4 * rounds + 4 && Reversed(ek, dk, rounds) && 0 < i < rounds
    requires Substituted(DecState(dk, Encrypted(ek, block, rounds), i - 1), EncState(ek, block, rounds - i))
    ensures Substituted(DecState(dk, Encrypted(ek, block, rounds), i), EncState(ek, block, rounds - 1 - i))
  {
    hide *;
    var ct, r := Encrypted(ek, block, rounds), rounds - i;
    var x, x', y, y' := EncState(ek, block, r), EncState(ek, block, r - 1), DecState(dk, ct, i - 1), DecState(dk, ct, i);
    assert x == Forward(x', ek, 4 * r) by { EncStep(ek, block, rounds, r); }
    assert y' == Backward(y, dk, 4 * (rounds - r)) by { DecStep(dk, ct, i); }
    InnerState(ek, dk, x, x', y, rounds, r);
  }

  lemma EncStep(ks: seq<Word>, block: State, rounds: nat, i: nat)
    requires i < rounds && 4 * rounds + 4 <= |ks|
    ensures i > 0 ==> EncState(ks, block, i) == Forward(EncState(ks, block, i - 1), ks, 4 * i)
    ensures i == rounds - 1 ==> Encrypted(ks, block, rounds) == ForwardLast(EncState(ks, block, i), ks, 4 * rounds)
  {
    hide Forward, ForwardLast, AddKey;
  }

  lemma DecStep(ks: seq<Word>, block: State, i: nat)
    requires 4 * i + 4 <= |ks|
    ensures DecState(ks, block, i) == if i == 0 then AddKey(block, ks, 0) else Backward(DecState(ks, block, i - 1), ks, 4 * i)
  {
    hide Backward, AddKey;
  }

  lemma ForwardColumn(x: State, ks: seq<Word>, kp: nat, c: nat)
    requires kp + 4 <= |ks| && c < 4
    ensures Forward(x, ks, kp)[c] == FwdRound(x, ks[kp + c], c)
    ensures ForwardLast(x, ks, kp)[c] == FwdLast(x, ks[kp + c], c)
  {
    hide FwdRound, FwdLast;
  }

  lemma BackwardColumn(x: State, ks: seq<Word>, kp: nat, c: nat)
    requires kp + 4 <= |ks| && c < 4
    ensures Backward(x, ks, kp)[c] == InvRound(x, ks[kp + c], c)
    ensures BackwardLast(x, ks, kp)[c] == InvLast(x, ks[kp + c], c)
    ensures AddKey(x, ks, kp)[c] == Xor(x[c], ks[kp + c])
  {
    hide InvRound, InvLast, Xor;
  }

  // The last encryption round meets the first key of the reversed schedule.
  lemma OuterColumn(ek: seq<Word>, dk: seq<Word>, x: State, ct: State, rounds: nat, c: nat)
    requires rounds >= 1 && Reversed(ek, dk, rounds) && c < 4
    requires ct == ForwardLast(x, ek, 4 * rounds)
    ensures AddKey(ct, dk, 0)[c] == SubShift(x, c)
  {
    hide Xor, SubShift, InvMixColumn, FwdLast, AddKey, ForwardLast, BackwardLast, Forward, InvLast;
    assert ReversedAt(ek, dk, rounds, rounds, c);
    ForwardColumn(x, ek, 4 * rounds, c);
    BackwardColumn(ct, dk, 0, c);
    ForwardLastMeans(x, ek[4 * rounds + c], c);
    Undo(SubShift(x, c), ek[4 * rounds + c]);
  }

  // Decryption undoes encryption, for any schedules related in this way.
  lemma DecryptInverts(ek: seq<Word>, dk: seq<Word>, block: State, rounds: nat)
    requires rounds >= 1 && Reversed(ek, dk, rounds)
    ensures Decrypted(dk, Encrypted(ek, block, rounds), rounds) == block
  {
    hide Forward, Backward, BackwardLast, ForwardLast, AddKey, ReversedAt, SubShift;
    var y := DecState(dk, Encrypted(ek, block, rounds), rounds - 1);
    var x := EncState(ek, block, 0);
    Unwound(ek, dk, block, rounds, rounds - 1);
    forall c | 0 <= c < 4
      ensures BackwardLast(y, dk, 4 * rounds)[c] == block[c]
    {
      InnerColumn(ek, dk, block, y, rounds, c);
    }
  }

  lemma InnerColumn(ek: seq<Word>, dk: seq<Word>, block: State, y: State, rounds: nat, c: nat)
    requires rounds >= 1 && Reversed(ek, dk, rounds) && c < 4
    requires Substituted(y, AddKey(block, ek, 0))
    ensures BackwardLast(y, dk, 4 * rounds)[c] == block[c]
  {
    hide Xor, InvSubShift, SubShift, InvMixColumn, InvLast, AddKey, BackwardLast, ForwardLast, InvRound, Backward;
    assert ReversedAt(ek, dk, rounds, 0, c);
    BackwardColumn(y, dk, 4 * rounds, c);
    BackwardColumn(block, ek, 0, c);
    BackwardLastMeans(y, dk[4 * rounds + c], c);
    SubShiftInverse(y, AddKey(block, ek, 0), c);
    Undo(block[c], ek[c]);
  }
}
