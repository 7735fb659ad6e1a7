// ecdsa.c: k*G by a comb over a table of multiples of G, from the lowest digit up.

module ScalarMultiply {
  import opened Words
  import opened Limbs
  import opened Bignum
  import opened Field
  import opened PrimeField
  import opened Curves
  import opened Multiples
  import opened MultiplySteps
  import opened Points
  import opened Jacobian
  import opened Recode
  import opened Scalars
  import opened PointMultiply
  import BignumAdd

  // What secp256k1.table is taken to hold: cp[i][j] = (2j+1) * 16^i * G.
  ghost predicate CombTable(c: Curve, G: Point, cp: seq<seq<Entry>>)
    requires ValidCurve(c) && OnCurve(c, G)
  {
    |cp| == 64 && forall i :: 0 <= i < 64 ==> CombRow(c, G, cp[i], i)
  }

  ghost predicate CombRow(c: Curve, G: Point, row: seq<Entry>, i: nat)
    requires ValidCurve(c) && OnCurve(c, G)
  {
    |row| == 8 && forall j :: 0 <= j < 8 ==> EntryIs(c, G, row[j], (2 * j + 1) * Pow(16, i))
  }

  // ---------------------------------------------------------------- shifting the scalar

  // "shift a by 4 places"
  method ShiftFour(a: Bignum256)
    requires Normalized(a.val)
    modifies a
    ensures Normalized(a.val) && V(a.val) == old(V(a.val)) / 16
  {
    ghost var a0 := a.val;
    var j := 0;
    while j < 8
      invariant 0 <= j <= 8
      invariant forall k :: 0 <= k < j ==> a.val[k] == a0[k] / 16 + (a0[k + 1] % 16) * 0x400_0000
      invariant forall k :: j <= k < 9 ==> a.val[k] == a0[k]
    {
      Nibble(a.val[j], a.val[j + 1]);
      a.val := a.val[j := Or(Shr(a.val[j], 4), And(a.val[j + 1], 0xF) * 0x400_0000)];
      j := j + 1;
    }
    a.val := a.val[8 := a.val[8] / 16];
    ShiftedLimbs(a0, a.val);
    Sixteenth(V(a0), V(a.val), a0[0]);
  }

  lemma Nibble(lo: uint32, hi: uint32)
    requires lo < W30
    ensures Or(Shr(lo, 4), And(hi, 0xF) * 0x400_0000) == lo / 16 + (hi % 16) * 0x400_0000
    ensures 0 <= lo / 16 + (hi % 16) * 0x400_0000 < W30
  {
    Pow2Small();
    Pow2Values();
    AndMask(hi, 4);
    Pow2Add(26, 4);
    hide And, Or, Pow2;
    OrDisjoint(lo / 16, hi % 16, 26);
  }

  lemma Sixteenth(v: int, q: int, low: int)
    requires 16 * q + low % 16 == v
    ensures q == v / 16
  {
  }

  lemma {:induction false} ShiftedLimbs(s: seq<int>, h: seq<int>)
    requires |s| == |h| > 0 && Normalized(s)
    requires forall k :: 0 <= k < |s| - 1 ==> h[k] == s[k] / 16 + (s[k + 1] % 16) * 0x400_0000
    requires h[|s| - 1] == s[|s| - 1] / 16
    ensures Normalized(h) && 16 * V(h) + s[0] % 16 == V(s)
  {
    BignumAdd.SplitHead(s);
    BignumAdd.SplitHead(h);
    if |s| == 1 {
    } else {
      ShiftedLimbs(s[1..], h[1..]);
      assert forall k :: 1 <= k < |h| ==> h[k] == h[1..][k - 1];
    }
  }

  // ---------------------------------------------------------------- digits from below

  lemma LowBits(a: seq<uint32>)
    requires |a| == 9 && Normalized(a)
    ensures And(a[0], 31) == V(a) % 32 && 0 <= V(a) % 32 < 32
  {
    BignumAdd.SplitHead(a);
    Mask31(a[0]);
    DivAddMultiple(a[0], 0x200_0000 * V(a[1..]), 32);
  }

  // The parity of the masked bits: bit 0 of a window that is kept, or of its complement.
  lemma KeptParity(w: uint32)
    requires 16 <= w < 32
    ensures And(Xor(w, SignMask(w)), 15) % 2 == w % 2
  {
    hide And, Xor;
    Masks(w);
    LowNibble(w, 1);
  }

  lemma FlippedParity(w: uint32)
    requires w < 16
    ensures And(Xor(w, SignMask(w)), 15) % 2 == 1 - w % 2
  {
    hide And, Xor;
    Masks(w);
    Masks(W32 - 1 - w);
    LowNibble(W32 - 1 - w, 0x0FFF_FFFF);
    DivModUnique(15 - w, 2, 7 - w / 2, 1 - w % 2);
  }

  lemma LowNibble(w: int, q: int)
    requires 0 <= w - 16 * q < 16
    ensures w % 16 == w - 16 * q && (w % 16) % 2 == (w - 16 * q) % 2
    ensures q == 1 ==> (w % 16) % 2 == w % 2
  {
    DivModUnique(w, 16, q, w - 16 * q);
  }

  // Bit 0 of the next window is bit 4 of this one.
  lemma NextParity(a: int, i: nat)
    ensures Window(a, i + 1) % 2 == 1 <==> Window(a, i) >= 16
  {
    NextQuotient(a, i);
    ParityOfSixteenth(a / Pow(16, i));
    ParityOfRemainder(a / Pow(16, i) / 16);
  }

  lemma ParityOfSixteenth(q: int)
    ensures (q / 16) % 2 == 1 <==> q % 32 >= 16
  {
    var h, w := q / 32, q % 32;
    var b := w / 16;
    DivModUnique(q, 16, 2 * h + b, w - 16 * b);
    DivModUnique(2 * h + b, 2, h, b);
  }

  lemma ParityOfRemainder(u: int)
    ensures u % 32 % 2 == u % 2
  {
    var m, r := u / 32, u % 32;
    DivModUnique(u, 2, 16 * m + r / 2, r % 2);
  }

  // The sign of digit i as a mask.
  function MaskAt(a: int, i: nat): (m: uint32)
  {
    if Window(a, i) >= 16 then 0 else W32 - 1
  }

  lemma WindowRange(a: int, i: nat)
    ensures 0 <= Window(a, i) < 32
  {
  }

  // The flip is asked for exactly when the sign changes.
  lemma CombFlip(a: int, i: nat)
    ensures 0 <= Window(a, i) < 32
    ensures i > 0 ==> And(Xor(Window(a, i), SignMask(Window(a, i))), 15) % 2 ==
                      if MaskAt(a, i - 1) == MaskAt(a, i) then 1 else 0
  {
    var w := Window(a, i);
    hide And, Xor, Window, SignMask;
    WindowRange(a, i);
    if w >= 16 {
      KeptParity(w);
    } else {
      FlippedParity(w);
    }
    if i > 0 {
      NextParity(a, i - 1);
    }
  }

  lemma MaskBySubtraction(w: uint32)
    requires w < 32
    ensures (w / 16 - 1) % W32 == SignMask(w)
  {
  }

  // One round: the digit's index, and whether the sum so far changes sign.
  method DecodeComb(lowbits: uint32, ghost a: int, ghost i: nat) returns (cond: uint32, index: uint32)
    requires lowbits == Window(a, i) && lowbits < 32
    ensures index < 8 && Digit(a, i) == Signed(MaskAt(a, i), 2 * index + 1)
    ensures i > 0 ==> cond == if MaskAt(a, i - 1) == MaskAt(a, i) then 0 else W32 - 1
  {
    DigitEntry(a, i, lowbits);
    CombFlip(a, i);
    MaskBySubtraction(lowbits);
    hide Xor, And, Window, Digit, Signed;
    var low: uint32 := And(Xor(lowbits, (lowbits / 16 - 1) % W32), 15);
    cond := (low % 2 - 1) % W32;
    index := low / 2;
  }

  lemma LowSumNonzero(k: int, n: int, i: nat)
    requires GroupOrder(n) && 0 < k < n && 0 < i <= 64
    ensures LowSum(Recoded(k, n), i) % n != 0
  {
    hide Pow, Recodable, HighSum, LowSum, Recoded;
    RecodedSum(k, n);
    if i < 64 {
      LowerSumNonzero(Recoded(k, n), n, i);
    }
  }

  lemma LowerSumNonzero(a: int, n: int, i: nat)
    requires GroupOrder(n) && 0 < i < 64 && Recodable(a)
    ensures LowSum(a, i) % n != 0
  {
    hide Pow, Recodable, LowSum;
    Pow16Values(n);
    LowSumRange(a, i);
    PowMonotone(i);
    NotAMultiple(LowSum(a, i), Pow(16, i), n);
  }

  lemma {:induction false} PowerNonzero(n: int, i: nat)
    requires IsPrime(n) && GroupOrder(n)
    ensures Pow(16, i) % n != 0
  {
    if i == 0 {
      SmallMod(1, n);
    } else {
      PowerNonzero(n, i - 1);
      SmallMod(16, n);
      NoZeroDivisors(16, Pow(16, i - 1), n);
    }
  }

  lemma EntryNonzero(n: int, e: int, i: nat)
    requires IsPrime(n) && GroupOrder(n) && 0 < e < 16
    ensures (e * Pow(16, i)) % n != 0
  {
    PowerNonzero(n, i);
    SmallMultiple(e, n);
    NoZeroDivisors(e, Pow(16, i), n);
  }

  // The new sum, seen from the sign of the last digit and of the next.
  lemma CombSum(a: int, i: nat, mask: uint32, next: uint32, e: int, n: int)
    requires n > 0 && (mask == 0 || mask == W32 - 1) && (next == 0 || next == W32 - 1)
    requires Digit(a, i) == Signed(next, e) && LowSum(a, i + 1) % n != 0
    ensures var m := Signed(mask, LowSum(a, i));
      e * Pow(16, i) + (if mask == next then m else -m) == Signed(next, LowSum(a, i + 1))
    ensures Signed(next, LowSum(a, i + 1)) % n != 0
  {
    assert LowSum(a, i + 1) == LowSum(a, i) + Pow(16, i) * Digit(a, i);
    hide LowSum, Digit, Pow;
    CombTerms(LowSum(a, i), Pow(16, i), mask, next, e);
    if next != 0 {
      NegNonzero(LowSum(a, i + 1), n);
    }
  }

  lemma CombTerms(l: int, w: int, mask: uint32, next: uint32, e: int)
    requires (mask == 0 || mask == W32 - 1) && (next == 0 || next == W32 - 1)
    ensures var m := Signed(mask, l);
      e * w + (if mask == next then m else -m) == Signed(next, l + w * Signed(next, e))
  {
    assert w * (-e) == -(e * w);
  }

  // Flipping y when the sign changes, then adding the entry for 16^i.
  method CombRound(cond: uint32, entry: Entry, jres: JacobianPoint, curve: EcdsaCurve,
                   ghost c: Curve, ghost n: int, ghost G: Point, ghost m: int, ghost e: int)
    requires Describes(curve, c, n) && HasOrder(c, n, G) && n > 2 && Distinct(jres)
    requires curve.prime !in {jres.x, jres.y, jres.z} && curve.order !in {jres.x, jres.y, jres.z}
    requires cond == 0 || cond == W32 - 1
    requires AtMultiple(c, n, G, jres, m) && EntryIs(c, G, entry, e) && e % n != 0
    requires (e + if cond != 0 then -m else m) % n != 0
    modifies jres.x, jres.y, jres.z
    ensures AtMultiple(c, n, G, jres, e + if cond != 0 then -m else m)
  {
    hide HasOrder, Represented, AtMultiple, EntryIs, V, Modulus;
    FlipY(cond, jres, curve.prime, c, n, G, m);
    AddEntry(entry, jres, curve, c, n, G, e, if cond != 0 then -m else m);
  }

  lemma EntryAt(c: Curve, G: Point, cp: seq<seq<Entry>>, i: nat, j: nat)
    requires ValidCurve(c) && OnCurve(c, G) && CombTable(c, G, cp) && i < 64 && j < 8
    ensures |cp| == 64 && |cp[i]| == 8 && EntryIs(c, G, cp[i][j], (2 * j + 1) * Pow(16, i))
  {
    assert CombRow(c, G, cp[i], i);
  }

  // a >> (4*i)
  function ShiftedBy(a: int, i: nat): int {
    PowPositive(16, i);
    a / Pow(16, i)
  }

  lemma ShiftedScalar(a: int, v: int, i: nat)
    requires v == ShiftedBy(a, i)
    ensures v / 16 == ShiftedBy(a, i + 1) && Window(a, i) == v % 32
  {
    NextQuotient(a, i);
  }

  // The comb: res = sum of the digits below i, up to the sign of the last one.
  method CombLoop(a: Bignum256, jres: JacobianPoint, curve: EcdsaCurve, random: Limbs9,
                  ghost c: Curve, ghost n: int, ghost G: Point, ghost k: int)
    requires Describes(curve, c, n) && HasOrder(c, n, G) && Distinct(jres) && Denominator(random)
    requires curve.prime !in {jres.x, jres.y, jres.z} && curve.order !in {jres.x, jres.y, jres.z}
    requires a !in {jres.x, jres.y, jres.z} && a !in {curve.prime, curve.order}
    requires CombTable(c, G, curve.cp)
    requires Normalized(a.val) && GroupOrder(n) && 2 < n && 0 < k < n && V(a.val) == Recoded(k, n)
    modifies jres.x, jres.y, jres.z, a
    ensures Normalized(a.val) && V(a.val) % 32 == Window(Recoded(k, n), 63)
    ensures AtMultiple(c, n, G, jres, Signed(MaskAt(Recoded(k, n), 63), LowSum(Recoded(k, n), 64)))
  {
    ghost var s := Recoded(k, n);
    CombStart(c, n, G, curve.cp, k);
    LowBits(a.val);
    hide GroupOrder, Describes, HasOrder, AtMultiple, EntryIs, Window, V, Recoded, LowSum, Digit, MaskAt, Normalized, Denominator,
         And, CombTable, CombRow, Pow, ShiftedBy, Signed;
    var lowbits: uint32 := And(a.val[0], 31);
    var cond, index := DecodeComb(lowbits, s, 0);
    FirstLowSum(s, n, index);
    EntryAt(c, G, curve.cp, 0, index);
    StartAt(curve.cp[0][index], jres, curve, random, c, n, G, 2 * index + 1);
    var i := 1;
    while i < 64
      invariant 1 <= i <= 64 && Normalized(a.val) && Describes(curve, c, n)
      invariant V(a.val) == ShiftedBy(s, i - 1)
      invariant AtMultiple(c, n, G, jres, Signed(MaskAt(s, i - 1), LowSum(s, i)))
    {
      LowSumNonzero(k, n, i + 1);
      CombStep(a, jres, curve, i, c, n, G, s);
      i := i + 1;
    }
    ShiftedScalar(s, V(a.val), 63);
  }

  // Shifting to the next window, and its sign and table index.
  method NextWindow(a: Bignum256, ghost s: int, i: nat) returns (cond: uint32, index: uint32)
    requires i >= 1 && Normalized(a.val) && V(a.val) == ShiftedBy(s, i - 1)
    modifies a
    ensures Normalized(a.val) && V(a.val) == ShiftedBy(s, i)
    ensures index < 8 && Digit(s, i) == Signed(MaskAt(s, i), 2 * index + 1)
    ensures cond == if MaskAt(s, i - 1) == MaskAt(s, i) then 0 else W32 - 1
  {
    hide Window, V, Digit, MaskAt, Normalized, And, ShiftedBy, Signed;
    ShiftedScalar(s, V(a.val), i - 1);
    ShiftFour(a);
    ShiftedScalar(s, V(a.val), i);
    LowBits(a.val);
    var lowbits: uint32 := And(a.val[0], 31);
    cond, index := DecodeComb(lowbits, s, i);
  }

  // The body of the loop.
  method CombStep(a: Bignum256, jres: JacobianPoint, curve: EcdsaCurve,
                  i: nat, ghost c: Curve, ghost n: int, ghost G: Point, ghost s: int)
    requires Describes(curve, c, n) && HasOrder(c, n, G) && n > 2 && GroupOrder(n) && Distinct(jres)
    requires curve.prime !in {jres.x, jres.y, jres.z} && curve.order !in {jres.x, jres.y, jres.z}
    requires a !in {jres.x, jres.y, jres.z} && a !in {curve.prime, curve.order}
    requires CombTable(c, G, curve.cp) && 1 <= i < 64
    requires Normalized(a.val) && V(a.val) == ShiftedBy(s, i - 1) && LowSum(s, i + 1) % n != 0
    requires AtMultiple(c, n, G, jres, Signed(MaskAt(s, i - 1), LowSum(s, i)))
    modifies jres.x, jres.y, jres.z, a
    ensures Normalized(a.val) && V(a.val) == ShiftedBy(s, i)
    ensures AtMultiple(c, n, G, jres, Signed(MaskAt(s, i), LowSum(s, i + 1)))
  {
    hide GroupOrder, Describes, HasOrder, AtMultiple, EntryIs, Window, V, LowSum, Digit, MaskAt, Normalized,
         And, CombTable, CombRow, Pow, ShiftedBy, Signed, ValidCurve, OnCurve;
    OrderBasics(c, n, G);
    var cond, index := NextWindow(a, s, i);
    EntryAt(c, G, curve.cp, i, index);
    MaskValues(s, i);
    CombSum(s, i, MaskAt(s, i - 1), MaskAt(s, i), 2 * index + 1, n);
    CombEntry(c, n, G, 2 * index + 1, i);
    CombRound(cond, curve.cp[i][index], jres, curve, c, n, G, Signed(MaskAt(s, i - 1), LowSum(s, i)),
              (2 * index + 1) * Pow(16, i));
  }

  lemma MaskValues(a: int, i: nat)
    ensures MaskAt(a, i) == 0 || MaskAt(a, i) == W32 - 1
    ensures i > 0 ==> MaskAt(a, i - 1) == 0 || MaskAt(a, i - 1) == W32 - 1
  {
  }

  lemma CombEntry(c: Curve, n: int, G: Point, e: int, i: nat)
    requires HasOrder(c, n, G) && GroupOrder(n) && 0 < e < 16
    ensures (e * Pow(16, i)) % n != 0
  {
    EntryNonzero(n, e, i);
  }

  lemma CombStart(c: Curve, n: int, G: Point, cp: seq<seq<Entry>>, k: int)
    requires HasOrder(c, n, G) && GroupOrder(n)
    ensures ValidCurve(c) && OnCurve(c, G) && Pow(16, 0) == 1
    ensures Recoded(k, n) == ShiftedBy(Recoded(k, n), 0) && Window(Recoded(k, n), 0) == Recoded(k, n) % 32
  {
    UnitQuotient(Recoded(k, n));
  }

  lemma UnitQuotient(a: int)
    ensures a / 1 == a
  {
  }

  lemma FirstLowSum(a: int, n: int, index: int)
    requires 0 <= index < 8 && GroupOrder(n) && Digit(a, 0) == Signed(MaskAt(a, 0), 2 * index + 1)
    ensures Signed(MaskAt(a, 0), LowSum(a, 1)) == 2 * index + 1 == (2 * index + 1) * Pow(16, 0)
    ensures (2 * index + 1) % n != 0
  {
    SmallMultiple(2 * index + 1, n);
    assert LowSum(a, 1) == LowSum(a, 0) + Pow(16, 0) * Digit(a, 0);
  }

  // scalar_multiply: res = k * G
  method ScalarMultiply(curve: EcdsaCurve, k: Bignum256, res: CurvePoint, random: Limbs9,
                        ghost c: Curve, ghost n: int, ghost G: Point)
    requires Describes(curve, c, n) && Normalized(k.val) && V(k.val) < n && Denominator(random)
    requires HasOrder(c, n, G) && CombTable(c, G, curve.cp)
    requires res.x != res.y && curve.prime !in {res.x, res.y} && curve.order !in {res.x, res.y}
    modifies res.x, res.y
    ensures Coordinates(c, res.x.val, res.y.val)
    ensures PointOf(res.x.val, res.y.val) == Mult(c, old(V(k.val)), G)
  {
    ghost var k0 := V(k.val);
    FirstEntry(c, n, G);
    OrderRange(curve.order.val, n);
    Range(k.val);
    hide HasOrder, AtMultiple, EntryIs, CombTable, CombRow, LowSum, Recoded, Recodable, V, Coordinates, PointOf,
         Denominator, Mult, OnCurve, Signed, MaskAt;
    var a := new Bignum256(ZERO);
    var isNonZero := PrepareScalar(k, curve.order, a);
    if isNonZero == 0 {
      SetInfinity(res);
      InfinityCoordinates(c, res.x.val, res.y.val);
      return;
    }
    RecodedSum(k0, n);
    SmallMod(k0, n);
    LowSumNonzero(k0, n, 64);
    TopMask(Recoded(k0, n));
    var jres := new JacobianPoint();
    CombLoop(a, jres, curve, random, c, n, G, k0);
    var cond := LastMask(a, Recoded(k0, n));
    SignedBack(cond, LowSum(Recoded(k0, n), 64));
    FlipY(cond, jres, curve.prime, c, n, G, Signed(MaskAt(Recoded(k0, n), 63), LowSum(Recoded(k0, n), 64)));
    FinishAt(jres, res, curve, c, n, G, LowSum(Recoded(k0, n), 64), k0);
  }

  lemma SignedBack(mask: uint32, x: int)
    requires mask == 0 || mask == W32 - 1
    ensures (if mask != 0 then -Signed(mask, x) else Signed(mask, x)) == x
  {
  }

  lemma TopMask(a: int)
    ensures MaskAt(a, 63) == 0 || MaskAt(a, 63) == W32 - 1
  {
  }

  // "((a.val[0] >> 4) & 1) - 1"
  method LastMask(a: Bignum256, ghost s: int) returns (cond: uint32)
    requires Normalized(a.val) && V(a.val) % 32 == Window(s, 63)
    ensures cond == MaskAt(s, 63)
  {
    LowBits(a.val);
    LastBit(a.val[0]);
    hide And, V, Shr;
    cond := (And(Shr(a.val[0], 4), 1) - 1) % W32;
  }

  lemma LastBit(x: uint32)
    ensures (And(Shr(x, 4), 1) - 1) % W32 == if And(x, 31) >= 16 then 0 else W32 - 1
  {
    Mask31(x);
    Pow2Small();
    AndMask(x / 16, 1);
    hide And, Pow2;
    ParityOfSixteenth(x);
  }

  // Limbs in range are determined by the point.
  lemma SameLimbs(c: Curve, x: seq<int>, y: seq<int>, x': seq<int>, y': seq<int>)
    requires |x| == |y| == |x'| == |y'| == 9
    requires Coordinates(c, x, y) && Coordinates(c, x', y') && PointOf(x, y) == PointOf(x', y')
    ensures x == x' && y == y'
  {
    ValInjective(x, x', W30);
    ValInjective(y, y', W30);
  }

  // The comb and the window leave the same limbs, whatever the two random values are.
  method BothWays(curve: EcdsaCurve, k: Bignum256, g: CurvePoint, comb: CurvePoint, window: CurvePoint,
                  random1: Limbs9, random2: Limbs9, ghost c: Curve, ghost n: int, ghost G: Point)
    requires Describes(curve, c, n) && Normalized(k.val) && V(k.val) < n && Denominator(random1) && Denominator(random2)
    requires HasOrder(c, n, G) && CombTable(c, G, curve.cp)
    requires Coordinates(c, g.x.val, g.y.val) && PointOf(g.x.val, g.y.val) == G
    requires comb.x != comb.y && comb.x !in {curve.prime, curve.order, k, g.x, g.y}
    requires comb.y !in {curve.prime, curve.order, k, g.x, g.y}
    requires window.x != window.y && window.x !in {curve.prime, curve.order, comb.x, comb.y}
    requires window.y !in {curve.prime, curve.order, comb.x, comb.y}
    modifies comb.x, comb.y, window.x, window.y
    ensures comb.x.val == window.x.val && comb.y.val == window.y.val
    ensures Coordinates(c, comb.x.val, comb.y.val) && PointOf(comb.x.val, comb.y.val) == Mult(c, old(V(k.val)), G)
  {
    hide V, Normalized, HasOrder, CombTable, Coordinates, PointOf, Denominator, Mult, OnCurve;
    ScalarMultiply(curve, k, comb, random1, c, n, G);
    PointMultiply.PointMultiply(curve, k, g, window, random2, c, n);
    SameLimbs(c, comb.x.val, comb.y.val, window.x.val, window.y.val);
  }
}
