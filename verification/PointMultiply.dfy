// ecdsa.c: k*p by a signed window read from the top.

module PointMultiply {
  import opened Words
  import opened Bignum
  import opened Field
  import opened Curves
  import opened Multiples
  import opened MultiplySteps
  import opened JacobianForm
  import opened Points
  import opened Jacobian
  import opened Recode
  import opened Scalars
  import BignumAdd

  // The struct ecdsa_curve.
  class EcdsaCurve {
    const prime: Bignum256
    const G: CurvePoint
    const order: Bignum256
    const orderHalf: Bignum256
    const a: int
    const b: Bignum256
    const cp: seq<seq<Entry>>

    constructor (prime: Bignum256, G: CurvePoint, order: Bignum256, orderHalf: Bignum256, a: int, b: Bignum256,
                 cp: seq<seq<Entry>>)
      ensures this.prime == prime && this.G == G && this.order == order && this.orderHalf == orderHalf
      ensures this.a == a && this.b == b && this.cp == cp
    {
      this.prime, this.G, this.order, this.orderHalf, this.a, this.b, this.cp := prime, G, order, orderHalf, a, b, cp;
    }
  }

  // The parameters describe the curve c, and n is the (odd, prime) order of its points.
  ghost predicate Describes(curve: EcdsaCurve, c: Curve, n: int)
    reads curve.prime, curve.order
  {
    && Represented(c, curve.prime.val) && curve.a == c.a
    && Modulus(curve.order.val) && V(curve.order.val) == n && curve.order.val[0] % 2 == 1
  }

  // jp stands for m*P, not the point at infinity.
  ghost predicate AtMultiple(c: Curve, n: int, P: Point, jp: JacobianPoint, m: int)
    requires HasOrder(c, n, P)
    reads jp.x, jp.y, jp.z
  {
    m % n != 0 && Holds(c, jp.x.val, jp.y.val, jp.z.val, Mult(c, m, P))
  }

  ghost predicate Distinct(jp: JacobianPoint) {
    jp.x != jp.y && jp.x != jp.z && jp.y != jp.z
  }

  // ---------------------------------------------------------------- one step

  // 2*P, in the representation of a point
  method DoubleMultiple(jp: JacobianPoint, curve: EcdsaCurve, ghost c: Curve, ghost n: int, ghost P: Point, ghost m: int)
    requires Describes(curve, c, n) && HasOrder(c, n, P) && n > 2 && AtMultiple(c, n, P, jp, m)
    requires Distinct(jp) && curve.prime != jp.x && curve.prime != jp.y && curve.prime != jp.z
    modifies jp.x, jp.y, jp.z
    ensures AtMultiple(c, n, P, jp, 2 * m)
  {
    DoubleStep(c, n, m, P);
    hide HasOrder, Mult, OnCurve, Sum, Holds, Represented;
    JacobianDouble(jp, curve.a, curve.prime, c, Mult(c, m, P));
  }

  method DoubleFourTimes(jp: JacobianPoint, curve: EcdsaCurve, ghost c: Curve, ghost n: int, ghost P: Point, ghost m: int)
    requires Describes(curve, c, n) && HasOrder(c, n, P) && n > 2 && AtMultiple(c, n, P, jp, m)
    requires Distinct(jp) && jp.x != curve.prime && jp.y != curve.prime && jp.z != curve.prime
    requires jp.x != curve.order && jp.y != curve.order && jp.z != curve.order
    modifies jp.x, jp.y, jp.z
    ensures AtMultiple(c, n, P, jp, 16 * m)
  {
    hide HasOrder, AtMultiple;
    DoubleMultiple(jp, curve, c, n, P, m);
    DoubleMultiple(jp, curve, c, n, P, 2 * m);
    DoubleMultiple(jp, curve, c, n, P, 4 * m);
    DoubleMultiple(jp, curve, c, n, P, 8 * m);
  }

  // Negating through z, as point_multiply does.
  method FlipZ(cond: uint32, jp: JacobianPoint, prime: Bignum256, ghost c: Curve, ghost n: int, ghost P: Point, ghost m: int)
    requires Represented(c, prime.val) && HasOrder(c, n, P) && AtMultiple(c, n, P, jp, m)
    requires cond == 0 || cond == W32 - 1
    requires Distinct(jp) && jp.z != prime
    modifies jp.z
    ensures AtMultiple(c, n, P, jp, if cond != 0 then -m else m)
  {
    ghost var x, y, z := jp.x.val, jp.y.val, jp.z.val;
    ZNonzero(c, x, y, z, Mult(c, m, P));
    NegStep(c, n, m, P);
    hide V, HasOrder, Mult, OnCurve, Sum, Represents, Neg, IsPrime, Normalized;
    ConditionalNegate(cond, jp.z, prime);
    if cond != 0 {
      NegateByZ(c, x, y, z, Mult(c, m, P), jp.z.val);
    } else {
      SameValue(jp.z.val, z, c.p);
    }
  }

  lemma SameValue(s: seq<int>, t: seq<int>, p: int)
    requires p > 0 && V(s) == V(t)
    ensures Fe(s, p) == Fe(t, p)
  {
  }

  // Negating through y, as scalar_multiply does.
  method FlipY(cond: uint32, jp: JacobianPoint, prime: Bignum256, ghost c: Curve, ghost n: int, ghost P: Point, ghost m: int)
    requires Represented(c, prime.val) && HasOrder(c, n, P) && n > 2 && AtMultiple(c, n, P, jp, m)
    requires cond == 0 || cond == W32 - 1
    requires Distinct(jp) && jp.y != prime
    modifies jp.y
    ensures AtMultiple(c, n, P, jp, if cond != 0 then -m else m)
  {
    ghost var x, y, z := jp.x.val, jp.y.val, jp.z.val;
    YNotZero(c, n, m, P);
    PositiveY(c, x, y, z, Mult(c, m, P));
    NegStep(c, n, m, P);
    hide V, HasOrder, Mult, OnCurve, Sum, Represents, Neg, IsPrime, Normalized;
    ConditionalNegate(cond, jp.y, prime);
    if cond != 0 {
      NegateByY(c, x, y, z, Mult(c, m, P), jp.y.val);
    } else {
      SameValue(jp.y.val, y, c.p);
    }
  }

  lemma PositiveY(c: Curve, x: seq<int>, y: seq<int>, z: seq<int>, q: Point)
    requires ValidCurve(c) && |y| == 9 && Holds(c, x, y, z, q) && q.y != 0
    ensures V(y) > 0
  {
    Range(y);
    YNonzero(c.p, q.y, Fe(z, c.p), Fe(y, c.p));
    if V(y) == 0 {
      SmallMod(0, c.p);
    }
  }

  // Adding e*P, held by an affine point.
  method AddMultiple(p1: CurvePoint, jp: JacobianPoint, curve: EcdsaCurve,
                     ghost c: Curve, ghost n: int, ghost P: Point, ghost e: int, ghost m: int)
    requires Describes(curve, c, n) && HasOrder(c, n, P) && AtMultiple(c, n, P, jp, m)
    requires Coordinates(c, p1.x.val, p1.y.val) && PointOf(p1.x.val, p1.y.val) == Mult(c, e, P)
    requires e % n != 0 && (e + m) % n != 0
    requires Distinct(jp) && jp.x != curve.prime && jp.y != curve.prime && jp.z != curve.prime
    requires p1.x != jp.x && p1.x != jp.y && p1.x != jp.z && p1.y != jp.x && p1.y != jp.y && p1.y != jp.z
    modifies jp.x, jp.y, jp.z
    ensures AtMultiple(c, n, P, jp, e + m)
  {
    AddStep(c, n, e, m, P);
    MultOnCurve(c, n, e, P);
    hide HasOrder, Mult, OnCurve, Sum, Holds, Represented, Coordinates, PointOf;
    JacobianAdd(p1, jp, curve.a, curve.prime, c, Mult(c, m, P));
  }

  // ---------------------------------------------------------------- the table of odd multiples

  // An entry of an array of curve points: the two coordinates by value.
  type Entry = (Limbs9, Limbs9)

  // The entry holds e*P.
  ghost predicate EntryIs(c: Curve, P: Point, q: Entry, e: int)
    requires ValidCurve(c) && OnCurve(c, P)
  {
    Coordinates(c, q.0, q.1) && PointOf(q.0, q.1) == Mult(c, e, P)
  }

  // Entry j holds (2j+1)*P.
  ghost predicate OddMultiples(c: Curve, P: Point, t: seq<Entry>)
    requires ValidCurve(c) && OnCurve(c, P)
  {
    |t| == 8 && forall j :: 0 <= j < 8 ==> EntryIs(c, P, t[j], 2 * j + 1)
  }

  lemma OrderBasics(c: Curve, n: int, P: Point)
    requires HasOrder(c, n, P)
    ensures n > 1 && ValidCurve(c) && OnCurve(c, P) && InField(c, P)
  {
  }

  // P plus 2*P is 3*P, and so on up the table.
  lemma NextEntry(c: Curve, n: int, P: Point, e: int, d: int)
    requires HasOrder(c, n, P)
    ensures ValidCurve(c) && OnCurve(c, P) && InField(c, Mult(c, e, P)) && InField(c, Mult(c, d, P))
    ensures Sum(c, Mult(c, e, P), Mult(c, d, P)) == Mult(c, e + d, P)
  {
    MultAdd(c, e, d, P);
  }

  // "pmult[i] = pmult[7]; point_add(&pmult[i-1], &pmult[i])"
  method NextOddMultiple(twice: Entry, last: Entry, curve: EcdsaCurve, ghost c: Curve, ghost n: int,
                         ghost P: Point, ghost e: int)
    returns (next: Entry)
    requires Describes(curve, c, n) && HasOrder(c, n, P) && EntryIs(c, P, twice, 2) && EntryIs(c, P, last, e)
    ensures EntryIs(c, P, next, e + 2)
  {
    NextEntry(c, n, P, e, 2);
    hide HasOrder, ValidCurve, OnCurve, Represented, Modulus, V, Mult, Coordinates, PointOf, Sum;
    var p := new CurvePoint(last.0, last.1);
    var q := new CurvePoint(twice.0, twice.1);
    PointAdd(p, q, curve.prime, c, curve.a);
    next := (q.x.val, q.y.val);
  }

  method DoubledEntry(p: Entry, curve: EcdsaCurve, ghost c: Curve, ghost n: int, ghost P: Point) returns (twice: Entry)
    requires Describes(curve, c, n) && HasOrder(c, n, P) && EntryIs(c, P, p, 1)
    ensures EntryIs(c, P, twice, 2)
  {
    NextEntry(c, n, P, 1, 1);
    hide HasOrder, ValidCurve, OnCurve, Represented, Modulus, V, Mult, Coordinates, PointOf, Sum;
    var q := new CurvePoint(p.0, p.1);
    PointDouble(q, curve.prime, c, curve.a);
    twice := (q.x.val, q.y.val);
  }

  // pmult[i] = (2i+1)*p; pmult[7] holds 2*p meanwhile.
  method BuildTable(p: CurvePoint, curve: EcdsaCurve, ghost c: Curve, ghost n: int, ghost P: Point)
    returns (pmult: seq<Entry>)
    requires Describes(curve, c, n) && HasOrder(c, n, P) && EntryIs(c, P, (p.x.val, p.y.val), 1)
    ensures OddMultiples(c, P, pmult)
  {
    OrderBasics(c, n, P);
    hide HasOrder, ValidCurve, OnCurve, Represented, EntryIs, Describes;
    pmult := seq(8, _ => (ZERO, ZERO));
    var twice := DoubledEntry((p.x.val, p.y.val), curve, c, n, P);
    pmult := pmult[7 := twice];
    pmult := pmult[0 := (p.x.val, p.y.val)];
    var i := 1;
    while i < 8
      invariant 1 <= i <= 8 && |pmult| == 8 && Describes(curve, c, n)
      invariant forall j :: 0 <= j < i ==> EntryIs(c, P, pmult[j], 2 * j + 1)
      invariant i < 8 ==> EntryIs(c, P, pmult[7], 2)
    {
      var next := NextOddMultiple(pmult[7], pmult[i - 1], curve, c, n, P, 2 * (i - 1) + 1);
      pmult := pmult[i := next];
      i := i + 1;
    }
  }

  // ---------------------------------------------------------------- point_multiply

  lemma OddEntry(c: Curve, P: Point, t: seq<Entry>, j: nat)
    requires ValidCurve(c) && OnCurve(c, P) && OddMultiples(c, P, t) && j < 8
    ensures |t| == 8 && EntryIs(c, P, t[j], 2 * j + 1)
  {
  }

  // x, negated for the mask of a negative digit.
  function Signed(mask: uint32, x: int): int {
    if mask == 0 then x else -x
  }

  // A digit is the sign times the odd number its table entry stands for.
  lemma DigitEntry(a: int, i: nat, bits: uint32)
    requires bits == Window(a, i) && bits < 32
    ensures var nsign := (bits / 16 - 1) % W32;
      && (nsign == 0 || nsign == W32 - 1) && 0 <= Xor(bits, nsign) < W32 && 0 <= And(Xor(bits, nsign), 15) < 16
      && Digit(a, i) == Signed(nsign, 2 * (And(Xor(bits, nsign), 15) / 2) + 1)
      && 0 <= And(Xor(bits, nsign), 15) / 2 < 8
  {
    TableEntry(a, i);
    hide Window, Digit, And, Xor;
    EntryBits(bits);
  }

  lemma EntryBits(bits: uint32)
    requires bits < 32
    ensures 0 <= Xor(bits, SignMask(bits)) < W32 && 0 <= And(Xor(bits, SignMask(bits)), 15) < 16
    ensures And(Xor(bits, SignMask(bits)), 15) / 2 == TableIndex(bits)
  {
    Masks(bits);
    Masks(Xor(bits, SignMask(bits)));
    hide And, Xor;
  }

  // The odd multiples up to 15 are not multiples of the order.
  lemma SmallMultiple(e: int, n: int)
    requires 0 < e < 16 && GroupOrder(n)
    ensures e % n != 0
  {
    SmallMod(e, n);
  }

  // Neither sum of digits vanishes before the whole scalar is used, and then it is k or k - n.
  lemma HighSumNonzero(k: int, n: int, i: nat)
    requires GroupOrder(n) && 0 < k < n && i < 64
    ensures HighSum(Recoded(k, n), i) % n != 0
  {
    hide Pow, Recodable, HighSum, LowSum, Recoded;
    RecodedSum(k, n);
    if i > 0 {
      InnerSumNonzero(Recoded(k, n), n, i);
    }
  }

  lemma InnerSumNonzero(a: int, n: int, i: nat)
    requires GroupOrder(n) && 0 < i < 64 && Recodable(a)
    ensures HighSum(a, i) % n != 0
  {
    hide Pow, Recodable, HighSum;
    Pow16Values(n);
    HighSumRange(a, i);
    PowMonotone(64 - i);
    NotAMultiple(HighSum(a, i), Pow(16, 64 - i), n);
  }

  lemma {:induction false} PowMonotone(i: nat)
    requires i <= 63
    ensures Pow(16, i) <= Pow(16, 63)
    decreases 63 - i
  {
    if i < 63 {
      PowMonotone(i + 1);
      PowPositive(16, i);
      PowNext(16, i);
    }
  }

  // "nsign = (bits >> 4) - 1; bits ^= nsign; bits &= 15", and the index bits >> 1.
  method DecodeWindow(bits: uint32, ghost a: int, ghost i: nat) returns (nsign: uint32, index: uint32)
    requires bits == Window(a, i) && bits < 32
    ensures (nsign == 0 || nsign == W32 - 1) && index < 8
    ensures Digit(a, i) == Signed(nsign, 2 * index + 1)
  {
    DigitEntry(a, i, bits);
    hide Xor, And, Window, Digit;
    nsign := (bits / 16 - 1) % W32;
    index := And(Xor(bits, nsign), 15) / 2;
  }

  lemma RoundBasics(curve: EcdsaCurve, c: Curve, n: int, P: Point)
    requires Describes(curve, c, n) && HasOrder(c, n, P)
    ensures Represented(c, curve.prime.val) && ValidCurve(c) && OnCurve(c, P)
  {
    hide Represented, OnCurve, Associative;
    assert ValidCurve(c);
  }

  // One round: four doublings, the sign of the last digit exchanged for the next one's, and the
  // table entry added.
  method WindowRound(jres: JacobianPoint, pmult: seq<Entry>, bits: uint32, sign: uint32, curve: EcdsaCurve,
                     ghost c: Curve, ghost n: int, ghost P: Point, ghost a: int, ghost i: nat)
    returns (nsign: uint32)
    requires Describes(curve, c, n) && HasOrder(c, n, P) && n > 2 && GroupOrder(n) && Distinct(jres)
    requires curve.prime !in {jres.x, jres.y, jres.z} && curve.order !in {jres.x, jres.y, jres.z}
    requires OddMultiples(c, P, pmult)
    requires (sign == 0 || sign == W32 - 1) && bits == Window(a, i) && bits < 32 && i < 63
    requires AtMultiple(c, n, P, jres, Signed(sign, HighSum(a, i + 1))) && HighSum(a, i) % n != 0
    modifies jres.x, jres.y, jres.z
    ensures nsign == 0 || nsign == W32 - 1
    ensures AtMultiple(c, n, P, jres, Signed(nsign, HighSum(a, i)))
  {
    hide OddMultiples, GroupOrder, Describes, HasOrder, Represented, AtMultiple, EntryIs, Xor, And, HighSum, Digit, Window, V, Modulus,
         Signed, OnCurve, ValidCurve;
    RoundBasics(curve, c, n, P);
    ghost var m := Signed(sign, HighSum(a, i + 1));
    var index;
    nsign, index := DecodeWindow(bits, a, i);
    ghost var e := 2 * index + 1;
    RoundSum(a, i, sign, nsign, e, n);
    MaskXor(sign, nsign);
    SmallMultiple(e, n);
    OddEntry(c, P, pmult, index);
    var entry := pmult[index];
    DoubleFourTimes(jres, curve, c, n, P, m);
    FlipZ(Xor(sign, nsign), jres, curve.prime, c, n, P, 16 * m);
    AddEntry(entry, jres, curve, c, n, P, e, if sign == nsign then 16 * m else -16 * m);
  }

  lemma MaskXor(s: uint32, t: uint32)
    requires (s == 0 || s == W32 - 1) && (t == 0 || t == W32 - 1)
    ensures Xor(s, t) == if s == t then 0 else W32 - 1
  {
    Pow2Values();
    XorZero(s, t);
    XorMask(W32 - 1, 32);
    XorMask(0, 32);
    XorZeroRight(s);
  }

  // The new sum, seen from the sign of the last digit and of the next.
  lemma RoundSum(a: int, i: nat, sign: uint32, nsign: uint32, e: int, n: int)
    requires i < 63 && n > 0 && (sign == 0 || sign == W32 - 1) && (nsign == 0 || nsign == W32 - 1)
    requires Digit(a, i) == Signed(nsign, e) && HighSum(a, i) % n != 0
    ensures var m := Signed(sign, HighSum(a, i + 1));
      e + (if sign == nsign then 16 * m else -16 * m) == Signed(nsign, HighSum(a, i))
    ensures Signed(nsign, HighSum(a, i)) % n != 0
  {
    var h := HighSum(a, i + 1);
    assert HighSum(a, i) == 16 * h + Signed(nsign, e);
    if nsign != 0 {
      NegNonzero(HighSum(a, i), n);
    }
  }

  method AddEntry(entry: Entry, jres: JacobianPoint, curve: EcdsaCurve,
                  ghost c: Curve, ghost n: int, ghost P: Point, ghost e: int, ghost m: int)
    requires Describes(curve, c, n) && HasOrder(c, n, P) && AtMultiple(c, n, P, jres, m)
    requires EntryIs(c, P, entry, e) && e % n != 0 && (e + m) % n != 0
    requires Distinct(jres) && curve.prime !in {jres.x, jres.y, jres.z}
    modifies jres.x, jres.y, jres.z
    ensures AtMultiple(c, n, P, jres, e + m)
  {
    hide HasOrder, Represented, Coordinates, PointOf, Modulus, V, Holds;
    var p := new CurvePoint(entry.0, entry.1);
    AddMultiple(p, jres, curve, c, n, P, e, m);
  }

  // The first digit needs no mask: nothing lies above it.
  lemma FirstWindow(a: seq<uint32>)
    requires |a| == 9 && Normalized(a) && a[8] < 0x20000
    ensures 0 <= Shr(a[8], 12) < 32 && Shr(a[8], 12) == Window(V(a), 63)
  {
    WindowInLimb(a, 8, 12, 63);
    TopShift(a[8]);
    hide V, Window, Shr, And;
    Mask31(Shr(a[8], 12));
    SmallMod(Shr(a[8], 12), 32);
  }

  lemma TopShift(x: int)
    requires 0 <= x < 0x20000
    ensures 0 <= Shr(x, 12) < 32
  {
    Pow2Small();
    Pow2Add(8, 4);
  }

  lemma FirstSum(a: int)
    ensures HighSum(a, 63) == Digit(a, 63)
  {
    assert HighSum(a, 64) == 0;
  }

  // curve_to_jacobian of a table entry.
  method StartAt(entry: Entry, jres: JacobianPoint, curve: EcdsaCurve, random: Limbs9,
                 ghost c: Curve, ghost n: int, ghost P: Point, ghost e: int)
    requires Describes(curve, c, n) && HasOrder(c, n, P) && EntryIs(c, P, entry, e) && e % n != 0
    requires Denominator(random) && Distinct(jres) && curve.prime !in {jres.x, jres.y, jres.z}
    modifies jres.x, jres.y, jres.z
    ensures AtMultiple(c, n, P, jres, e)
  {
    MultOnCurve(c, n, e, P);
    hide HasOrder, Represented, Coordinates, PointOf, Modulus, V, Holds, Denominator, OnCurve, Mult;
    var p := new CurvePoint(entry.0, entry.1);
    CurveToJacobian(p, jres, curve.prime, random, c);
  }

  // jacobian_to_curve, once the sign of the last digit is undone.
  method FinishAt(jres: JacobianPoint, res: CurvePoint, curve: EcdsaCurve, ghost c: Curve, ghost n: int, ghost P: Point,
                  ghost m: int, ghost k: int)
    requires Describes(curve, c, n) && HasOrder(c, n, P) && AtMultiple(c, n, P, jres, m) && m % n == k % n
    requires res.x != res.y && jres.x !in {res.x, res.y} && jres.y !in {res.x, res.y} && jres.z !in {res.x, res.y}
    requires curve.prime !in {res.x, res.y}
    modifies res.x, res.y
    ensures Coordinates(c, res.x.val, res.y.val) && PointOf(res.x.val, res.y.val) == Mult(c, k, P)
  {
    MultOnCurve(c, n, m, P);
    MultCong(c, n, m, k, P);
    hide HasOrder, Represented, Coordinates, PointOf, Modulus, V, Holds, OnCurve, Mult;
    JacobianToCurve(jres, res, curve.prime, c, Mult(c, m, P));
  }

  // "initialize jres = |a[63]| * p"
  method FirstDigit(bits: uint32, pmult: seq<Entry>, jres: JacobianPoint, curve: EcdsaCurve, random: Limbs9,
                    ghost c: Curve, ghost n: int, ghost P: Point, ghost s: int)
    returns (sign: uint32)
    requires Describes(curve, c, n) && HasOrder(c, n, P) && Distinct(jres) && Denominator(random) && GroupOrder(n)
    requires curve.prime !in {jres.x, jres.y, jres.z}
    requires OddMultiples(c, P, pmult)
    requires bits == Window(s, 63) && bits < 32
    modifies jres.x, jres.y, jres.z
    ensures sign == 0 || sign == W32 - 1
    ensures AtMultiple(c, n, P, jres, Signed(sign, HighSum(s, 63)))
  {
    FirstSum(s);
    OrderBasics(c, n, P);
    hide GroupOrder, Describes, HasOrder, AtMultiple, EntryIs, OddMultiples, Window, HighSum, Digit, Denominator;
    var index;
    sign, index := DecodeWindow(bits, s, 63);
    SmallMultiple(2 * index + 1, n);
    OddEntry(c, P, pmult, index);
    StartAt(pmult[index], jres, curve, random, c, n, P, 2 * index + 1);
  }

  // The main loop of point_multiply: jres becomes the sum of all digits, up to the last sign.
  method WindowLoop(a: Bignum256, pmult: seq<Entry>, jres: JacobianPoint, curve: EcdsaCurve, random: Limbs9,
                    ghost c: Curve, ghost n: int, ghost P: Point, ghost k: int)
    returns (sign: uint32)
    requires Describes(curve, c, n) && HasOrder(c, n, P) && Distinct(jres) && Denominator(random)
    requires curve.prime !in {jres.x, jres.y, jres.z} && curve.order !in {jres.x, jres.y, jres.z}
    requires a !in {jres.x, jres.y, jres.z}
    requires OddMultiples(c, P, pmult)
    requires Normalized(a.val) && GroupOrder(n) && 2 < n && 0 < k < n && V(a.val) == Recoded(k, n)
    modifies jres.x, jres.y, jres.z
    ensures sign == 0 || sign == W32 - 1
    ensures AtMultiple(c, n, P, jres, Signed(sign, HighSum(Recoded(k, n), 0)))
  {
    hide GroupOrder, Describes, HasOrder, AtMultiple, OddMultiples, Window, V, Recoded, HighSum, Shr, Normalized, Denominator,
         Signed, AtBit;
    ghost var s := Recoded(k, n);
    RecodedRange(k, n);
    TopSmall(a.val);
    FirstWindow(a.val);
    var idx, abits, ashift := 8, a.val[8], 12;
    StartBit(a.val);
    var bits: uint32 := Shr(abits, ashift);
    sign := FirstDigit(bits, pmult, jres, curve, random, c, n, P, s);
    var i := 62;
    while i >= 0
      invariant -1 <= i <= 62 && AtBit(a.val, idx, abits, ashift, i + 1) && (sign == 0 || sign == W32 - 1)
      invariant Describes(curve, c, n)
      invariant AtMultiple(c, n, P, jres, Signed(sign, HighSum(s, i + 1)))
    {
      HighSumNonzero(k, n, i);
      idx, abits, ashift, sign := WindowStep(a, idx, abits, ashift, pmult, jres, sign, curve, c, n, P, i);
      i := i - 1;
    }
  }

  lemma StartBit(a: seq<uint32>)
    requires |a| == 9
    ensures AtBit(a, 8, a[8], 12, 63)
  {
  }

  // The body of the loop.
  method WindowStep(a: Bignum256, idx: nat, abits: uint32, ashift: nat, pmult: seq<Entry>, jres: JacobianPoint,
                    sign: uint32, curve: EcdsaCurve, ghost c: Curve, ghost n: int, ghost P: Point, ghost i: nat)
    returns (idx': nat, abits': uint32, ashift': nat, nsign: uint32)
    requires Describes(curve, c, n) && HasOrder(c, n, P) && n > 2 && GroupOrder(n) && Distinct(jres)
    requires curve.prime !in {jres.x, jres.y, jres.z} && curve.order !in {jres.x, jres.y, jres.z}
    requires a !in {jres.x, jres.y, jres.z} && OddMultiples(c, P, pmult) && i < 63
    requires Normalized(a.val) && AtBit(a.val, idx, abits, ashift, i + 1)
    requires sign == 0 || sign == W32 - 1
    requires AtMultiple(c, n, P, jres, Signed(sign, HighSum(V(a.val), i + 1))) && HighSum(V(a.val), i) % n != 0
    modifies jres.x, jres.y, jres.z
    ensures AtBit(a.val, idx', abits', ashift', i)
    ensures nsign == 0 || nsign == W32 - 1
    ensures AtMultiple(c, n, P, jres, Signed(nsign, HighSum(V(a.val), i)))
  {
    hide GroupOrder, Describes, HasOrder, AtMultiple, OddMultiples, AtBit, Window, V, HighSum, Normalized, Signed;
    var bits;
    idx', abits', ashift', bits := ReadWindow(a, idx, abits, ashift, i);
    nsign := WindowRound(jres, pmult, bits, sign, curve, c, n, P, V(a.val), i);
  }

  // point_multiply: res = k * p
  method PointMultiply(curve: EcdsaCurve, k: Bignum256, p: CurvePoint, res: CurvePoint, random: Limbs9,
                       ghost c: Curve, ghost n: int)
    requires Describes(curve, c, n) && Normalized(k.val) && V(k.val) < n && Denominator(random)
    requires Coordinates(c, p.x.val, p.y.val) && HasOrder(c, n, PointOf(p.x.val, p.y.val))
    requires res.x != res.y && curve.prime !in {res.x, res.y} && curve.order !in {res.x, res.y}
    modifies res.x, res.y
    ensures Coordinates(c, res.x.val, res.y.val)
    ensures PointOf(res.x.val, res.y.val) == Mult(c, old(V(k.val)), old(PointOf(p.x.val, p.y.val)))
  {
    ghost var P, k0 := PointOf(p.x.val, p.y.val), V(k.val);
    FirstEntry(c, n, P);
    OrderRange(curve.order.val, n);
    Range(k.val);
    hide HasOrder, AtMultiple, EntryIs, HighSum, LowSum, Recoded, Recodable, V, Coordinates, PointOf, Denominator,
         Mult, OnCurve;
    var a := new Bignum256(ZERO);
    var isNonZero := PrepareScalar(k, curve.order, a);
    if isNonZero == 0 {
      SetInfinity(res);
      InfinityCoordinates(c, res.x.val, res.y.val);
      return;
    }
    RecodedSum(k0, n);
    SmallMod(k0, n);
    HighSumNonzero(k0, n, 0);
    var jres := new JacobianPoint();
    var pmult := BuildTable(p, curve, c, n, P);
    var sign := WindowLoop(a, pmult, jres, curve, random, c, n, P, k0);
    FlipZ(sign, jres, curve.prime, c, n, P, Signed(sign, HighSum(Recoded(k0, n), 0)));
    FinishAt(jres, res, curve, c, n, P, HighSum(Recoded(k0, n), 0), k0);
  }

  lemma FirstEntry(c: Curve, n: int, P: Point)
    requires HasOrder(c, n, P)
    ensures ValidCurve(c) && OnCurve(c, P) && Mult(c, 1, P) == P && Mult(c, 0, P) == Infinity
  {
    MultSmall(c, P);
  }

  lemma OrderRange(order: seq<int>, n: int)
    requires Modulus(order) && V(order) == n && order[0] % 2 == 1
    ensures GroupOrder(n) && n > 2
  {
    BignumAdd.Parity(order);
  }
}
