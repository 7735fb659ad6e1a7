// Multiples of a point, given only that the addition of the curve is associative.

module Multiples {
  import opened Field
  import opened PrimeField
  import opened Curves

  // The operations of the group of points.
  ghost function Plus(c: Curve, q: Point, r: Point): (s: Point)
    requires ValidCurve(c) && OnCurve(c, q) && OnCurve(c, r)
    ensures OnCurve(c, s)
  {
    Closed(c, q, r);
    Sum(c, q, r)
  }

  ghost function Minus(c: Curve, q: Point): (s: Point)
    requires ValidCurve(c) && OnCurve(c, q)
    ensures OnCurve(c, s)
  {
    NegOnCurve(c, q);
    Neg(c, q)
  }

  ghost predicate AssociativeAt(c: Curve, q: Point, r: Point, s: Point)
    requires ValidCurve(c)
  {
    OnCurve(c, q) && OnCurve(c, r) && OnCurve(c, s) ==> Plus(c, Plus(c, q, r), s) == Plus(c, q, Plus(c, r, s))
  }

  // The one property of the group that is assumed, never proved.
  ghost predicate Associative(c: Curve)
    requires ValidCurve(c)
  {
    forall q, r, s :: AssociativeAt(c, q, r, s)
  }

  ghost predicate Group(c: Curve) {
    ValidCurve(c) && Associative(c)
  }

  lemma Assoc(c: Curve, q: Point, r: Point, s: Point)
    requires Group(c) && OnCurve(c, q) && OnCurve(c, r) && OnCurve(c, s)
    ensures Plus(c, Plus(c, q, r), s) == Plus(c, q, Plus(c, r, s))
  {
    assert AssociativeAt(c, q, r, s);
  }

  lemma Unit(c: Curve, q: Point)
    requires ValidCurve(c) && OnCurve(c, q)
    ensures OnCurve(c, Infinity) && Plus(c, q, Infinity) == q && Plus(c, Infinity, q) == q
    ensures Plus(c, q, Minus(c, q)) == Infinity && Plus(c, Minus(c, q), q) == Infinity
    ensures Minus(c, Infinity) == Infinity
  {
    SumInverse(c, q);
    Commutative(c, q, Neg(c, q));
  }

  lemma PlusCommutes(c: Curve, q: Point, r: Point)
    requires ValidCurve(c) && OnCurve(c, q) && OnCurve(c, r)
    ensures Plus(c, q, r) == Plus(c, r, q)
  {
    Commutative(c, q, r);
  }

  lemma CancelSum(c: Curve, q: Point, r: Point, s: Point)
    requires Group(c) && OnCurve(c, q) && OnCurve(c, r) && OnCurve(c, s)
    requires Plus(c, q, r) == Plus(c, q, s)
    ensures r == s
  {
    hide Associative, OnCurve, Plus, Minus, IsPrime;
    Unit(c, q);
    Unit(c, r);
    Unit(c, s);
    Assoc(c, Minus(c, q), q, r);
    Assoc(c, Minus(c, q), q, s);
  }

  lemma UniqueInverse(c: Curve, q: Point, r: Point)
    requires Group(c) && OnCurve(c, q) && OnCurve(c, r) && Plus(c, q, r) == Infinity
    ensures r == Minus(c, q)
  {
    hide Associative, OnCurve, Plus, Minus, IsPrime;
    Unit(c, q);
    CancelSum(c, q, r, Minus(c, q));
  }

  // q + -(q + r) = -r
  lemma SumNegSum(c: Curve, q: Point, r: Point)
    requires Group(c) && OnCurve(c, q) && OnCurve(c, r)
    ensures Plus(c, q, Minus(c, Plus(c, q, r))) == Minus(c, r)
  {
    hide Associative, OnCurve, Plus, Minus, IsPrime;
    var s := Plus(c, q, r);
    var n := Minus(c, s);
    Unit(c, s);
    PlusCommutes(c, q, n);
    PlusCommutes(c, Plus(c, q, n), r);
    Assoc(c, n, q, r);
    UniqueInverse(c, r, Plus(c, q, n));
  }

  // ---------------------------------------------------------------- multiples

  ghost function Times(c: Curve, k: nat, q: Point): (r: Point)
    requires ValidCurve(c) && OnCurve(c, q)
    ensures OnCurve(c, r)
  {
    if k == 0 then Infinity else Plus(c, q, Times(c, k - 1, q))
  }

  // k*q for any integer k
  ghost function Mult(c: Curve, k: int, q: Point): (r: Point)
    requires ValidCurve(c) && OnCurve(c, q)
    ensures OnCurve(c, r)
  {
    if k >= 0 then Times(c, k, q) else Minus(c, Times(c, -k, q))
  }

  lemma MultSucc(c: Curve, k: int, q: Point)
    requires Group(c) && OnCurve(c, q)
    ensures Mult(c, k + 1, q) == Plus(c, q, Mult(c, k, q))
  {
    hide Associative, OnCurve, Plus, Minus, IsPrime;
    MultSmall(c, q);
    if k < 0 {
      SumNegSum(c, q, Times(c, -k - 1, q));
    }
  }

  lemma MultSmall(c: Curve, q: Point)
    requires ValidCurve(c) && OnCurve(c, q)
    ensures Mult(c, 0, q) == Infinity && Mult(c, 1, q) == q && OnCurve(c, Infinity) && Minus(c, Infinity) == Infinity
  {
    hide OnCurve, Plus, Minus, IsPrime;
    Unit(c, q);
    assert Times(c, 1, q) == Plus(c, q, Times(c, 0, q));
  }

  lemma {:induction false} MultAdd(c: Curve, j: int, k: int, q: Point)
    requires Group(c) && OnCurve(c, q)
    ensures Mult(c, j + k, q) == Plus(c, Mult(c, j, q), Mult(c, k, q))
    decreases if j < 0 then -j else j
  {
    hide Associative, OnCurve, Plus, Minus, Mult, IsPrime;
    MultSmall(c, q);
    Unit(c, Mult(c, k, q));
    if j > 0 {
      MultAdd(c, j - 1, k, q);
      MultSucc(c, j - 1, q);
      MultSucc(c, j - 1 + k, q);
      Assoc(c, q, Mult(c, j - 1, q), Mult(c, k, q));
    } else if j < 0 {
      MultAdd(c, j + 1, k, q);
      MultSucc(c, j, q);
      MultSucc(c, j + k, q);
      Assoc(c, q, Mult(c, j, q), Mult(c, k, q));
      CancelSum(c, q, Mult(c, j + k, q), Plus(c, Mult(c, j, q), Mult(c, k, q)));
    }
  }

  lemma MultNeg(c: Curve, k: int, q: Point)
    requires Group(c) && OnCurve(c, q)
    ensures Minus(c, Mult(c, k, q)) == Mult(c, -k, q)
  {
    hide Associative, OnCurve, Plus, Minus, Mult, IsPrime;
    MultSmall(c, q);
    MultAdd(c, k, -k, q);
    UniqueInverse(c, Mult(c, k, q), Mult(c, -k, q));
  }

  lemma {:induction false} MultMult(c: Curve, j: int, k: int, q: Point)
    requires Group(c) && OnCurve(c, q)
    ensures Mult(c, j, Mult(c, k, q)) == Mult(c, j * k, q)
    decreases if j < 0 then -2 * j + 1 else 2 * j
  {
    hide Associative, OnCurve, Plus, Minus, Mult, IsPrime;
    var r := Mult(c, k, q);
    MultSmall(c, q);
    MultSmall(c, r);
    if j > 0 {
      MultMult(c, j - 1, k, q);
      MultSucc(c, j - 1, r);
      MultAdd(c, k, (j - 1) * k, q);
      assert k + (j - 1) * k == j * k;
    } else if j < 0 {
      MultMult(c, -j, k, q);
      MultNeg(c, -j, r);
      MultNeg(c, -j * k, q);
      assert -(-j * k) == j * k;
    } else {
      assert 0 * k == 0;
    }
  }

  // ---------------------------------------------------------------- the order of a point

  // q generates a group of prime order n.
  ghost predicate HasOrder(c: Curve, n: int, q: Point) {
    Group(c) && OnCurve(c, q) && q != Infinity && n > 1 && IsPrime(n) && Mult(c, n, q) == Infinity
  }

  lemma {:induction false} TimesInfinity(c: Curve, k: nat)
    requires ValidCurve(c)
    ensures OnCurve(c, Infinity) && Times(c, k, Infinity) == Infinity
  {
    Unit(c, Infinity);
    if k == 0 {
    } else {
      TimesInfinity(c, k - 1);
    }
  }

  lemma MultInfinity(c: Curve, k: int)
    requires ValidCurve(c)
    ensures OnCurve(c, Infinity) && Mult(c, k, Infinity) == Infinity
  {
    TimesInfinity(c, if k < 0 then -k else k);
    Unit(c, Infinity);
  }

  // Adding a multiple of the order changes nothing.
  lemma MultShift(c: Curve, n: int, m: int, t: int, q: Point)
    requires HasOrder(c, n, q)
    ensures Mult(c, m + t * n, q) == Mult(c, m, q)
  {
    hide Associative, OnCurve, Plus, Minus, Mult, IsPrime;
    MultAdd(c, m, t * n, q);
    MultMult(c, t, n, q);
    MultInfinity(c, t);
    Unit(c, Mult(c, m, q));
  }

  lemma MultMod(c: Curve, n: int, k: int, q: Point)
    requires HasOrder(c, n, q)
    ensures n > 1 && Mult(c, k, q) == Mult(c, k % n, q)
  {
    hide Associative, OnCurve, Mult, IsPrime;
    MultShift(c, n, k % n, k / n, q);
    assert k == k % n + (k / n) * n;
  }

  lemma MultCong(c: Curve, n: int, j: int, k: int, q: Point)
    requires HasOrder(c, n, q) && Cong(j, k, n)
    ensures Mult(c, j, q) == Mult(c, k, q)
  {
    hide Associative, OnCurve, Mult, IsPrime;
    MultMod(c, n, j, q);
    MultMod(c, n, k, q);
  }

  // Only the multiples of the order reach the point at infinity.
  lemma MultInfinite(c: Curve, n: int, k: int, q: Point)
    requires HasOrder(c, n, q)
    ensures Mult(c, k, q) == Infinity <==> k % n == 0
  {
    hide Associative, OnCurve, Mult, IsPrime, Cong;
    MultSmall(c, q);
    MultMod(c, n, k, q);
    if k % n != 0 {
      MultInvertible(c, n, k, Inverse(k, n), q);
    }
  }

  // Two multiples agree exactly when their factors agree modulo the order.
  lemma MultSame(c: Curve, n: int, j: int, k: int, q: Point)
    requires HasOrder(c, n, q)
    ensures Mult(c, j, q) == Mult(c, k, q) <==> (j - k) % n == 0
  {
    hide Associative, OnCurve, Plus, Mult, IsPrime;
    var d, r := Mult(c, j - k, q), Mult(c, k, q);
    Unit(c, r);
    MultAdd(c, k, j - k, q);
    MultInfinite(c, n, j - k, q);
    if Plus(c, r, d) == Plus(c, r, Infinity) {
      CancelSum(c, r, d, Infinity);
    }
  }

  lemma MultInvertible(c: Curve, n: int, k: int, r: int, q: Point)
    requires HasOrder(c, n, q) && Cong(k * r, 1, n)
    ensures Mult(c, r, Mult(c, k, q)) == q && Mult(c, k, q) != Infinity
  {
    hide Associative, OnCurve, Mult, IsPrime, Cong;
    MultSmall(c, q);
    MultMult(c, r, k, q);
    MultInfinity(c, r);
    assert r * k == k * r;
    MultCong(c, n, r * k, 1, q);
  }
}
