// What doubling, negating and adding do to a multiple of a point of prime order, in the terms
// the Jacobian methods are stated in.

module MultiplySteps {
  import opened Field
  import opened PrimeField
  import opened Curves
  import opened Multiples

  lemma MultOnCurve(c: Curve, n: int, m: int, P: Point)
    requires HasOrder(c, n, P)
    ensures n > 1 && ValidCurve(c) && OnCurve(c, P) && OnCurve(c, Mult(c, m, P)) && InField(c, Mult(c, m, P))
    ensures Mult(c, m, P) == Infinity <==> m % n == 0
  {
    hide Associative, Mult, IsPrime;
    MultInfinite(c, n, m, P);
  }

  lemma DoubleStep(c: Curve, n: int, m: int, P: Point)
    requires HasOrder(c, n, P) && n > 2 && m % n != 0
    ensures OnCurve(c, P) && InField(c, Mult(c, m, P)) && (2 * m) % n != 0
    ensures Sum(c, Mult(c, m, P), Mult(c, m, P)) == Mult(c, 2 * m, P) != Infinity
  {
    SmallMod(2, n);
    NoZeroDivisors(2, m, n);
    AddStep(c, n, m, m, P);
  }

  lemma AddStep(c: Curve, n: int, e: int, m: int, P: Point)
    requires HasOrder(c, n, P) && n > 0 && (e + m) % n != 0
    ensures OnCurve(c, P) && InField(c, Mult(c, e, P)) && InField(c, Mult(c, m, P))
    ensures Sum(c, Mult(c, e, P), Mult(c, m, P)) == Mult(c, e + m, P) != Infinity
  {
    hide Associative, Mult, IsPrime, OnCurve, Sum;
    MultOnCurve(c, n, e, P);
    MultOnCurve(c, n, m, P);
    MultOnCurve(c, n, e + m, P);
    MultAdd(c, e, m, P);
  }

  lemma NegStep(c: Curve, n: int, m: int, P: Point)
    requires HasOrder(c, n, P)
    ensures OnCurve(c, P) && ValidCurve(c) && Neg(c, Mult(c, m, P)) == Mult(c, -m, P)
    ensures n > 1 && m % n != 0 ==> (-m) % n != 0
  {
    MultNeg(c, m, P);
    if n > 1 && m % n != 0 {
      NegNonzero(m, n);
    }
  }

  lemma NegNonzero(m: int, n: int)
    requires n > 0 && m % n != 0
    ensures (-m) % n != 0
  {
    if (-m) % n == 0 {
      SmallMod(0, n);
      CongAdd(0, 0, -m, 0, n);
    }
  }

  // A point of odd order is never its own opposite.
  lemma YNotZero(c: Curve, n: int, m: int, P: Point)
    requires HasOrder(c, n, P) && n > 2 && m % n != 0
    ensures OnCurve(c, P) && Mult(c, m, P).Affine? && Mult(c, m, P).y != 0
  {
    DoubleStep(c, n, m, P);
    MultOnCurve(c, n, m, P);
  }
}
