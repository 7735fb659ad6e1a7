// Numbers held as little-endian limb sequences, and the carry chain that every limb loop of
// bignum.c runs.

module Limbs {
  import opened Words

  // sum_i s[i] * b^i
  function Val(s: seq<int>, b: int): int {
    if |s| == 0 then 0 else s[0] + b * Val(s[1..], b)
  }

  ghost predicate Digits(s: seq<int>, b: int) {
    forall i :: 0 <= i < |s| ==> 0 <= s[i] < b
  }

  function Const(n: nat, v: int): (s: seq<int>)
    ensures |s| == n && forall i :: 0 <= i < n ==> s[i] == v
  {
    seq(n, i => v)
  }

  // The carry into limb i of the loop  { c += raw[i]; out[i] = c % b; c /= b; }.
  function Carry(raw: seq<int>, c: int, b: int, i: nat): int
    requires b > 0 && i <= |raw|
  {
    if i == 0 then c else Carry(raw[1..], High(raw[0] + c, b), b, i - 1)
  }

  // The limbs that loop leaves.
  function Carried(raw: seq<int>, c: int, b: int): (s: seq<int>)
    requires b > 0
    ensures |s| == |raw|
  {
    if |raw| == 0 then [] else [Low(raw[0] + c, b)] + Carried(raw[1..], High(raw[0] + c, b), b)
  }

  // One iteration of the loop.
  lemma {:induction false} CarryNext(raw: seq<int>, c: int, b: int, i: nat)
    requires b > 0 && i < |raw|
    ensures Carry(raw, c, b, 0) == c
    ensures Carry(raw, c, b, i + 1) == High(raw[i] + Carry(raw, c, b, i), b)
    ensures Carried(raw, c, b)[i] == Low(raw[i] + Carry(raw, c, b, i), b)
  {
    if i == 0 {
    } else {
      CarryNext(raw[1..], High(raw[0] + c, b), b, i - 1);
    }
  }

  lemma MulAssoc(a: int, b: int, c: int)
    ensures a * (b * c) == b * (a * c)
  {
  }

  lemma ScaleSum(b: int, x: int, y: int, z: int, u: int)
    requires x + y == z + u
    ensures b * x + b * y == b * z + b * u
  {
    assert b * (x + y) == b * (z + u);
  }

  // The carry chain preserves the number: nothing is lost but the carry out of the top.
  lemma {:induction false} ValCarried(raw: seq<int>, c: int, b: int)
    requires b > 0
    ensures Digits(Carried(raw, c, b), b)
    ensures Val(Carried(raw, c, b), b) + Carry(raw, c, b, |raw|) * Pow(b, |raw|) == Val(raw, b) + c
  {
    hide Low, High;
    if |raw| == 0 {
    } else {
      var t := raw[0] + c;
      LowHigh(t, b);
      var rest := Carried(raw[1..], High(t, b), b);
      ValCarried(raw[1..], High(t, b), b);
      assert Carried(raw, c, b)[1..] == rest;
      var final, w := Carry(raw[1..], High(t, b), b, |raw| - 1), Pow(b, |raw| - 1);
      MulAssoc(final, b, w);
      ScaleSum(b, Val(rest, b), final * w, Val(raw[1..], b), High(t, b));
    }
  }

  lemma {:induction false} ValConcat(s: seq<int>, t: seq<int>, b: int)
    ensures Val(s + t, b) == Val(s, b) + Pow(b, |s|) * Val(t, b)
  {
    if |s| == 0 {
      assert s + t == t;
    } else {
      assert (s + t)[1..] == s[1..] + t;
      ValConcat(s[1..], t, b);
      var u, w, v := Val(s[1..], b), Pow(b, |s| - 1), Val(t, b);
      assert b * (u + w * v) == b * u + (b * w) * v;
    }
  }

  lemma ValSnoc(s: seq<int>, d: int, b: int)
    ensures Val(s + [d], b) == Val(s, b) + Pow(b, |s|) * d
  {
    ValConcat(s, [d], b);
    assert Val([d], b) == d;
  }

  lemma ValTake(s: seq<int>, i: nat, b: int)
    requires 0 < i <= |s|
    ensures Val(s[..i], b) == Val(s[..i - 1], b) + Pow(b, i - 1) * s[i - 1]
  {
    assert s[..i] == s[..i - 1] + [s[i - 1]];
    ValSnoc(s[..i - 1], s[i - 1], b);
  }

  // Splitting a number at limb i.
  lemma ValSplit(s: seq<int>, i: nat, b: int)
    requires i <= |s|
    ensures Val(s, b) == Val(s[..i], b) + Pow(b, i) * Val(s[i..], b)
  {
    assert s == s[..i] + s[i..];
    ValConcat(s[..i], s[i..], b);
  }

  lemma {:induction false} ValBounds(s: seq<int>, b: int)
    requires b > 0 && Digits(s, b)
    ensures 0 <= Val(s, b) < Pow(b, |s|)
  {
    if |s| == 0 {
    } else {
      ValBounds(s[1..], b);
      var v, w := Val(s[1..], b), Pow(b, |s| - 1);
      MulStep(v, w, b);
      MulMonotone(0, v, b);
      assert w * b == b * w && v * b == b * v;
    }
  }

  // Digit strings of equal length denote equal numbers only when they are equal.
  lemma {:induction false} ValInjective(s: seq<int>, t: seq<int>, b: int)
    requires b > 0 && Digits(s, b) && Digits(t, b) && |s| == |t|
    requires Val(s, b) == Val(t, b)
    ensures s == t
  {
    if |s| == 0 {
    } else {
      var v, w := Val(s[1..], b), Val(t[1..], b);
      assert v * b == b * v && w * b == b * w;
      QuotientUnique(b, v, s[0], w, t[0]);
      ValInjective(s[1..], t[1..], b);
      assert s == [s[0]] + s[1..] && t == [t[0]] + t[1..];
    }
  }

  // r = x*s + y*t + z*u limb by limb.
  lemma {:induction false} ValLinear(r: seq<int>, s: seq<int>, x: int, t: seq<int>, y: int, u: seq<int>, z: int, b: int)
    requires |r| == |s| == |t| == |u|
    requires forall i :: 0 <= i < |r| ==> r[i] == x * s[i] + y * t[i] + z * u[i]
    ensures Val(r, b) == x * Val(s, b) + y * Val(t, b) + z * Val(u, b)
  {
    if |r| == 0 {
    } else {
      ValLinear(r[1..], s[1..], x, t[1..], y, u[1..], z, b);
      LinearStep(b, r[0], Val(r[1..], b), x, s[0], Val(s[1..], b), y, t[0], Val(t[1..], b), z, u[0], Val(u[1..], b));
    }
  }

  lemma LinearStep(b: int, r: int, vr: int, x: int, s: int, vs: int, y: int, t: int, vt: int, z: int, u: int, vu: int)
    requires r == x * s + y * t + z * u && vr == x * vs + y * vt + z * vu
    ensures r + b * vr == x * (s + b * vs) + y * (t + b * vt) + z * (u + b * vu)
  {
    assert b * vr == b * (x * vs + y * vt + z * vu);
  }

  lemma {:induction false} ValConst(n: nat, v: int, b: int)
    ensures Val(Const(n, (b - 1) * v), b) == v * (Pow(b, n) - 1)
  {
    if n == 0 {
    } else {
      ValConst(n - 1, v, b);
      assert Const(n, (b - 1) * v)[1..] == Const(n - 1, (b - 1) * v);
      ConstTerms(b, v, Pow(b, n - 1));
    }
  }

  lemma ConstTerms(b: int, v: int, w: int)
    ensures (b - 1) * v + b * (v * (w - 1)) == v * (b * w - 1)
  {
  }

  // Zero limbs above the last significant one do not change the value.
  lemma ValPadded(s: seq<int>, n: nat, b: int)
    ensures Val(s + Const(n, 0), b) == Val(s, b)
  {
    assert (b - 1) * 0 == 0;
    ValConst(n, 0, b);
    ValConcat(s, Const(n, 0), b);
  }

  // Equal above limb i and larger at limb i means larger.
  lemma CompareAt(s: seq<int>, t: seq<int>, i: nat, b: int)
    requires b > 0 && |s| == |t| && i < |s| && Digits(s, b) && Digits(t, b)
    requires s[i + 1..] == t[i + 1..] && s[i] > t[i]
    ensures Val(s, b) > Val(t, b)
  {
    ValSplit(s, i, b);
    ValSplit(t, i, b);
    assert s[i..][1..] == s[i + 1..] && t[i..][1..] == t[i + 1..];
    ValBounds(s[..i], b);
    ValBounds(t[..i], b);
    PowPositive(b, i);
    MulStep(Val(t[i..], b), Val(s[i..], b), Pow(b, i));
    Commute(Val(t[i..], b), Pow(b, i));
    Commute(Val(s[i..], b), Pow(b, i));
  }

  lemma Commute(x: int, y: int)
    ensures x * y == y * x
  {
  }

  // A carry chain whose total is k*b^n + d leaves exactly d in the limbs.
  lemma CarryExact(raw: seq<int>, c: int, b: int, k: int, d: int)
    requires b > 0 && 0 <= d < Pow(b, |raw|)
    requires Val(raw, b) + c == k * Pow(b, |raw|) + d
    ensures Digits(Carried(raw, c, b), b)
    ensures Val(Carried(raw, c, b), b) == d && Carry(raw, c, b, |raw|) == k
  {
    ValCarried(raw, c, b);
    ValBounds(Carried(raw, c, b), b);
    QuotientUnique(Pow(b, |raw|), Carry(raw, c, b, |raw|), Val(Carried(raw, c, b), b), k, d);
  }

  lemma TakeUpdate(a: seq<int>, i: nat, d: int)
    requires i < |a|
    ensures a[i := d][..i + 1] == a[..i] + [d]
  {
  }
}
