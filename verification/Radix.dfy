// Positional notation in any base, most significant digit first.

module Radix {
  import opened Words

  function Number(s: seq<int>, b: int): int {
    if s == [] then 0 else Number(s[..|s| - 1], b) * b + s[|s| - 1]
  }

  predicate Digits(s: seq<int>, b: int) {
    forall k :: 0 <= k < |s| ==> 0 <= s[k] < b
  }

  // The digits of v without leading zeros.
  function Minimal(v: nat, b: nat): (s: seq<int>)
    requires b >= 2
    ensures v == 0 ==> s == []
    decreases v
  {
    if v == 0 then [] else
      Shrinks(v, b);
      Minimal(v / b, b) + [v % b]
  }

  lemma Shrinks(v: nat, b: nat)
    requires b >= 2 && v > 0
    ensures 0 <= v / b < v && 0 <= v % b < b && v == v / b * b + v % b
  {
    var q := v / b;
    if q >= v {
      MulMonotone(2, b, q);
    }
  }

  // How many elements at the front equal x.
  function Lead<T(==)>(s: seq<T>, x: T): (n: nat)
    ensures n <= |s| && (n < |s| ==> s[n] != x)
  {
    if s == [] || s[0] != x then 0 else 1 + Lead(s[1..], x)
  }

  lemma {:induction false} LeadAll<T>(s: seq<T>, x: T)
    ensures forall k :: 0 <= k < Lead(s, x) ==> s[k] == x
  {
    if s != [] && s[0] == x {
      LeadAll(s[1..], x);
      assert forall k :: 1 <= k < Lead(s, x) ==> s[k] == s[1..][k - 1];
    }
  }

  lemma {:induction false} LeadIs<T>(s: seq<T>, x: T, n: nat)
    requires n <= |s| && (n < |s| ==> s[n] != x) && forall k :: 0 <= k < n ==> s[k] == x
    ensures Lead(s, x) == n
  {
    if n > 0 {
      LeadIs(s[1..], x, n - 1);
    }
  }

  lemma {:induction false} NumberConcat(s: seq<int>, t: seq<int>, b: int)
    ensures Number(s + t, b) == Number(s, b) * Pow(b, |t|) + Number(t, b)
  {
    if t == [] {
      assert s + t == s;
    } else {
      var u := t[..|t| - 1];
      assert (s + t)[..|s + t| - 1] == s + u;
      NumberConcat(s, u, b);
      PowNext(b, |u|);
      ConcatTerms(Number(s, b), Pow(b, |u|), Number(u, b), b, t[|t| - 1]);
    }
  }

  lemma ConcatTerms(a: int, w: int, c: int, b: int, d: int)
    ensures (a * w + c) * b + d == a * (b * w) + (c * b + d)
  {
  }

  lemma {:induction false} NumberBound(s: seq<int>, b: int)
    requires b >= 1 && Digits(s, b)
    ensures 0 <= Number(s, b) < Pow(b, |s|)
  {
    if s != [] {
      var u := s[..|s| - 1];
      NumberBound(u, b);
      PowNext(b, |u|);
      BoundTerms(Number(u, b), Pow(b, |u|), b, s[|s| - 1]);
    }
  }

  lemma BoundTerms(x: int, w: int, b: int, d: int)
    requires 0 <= x < w && 0 <= d < b
    ensures 0 <= x * b + d < b * w
  {
    MulMonotone(x + 1, w, b);
    assert (x + 1) * b == x * b + b && 0 <= x * b;
  }

  lemma {:induction false} NumberZeros(s: seq<int>, b: int)
    requires forall k :: 0 <= k < |s| ==> s[k] == 0
    ensures Number(s, b) == 0
  {
    if s != [] {
      NumberZeros(s[..|s| - 1], b);
    }
  }

  // Leading zeros do not count.
  lemma NumberStrip(s: seq<int>, n: nat, b: int)
    requires n <= |s| && forall k :: 0 <= k < n ==> s[k] == 0
    ensures Number(s[n..], b) == Number(s, b)
  {
    assert s == s[..n] + s[n..];
    NumberConcat(s[..n], s[n..], b);
    NumberZeros(s[..n], b);
  }

  // A number has at most one representation without leading zeros.
  lemma {:induction false} MinimalUnique(s: seq<int>, b: nat)
    requires b >= 2 && Digits(s, b) && (s != [] ==> s[0] != 0)
    ensures Number(s, b) >= 0 && s == Minimal(Number(s, b), b)
  {
    if s != [] {
      var u, d := s[..|s| - 1], s[|s| - 1];
      NumberBound(u, b);
      MinimalUnique(u, b);
      DivModUnique(Number(s, b), b, Number(u, b), d);
      assert s == u + [d];
    }
  }

  lemma {:induction false} MinimalNumber(v: nat, b: nat)
    requires b >= 2
    ensures Digits(Minimal(v, b), b) && Number(Minimal(v, b), b) == v && (v > 0 ==> Minimal(v, b) != [] && Minimal(v, b)[0] != 0)
    decreases v
  {
    if v > 0 {
      Shrinks(v, b);
      MinimalNumber(v / b, b);
      assert Minimal(v, b)[..|Minimal(v, b)| - 1] == Minimal(v / b, b);
    }
  }

  // Equal numbers of equally many digits have equal digits.
  lemma {:induction false} NumberInjective(s: seq<int>, t: seq<int>, b: nat)
    requires b >= 2 && Digits(s, b) && Digits(t, b) && |s| == |t| && Number(s, b) == Number(t, b)
    ensures s == t
  {
    if s != [] {
      var u, v := s[..|s| - 1], t[..|t| - 1];
      DivModUnique(Number(s, b), b, Number(u, b), s[|s| - 1]);
      DivModUnique(Number(t, b), b, Number(v, b), t[|t| - 1]);
      NumberInjective(u, v, b);
      assert s == u + [s[|s| - 1]] && t == v + [t[|t| - 1]];
    }
  }

  // A prefix denotes no more than the whole.
  lemma {:induction false} NumberPrefix(s: seq<int>, n: nat, b: int)
    requires b >= 1 && Digits(s, b) && n <= |s|
    ensures 0 <= Number(s[..n], b) <= Number(s, b)
  {
    NumberBound(s[..n], b);
    if n < |s| {
      NumberPrefix(s[..|s| - 1], n, b);
      assert s[..|s| - 1][..n] == s[..n];
      MulMonotone(1, b, Number(s[..|s| - 1], b));
    } else {
      assert s[..n] == s;
    }
  }

  lemma NumberPrepend(d: int, s: seq<int>, b: int)
    ensures Number([d] + s, b) == d * Pow(b, |s|) + Number(s, b)
  {
    NumberConcat([d], s, b);
    assert [d][..0] == [];
    assert Number([d], b) == d;
  }
}
