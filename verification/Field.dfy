// Arithmetic modulo m on canonical residues, and the congruence it decides.

module Field {
  import opened Words

  ghost predicate Cong(a: int, b: int, m: int)
    requires m > 0
  {
    a % m == b % m
  }

  ghost predicate IsPrime(p: int) {
    p > 1 && forall d :: 1 < d < p ==> p % d != 0
  }

  function Add(a: int, b: int, m: int): int
    requires m > 0
  {
    (a + b) % m
  }

  function Sub(a: int, b: int, m: int): int
    requires m > 0
  {
    (a - b) % m
  }

  function Mul(a: int, b: int, m: int): int
    requires m > 0
  {
    (a * b) % m
  }

  // Half of a modulo an odd m.
  function Half(a: int, m: int): int
    requires m > 0
  {
    if a % 2 == 0 then a / 2 else (a + m) / 2
  }

  // A multiple of m separates congruent numbers.
  lemma CongWitness(a: int, b: int, k: int, m: int)
    requires m > 0 && a == b + k * m
    ensures Cong(a, b, m)
  {
    DivAddMultiple(b, k, m);
  }

  lemma CongQuotient(a: int, b: int, m: int) returns (k: int)
    requires m > 0 && Cong(a, b, m)
    ensures a == b + k * m
  {
    k := a / m - b / m;
    assert (a / m - b / m) * m == (a / m) * m - (b / m) * m;
  }

  lemma CongSym(a: int, b: int, m: int)
    requires m > 0 && Cong(a, b, m)
    ensures Cong(b, a, m)
  {
  }

  lemma CongTrans(a: int, b: int, c: int, m: int)
    requires m > 0 && Cong(a, b, m) && Cong(b, c, m)
    ensures Cong(a, c, m)
  {
  }

  lemma CongSelf(a: int, m: int)
    requires m > 0
    ensures Cong(a % m, a, m) && 0 <= a % m < m
  {
    hide Cong;
    CongWitness(a % m, a, -(a / m), m);
  }

  lemma CongSmall(a: int, b: int, m: int)
    requires 0 <= a < m && 0 <= b < m && Cong(a, b, m)
    ensures a == b
  {
    SmallMod(a, m);
    SmallMod(b, m);
  }

  lemma SmallMod(a: int, m: int)
    requires 0 <= a < m
    ensures a % m == a && a / m == 0
  {
    DivModUnique(a, m, 0, a);
  }

  lemma CongAdd(a: int, a': int, b: int, b': int, m: int)
    requires m > 0 && Cong(a, a', m) && Cong(b, b', m)
    ensures Cong(a + b, a' + b', m) && Cong(a - b, a' - b', m)
  {
    hide Cong;
    var k := CongQuotient(a, a', m);
    var l := CongQuotient(b, b', m);
    assert (k + l) * m == k * m + l * m && (k - l) * m == k * m - l * m;
    CongWitness(a + b, a' + b', k + l, m);
    CongWitness(a - b, a' - b', k - l, m);
  }

  lemma CongMul(a: int, a': int, b: int, b': int, m: int)
    requires m > 0 && Cong(a, a', m) && Cong(b, b', m)
    ensures Cong(a * b, a' * b', m)
  {
    hide Cong;
    var k := CongQuotient(a, a', m);
    var l := CongQuotient(b, b', m);
    ProductWitness(a', k, b', l, m);
    CongWitness(a * b, a' * b', a' * l + k * b' + k * l * m, m);
  }

  lemma ProductWitness(a: int, k: int, b: int, l: int, m: int)
    ensures (a + k * m) * (b + l * m) == a * b + (a * l + k * b + k * l * m) * m
  {
    assert (a + k * m) * (b + l * m) == a * b + a * (l * m) + (k * m) * b + (k * m) * (l * m);
  }

  // The three operations compute on the residues of their arguments.
  lemma AddMod(a: int, b: int, m: int)
    requires m > 0
    ensures Add(a % m, b % m, m) == (a + b) % m && Sub(a % m, b % m, m) == (a - b) % m
  {
    CongSelf(a, m);
    CongSelf(b, m);
    CongAdd(a % m, a, b % m, b, m);
  }

  lemma MulMod(a: int, b: int, m: int)
    requires m > 0
    ensures Mul(a % m, b % m, m) == (a * b) % m
  {
    CongSelf(a, m);
    CongSelf(b, m);
    CongMul(a % m, a, b % m, b, m);
  }
}
