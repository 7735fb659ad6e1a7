// base58.c: the Base58 encoder and decoder, digit buffers multiplied and carried in place.

module Base58 {
  import opened Words
  import opened Radix

  // ---------------------------------------------------------------- alphabet

  // b58digits_map, the table written as its runs; -1 marks every other character.
  function Digit(c: char): (d: int)
    ensures -1 <= d < 58
  {
    var u := c as int;
    if 49 <= u <= 57 then u - 49
    else if 65 <= u <= 72 then u - 56
    else if 74 <= u <= 78 then u - 57
    else if 80 <= u <= 90 then u - 58
    else if 97 <= u <= 107 then u - 64
    else if 109 <= u <= 122 then u - 65
    else -1
  }

  // b58digits_ordered
  function Letter(d: int): (c: char)
    requires 0 <= d < 58
  {
    if d <= 8 then (d + 49) as char
    else if d <= 16 then (d + 56) as char
    else if d <= 21 then (d + 57) as char
    else if d <= 32 then (d + 58) as char
    else if d <= 43 then (d + 64) as char
    else (d + 65) as char
  }

  // The two tables are inverse, and '1' is the digit zero.
  lemma Alphabet(c: char, d: int)
    requires 0 <= d < 58
    ensures Digit(Letter(d)) == d && (Letter(d) == '1' <==> d == 0)
    ensures Digit(c) >= 0 ==> Letter(Digit(c)) == c
    ensures Digit(c) == 0 <==> c == '1'
  {
  }

  // b58digits_ordered as text: the letters are these, and nothing else is a digit.
  const ALPHABET: string := "123456789ABCDEFGH" + "JKLMNPQRSTUVWXYZ" + "abcdefghijk" + "mnopqrstuvwxyz"

  lemma LetterOf(d: int)
    requires 0 <= d < 58
    ensures |ALPHABET| == 58 && Letter(d) == ALPHABET[d]
  {
  }

  lemma AlphabetText(c: char, d: int)
    requires 0 <= d < 58
    ensures |ALPHABET| == 58 && Letter(d) == ALPHABET[d] && (Digit(c) == d <==> c == ALPHABET[d])
    ensures Digit(c) == -1 <==> c !in ALPHABET
  {
    LetterOf(d);
    Alphabet(c, d);
    if Digit(c) >= 0 {
      LetterOf(Digit(c));
      Alphabet(c, Digit(c));
    } else {
      forall k | 0 <= k < 58
        ensures ALPHABET[k] != c
      {
        LetterOf(k);
        Alphabet(c, k);
      }
    }
  }

  // ---------------------------------------------------------------- the encoding

  function Letters(s: seq<int>): (t: string)
    requires Digits(s, 58)
    ensures |t| == |s| && forall k :: 0 <= k < |s| ==> t[k] == Letter(s[k])
  {
    seq(|s|, k requires 0 <= k < |s| => Letter(s[k]))
  }

  predicate Valid(str: string) {
    forall k :: 0 <= k < |str| ==> Digit(str[k]) >= 0
  }

  function Values(str: string): (s: seq<int>)
    requires Valid(str)
    ensures |s| == |str| && Digits(s, 58) && forall k :: 0 <= k < |s| ==> s[k] == Digit(str[k])
  {
    seq(|str|, k requires 0 <= k < |str| => Digit(str[k]))
  }

  function Fill<T>(x: T, n: nat): (s: seq<T>)
    ensures |s| == n && forall k :: 0 <= k < n ==> s[k] == x
  {
    seq(n, k => x)
  }

  predicate Octets(s: seq<int>) {
    Digits(s, 256)
  }

  lemma NumberNonnegative(s: seq<int>, b: nat)
    requires b >= 1 && Digits(s, b)
    ensures Number(s, b) >= 0
  {
    NumberBound(s, b);
  }

  // Leading zero bytes become leading '1's; the rest is the number in base 58.
  function Encode(data: seq<int>): string
    requires Octets(data)
  {
    NumberNonnegative(data, 256);
    MinimalNumber(Number(data, 256), 58);
    Fill('1', Lead(data, 0)) + Letters(Minimal(Number(data, 256), 58))
  }

  // And back.
  function Decode(str: string): seq<int>
    requires Valid(str)
  {
    NumberNonnegative(Values(str), 58);
    Fill(0, Lead(str, '1')) + Minimal(Number(Values(str), 58), 256)
  }

  // Digits split into leading zeros and the canonical rest.
  lemma Canonical(s: seq<int>, b: nat)
    requires b >= 2 && Digits(s, b)
    ensures Number(s, b) >= 0 && s == Fill(0, Lead(s, 0)) + Minimal(Number(s, b), b)
  {
    hide Number, Minimal, Lead;
    var n := Lead(s, 0);
    LeadAll(s, 0);
    NumberStrip(s, n, b);
    MinimalUnique(s[n..], b);
    assert s[..n] == Fill(0, n);
    assert s == s[..n] + s[n..];
  }

  lemma LeadFill<T>(x: T, n: nat, m: seq<T>)
    requires m != [] ==> m[0] != x
    ensures Lead(Fill(x, n) + m, x) == n
  {
    LeadIs(Fill(x, n) + m, x, n);
  }

  // The letters of digits, read back.
  lemma Respelled(n: nat, m: seq<int>)
    requires Digits(m, 58) && (m != [] ==> m[0] != 0)
    ensures var str := Fill('1', n) + Letters(m);
            Valid(str) && Values(str) == Fill(0, n) + m && (Letters(m) != [] ==> Letters(m)[0] != '1')
  {
    var str := Fill('1', n) + Letters(m);
    forall k | 0 <= k < |str|
      ensures Digit(str[k]) == (Fill(0, n) + m)[k]
    {
      Alphabet('1', if k < n then 0 else m[k - n]);
    }
    if m != [] {
      Alphabet('1', m[0]);
    }
    assert Values(str) == Fill(0, n) + m;
  }

  lemma Decoded(data: seq<int>)
    requires Octets(data)
    ensures Valid(Encode(data)) && Decode(Encode(data)) == data
  {
    var n, v := Lead(data, 0), Number(data, 256);
    Canonical(data, 256);
    MinimalNumber(v, 58);
    hide Minimal, Number, Lead, Values;
    var m := Minimal(v, 58);
    Respelled(n, m);
    LeadFill('1', n, Letters(m));
    NumberStrip(Fill(0, n) + m, n, 58);
    assert (Fill(0, n) + m)[n..] == m;
  }

  // The digits of a valid string: as many zeros as leading '1's, then a canonical number.
  lemma LeadingOnes(str: string)
    requires Valid(str)
    ensures Lead(Values(str), 0) == Lead(str, '1')
  {
    LeadAll(str, '1');
    var w := Values(str);
    forall k | 0 <= k < |str|
      ensures w[k] == 0 <==> str[k] == '1'
    {
      Alphabet(str[k], 0);
    }
    LeadIs(w, 0, Lead(str, '1'));
  }

  lemma Encoded(str: string)
    requires Valid(str)
    ensures Octets(Decode(str)) && Encode(Decode(str)) == str
  {
    var n, w := Lead(str, '1'), Values(str);
    LeadingOnes(str);
    Canonical(w, 58);
    var v := Number(w, 58);
    MinimalNumber(v, 256);
    MinimalNumber(v, 58);
    hide Minimal, Number, Lead, Values;
    var m := Minimal(v, 256);
    var data := Fill(0, n) + m;
    LeadFill(0, n, m);
    NumberStrip(data, n, 256);
    assert data[n..] == m;
    Spelled(str, n, Minimal(v, 58));
  }

  // The two texts denote the same number and start with as many zeros; nothing else is asked.
  lemma CodeExact(data: seq<int>, str: string)
    requires Octets(data)
    ensures str == Encode(data) <==>
      && Valid(str) && Lead(str, '1') == Lead(data, 0) && Number(Values(str), 58) == Number(data, 256)
  {
    Decoded(data);
    EncodedNumber(data);
    Canonical(data, 256);
    if Valid(str) {
      Encoded(str);
      hide Encode, Values, Lead, Minimal, Number, Valid;
    }
  }

  lemma EncodedNumber(data: seq<int>)
    requires Octets(data)
    ensures Valid(Encode(data)) && Lead(Encode(data), '1') == Lead(data, 0)
    ensures Number(Values(Encode(data)), 58) == Number(data, 256)
  {
    var n, v := Lead(data, 0), Number(data, 256);
    Canonical(data, 256);
    MinimalNumber(v, 58);
    hide Minimal, Number, Lead, Values;
    var m := Minimal(v, 58);
    Respelled(n, m);
    LeadFill('1', n, Letters(m));
    NumberStrip(Fill(0, n) + m, n, 58);
    assert (Fill(0, n) + m)[n..] == m;
  }

  lemma Spelled(str: string, n: nat, m: seq<int>)
    requires Valid(str) && Digits(m, 58) && Values(str) == Fill(0, n) + m
    ensures Fill('1', n) + Letters(m) == str
  {
    var w := Values(str);
    forall k | 0 <= k < |str|
      ensures (Fill('1', n) + Letters(m))[k] == str[k]
    {
      assert w[k] == (Fill(0, n) + m)[k];
      Alphabet(str[k], 0);
    }
  }

  // ---------------------------------------------------------------- how many digits suffice

  lemma PowMonotone(b: int, m: nat, n: nat)
    requires b >= 1 && m <= n
    ensures 1 <= Pow(b, m) <= Pow(b, n)
  {
    hide Pow;
    PowAdd(b, m, n - m);
    PowPositive(b, m);
    PowPositive(b, n - m);
    MulMonotone(1, Pow(b, n - m), Pow(b, m));
  }

  lemma SmallPowers()
    ensures Pow(256, 0) == 1 && Pow(256, 1) == 256 && Pow(256, 2) == 0x1_0000 && Pow(256, 3) == 0x100_0000
    ensures Pow(256, 4) == 0x1_0000_0000 && Pow(256, 5) == 0x100_0000_0000 && Pow(256, 6) == 0x1_0000_0000_0000
    ensures Pow(256, 7) == 0x100_0000_0000_0000 && Pow(256, 8) == 0x1_0000_0000_0000_0000
    ensures Pow(58, 1) == 58 && Pow(58, 2) == 3364 && Pow(58, 3) == 195112 && Pow(58, 5) == 656356768
    ensures Pow(58, 6) == 38068692544 && Pow(58, 7) == 2207984167552 && Pow(58, 9) == 7427658739644928
    ensures Pow(58, 10) == 430804206899405824 && Pow(58, 11) == 24986644000165537792
  {
    PowNext(256, 0); PowNext(256, 1); PowNext(256, 2); PowNext(256, 3);
    PowNext(256, 4); PowNext(256, 5); PowNext(256, 6); PowNext(256, 7);
    PowNext(58, 0); PowNext(58, 1); PowNext(58, 2); PowNext(58, 3); PowNext(58, 4); PowNext(58, 5);
    PowNext(58, 6); PowNext(58, 7); PowNext(58, 8); PowNext(58, 9); PowNext(58, 10);
  }

  // 256^8 <= 58^11, so 11 digits for every 8 bytes, rounded up, always suffice.
  lemma {:induction false} Enough(n: nat, size: nat)
    requires 8 * size > 11 * n
    ensures Pow(256, n) < Pow(58, size)
    decreases n
  {
    SmallPowers();
    hide Pow;
    if n >= 8 {
      Enough(n - 8, size - 11);
      PowAdd(256, 8, n - 8);
      PowAdd(58, 11, size - 11);
      PowPositive(256, n - 8);
      ScaledBelow(Pow(256, 8), Pow(58, 11), Pow(256, n - 8), Pow(58, size - 11));
    } else {
      var least := if n == 0 then 1 else if n == 1 then 2 else if n == 2 then 3 else if n == 3 then 5
                   else if n == 4 then 6 else if n == 5 then 7 else if n == 6 then 9 else 10;
      PowMonotone(58, least, size);
    }
  }

  lemma ScaledBelow(a: int, b: int, x: int, y: int)
    requires 0 < a <= b && 0 < x < y
    ensures a * x < b * y
  {
    MulMonotone(a, b, x);
    MulStep(x, y, b);
    assert b * x == x * b && b * y == y * b;
  }

  // length * 138 / 100 + 1 digits hold any number of that many bytes.
  lemma SizeSuffices(data: seq<int>, z: nat)
    requires Octets(data) && z <= |data| && forall k :: 0 <= k < z ==> data[k] == 0
    ensures Number(data, 256) < Pow(58, (|data| - z) * 138 / 100 + 1)
  {
    NumberStrip(data, z, 256);
    NumberBound(data[z..], 256);
    Enough(|data| - z, (|data| - z) * 138 / 100 + 1);
  }

  // ---------------------------------------------------------------- b58enc

  // One byte is being added: digits right of j are final, the others still those of b0.
  ghost predicate Carrying(b0: seq<int>, byte: int, buf: seq<int>, j: int, carry: int) {
    && |b0| == |buf| && -1 <= j < |buf| && Digits(b0, 58) && Digits(buf, 58) && 0 <= carry < 256 && buf[..j + 1] == b0[..j + 1]
    && Number(b0, 58) * 256 + byte == (Number(b0[..j + 1], 58) * 256 + carry) * Pow(58, |buf| - 1 - j) + Number(buf[j + 1..], 58)
  }

  lemma CarryStart(b0: seq<int>, byte: int)
    requires Digits(b0, 58) && 0 <= byte < 256
    ensures Carrying(b0, byte, b0, |b0| - 1, byte)
  {
    assert b0[..|b0|] == b0 && b0[|b0|..] == [];
  }

  lemma CarryRound(b0: seq<int>, byte: int, buf: seq<int>, j: nat, carry: int)
    requires Carrying(b0, byte, buf, j, carry)
    ensures var t := carry + 256 * buf[j]; Carrying(b0, byte, buf[j := t % 58], j - 1, t / 58)
  {
    var t := carry + 256 * buf[j];
    var buf' := buf[j := t % 58];
    var p := b0[..j + 1];
    assert p[..j] == b0[..j] && p[j] == b0[j] == buf[..j + 1][j] == buf[j];
    assert buf'[..j] == buf[..j + 1][..j] == b0[..j];
    assert buf'[j..] == [t % 58] + buf[j + 1..];
    NumberPrepend(t % 58, buf[j + 1..], 58);
    PowNext(58, |buf| - 1 - j);
    CarryDigits(carry, buf[j]);
    hide Number, Pow;
    CarryTerms(Number(b0[..j], 58), buf[j], carry, t / 58, t % 58, Pow(58, |buf| - 1 - j), Number(buf[j + 1..], 58));
  }

  lemma CarryDigits(carry: int, d: int)
    requires 0 <= carry < 256 && 0 <= d < 58
    ensures 0 <= (carry + 256 * d) / 58 < 256 && 0 <= (carry + 256 * d) % 58 < 58
    ensures carry + 256 * d == (carry + 256 * d) / 58 * 58 + (carry + 256 * d) % 58
  {
  }

  lemma CarryTerms(x: int, d: int, carry: int, q: int, r: int, w: int, n: int)
    requires carry + 256 * d == q * 58 + r
    ensures ((x * 58 + d) * 256 + carry) * w + n == (x * 256 + q) * (58 * w) + (r * w + n)
  {
    assert (x * 58 + d) * 256 + carry == (x * 256 + q) * 58 + r;
    var y := x * 256 + q;
    assert (y * 58 + r) * w == y * (58 * w) + r * w;
  }

  // The carry is gone before the index runs below zero.
  lemma CarryFits(b0: seq<int>, byte: int, buf: seq<int>, carry: int)
    requires Carrying(b0, byte, buf, -1, carry) && Number(b0, 58) * 256 + byte < Pow(58, |buf|)
    ensures carry == 0
  {
    assert b0[..0] == [] && buf[0..] == buf;
    NumberBound(buf, 58);
    PowPositive(58, |buf|);
    if carry >= 1 {
      MulMonotone(1, carry, Pow(58, |buf|));
    }
  }

  lemma CarryEnd(b0: seq<int>, byte: int, buf: seq<int>, j: int)
    requires Carrying(b0, byte, buf, j, 0) && forall k :: 0 <= k <= j ==> b0[k] == 0
    ensures Number(buf, 58) == Number(b0, 58) * 256 + byte && forall k :: 0 <= k <= j ==> buf[k] == 0
  {
    assert forall k :: 0 <= k <= j ==> buf[k] == buf[..j + 1][k] == b0[..j + 1][k];
    NumberZeros(b0[..j + 1], 58);
    NumberStrip(buf, j + 1, 58);
    hide Number, Pow;
    assert (0 * 256 + 0) * Pow(58, |buf| - 1 - j) == 0;
  }

  // buf holds the number of the bytes so far, in zeros up to index high and digits after it.
  ghost predicate Holding(data: seq<int>, buf: seq<int>, i: nat, high: int) {
    && i <= |data| && -1 <= high < |buf| && Digits(buf, 58) && Octets(data)
    && Number(buf, 58) == Number(data[..i], 256) && Number(data, 256) < Pow(58, |buf|)
    && forall k :: 0 <= k <= high ==> buf[k] == 0
  }

  lemma HoldNext(data: seq<int>, buf: seq<int>, i: nat, high: int, buf': seq<int>, j: int)
    requires Holding(data, buf, i, high) && i < |data| && Carrying(buf, data[i], buf', j, 0) && j <= high
    ensures Holding(data, buf', i + 1, j)
  {
    CarryEnd(buf, data[i], buf', j);
    assert data[..i + 1][..i] == data[..i] && data[..i + 1][i] == data[i];
  }

  lemma HoldFits(data: seq<int>, buf: seq<int>, i: nat, high: int)
    requires Holding(data, buf, i, high) && i < |data|
    ensures Number(buf, 58) * 256 + data[i] < Pow(58, |buf|)
  {
    assert data[..i + 1][..i] == data[..i] && data[..i + 1][i] == data[i];
    NumberPrefix(data, i + 1, 256);
  }

  // The inner loop of b58enc.
  method AddByte(buf: array<int>, data: seq<int>, i: nat, high: int) returns (j: int)
    requires i < |data| && Holding(data, buf[..], i, high)
    modifies buf
    ensures Holding(data, buf[..], i + 1, j)
  {
    ghost var b0 := buf[..];
    HoldFits(data, b0, i, high);
    var carry := data[i];
    j := buf.Length - 1;
    assert 0 <= carry < 256 && Digits(b0, 58) && -1 <= high < |b0|;
    CarryStart(b0, carry);
    hide Carrying, Holding, Number, Pow;
    while j > high || carry != 0
      invariant -1 <= j < buf.Length && carry >= 0 && Carrying(b0, data[i], buf[..], j, carry)
      decreases j
    {
      ghost var b := buf[..];
      if j < 0 {
        CarryFits(b0, data[i], b, carry);
      }
      assert j >= 0;
      CarryRound(b0, data[i], b, j, carry);
      carry := carry + 256 * buf[j];
      buf[j] := carry % 58;
      assert buf[..] == b[j := carry % 58];
      carry := carry / 58;
      j := j - 1;
    }
    HoldNext(data, b0, i, high, buf[..], j);
  }

  lemma HoldStart(data: seq<int>, z: nat, buf: seq<int>)
    requires Octets(data) && z <= |data| && forall k :: 0 <= k < z ==> data[k] == 0
    requires |buf| == (|data| - z) * 138 / 100 + 1 && forall k :: 0 <= k < |buf| ==> buf[k] == 0
    ensures Holding(data, buf, z, |buf| - 1)
  {
    SizeSuffices(data, z);
    NumberZeros(data[..z], 256);
    NumberZeros(buf, 58);
    hide Number, Pow;
  }

  // What is left after the zero digits is the canonical number.
  lemma HoldEnd(data: seq<int>, buf: seq<int>, high: int, z: nat, j: nat)
    requires Holding(data, buf, |data|, high) && z == Lead(data, 0) && j <= |buf| && (j < |buf| ==> buf[j] != 0)
    requires forall k :: 0 <= k < j ==> buf[k] == 0
    ensures Octets(data) && Digits(buf, 58) && Encode(data) == Fill('1', z) + Letters(buf[j..])
  {
    assert data[..|data|] == data;
    NumberStrip(buf, j, 58);
    MinimalUnique(buf[j..], 58);
    hide Number, Pow, Minimal, Lead;
  }

  // The caller's size counts the terminating NUL.
  method B58Enc(b58: array<char>, b58sz: nat, data: seq<int>) returns (ok: bool, size: nat)
    requires Octets(data) && b58sz <= b58.Length
    modifies b58
    ensures size == |Encode(data)| + 1 && (ok <==> size <= b58sz)
    ensures ok ==> b58[..size] == Encode(data) + ['\0'] && b58[size..] == old(b58[size..])
    ensures !ok ==> b58[..] == old(b58[..])
  {
    var n, zcount := |data|, 0;
    while zcount < n && data[zcount] == 0
      invariant zcount <= n && forall k :: 0 <= k < zcount ==> data[k] == 0
    {
      zcount := zcount + 1;
    }
    LeadIs(data, 0, zcount);
    var total := (n - zcount) * 138 / 100 + 1;
    var buf := new int[total](_ => 0);
    HoldStart(data, zcount, buf[..]);
    hide Holding, Lead, Encode;
    var i, high := zcount, total - 1;
    while i < n
      invariant zcount <= i <= n && Holding(data, buf[..], i, high) && b58[..] == old(b58[..])
    {
      high := AddByte(buf, data, i, high);
      i := i + 1;
    }
    var j := 0;
    while j < total && buf[j] == 0
      invariant 0 <= j <= total && forall k :: 0 <= k < j ==> buf[k] == 0
    {
      j := j + 1;
    }
    HoldEnd(data, buf[..], high, zcount, j);
    if b58sz <= zcount + total - j {
      return false, zcount + total - j + 1;
    }
    size := WriteLetters(b58, zcount, buf[..], j);
    ok := true;
  }

  method WriteLetters(b58: array<char>, zcount: nat, buf: seq<int>, start: nat) returns (size: nat)
    requires start <= |buf| && Digits(buf, 58) && zcount + |buf| - start < b58.Length
    modifies b58
    ensures size == zcount + |buf| - start + 1 && b58[..size] == Fill('1', zcount) + Letters(buf[start..]) + ['\0']
    ensures b58[size..] == old(b58[size..])
  {
    var i := 0;
    while i < zcount
      invariant 0 <= i <= zcount
      invariant forall k :: 0 <= k < i ==> b58[k] == '1'
      invariant forall k :: i <= k < b58.Length ==> b58[k] == old(b58[k])
    {
      b58[i] := '1';
      i := i + 1;
    }
    var j := start;
    while j < |buf|
      invariant start <= j <= |buf| && i == zcount + j - start
      invariant forall k :: 0 <= k < zcount ==> b58[k] == '1'
      invariant forall k :: zcount <= k < i ==> b58[k] == Letter(buf[start + k - zcount])
      invariant forall k :: i <= k < b58.Length ==> b58[k] == old(b58[k])
    {
      b58[i] := Letter(buf[j]);
      i, j := i + 1, j + 1;
    }
    b58[i] := '\0';
    size := i + 1;
    hide Letter;
    assert b58[..size] == Fill('1', zcount) + Letters(buf[start..]) + ['\0'];
  }
}
