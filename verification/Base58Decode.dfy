// base58.c: b58tobin, which multiplies an array of 32-bit words in place and writes it out as bytes.

module Base58Decode {
  import opened Words
  import opened Radix
  import opened Base58

  lemma {:induction false} WordPower(k: nat)
    ensures Pow(256, 4 * k) == Pow(W32, k)
  {
    if k > 0 {
      WordPower(k - 1);
      PowAdd(256, 4, 4 * (k - 1));
      SmallPowers();
      assert 4 * k == 4 + 4 * (k - 1);
      hide Pow;
      assert Pow(W32, k) == W32 * Pow(W32, k - 1) by { PowNext(W32, k - 1); }
    }
  }

  // ---------------------------------------------------------------- one digit

  // The words from j on are final; c is carried into word j - 1.
  ghost predicate Multiplying(o0: seq<int>, c0: int, o: seq<int>, j: nat, c: int) {
    && |o0| == |o| && j <= |o| && Digits(o0, W32) && Digits(o, W32) && 0 <= c < 58 && o[..j] == o0[..j]
    && Number(o0, W32) * 58 + c0 == (Number(o0[..j], W32) * 58 + c) * Pow(W32, |o| - j) + Number(o[j..], W32)
  }

  lemma MultiplyStart(o: seq<int>, c: int)
    requires Digits(o, W32) && 0 <= c < 58
    ensures Multiplying(o, c, o, |o|, c)
  {
    assert o[..|o|] == o && o[|o|..] == [];
  }

  lemma MultiplyRound(o0: seq<int>, c0: int, o: seq<int>, j: nat, c: int)
    requires Multiplying(o0, c0, o, j, c) && j > 0
    ensures var t := o[j - 1] * 58 + c; Multiplying(o0, c0, o[j - 1 := t % W32], j - 1, t / W32)
  {
    var d := o[j - 1];
    var t := d * 58 + c;
    var o' := o[j - 1 := t % W32];
    var p := o0[..j];
    assert p[..j - 1] == o0[..j - 1] && p[j - 1] == o[..j][j - 1] == d;
    assert o'[..j - 1] == o[..j][..j - 1] == o0[..j - 1];
    assert o'[j - 1..] == [t % W32] + o[j..];
    NumberPrepend(t % W32, o[j..], W32);
    PowNext(W32, |o| - j);
    WordCarry(d, c);
    hide Number, Pow;
    MultiplyTerms(Number(o0[..j - 1], W32), d, c, t / W32, t % W32, Pow(W32, |o| - j), Number(o[j..], W32), W32);
  }

  lemma WordCarry(d: int, c: int)
    requires 0 <= d < W32 && 0 <= c < 58
    ensures 0 <= (d * 58 + c) / W32 < 58 && 0 <= (d * 58 + c) % W32 < W32
    ensures d * 58 + c == (d * 58 + c) / W32 * W32 + (d * 58 + c) % W32
  {
  }

  lemma MultiplyTerms(x: int, d: int, c: int, q: int, r: int, w: int, n: int, b: int)
    requires d * 58 + c == q * b + r
    ensures ((x * b + d) * 58 + c) * w + n == (x * 58 + q) * (b * w) + (r * w + n)
  {
    assert (x * b + d) * 58 + c == (x * 58 + q) * b + r;
    var y := x * 58 + q;
    assert (y * b + r) * w == y * (b * w) + r * w;
  }

  lemma MultiplyEnd(o0: seq<int>, c0: int, o: seq<int>, c: int)
    requires Multiplying(o0, c0, o, 0, c)
    ensures Number(o0, W32) * 58 + c0 == c * Pow(W32, |o|) + Number(o, W32) && Digits(o, W32)
  {
    assert o0[..0] == [] && o[0..] == o;
    hide Pow;
  }

  method TakeDigit(outi: array<int>, digit: int) returns (c: int)
    requires Digits(outi[..], W32) && 0 <= digit < 58
    modifies outi
    ensures Digits(outi[..], W32) && 0 <= c < 58
    ensures old(Number(outi[..], W32)) * 58 + digit == c * Pow(W32, outi.Length) + Number(outi[..], W32)
  {
    ghost var o0 := outi[..];
    MultiplyStart(o0, digit);
    hide Multiplying, Number, Pow;
    c := digit;
    var j := outi.Length;
    while j > 0
      invariant 0 <= j <= outi.Length && 0 <= c < 58 && Multiplying(o0, digit, outi[..], j, c)
    {
      ghost var o := outi[..];
      MultiplyRound(o0, digit, o, j, c);
      j := j - 1;
      WordsInRange(o0, digit, o, j + 1, c);
      WordCarry(outi[j], c);
      var t := outi[j] * 58 + c;
      c := t / W32;
      outi[j] := t % W32;
      assert outi[..] == o[j := t % W32];
    }
    MultiplyEnd(o0, digit, outi[..], c);
  }

  lemma WordsInRange(o0: seq<int>, c0: int, o: seq<int>, j: nat, c: int)
    requires Multiplying(o0, c0, o, j, c) && j > 0
    ensures 0 <= o[j - 1] < W32
  {
    hide Number, Pow;
  }

  // ---------------------------------------------------------------- room

  // outi[0] & zeromask: bits above the bytes the top word may fill.
  predicate TopOverflows(o: seq<int>, bytesleft: nat)
    requires |o| > 0 && bytesleft < 4
  {
    bytesleft > 0 && o[0] >= if bytesleft == 1 then 0x100 else if bytesleft == 2 then 0x1_0000 else 0x100_0000
  }

  lemma Room(o: seq<int>, binsz: nat)
    requires binsz >= 1 && |o| == (binsz + 3) / 4 && Digits(o, W32)
    ensures TopOverflows(o, binsz % 4) <==> Number(o, W32) >= Pow(256, binsz)
    ensures Pow(256, binsz) <= Pow(W32, |o|)
  {
    hide Pow, Number;
    var left, n := binsz % 4, |o|;
    NumberBound(o, W32);
    WordPower(n);
    PowMonotone(256, binsz, 4 * n);
    if left > 0 {
      TopWord(o, left);
      assert binsz == left + 4 * (n - 1);
    } else {
      assert binsz == 4 * n;
    }
  }

  lemma TopWord(o: seq<int>, left: nat)
    requires 0 < left < 4 && |o| > 0 && Digits(o, W32)
    ensures TopOverflows(o, left) <==> Number(o, W32) >= Pow(256, left + 4 * (|o| - 1))
  {
    hide Pow, Number;
    var n := |o|;
    WordPower(n - 1);
    PowAdd(256, left, 4 * (n - 1));
    SmallPowers();
    assert o == [o[0]] + o[1..];
    NumberPrepend(o[0], o[1..], W32);
    NumberBound(o[1..], W32);
    TopDecides(o[0], Pow(256, left), Pow(W32, n - 1), Number(o[1..], W32));
  }

  lemma TopDecides(top: int, limit: int, w: int, rest: int)
    requires 0 <= rest < w
    ensures top * w + rest >= limit * w <==> top >= limit
  {
    if top >= limit {
      MulMonotone(limit, top, w);
    } else {
      MulMonotone(top + 1, limit, w);
      assert (top + 1) * w == top * w + w;
    }
  }

  // The first i characters are valid and their number is in the words, which still have room.
  ghost predicate Reading(str: string, i: nat, o: seq<int>, binsz: nat) {
    && i <= |str| && Valid(str[..i]) && Digits(o, W32) && binsz >= 1 && |o| == (binsz + 3) / 4
    && Number(o, W32) == Number(Values(str[..i]), 58) && Number(o, W32) < Pow(256, binsz)
  }

  lemma ReadStart(str: string, i: nat, o: seq<int>, binsz: nat)
    requires i <= |str| && (forall k :: 0 <= k < i ==> str[k] == '1') && binsz >= 1 && |o| == (binsz + 3) / 4
    requires forall k :: 0 <= k < |o| ==> o[k] == 0
    ensures Reading(str, i, o, binsz)
  {
    Alphabet('1', 0);
    NumberZeros(o, W32);
    NumberZeros(Values(str[..i]), 58);
    PowPositive(256, binsz);
  }

  lemma ReadBad(str: string, i: nat)
    requires i < |str| && Digit(str[i]) < 0
    ensures !Valid(str)
  {
  }

  // The number of a prefix, one digit longer.
  lemma PrefixNumber(str: string, i: nat)
    requires i < |str| && Valid(str[..i]) && Digit(str[i]) >= 0
    ensures Valid(str[..i + 1])
    ensures Number(Values(str[..i + 1]), 58) == Number(Values(str[..i]), 58) * 58 + Digit(str[i])
  {
    var s := str[..i + 1];
    assert s[..i] == str[..i] && s[i] == str[i];
    assert Valid(s);
    assert Values(s)[..i] == Values(str[..i]);
  }

  lemma PrefixBelow(str: string, i: nat)
    requires i <= |str| && Valid(str)
    ensures Valid(str[..i]) && Number(Values(str[..i]), 58) <= Number(Values(str), 58)
  {
    NumberPrefix(Values(str), i, 58);
    assert Values(str)[..i] == Values(str[..i]);
  }

  lemma Fits(v: int, c: int, q: int, n: int, p: int, over: bool)
    requires v == c * q + n && 0 <= n < q && p <= q && c >= 0 && (over <==> n >= p)
    ensures if c == 0 && !over then v == n < p else v >= p
  {
    if c > 0 {
      MulMonotone(1, c, q);
    }
  }

  // The number after one more digit, and what it means for the whole string if it does not fit.
  lemma ReadNext(str: string, i: nat, o: seq<int>, binsz: nat, o': seq<int>, c: int)
    requires Reading(str, i, o, binsz) && i < |str| && Digit(str[i]) >= 0 && |o'| == |o| && Digits(o', W32) && c >= 0
    requires Number(o, W32) * 58 + Digit(str[i]) == c * Pow(W32, |o'|) + Number(o', W32)
    ensures |o'| > 0
    ensures c == 0 && !TopOverflows(o', binsz % 4) ==> Reading(str, i + 1, o', binsz)
    ensures c > 0 || TopOverflows(o', binsz % 4) ==> Valid(str) ==> Number(Values(str), 58) >= Pow(256, binsz)
  {
    var v := Number(o, W32) * 58 + Digit(str[i]);
    ReadParts(str, i, o, binsz);
    hide *;
    PrefixNumber(str, i);
    Room(o', binsz);
    NumberBound(o', W32);
    Fits(v, c, Pow(W32, |o'|), Number(o', W32), Pow(256, binsz), TopOverflows(o', binsz % 4));
    if Valid(str) {
      PrefixBelow(str, i + 1);
    }
    if c == 0 && !TopOverflows(o', binsz % 4) {
      ReadWhole(str, i + 1, o', binsz);
    }
  }

  lemma ReadParts(str: string, i: nat, o: seq<int>, binsz: nat)
    requires Reading(str, i, o, binsz)
    ensures i <= |str| && Valid(str[..i]) && Number(o, W32) == Number(Values(str[..i]), 58) && binsz >= 1
    ensures |o| == (binsz + 3) / 4
  {
    hide Number, Pow, Values, Digits, Valid;
  }

  lemma ReadWhole(str: string, i: nat, o: seq<int>, binsz: nat)
    requires i <= |str| && Valid(str[..i]) && Digits(o, W32) && binsz >= 1 && |o| == (binsz + 3) / 4
    requires Number(o, W32) == Number(Values(str[..i]), 58) && Number(o, W32) < Pow(256, binsz)
    ensures Reading(str, i, o, binsz)
  {
    hide Number, Pow, Values, Digits, Valid;
  }

  // ---------------------------------------------------------------- bytes out

  // The first p bytes hold the first j words.
  ghost predicate Unpacked(o: seq<int>, j: nat, bin: seq<int>, p: nat) {
    j <= |o| && p <= |bin| && Octets(bin[..p]) && Number(bin[..p], 256) == Number(o[..j], W32)
  }

  method WriteTop(o: seq<int>, bin: array<int>) returns (j: nat, p: nat)
    requires bin.Length >= 1 && |o| == (bin.Length + 3) / 4 && Digits(o, W32) && !TopOverflows(o, bin.Length % 4)
    modifies bin
    ensures Unpacked(o, j, bin[..], p) && p == bin.Length % 4 && j == if p == 0 then 0 else 1
  {
    var bytesleft := bin.Length % 4;
    j, p := 0, 0;
    if bytesleft == 3 {
      bin[p] := o[0] / 0x1_0000 % 0x100;
      p := p + 1;
    }
    if bytesleft == 3 || bytesleft == 2 {
      bin[p] := o[0] / 0x100 % 0x100;
      p := p + 1;
    }
    if bytesleft >= 1 {
      bin[p] := o[0] % 0x100;
      p := p + 1;
      j := 1;
    }
    TopBytes(o, bin[..], p);
  }

  lemma TopBytes(o: seq<int>, bin: seq<int>, p: nat)
    requires |o| > 0 && 0 <= o[0] < W32 && p < 4 && p <= |bin| && !TopOverflows(o, p)
    requires p == 3 ==> bin[0] == o[0] / 0x1_0000 % 0x100 && bin[1] == o[0] / 0x100 % 0x100 && bin[2] == o[0] % 0x100
    requires p == 2 ==> bin[0] == o[0] / 0x100 % 0x100 && bin[1] == o[0] % 0x100
    requires p == 1 ==> bin[0] == o[0] % 0x100
    ensures Unpacked(o, if p == 0 then 0 else 1, bin, p)
  {
    if p > 0 {
      assert o[..1] == [o[0]] && [o[0]][..0] == [];
      assert Number(o[..1], W32) == o[0];
      var b := bin[..p];
      SmallNumbers(b);
      ByteSplit(o[0]);
    }
  }

  lemma SmallNumbers(b: seq<int>)
    requires 1 <= |b| <= 4
    ensures Number(b, 256) == if |b| == 1 then b[0] else if |b| == 2 then b[0] * 256 + b[1]
                              else if |b| == 3 then (b[0] * 256 + b[1]) * 256 + b[2]
                              else ((b[0] * 256 + b[1]) * 256 + b[2]) * 256 + b[3]
  {
    if |b| == 1 {
      assert b[..0] == [];
    } else {
      SmallNumbers(b[..|b| - 1]);
    }
  }

  lemma ByteSplit(w: int)
    requires 0 <= w < W32
    ensures w == ((w / 0x100_0000 * 256 + w / 0x1_0000 % 0x100) * 256 + w / 0x100 % 0x100) * 256 + w % 0x100
    ensures 0 <= w / 0x100_0000 < 256 && w / 0x100_0000 % 0x100 == w / 0x100_0000
    ensures w < 0x100_0000 ==> w / 0x100_0000 == 0
    ensures w < 0x1_0000 ==> w / 0x1_0000 % 0x100 == 0
    ensures w < 0x100 ==> w / 0x100 % 0x100 == 0
  {
    DivDiv(w, 0x100, 0x100);
    DivDiv(w, 0x1_0000, 0x100);
  }

  method WriteWords(o: seq<int>, bin: array<int>, first: nat, start: nat)
    requires Digits(o, W32) && first <= |o| && Unpacked(o, first, bin[..], start) && start + 4 * (|o| - first) == bin.Length
    modifies bin
    ensures Octets(bin[..]) && Number(bin[..], 256) == Number(o, W32)
  {
    hide Unpacked, Number;
    var j, p := first, start;
    while j < |o|
      invariant first <= j <= |o| && p + 4 * (|o| - j) == bin.Length && Unpacked(o, j, bin[..], p)
    {
      ghost var b := bin[..];
      bin[p] := o[j] / 0x100_0000 % 0x100;
      bin[p + 1] := o[j] / 0x1_0000 % 0x100;
      bin[p + 2] := o[j] / 0x100 % 0x100;
      bin[p + 3] := o[j] % 0x100;
      NextWord(o, j, b, bin[..], p);
      j, p := j + 1, p + 4;
    }
    AllWords(o, bin[..], p);
  }

  lemma NextWord(o: seq<int>, j: nat, b: seq<int>, bin: seq<int>, p: nat)
    requires j < |o| && 0 <= o[j] < W32 && Unpacked(o, j, b, p) && p + 4 <= |b| == |bin| && forall k :: 0 <= k < p ==> bin[k] == b[k]
    requires bin[p] == o[j] / 0x100_0000 % 0x100 && bin[p + 1] == o[j] / 0x1_0000 % 0x100
    requires bin[p + 2] == o[j] / 0x100 % 0x100 && bin[p + 3] == o[j] % 0x100
    ensures Unpacked(o, j + 1, bin, p + 4)
  {
    ByteSplit(o[j]);
    var w := bin[p..p + 4];
    SmallNumbers(w);
    assert bin[..p + 4] == b[..p] + w;
    NumberConcat(b[..p], w, 256);
    SmallPowers();
    assert o[..j + 1][..j] == o[..j];
  }

  lemma AllWords(o: seq<int>, bin: seq<int>, p: nat)
    requires Unpacked(o, |o|, bin, p) && p == |bin|
    ensures Octets(bin) && Number(bin, 256) == Number(o, W32)
  {
    assert o[..|o|] == o && bin[..p] == bin;
  }

  // ---------------------------------------------------------------- b58tobin

  lemma ZerosTail(lead: nat, n: nat, m: seq<int>)
    requires n <= lead
    ensures (Fill(0, lead) + m)[lead - n..] == Fill(0, n) + m
  {
  }

  lemma DecodeIs(str: string)
    requires Valid(str)
    ensures Number(Values(str), 58) >= 0
    ensures Decode(str) == Fill(0, Lead(str, '1')) + Minimal(Number(Values(str), 58), 256)
  {
    NumberNonnegative(Values(str), 58);
    hide Lead, Number, Minimal, Values;
  }

  // The size handed back: the significant bytes plus one for every leading '1'.
  lemma SizeMeans(str: string, bin: seq<int>, lead: nat)
    requires Valid(str) && Octets(bin) && Number(bin, 256) == Number(Values(str), 58) && lead == Lead(bin, 0)
    ensures |bin| - lead + Lead(str, '1') == |Decode(str)|
    ensures |Decode(str)| <= |bin| ==> bin[|bin| - |Decode(str)|..] == Decode(str)
  {
    hide Number, Minimal, Lead, Values, Decode;
    Canonical(bin, 256);
    DecodeIs(str);
    var n := Lead(str, '1');
    if n <= lead {
      ZerosTail(lead, n, Minimal(Number(bin, 256), 256));
    }
  }

  // A number has at most k significant bytes exactly when it is below 256^k.
  lemma MinimalFits(v: nat, k: nat)
    ensures |Minimal(v, 256)| <= k <==> v < Pow(256, k)
  {
    var m := Minimal(v, 256);
    MinimalNumber(v, 256);
    NumberBound(m, 256);
    if |m| <= k {
      PowMonotone(256, |m|, k);
    } else if v > 0 {
      PowMonotone(256, k, |m| - 1);
      NumberPrepend(m[0], m[1..], 256);
      NumberBound(m[1..], 256);
      assert m == [m[0]] + m[1..];
      MulMonotone(1, m[0], Pow(256, |m| - 1));
    }
  }

  // The reported size may exceed the buffer, since every leading '1' counts as a byte of its own.
  // It does not exactly when the number leaves room for them.
  lemma SizeFits(str: string, n: nat)
    requires Valid(str)
    ensures |Decode(str)| <= n <==> Lead(str, '1') <= n && Number(Values(str), 58) < Pow(256, n - Lead(str, '1'))
  {
    DecodeIs(str);
    hide Lead, Number, Minimal, Values, Decode, Valid, Pow;
    if Lead(str, '1') <= n {
      MinimalFits(Number(Values(str), 58), n - Lead(str, '1'));
    }
  }

  // "11" is two zero bytes, whatever room there is.
  lemma SizeCanExceed()
    ensures Valid("11") && Number(Values("11"), 58) < Pow(256, 1) && |Decode("11")| == 2
  {
    Ones(2);
    SmallPowers();
    assert "11" == Fill('1', 2);
  }

  // A string of '1's decodes to as many zero bytes.
  lemma Ones(n: nat)
    ensures Valid(Fill('1', n)) && Number(Values(Fill('1', n)), 58) == 0 && Decode(Fill('1', n)) == Fill(0, n)
    ensures Lead(Fill('1', n), '1') == n
  {
    Alphabet('1', 0);
    NumberZeros(Values(Fill('1', n)), 58);
    LeadIs(Fill('1', n), '1', n);
    DecodeIs(Fill('1', n));
  }

  // The outer loop: the number of the string, or failure if a character is bad or it has no room.
  method ReadAll(outi: array<int>, str: string, start: nat, binsz: nat) returns (ok: bool)
    requires start <= |str| && Reading(str, start, outi[..], binsz)
    modifies outi
    ensures !ok ==> Valid(str) ==> Number(Values(str), 58) >= Pow(256, binsz)
    ensures ok ==> Reading(str, |str|, outi[..], binsz)
  {
    hide Reading, Values, Number, Pow, TopOverflows, Digit;
    var i := start;
    while i < |str|
      invariant i <= |str| && Reading(str, i, outi[..], binsz)
    {
      if Digit(str[i]) == -1 {
        ReadBad(str, i);
        return false;
      }
      ghost var o := outi[..];
      ReadDigits(str, i, o, binsz);
      var c := TakeDigit(outi, Digit(str[i]));
      ReadNext(str, i, o, binsz, outi[..], c);
      if c != 0 {
        return false;
      }
      if TopOverflows(outi[..], binsz % 4) {
        return false;
      }
      i := i + 1;
    }
    ok := true;
  }

  // A non-empty buffer is filled exactly when the string is valid and its number fits.
  method B58ToBin(bin: array<int>, str: string) returns (ok: bool, size: nat)
    requires bin.Length >= 1
    modifies bin
    ensures ok <==> Valid(str) && Number(Values(str), 58) < Pow(256, bin.Length)
    ensures !ok ==> bin[..] == old(bin[..]) && size == bin.Length
    ensures ok ==> Octets(bin[..]) && Number(bin[..], 256) == Number(Values(str), 58) && size == |Decode(str)|
    ensures ok && size <= bin.Length ==> bin[bin.Length - size..] == Decode(str)
  {
    hide Reading, Values, Number, Pow, Lead, TopOverflows, Decode, Digit;
    var outisz := (bin.Length + 3) / 4;
    var outi := new int[outisz](_ => 0);
    size := bin.Length;
    var i, zerocount := 0, 0;
    while i < |str| && str[i] == '1'
      invariant i == zerocount <= |str| && forall k :: 0 <= k < i ==> str[k] == '1'
    {
      i, zerocount := i + 1, zerocount + 1;
    }
    LeadIs(str, '1', zerocount);
    ReadStart(str, i, outi[..], bin.Length);
    ok := ReadAll(outi, str, i, bin.Length);
    if !ok {
      return;
    }
    ReadEnd(str, outi[..], bin.Length);
    size := WriteOut(outi[..], bin, str);
    size := size + zerocount;
  }

  method WriteOut(o: seq<int>, bin: array<int>, ghost str: string) returns (size: nat)
    requires bin.Length >= 1 && |o| == (bin.Length + 3) / 4 && Digits(o, W32) && !TopOverflows(o, bin.Length % 4)
    requires Valid(str) && Number(o, W32) == Number(Values(str), 58)
    modifies bin
    ensures Octets(bin[..]) && Number(bin[..], 256) == Number(Values(str), 58) && size + Lead(str, '1') == |Decode(str)|
    ensures |Decode(str)| <= bin.Length ==> bin[bin.Length - |Decode(str)|..] == Decode(str)
  {
    hide Values, Number, Lead, TopOverflows, Decode, Unpacked;
    var j, p := WriteTop(o, bin);
    WriteWords(o, bin, j, p);
    size := bin.Length;
    var i := 0;
    while i < bin.Length && bin[i] == 0
      invariant 0 <= i <= bin.Length && size == bin.Length - i && forall k :: 0 <= k < i ==> bin[k] == 0
    {
      i, size := i + 1, size - 1;
    }
    LeadIs(bin[..], 0, i);
    SizeMeans(str, bin[..], i);
  }

  lemma ReadDigits(str: string, i: nat, o: seq<int>, binsz: nat)
    requires Reading(str, i, o, binsz)
    ensures Digits(o, W32)
  {
    hide Number, Pow, Values;
  }

  lemma ReadEnd(str: string, o: seq<int>, binsz: nat)
    requires Reading(str, |str|, o, binsz)
    ensures Valid(str) && Number(o, W32) == Number(Values(str), 58) && Number(o, W32) < Pow(256, binsz)
    ensures Digits(o, W32) && |o| == (binsz + 3) / 4 && |o| > 0 && !TopOverflows(o, binsz % 4)
  {
    assert str[..|str|] == str;
    Room(o, binsz);
    hide Number, Pow, TopOverflows;
  }
}
