// base58.c: b58check, base58_encode_check and base58_decode_check over an arbitrary 32-byte hash.

module Base58Check {
  import opened Words
  import opened Radix
  import opened Base58
  import opened Base58Decode

  type Hash = seq<int> -> seq<int>

  ghost predicate IsHash(H: Hash) {
    forall s :: |H(s)| == 32 && Octets(H(s))
  }

  // The first four bytes of the double hash.
  function Checksum(H: Hash, data: seq<int>): (c: seq<int>)
    requires IsHash(H)
    ensures |c| == 4 && Octets(c)
  {
    H(H(data))[..4]
  }

  // The text of data with its checksum.
  function CheckText(H: Hash, data: seq<int>): string
    requires IsHash(H) && Octets(data)
  {
    Encode(data + Checksum(H, data))
  }

  lemma CheckTextValid(H: Hash, data: seq<int>)
    requires IsHash(H) && Octets(data)
    ensures Valid(CheckText(H, data)) && Decode(CheckText(H, data)) == data + Checksum(H, data)
  {
    Decoded(data + Checksum(H, data));
  }

  // The checksum is the first four bytes of the hash of the hash.
  lemma CheckTextBytes(H: Hash, data: seq<int>)
    requires IsHash(H) && Octets(data)
    ensures var str := CheckText(H, data);
      && Valid(str) && |Decode(str)| == |data| + 4
      && Decode(str)[..|data|] == data && Decode(str)[|data|..] == H(H(data))[..4]
  {
    CheckTextValid(H, data);
    hide Decode, CheckText;
    assert (data + Checksum(H, data))[..|data|] == data && (data + Checksum(H, data))[|data|..] == Checksum(H, data);
  }

  // str denotes payload and its checksum.
  ghost predicate Carries(H: Hash, str: string, payload: seq<int>)
    requires IsHash(H)
  {
    Valid(str) && Octets(payload) && Decode(str) == payload + Checksum(H, payload)
  }

  // The one text that carries a payload is the one the encoder writes.
  lemma CarriesUnique(H: Hash, str: string, payload: seq<int>)
    requires IsHash(H) && Octets(payload)
    ensures Carries(H, str, payload) <==> str == CheckText(H, payload)
  {
    CheckTextValid(H, payload);
    if Carries(H, str, payload) {
      Encoded(str);
    }
    hide Decode, Encode;
  }

  // ---------------------------------------------------------------- b58check

  // The loop stops within the buffer: decoding makes as many zero bytes as there are leading '1's,
  // and the byte after them is not zero.
  lemma ZerosMatch(str: string, bin: seq<int>)
    requires Valid(str) && bin == Decode(str)
    ensures Lead(bin, 0) == Lead(str, '1')
  {
    DecodeIs(str);
    MinimalNumber(Number(Values(str), 58), 256);
    LeadFill(0, Lead(str, '1'), Minimal(Number(Values(str), 58), 256));
    hide Number, Minimal, Values, Decode, Lead;
  }

  // The last four bytes are the checksum of the others.
  ghost predicate Checked(H: Hash, bin: seq<int>)
    requires IsHash(H)
  {
    |bin| >= 4 && bin[|bin| - 4..] == Checksum(H, bin[..|bin| - 4])
  }

  lemma CheckedBytes(H: Hash, bin: seq<int>)
    requires IsHash(H)
    ensures Checked(H, bin) <==> |bin| >= 4 && bin[|bin| - 4..] == H(H(bin[..|bin| - 4]))[..4]
  {
  }

  // b58check skips zero bytes against '1's.  It stays within bin unless bin is nothing but zeros, is
  // its own checksum, and the text has enough '1's.
  ghost predicate SkipsWithin(H: Hash, bin: seq<int>, str: string)
    requires IsHash(H)
  {
    Checked(H, bin) && Lead(bin, 0) == |bin| ==> Lead(str, '1') < |bin|
  }

  // Negative results are the error codes of b58check.
  method B58CheckSum(H: Hash, bin: seq<int>, str: string) returns (r: int)
    requires IsHash(H) && Octets(bin) && SkipsWithin(H, bin, str)
    ensures r == if |bin| < 4 then -4 else if !Checked(H, bin) then -1
                 else if Lead(bin, 0) != Lead(str, '1') then -3 else bin[0]
    ensures r >= 0 <==> Checked(H, bin) && Lead(bin, 0) == Lead(str, '1')
  {
    var binsz := |bin|;
    if binsz < 4 {
      return -4;
    }
    var payload := bin[..binsz - 4];
    var buf := H(payload);
    buf := H(buf);
    if bin[binsz - 4..] != buf[..4] {
      return -1;
    }
    LeadAll(bin, 0);
    LeadAll(str, '1');
    hide Lead;
    var i := 0;
    while bin[i] == 0 && i < |str| && str[i] == '1'
      invariant 0 <= i <= Lead(bin, 0) && i <= Lead(str, '1') && i < binsz
    {
      i := i + 1;
    }
    if bin[i] == 0 || (i < |str| && str[i] == '1') {
      return -3;
    }
    r := bin[0];
  }

  // ---------------------------------------------------------------- encode and decode

  method EncodeCheck(H: Hash, data: seq<int>, str: array<char>, strsize: nat) returns (r: nat)
    requires IsHash(H) && Octets(data) && strsize <= str.Length
    modifies str
    ensures r == if |data| <= 128 && |CheckText(H, data)| < strsize then |CheckText(H, data)| + 1 else 0
    ensures r > 0 ==> str[..r] == CheckText(H, data) + ['\0']
    ensures r == 0 ==> str[..] == old(str[..])
  {
    if |data| > 128 {
      return 0;
    }
    var hash := H(data);
    hash := H(hash);
    var success, res := B58Enc(str, strsize, data + hash[..4]);
    r := if success then res else 0;
  }

  // What base58_decode_check takes: a valid text of a payload of at most n bytes and its checksum.
  ghost predicate Accepts(H: Hash, str: string, n: nat)
    requires IsHash(H)
  {
    n <= 128 && Valid(str) && 4 <= |Decode(str)| <= n + 4 && Carries(H, str, Decode(str)[..|Decode(str)| - 4])
  }

  // The accepted texts are exactly the ones the encoder writes for payloads of that size.
  lemma AcceptsText(H: Hash, payload: seq<int>, n: nat)
    requires IsHash(H) && Octets(payload) && |payload| <= n <= 128
    ensures var str := CheckText(H, payload);
            Accepts(H, str, n) && |Decode(str)| == |payload| + 4 && Decode(str)[..|payload|] == payload
  {
    CheckTextValid(H, payload);
    assert (payload + Checksum(H, payload))[..|payload|] == payload;
    hide CheckText, Decode, Checksum;
  }

  lemma AcceptsOnly(H: Hash, str: string, n: nat)
    requires IsHash(H) && Accepts(H, str, n)
    ensures str == CheckText(H, Decode(str)[..|Decode(str)| - 4])
  {
    CarriesUnique(H, str, Decode(str)[..|Decode(str)| - 4]);
    hide CheckText, Decode, Carries;
  }

  // What base58_decode_check needs to stay within its buffers: when the text has room, the bytes it
  // decodes to fit too, and they are not a run of zeros that is its own checksum.
  ghost predicate InBounds(H: Hash, str: string, n: nat)
    requires IsHash(H)
  {
    n <= 128 && Valid(str) && Number(Values(str), 58) < Pow(256, n + 4) ==>
      && Lead(str, '1') <= n + 4 && Number(Values(str), 58) < Pow(256, n + 4 - Lead(str, '1'))
      && !(Lead(str, '1') == |str| && Checked(H, Fill(0, |str|)))
  }

  // "11111" is five bytes, so that the start of the bytes lies in front of a buffer of four.
  lemma FiveOnes(H: Hash)
    requires IsHash(H)
    ensures !InBounds(H, "11111", 0) && Number(Values("11111"), 58) < Pow(256, 4) && |Decode("11111")| == 5
  {
    Ones(5);
    assert "11111" == Fill('1', 5);
    SmallPowers();
  }

  // That is exactly what the pointer arithmetic and the loop of b58check need.
  lemma BoundsExact(H: Hash, str: string, n: nat)
    requires IsHash(H) && n <= 128 && Valid(str) && Number(Values(str), 58) < Pow(256, n + 4)
    ensures InBounds(H, str, n) <==> |Decode(str)| <= n + 4 && SkipsWithin(H, Decode(str), str)
    ensures Lead(Decode(str), 0) == Lead(str, '1')
  {
    hide Number, Values, Decode, Lead, Pow, Checked, Valid;
    SizeFits(str, n + 4);
    ZerosMatch(str, Decode(str));
    if Lead(str, '1') == |Decode(str)| || Lead(str, '1') == |str| {
      AllOnes(str);
    }
  }

  // Only '1's decode to zeros and nothing else.
  lemma AllOnes(str: string)
    requires Valid(str) && (Lead(str, '1') == |Decode(str)| || Lead(str, '1') == |str|)
    ensures Lead(str, '1') == |str| && Decode(str) == Fill(0, |str|)
  {
    var n := Lead(str, '1');
    LeadAll(str, '1');
    DecodeIs(str);
    Ones(n);
    Encoded(str);
    Encoded(Fill('1', n));
    hide Number, Values, Minimal, Decode, Encode, Lead, Valid;
    assert n == |str| ==> str == Fill('1', n);
    assert n == |Decode(str)| ==> Decode(str) == Fill(0, n);
  }

  method DecodeCheck(H: Hash, str: string, data: array<int>, datalen: nat) returns (r: nat)
    requires IsHash(H) && datalen <= data.Length && InBounds(H, str, datalen)
    modifies data
    ensures Accepts(H, str, datalen) ==> r == |Decode(str)| - 4 && data[..r] == Decode(str)[..r]
    ensures !Accepts(H, str, datalen) ==> r == 0
    ensures data[r..] == old(data[r..])
  {
    hide *;
    if datalen > 128 {
      NotAccepted(H, str, datalen);
      return 0;
    }
    var d := new int[datalen + 4];
    var ok, res := B58ToBin(d, str);
    if !ok {
      TooLong(str, datalen + 4);
      NotAccepted(H, str, datalen);
      return 0;
    }
    BoundsExact(H, str, datalen);
    var nd := d[datalen + 4 - res..];
    DecodedOctets(str);
    var check := B58CheckSum(H, nd, str);
    if res >= 4 {
      CheckedCarries(H, str);
    }
    if check < 0 {
      NotAccepted(H, str, datalen);
      return 0;
    }
    r := res - 4;
    CopyBytes(data, nd, r);
    Accepted(H, str, datalen, r);
  }

  lemma CheckedCarries(H: Hash, str: string)
    requires IsHash(H) && Valid(str) && |Decode(str)| >= 4
    ensures Checked(H, Decode(str)) <==> Carries(H, str, Decode(str)[..|Decode(str)| - 4])
  {
    DecodedOctets(str);
    hide Decode, Valid, Checksum;
    var bin := Decode(str);
    assert bin == bin[..|bin| - 4] + bin[|bin| - 4..];
  }

  lemma Accepted(H: Hash, str: string, n: nat, r: nat)
    requires IsHash(H) && n <= 128 && Valid(str) && |Decode(str)| == r + 4 <= n + 4 && Carries(H, str, Decode(str)[..r])
    ensures Accepts(H, str, n)
  {
    hide Valid, Decode, Carries;
  }

  lemma NotAccepted(H: Hash, str: string, n: nat)
    requires IsHash(H)
    requires n > 128 || !Valid(str) || |Decode(str)| > n + 4 || |Decode(str)| < 4 || !Carries(H, str, Decode(str)[..|Decode(str)| - 4])
    ensures !Accepts(H, str, n)
  {
    hide Valid, Decode, Carries;
  }

  method CopyBytes(data: array<int>, src: seq<int>, n: nat)
    requires n <= |src| && n <= data.Length
    modifies data
    ensures data[..n] == src[..n] && data[n..] == old(data[n..])
  {
    var i := 0;
    while i < n
      invariant 0 <= i <= n && forall k :: 0 <= k < i ==> data[k] == src[k]
      invariant forall k :: i <= k < data.Length ==> data[k] == old(data[k])
    {
      data[i] := src[i];
      i := i + 1;
    }
  }

  lemma DecodedOctets(str: string)
    requires Valid(str)
    ensures Octets(Decode(str))
  {
    Encoded(str);
  }

  lemma TooLong(str: string, n: nat)
    requires !(Valid(str) && Number(Values(str), 58) < Pow(256, n))
    ensures !(Valid(str) && |Decode(str)| <= n)
  {
    hide Valid, Number, Decode, Values, Pow;
    if Valid(str) && |Decode(str)| <= n {
      Roomy(str, n);
    }
  }

  // A decoding that is short enough has room.
  lemma Roomy(str: string, n: nat)
    requires Valid(str) && |Decode(str)| <= n
    ensures Number(Values(str), 58) < Pow(256, n)
  {
    DecodeIs(str);
    var m := Minimal(Number(Values(str), 58), 256);
    MinimalNumber(Number(Values(str), 58), 256);
    NumberBound(m, 256);
    PowMonotone(256, |m|, n);
  }
}
