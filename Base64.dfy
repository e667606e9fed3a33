/** The browser's `btoa` and `atob` over byte-valued strings.
    `btoa` is the base 64 encoding of section 4 of RFC 4648 (with padding);
    `atob` is the forgiving-base64 decode of the WHATWG Infra standard, which
    skips ASCII whitespace, accepts input with or without padding and throws
    an `InvalidCharacterError` on anything else. */
module Base64 {
  import opened Wrappers
  import opened Dom

  /** An octet, as a Uint8Array element holds it. */
  type byte = b: int | 0 <= b < 256

  /** A 6-bit value, the unit of base 64 encoding. */
  type sextet = x: int | 0 <= x < 64

  // ---------------------------------------------------------------------------
  // The alphabet of Table 1 of RFC 4648
  // ---------------------------------------------------------------------------

  /** The character that encodes a 6-bit value. */
  function SextetChar(x: sextet): (c: char)
    ensures IsAlphabetChar(c)
  {
    if x < 26 then ('A' as int + x) as char
    else if x < 52 then ('a' as int + x - 26) as char
    else if x < 62 then ('0' as int + x - 52) as char
    else if x == 62 then '+'
    else '/'
  }

  predicate IsAlphabetChar(c: char) {
    ('A' <= c <= 'Z') || ('a' <= c <= 'z') || ('0' <= c <= '9') || c == '+' || c == '/'
  }

  predicate AllAlphabet(s: string) {
    forall i :: 0 <= i < |s| ==> IsAlphabetChar(s[i])
  }

  /** The 6-bit value a character of the alphabet encodes. */
  function CharSextet(c: char): (x: sextet)
    requires IsAlphabetChar(c)
    ensures SextetChar(x) == c
  {
    if 'A' <= c <= 'Z' then c as int - 'A' as int
    else if 'a' <= c <= 'z' then c as int - 'a' as int + 26
    else if '0' <= c <= '9' then c as int - '0' as int + 52
    else if c == '+' then 62
    else 63
  }

  /** Every 6-bit value has a character, and decoding that character gives the value back. */
  lemma SextetCharInverse(x: sextet)
    ensures IsAlphabetChar(SextetChar(x)) && CharSextet(SextetChar(x)) == x
  {
  }

  // ---------------------------------------------------------------------------
  // Encoding (btoa)
  // ---------------------------------------------------------------------------

  /** The four sextets of a 24-bit group b0 b1 b2, most significant first. */
  function Sextet0(b0: byte): sextet { b0 / 4 }
  function Sextet1(b0: byte, b1: byte): sextet { (b0 % 4) * 16 + b1 / 16 }
  function Sextet2(b1: byte, b2: byte): sextet { (b1 % 16) * 4 + b2 / 64 }
  function Sextet3(b2: byte): sextet { b2 % 64 }

  /** The three octets of a 24-bit group c0 c1 c2 c3 of sextets. */
  function Octet0(c0: sextet, c1: sextet): byte { c0 * 4 + c1 / 16 }
  function Octet1(c1: sextet, c2: sextet): byte { (c1 % 16) * 16 + c2 / 4 }
  function Octet2(c2: sextet, c3: sextet): byte { (c2 % 4) * 64 + c3 }

  /** A full 24-bit input group as four characters. */
  function EncodeGroup(b0: byte, b1: byte, b2: byte): seq<char> {
    [SextetChar(Sextet0(b0)), SextetChar(Sextet1(b0, b1)), SextetChar(Sextet2(b1, b2)), SextetChar(Sextet3(b2))]
  }

  /** The encoded characters before padding: four per full group, then two for
      a final 8-bit quantum or three for a final 16-bit quantum, whose missing
      bits are taken as zero. */
  function EncodeUnpadded(b: seq<byte>): seq<char>
    decreases |b|
  {
    if |b| >= 3 then EncodeGroup(b[0], b[1], b[2]) + EncodeUnpadded(b[3..])
    else if |b| == 2 then [SextetChar(Sextet0(b[0])), SextetChar(Sextet1(b[0], b[1])), SextetChar(Sextet2(b[1], 0))]
    else if |b| == 1 then [SextetChar(Sextet0(b[0])), SextetChar(Sextet1(b[0], 0))]
    else []
  }

  /** The '=' characters that complete the final quantum of `n` input bytes. */
  function Padding(n: nat): string {
    if n % 3 == 1 then "==" else if n % 3 == 2 then "=" else ""
  }

  /** The number of characters `EncodeUnpadded` produces for `n` bytes. */
  function UnpaddedLength(n: nat): nat {
    4 * (n / 3) + (if n % 3 == 0 then 0 else n % 3 + 1)
  }

  lemma {:induction false} EncodeUnpaddedShape(b: seq<byte>)
    ensures |EncodeUnpadded(b)| == UnpaddedLength(|b|)
    ensures AllAlphabet(EncodeUnpadded(b))
    decreases |b|
  {
    if |b| >= 3 {
      EncodeUnpaddedShape(b[3..]);
      var g := EncodeGroup(b[0], b[1], b[2]);
      assert AllAlphabet(g);
      assert forall i :: 3 <= i < |b| ==> b[3..][i - 3] == b[i];
    }
  }

  /** Base 64 encoding with padding: its length is 4 * ceil(n / 3), every character
      is from the alphabet or '=', and '=' appears exactly when n is not a multiple of 3. */
  function Encode(b: seq<byte>): (s: string)
    ensures |s| == 4 * ((|b| + 2) / 3)
    ensures forall i :: 0 <= i < |s| ==> IsAlphabetChar(s[i]) || s[i] == '='
    ensures |b| % 3 == 0 <==> AllAlphabet(s)
  {
    EncodeUnpaddedShape(b);
    UnpaddedLengthMod(|b|);
    var s := EncodeUnpadded(b) + Padding(|b|);
    assert |b| % 3 != 0 ==> s[|s| - 1] == '=';
    s
  }

  // ---------------------------------------------------------------------------
  // Decoding (atob)
  // ---------------------------------------------------------------------------

  /** ASCII whitespace: tab, line feed, form feed, carriage return and space. */
  predicate IsAsciiWhitespace(c: char) {
    c == '\t' || c == '\n' || c as int == 12 || c == '\r' || c == ' '
  }

  /** The input with every ASCII whitespace character removed, order kept. */
  function RemoveWhitespace(s: string): (t: string)
    ensures |t| <= |s|
    ensures forall i :: 0 <= i < |t| ==> !IsAsciiWhitespace(t[i])
    ensures forall i :: 0 <= i < |t| ==> t[i] in s
    decreases |s|
  {
    if s == [] then []
    else (if IsAsciiWhitespace(s[0]) then [] else [s[0]]) + RemoveWhitespace(s[1..])
  }

  /** Whitespace removal keeps every other character: each character that is
      not ASCII whitespace occurs as often in the result as in the input. */
  lemma {:induction false} RemoveWhitespaceKeeps(s: string)
    ensures forall c :: !IsAsciiWhitespace(c) ==> multiset(RemoveWhitespace(s))[c] == multiset(s)[c]
    decreases |s|
  {
    if s != [] {
      RemoveWhitespaceKeeps(s[1..]);
      var h := if IsAsciiWhitespace(s[0]) then [] else [s[0]];
      assert s == [s[0]] + s[1..];
      assert RemoveWhitespace(s) == h + RemoveWhitespace(s[1..]);
      assert multiset(RemoveWhitespace(s)) == multiset(h) + multiset(RemoveWhitespace(s[1..]));
      assert multiset(s) == multiset([s[0]]) + multiset(s[1..]);
    }
  }

  /** Whitespace removal works character by character, so it keeps the order
      of what it keeps: removing from a concatenation concatenates the results. */
  lemma {:induction false} RemoveWhitespaceAppend(a: string, b: string)
    ensures RemoveWhitespace(a + b) == RemoveWhitespace(a) + RemoveWhitespace(b)
    decreases |a|
  {
    if a == [] {
      assert a + b == b && RemoveWhitespace(a) == [];
      assert RemoveWhitespace(a) + RemoveWhitespace(b) == RemoveWhitespace(b);
    } else {
      RemoveWhitespaceAppend(a[1..], b);
      var h := if IsAsciiWhitespace(a[0]) then [] else [a[0]];
      assert (a + b)[0] == a[0] && (a + b)[1..] == a[1..] + b;
      assert RemoveWhitespace(a + b) == h + RemoveWhitespace(a[1..] + b);
      assert RemoveWhitespace(a) == h + RemoveWhitespace(a[1..]);
      assert h + (RemoveWhitespace(a[1..]) + RemoveWhitespace(b)) == (h + RemoveWhitespace(a[1..])) + RemoveWhitespace(b);
    }
  }

  /** When the length is a multiple of four, one or two trailing '=' are dropped. */
  function StripPadding(t: string): string {
    if |t| % 4 == 0 && |t| >= 2 && t[|t| - 2] == '=' && t[|t| - 1] == '=' then t[..|t| - 2]
    else if |t| % 4 == 0 && |t| >= 1 && t[|t| - 1] == '=' then t[..|t| - 1]
    else t
  }

  /** The bytes of unpadded text; the bits left over by a final group of
      two or three characters are discarded. */
  function DecodeUnpadded(t: string): seq<byte>
    requires AllAlphabet(t) && |t| % 4 != 1
    decreases |t|
  {
    if |t| >= 4 then
      var c0, c1, c2, c3 := CharSextet(t[0]), CharSextet(t[1]), CharSextet(t[2]), CharSextet(t[3]);
      [Octet0(c0, c1), Octet1(c1, c2), Octet2(c2, c3)] + DecodeUnpadded(t[4..])
    else if |t| == 3 then
      var c0, c1, c2 := CharSextet(t[0]), CharSextet(t[1]), CharSextet(t[2]);
      [Octet0(c0, c1), Octet1(c1, c2)]
    else if |t| == 2 then
      [Octet0(CharSextet(t[0]), CharSextet(t[1]))]
    else []
  }

  /** Forgiving base 64 decode: fails exactly when, after whitespace removal and
      padding removal, the length leaves remainder 1 modulo 4 or a character is
      outside the alphabet. */
  function Decode(s: string): (r: Result<seq<byte>, DomException>)
    ensures r.Failure? ==> r.error == InvalidCharacterError
    ensures r.Success? <==> |StripPadding(RemoveWhitespace(s))| % 4 != 1 && AllAlphabet(StripPadding(RemoveWhitespace(s)))
  {
    var t := StripPadding(RemoveWhitespace(s));
    if |t| % 4 == 1 || !AllAlphabet(t) then Failure(InvalidCharacterError)
    else Success(DecodeUnpadded(t))
  }

  // ---------------------------------------------------------------------------
  // Round trip
  // ---------------------------------------------------------------------------

  /** The bit identities behind one group: splitting three octets into four
      sextets and joining the sextets again gives the octets back. */
  lemma GroupBits(b0: byte, b1: byte, b2: byte)
    ensures Octet0(Sextet0(b0), Sextet1(b0, b1)) == b0
    ensures Octet1(Sextet1(b0, b1), Sextet2(b1, b2)) == b1
    ensures Octet2(Sextet2(b1, b2), Sextet3(b2)) == b2
  {
  }

  /** Decoding four characters of the alphabet joins their sextets into three octets. */
  lemma DecodeSextets(c0: sextet, c1: sextet, c2: sextet, c3: sextet, rest: string)
    requires AllAlphabet(rest) && |rest| % 4 != 1
    ensures AllAlphabet([SextetChar(c0), SextetChar(c1), SextetChar(c2), SextetChar(c3)] + rest)
    ensures |[SextetChar(c0), SextetChar(c1), SextetChar(c2), SextetChar(c3)] + rest| % 4 != 1
    ensures DecodeUnpadded([SextetChar(c0), SextetChar(c1), SextetChar(c2), SextetChar(c3)] + rest)
         == [Octet0(c0, c1), Octet1(c1, c2), Octet2(c2, c3)] + DecodeUnpadded(rest)
  {
    var t := [SextetChar(c0), SextetChar(c1), SextetChar(c2), SextetChar(c3)] + rest;
    SextetCharInverse(c0);
    SextetCharInverse(c1);
    SextetCharInverse(c2);
    SextetCharInverse(c3);
    assert |t| == |rest| + 4 && t[4..] == rest;
  }

  /** Decoding a final group of three or two characters keeps the octets their
      sextets fill completely. */
  lemma DecodeShortSextets(c0: sextet, c1: sextet, c2: sextet)
    ensures AllAlphabet([SextetChar(c0), SextetChar(c1), SextetChar(c2)])
    ensures DecodeUnpadded([SextetChar(c0), SextetChar(c1), SextetChar(c2)]) == [Octet0(c0, c1), Octet1(c1, c2)]
    ensures AllAlphabet([SextetChar(c0), SextetChar(c1)])
    ensures DecodeUnpadded([SextetChar(c0), SextetChar(c1)]) == [Octet0(c0, c1)]
  {
    SextetCharInverse(c0);
    SextetCharInverse(c1);
    SextetCharInverse(c2);
  }

  /** Decoding the four characters of one encoded group gives its three octets. */
  lemma DecodeGroup(b0: byte, b1: byte, b2: byte, rest: string)
    requires AllAlphabet(rest) && |rest| % 4 != 1
    ensures AllAlphabet(EncodeGroup(b0, b1, b2) + rest)
    ensures |EncodeGroup(b0, b1, b2) + rest| % 4 != 1
    ensures DecodeUnpadded(EncodeGroup(b0, b1, b2) + rest) == [b0, b1, b2] + DecodeUnpadded(rest)
  {
    DecodeSextets(Sextet0(b0), Sextet1(b0, b1), Sextet2(b1, b2), Sextet3(b2), rest);
    GroupBits(b0, b1, b2);
  }

  lemma UnpaddedLengthMod(n: nat)
    ensures UnpaddedLength(n) % 4 == (if n % 3 == 0 then 0 else n % 3 + 1)
    ensures UnpaddedLength(n) + |Padding(n)| == 4 * ((n + 2) / 3)
  {
    var q := n / 3;
    assert n == 3 * q + n % 3;
    if n % 3 == 0 {
      assert n + 2 == 3 * q + 2;
      QuarterMod(q, 0);
    } else if n % 3 == 1 {
      assert n + 2 == 3 * (q + 1);
      QuarterMod(q, 2);
    } else {
      assert n + 2 == 3 * (q + 1) + 1;
      QuarterMod(q, 3);
    }
  }

  /** Adding a multiple of four leaves the remainder modulo four unchanged. */
  lemma QuarterMod(q: int, k: int)
    requires 0 <= k < 4
    ensures (4 * q + k) % 4 == k
  {
  }

  /** Unpadded encoder output meets the decoder's precondition. */
  lemma EncodeUnpaddedDecodable(b: seq<byte>)
    ensures AllAlphabet(EncodeUnpadded(b)) && |EncodeUnpadded(b)| % 4 != 1
  {
    EncodeUnpaddedShape(b);
    UnpaddedLengthMod(|b|);
  }

  /** The round trip for a final 16-bit quantum. */
  lemma DecodeEncodeTwo(b0: byte, b1: byte)
    ensures DecodeUnpadded(EncodeUnpadded([b0, b1])) == [b0, b1]
  {
    DecodeShortSextets(Sextet0(b0), Sextet1(b0, b1), Sextet2(b1, 0));
    GroupBits(b0, b1, 0);
  }

  /** The round trip for a final 8-bit quantum. */
  lemma DecodeEncodeOne(b0: byte)
    ensures DecodeUnpadded(EncodeUnpadded([b0])) == [b0]
  {
    DecodeShortSextets(Sextet0(b0), Sextet1(b0, 0), 0);
    GroupBits(b0, 0, 0);
  }

  /** A sequence of at least three bytes is its first group followed by the rest. */
  lemma SplitGroup(b: seq<byte>)
    requires |b| >= 3
    ensures b == [b[0], b[1], b[2]] + b[3..]
  {
  }

  lemma {:induction false} DecodeEncodeUnpadded(b: seq<byte>)
    ensures AllAlphabet(EncodeUnpadded(b)) && |EncodeUnpadded(b)| % 4 != 1
    ensures DecodeUnpadded(EncodeUnpadded(b)) == b
    decreases |b|
  {
    EncodeUnpaddedDecodable(b);
    if |b| >= 3 {
      var tail := EncodeUnpadded(b[3..]);
      DecodeEncodeUnpadded(b[3..]);
      DecodeGroup(b[0], b[1], b[2], tail);
      assert EncodeUnpadded(b) == EncodeGroup(b[0], b[1], b[2]) + tail;
      SplitGroup(b);
    } else if |b| == 2 {
      assert b == [b[0], b[1]];
      DecodeEncodeTwo(b[0], b[1]);
    } else if |b| == 1 {
      assert b == [b[0]];
      DecodeEncodeOne(b[0]);
    }
  }

  /** Text without ASCII whitespace is left unchanged by the whitespace removal. */
  lemma {:induction false} RemoveWhitespaceNone(s: string)
    requires forall i :: 0 <= i < |s| ==> !IsAsciiWhitespace(s[i])
    ensures RemoveWhitespace(s) == s
    decreases |s|
  {
    if s != [] {
      RemoveWhitespaceNone(s[1..]);
      assert s == [s[0]] + s[1..];
    }
  }

  /** Padding removal takes off the two '=' that complete a final group of two characters. */
  lemma StripTwo(u: string)
    requires AllAlphabet(u) && |u| % 4 == 2
    ensures StripPadding(u + "==") == u
  {
    var s := u + "==";
    assert |s| == |u| + 2 && |s| % 4 == 0;
    assert s[|s| - 2] == '=' && s[|s| - 1] == '=';
    assert s[..|s| - 2] == u;
  }

  /** Padding removal takes off the one '=' that completes a final group of three characters. */
  lemma StripOne(u: string)
    requires AllAlphabet(u) && |u| % 4 == 3
    ensures StripPadding(u + "=") == u
  {
    var s := u + "=";
    assert |s| == |u| + 1 && |s| % 4 == 0;
    assert s[|s| - 2] == u[|u| - 1] && IsAlphabetChar(u[|u| - 1]);
    assert s[|s| - 1] == '=';
    assert s[..|s| - 1] == u;
  }

  /** Text of whole groups of alphabet characters has no padding to remove. */
  lemma StripNone(u: string)
    requires AllAlphabet(u) && |u| % 4 == 0
    ensures StripPadding(u) == u
  {
    if |u| > 0 {
      assert IsAlphabetChar(u[|u| - 1]);
    }
  }

  /** Padding removal takes off exactly the padding the encoder added. */
  lemma StripEncodePadding(b: seq<byte>)
    ensures StripPadding(EncodeUnpadded(b) + Padding(|b|)) == EncodeUnpadded(b)
  {
    EncodeUnpaddedShape(b);
    UnpaddedLengthMod(|b|);
    var u := EncodeUnpadded(b);
    if |b| % 3 == 1 {
      assert Padding(|b|) == "==";
      StripTwo(u);
    } else if |b| % 3 == 2 {
      assert Padding(|b|) == "=";
      StripOne(u);
    } else {
      assert u + Padding(|b|) == u;
      StripNone(u);
    }
  }

  /** atob inverts btoa: decoding the encoding of any byte sequence gives it back. */
  lemma DecodeEncode(b: seq<byte>)
    ensures Decode(Encode(b)) == Success(b)
  {
    var s := Encode(b);
    assert s == EncodeUnpadded(b) + Padding(|b|);
    RemoveWhitespaceNone(s);
    StripEncodePadding(b);
    DecodeEncodeUnpadded(b);
  }

  /** Encoding is injective: different byte sequences never share an encoding. */
  lemma EncodeInjective(b1: seq<byte>, b2: seq<byte>)
    ensures Encode(b1) == Encode(b2) <==> b1 == b2
  {
    if Encode(b1) == Encode(b2) {
      DecodeEncode(b1);
      DecodeEncode(b2);
    }
  }

  // ---------------------------------------------------------------------------
  // btoa and atob on byte-valued strings
  // ---------------------------------------------------------------------------

  /** A string whose every character has a code below 256. */
  predicate IsByteString(s: string) {
    forall i :: 0 <= i < |s| ==> s[i] as int < 256
  }

  /** The character with a byte's value as its code, as `String.fromCharCode` gives it. */
  function ByteChar(b: byte): (c: char)
    ensures c as int == b as int
  {
    b as char
  }

  /** The byte string whose character i has code b[i]. */
  function ByteString(b: seq<byte>): (s: string)
    ensures |s| == |b| && IsByteString(s)
    ensures forall i :: 0 <= i < |b| ==> s[i] as int == b[i] as int
  {
    seq(|b|, i requires 0 <= i < |b| => ByteChar(b[i]))
  }

  /** The bytes of a byte string, character by character. */
  function StringBytes(s: string): (b: seq<byte>)
    requires IsByteString(s)
    ensures |b| == |s|
    ensures forall i :: 0 <= i < |s| ==> b[i] as int == s[i] as int
  {
    seq(|s|, i requires 0 <= i < |s| => s[i] as int)
  }

  /** `btoa`: throws on a character above U+00FF, otherwise encodes the bytes. */
  function Btoa(data: string): (r: Result<string, DomException>)
    ensures r.Success? <==> IsByteString(data)
    ensures r.Success? ==> r.value == Encode(StringBytes(data))
  {
    if IsByteString(data) then Success(Encode(StringBytes(data))) else Failure(InvalidCharacterError)
  }

  /** `atob`: the decoded bytes as a byte string, or the decoder's failure. */
  function Atob(data: string): (r: Result<string, DomException>)
    ensures r.Success? <==> Decode(data).Success?
    ensures r.Success? ==> r.value == ByteString(Decode(data).value)
    ensures r.Failure? ==> r.error == InvalidCharacterError
  {
    var bytes :- Decode(data);
    Success(ByteString(bytes))
  }
  /** On byte strings `atob` inverts `btoa`. */
  lemma AtobBtoa(data: string)
    requires IsByteString(data)
    ensures Btoa(data).Success? && Atob(Btoa(data).value) == Success(data)
  {
    DecodeEncode(StringBytes(data));
    assert ByteString(StringBytes(data)) == data;
  }

}
