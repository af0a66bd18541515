/** The UTF-8 form of a string (RFC 3629, section 3): what the source reaches through `as_bytes`. */
module Utf8 {
  type Byte = n: nat | n < 256

  /** One scalar value, one to four bytes. */
  function EncodeChar(c: char): (bytes: seq<Byte>)
    ensures 1 <= |bytes| <= 4
  {
    var n := c as int;
    if n < 0x80 then [n]
    else if n < 0x800 then [0xC0 + n / 64, 0x80 + n % 64]
    else if n < 0x10000 then [0xE0 + n / 64 / 64, 0x80 + n / 64 % 64, 0x80 + n % 64]
    else [0xF0 + n / 64 / 64 / 64, 0x80 + n / 64 / 64 % 64, 0x80 + n / 64 % 64, 0x80 + n % 64]
  }

  function Encode(s: string): (bytes: seq<Byte>) {
    if s == [] then [] else EncodeChar(s[0]) + Encode(s[1..])
  }

  /** The leading byte alone fixes how many bytes a character takes. */
  function Width(lead: Byte): nat {
    if lead < 0xC0 then 1 else if lead < 0xE0 then 2 else if lead < 0xF0 then 3 else 4
  }

  lemma WidthIsLength(c: char)
    ensures Width(EncodeChar(c)[0]) == |EncodeChar(c)|
  {
  }

  /** The six payload bits of a continuation byte. */
  function Payload(b: Byte): int {
    -0x80 + b
  }

  /** The code point the payload bits of an encoded character spell. */
  function DecodeChar(bytes: seq<Byte>): int
    requires 1 <= |bytes| <= 4
  {
    if |bytes| == 1 then bytes[0]
    else if |bytes| == 2 then 64 * (-0xC0 + bytes[0]) + Payload(bytes[1])
    else if |bytes| == 3 then 64 * (64 * (-0xE0 + bytes[0]) + Payload(bytes[1])) + Payload(bytes[2])
    else 64 * (64 * (64 * (-0xF0 + bytes[0]) + Payload(bytes[1])) + Payload(bytes[2])) + Payload(bytes[3])
  }

  lemma DecodeCharInverts(c: char)
    ensures DecodeChar(EncodeChar(c)) == c as int
  {
    var n := c as int;
    assert n == n / 64 * 64 + n % 64;
    assert n / 64 == n / 64 / 64 * 64 + n / 64 % 64;
    assert n / 64 / 64 == n / 64 / 64 / 64 * 64 + n / 64 / 64 % 64;
  }

  lemma EncodeCharIsInjective(c: char, d: char)
    requires EncodeChar(c) == EncodeChar(d)
    ensures c == d
  {
    DecodeCharInverts(c);
    DecodeCharInverts(d);
  }

  lemma {:induction false} EncodeIsInjective(s: string, t: string)
    requires Encode(s) == Encode(t)
    ensures s == t
  {
    if s == [] || t == [] {
      assert |Encode(s)| == |Encode(t)|;
    } else {
      var a, b := EncodeChar(s[0]), EncodeChar(t[0]);
      assert a[0] == Encode(s)[0] == Encode(t)[0] == b[0];
      WidthIsLength(s[0]);
      WidthIsLength(t[0]);
      assert a == Encode(s)[..|a|] == Encode(t)[..|b|] == b;
      EncodeCharIsInjective(s[0], t[0]);
      assert Encode(s[1..]) == Encode(s)[|a|..] == Encode(t)[|b|..] == Encode(t[1..]);
      EncodeIsInjective(s[1..], t[1..]);
    }
  }

  /** ASCII text takes one byte a character. */
  lemma {:induction false} AsciiTakesOneByteEach(s: string)
    requires forall i :: 0 <= i < |s| ==> s[i] < 128 as char
    ensures |Encode(s)| == |s|
  {
    if s != [] {
      AsciiTakesOneByteEach(s[1..]);
    }
  }

  lemma {:induction false} EncodeAppend(s: string, t: string)
    ensures Encode(s + t) == Encode(s) + Encode(t)
  {
    if s == [] {
      assert s + t == t;
    } else {
      assert (s + t)[1..] == s[1..] + t;
      EncodeAppend(s[1..], t);
    }
  }

  /** Examples of each width, from section 7 of RFC 3629 and the table in its section 3. */
  lemma WidthsInFigures()
    ensures EncodeChar('A') == [0x41]
    ensures EncodeChar('\U{391}') == [0xCE, 0x91]
    ensures EncodeChar('\U{2262}') == [0xE2, 0x89, 0xA2]
    ensures EncodeChar('\U{233B4}') == [0xF0, 0xA3, 0x8E, 0xB4]
  {
    assert '\U{391}' as int == 0x391 && '\U{2262}' as int == 0x2262 && '\U{233B4}' as int == 0x233B4;
  }
}
