/** The hand-written base64url encoder (RFC 4648, section 5, without padding as in section 3.2) and the
    item identifiers made with it. Shifts and masks of bytes are written with `/`, `%` and `*`. */
module Base64Url {
  import opened Wrappers
  import opened Text
  import opened Utf8

  const TABLE := "ABCDEFGHIJKLMNOPQRSTUVWXYZ" + "abcdefghijklmnopqrstuvwxyz" + "0123456789-_"

  const ROOT_CONTAINER_IDENTIFIER := "root"
  const WORKING_SET := "working-set"

  type Sextet = n: nat | n < 64

  predicate InAlphabet(c: char) {
    IsAsciiAlphanumeric(c) || c == '-' || c == '_'
  }

  /** The character of a sextet. */
  function Digit(n: Sextet): (c: char)
    ensures InAlphabet(c)
    ensures Value(c) == Some(n)
  {
    if n < 26 then ('A' as int + n) as char
    else if n < 52 then ('a' as int + n - 26) as char
    else if n < 62 then ('0' as int + n - 52) as char
    else if n == 62 then '-'
    else '_'
  }

  /** `Digit` is the lookup in the table of the source. */
  lemma DigitIsTableLookup(n: Sextet)
    ensures |TABLE| == 64 && TABLE[n] == Digit(n) && TABLE[62] == '-' && TABLE[63] == '_'
  {
    if n < 26 {
      assert TABLE[n] == "ABCDEFGHIJKLMNOPQRSTUVWXYZ"[n];
    } else if n < 52 {
      assert TABLE[n] == "abcdefghijklmnopqrstuvwxyz"[n - 26];
    } else {
      assert TABLE[n] == "0123456789-_"[n - 52];
    }
  }

  /** The value of a character in table 2 of RFC 4648. */
  function Value(c: char): (v: Option<Sextet>)
    ensures v.Some? <==> InAlphabet(c)
  {
    if 'A' <= c <= 'Z' then Some(c as int - 'A' as int)
    else if 'a' <= c <= 'z' then Some(c as int - 'a' as int + 26)
    else if '0' <= c <= '9' then Some(c as int - '0' as int + 52)
    else if c == '-' then Some(62)
    else if c == '_' then Some(63)
    else None
  }

  lemma DigitInvertsValue(c: char)
    requires InAlphabet(c)
    ensures Digit(Value(c).value) == c
  {
  }

  function Digits(v: seq<Sextet>): (s: string)
    ensures |s| == |v|
    ensures forall i :: 0 <= i < |s| ==> s[i] == Digit(v[i])
  {
    seq(|v|, i requires 0 <= i < |v| => Digit(v[i]))
  }

  // ---------------------------------------------------------------- encoder

  /** The sextets of one group of one, two or three bytes; missing bytes count as zero. */
  function GroupSextets(bytes: seq<Byte>): (v: seq<Sextet>)
    requires 1 <= |bytes| <= 3
    ensures |v| == |bytes| + 1
  {
    var first := bytes[0];
    var second: Byte := if |bytes| > 1 then bytes[1] else 0;
    var third: Byte := if |bytes| > 2 then bytes[2] else 0;
    var v: seq<Sextet> := [first / 4, first % 4 * 16 + second / 16, second % 16 * 4 + third / 64, third % 64];
    v[..|bytes| + 1]
  }

  function Sextets(bytes: seq<Byte>): seq<Sextet> {
    if bytes == [] then []
    else if |bytes| <= 3 then GroupSextets(bytes)
    else GroupSextets(bytes[..3]) + Sextets(bytes[3..])
  }

  function EncodeBytes(bytes: seq<Byte>): string {
    Digits(Sextets(bytes))
  }

  /** Where the group that starts at `index` ends. */
  function GroupEnd(bytes: seq<Byte>, index: nat): nat {
    if index + 3 <= |bytes| then index + 3 else |bytes|
  }

  lemma DigitsAppend(v: seq<Sextet>, w: seq<Sextet>)
    ensures Digits(v + w) == Digits(v) + Digits(w)
  {
  }

  lemma FirstGroup(bytes: seq<Byte>, index: nat)
    requires index < |bytes|
    ensures Digits(Sextets(bytes[index..]))
         == Digits(GroupSextets(bytes[index..GroupEnd(bytes, index)])) + Digits(Sextets(bytes[GroupEnd(bytes, index)..]))
  {
    var rest := bytes[index..];
    var group, tail := bytes[index..GroupEnd(bytes, index)], bytes[GroupEnd(bytes, index)..];
    if |rest| > 3 {
      assert rest[..3] == group && rest[3..] == tail;
    } else {
      assert rest == group && tail == [];
      assert Sextets(rest) == GroupSextets(group) + Sextets(tail);
    }
    DigitsAppend(GroupSextets(group), Sextets(tail));
  }

  lemma GroupDigits(group: seq<Byte>)
    requires 1 <= |group| <= 3
    ensures Digits(GroupSextets(group)) ==
      [Digit(group[0] / 4)]
      + [Digit(group[0] % 4 * 16 + (if |group| > 1 then group[1] else 0) / 16)]
      + (if |group| > 1 then [Digit(group[1] % 16 * 4 + (if |group| > 2 then group[2] else 0) / 64)] else [])
      + (if |group| > 2 then [Digit(group[2] % 64)] else [])
  {
  }

  /** One turn of the encoding loop: the digits pushed for the group at `index`. */
  method PushGroup(bytes: seq<Byte>, index: nat) returns (pushed: string)
    requires index < |bytes|
    ensures pushed == Digits(GroupSextets(bytes[index..GroupEnd(bytes, index)]))
  {
    var first := bytes[index];
    var second := if index + 1 < |bytes| then Some(bytes[index + 1]) else None;
    var third := if index + 2 < |bytes| then Some(bytes[index + 2]) else None;
    var secondOrZero: Byte := if second.Some? then second.value else 0;
    var thirdOrZero: Byte := if third.Some? then third.value else 0;
    ghost var group := bytes[index..GroupEnd(bytes, index)];
    assert |group| == 1 + (if second.Some? then 1 else 0) + (if third.Some? then 1 else 0);
    assert group[0] == first && (second.Some? ==> group[1] == second.value) && (third.Some? ==> group[2] == third.value);
    GroupDigits(group);

    pushed := [Digit(first / 4)];
    pushed := pushed + [Digit(first % 4 * 16 + secondOrZero / 16)];
    if second.Some? {
      pushed := pushed + [Digit(second.value % 16 * 4 + thirdOrZero / 64)];
    }
    if third.Some? {
      pushed := pushed + [Digit(third.value % 64)];
    }
  }

  /** What the group at `index` adds to the output is what is taken off the part still to be encoded. */
  lemma PushingKeepsWhole(bytes: seq<Byte>, index: nat, output: string, pushed: string, whole: string)
    requires index < |bytes|
    requires output + Digits(Sextets(bytes[index..])) == whole
    requires pushed == Digits(GroupSextets(bytes[index..GroupEnd(bytes, index)]))
    ensures output + pushed + Digits(Sextets(bytes[GroupEnd(bytes, index)..])) == whole
  {
    FirstGroup(bytes, index);
    var tail := Digits(Sextets(bytes[GroupEnd(bytes, index)..]));
    assert output + pushed + tail == output + (pushed + tail);
  }

  /** `macos_file_provider_encode_identifier_component`. */
  method EncodeComponent(bytes: seq<Byte>) returns (output: string)
    ensures output == EncodeBytes(bytes)
  {
    output := "";
    var index := 0;
    ghost var done := 0;
    assert bytes[0..] == bytes;
    while index < |bytes|
      invariant done == (if index <= |bytes| then index else |bytes|)
      invariant output + Digits(Sextets(bytes[done..])) == EncodeBytes(bytes)
      decreases |bytes| - index
    {
      var pushed := PushGroup(bytes, index);
      PushingKeepsWhole(bytes, index, output, pushed, EncodeBytes(bytes));
      output := output + pushed;
      done := GroupEnd(bytes, index);
      index := index + 3;
    }
    assert Digits(Sextets(bytes[done..])) == "";
  }

  lemma {:induction false} SextetCount(bytes: seq<Byte>)
    ensures |Sextets(bytes)| == (4 * |bytes| + 2) / 3
  {
    if |bytes| > 3 {
      SextetCount(bytes[3..]);
    }
  }

  /** The encoding of n bytes is ceil(4n/3) characters of the alphabet. */
  lemma EncodedLengthAndAlphabet(bytes: seq<Byte>)
    ensures 4 * |bytes| <= 3 * |EncodeBytes(bytes)| < 4 * |bytes| + 3
    ensures forall i :: 0 <= i < |EncodeBytes(bytes)| ==> InAlphabet(EncodeBytes(bytes)[i])
  {
    SextetCount(bytes);
  }

  // ---------------------------------------------------------------- decoder

  ghost predicate AllInAlphabet(s: string) {
    forall i :: 0 <= i < |s| ==> InAlphabet(s[i])
  }

  function Values(s: string): (v: seq<Sextet>)
    requires AllInAlphabet(s)
    ensures |v| == |s|
  {
    seq(|s|, i requires 0 <= i < |s| => Value(s[i]).value)
  }

  /** One group of two, three or four sextets. Bits that belong to no byte must be zero. */
  function DecodeGroup(v: seq<Sextet>): Option<seq<Byte>>
    requires 2 <= |v| <= 4
  {
    var a: int, b: int := v[0], v[1];
    var c: int := if |v| > 2 then v[2] else 0;
    var d: int := if |v| > 3 then v[3] else 0;
    if (|v| == 2 && b % 16 != 0) || (|v| == 3 && c % 4 != 0) then None
    else
      var bytes: seq<Byte> := [4 * a + b / 16, b % 16 * 16 + c / 4, c % 4 * 64 + d];
      Some(bytes[..|v| - 1])
  }

  /** An independent decoder, following sections 3.5, 4 and 5 of RFC 4648 strictly. */
  function DecodeSextets(v: seq<Sextet>): Option<seq<Byte>> {
    if v == [] then Some([])
    else if |v| == 1 then None
    else if |v| <= 4 then DecodeGroup(v)
    else
      var head, tail := DecodeGroup(v[..4]), DecodeSextets(v[4..]);
      if head.Some? && tail.Some? then Some(head.value + tail.value) else None
  }

  ghost function Decode(s: string): Option<seq<Byte>> {
    if AllInAlphabet(s) then DecodeSextets(Values(s)) else None
  }

  lemma ValuesInvertDigits(v: seq<Sextet>)
    ensures AllInAlphabet(Digits(v)) && Values(Digits(v)) == v
  {
  }

  lemma DigitsInvertValues(s: string)
    requires AllInAlphabet(s)
    ensures Digits(Values(s)) == s
  {
    forall i | 0 <= i < |s| ensures Digits(Values(s))[i] == s[i] {
      DigitInvertsValue(s[i]);
    }
  }

  lemma DecodeGroupInverts(bytes: seq<Byte>)
    requires 1 <= |bytes| <= 3
    ensures DecodeGroup(GroupSextets(bytes)) == Some(bytes)
  {
    var v := GroupSextets(bytes);
    var b := DecodeGroup(v).value;
    assert b[0] == bytes[0];
    assert |bytes| > 1 ==> b[1] == bytes[1];
    assert |bytes| > 2 ==> b[2] == bytes[2];
    assert b == bytes;
  }

  lemma GroupSextetsInvert(v: seq<Sextet>)
    requires 2 <= |v| <= 4 && DecodeGroup(v).Some?
    ensures 1 <= |DecodeGroup(v).value| <= 3 && GroupSextets(DecodeGroup(v).value) == v
  {
    var w := GroupSextets(DecodeGroup(v).value);
    assert w[0] == v[0];
    assert w[1] == v[1];
    assert |v| > 2 ==> w[2] == v[2];
    assert |v| > 3 ==> w[3] == v[3];
  }

  lemma {:induction false} DecodeSextetsInverts(bytes: seq<Byte>)
    ensures DecodeSextets(Sextets(bytes)) == Some(bytes)
  {
    if bytes == [] {
    } else if |bytes| <= 3 {
      DecodeGroupInverts(bytes);
    } else {
      var head, tail := bytes[..3], bytes[3..];
      var v := Sextets(bytes);
      DecodeGroupInverts(head);
      DecodeSextetsInverts(tail);
      SextetCount(tail);
      assert v[..4] == GroupSextets(head) && v[4..] == Sextets(tail);
      assert head + tail == bytes;
    }
  }

  lemma {:induction false} SextetsInvertDecode(v: seq<Sextet>)
    requires DecodeSextets(v).Some?
    ensures Sextets(DecodeSextets(v).value) == v
  {
    if v == [] {
    } else if |v| <= 4 {
      GroupSextetsInvert(v);
    } else {
      var head, tail := DecodeGroup(v[..4]).value, DecodeSextets(v[4..]).value;
      GroupSextetsInvert(v[..4]);
      SextetsInvertDecode(v[4..]);
      assert tail != [] && (head + tail)[..3] == head && (head + tail)[3..] == tail;
      assert v[..4] + v[4..] == v;
    }
  }

  /** The strict decoder accepts exactly the encodings: encoding and decoding are inverse both ways. */
  lemma DecodeIffEncoded(s: string, bytes: seq<Byte>)
    ensures Decode(s) == Some(bytes) <==> s == EncodeBytes(bytes)
  {
    ValuesInvertDigits(Sextets(bytes));
    DecodeSextetsInverts(bytes);
    if Decode(s) == Some(bytes) {
      SextetsInvertDecode(Values(s));
      DigitsInvertValues(s);
    }
  }

  // ---------------------------------------------------------------- what the encoding says

  function ByteAt(bytes: seq<Byte>, i: nat): int {
    if i < |bytes| then bytes[i] else 0
  }

  /** The value in the table of the character at i, zero behind the end. */
  function SextetAt(s: string, i: nat): int {
    if i < |s| && Value(s[i]).Some? then Value(s[i]).value else 0
  }

  /** What three bytes spell in base 256, and four characters in base 64. */
  function Triple(bytes: seq<Byte>, i: nat): int {
    (ByteAt(bytes, i) * 256 + ByteAt(bytes, i + 1)) * 256 + ByteAt(bytes, i + 2)
  }

  function Quartet(s: string, i: nat): int {
    ((SextetAt(s, i) * 64 + SextetAt(s, i + 1)) * 64 + SextetAt(s, i + 2)) * 64 + SextetAt(s, i + 3)
  }

  lemma GroupSpellsBytes(a: Byte, b: Byte, c: Byte)
    ensures ((a / 4 * 64 + (a % 4 * 16 + b / 16)) * 64 + (b % 16 * 4 + c / 64)) * 64 + c % 64 == (a * 256 + b) * 256 + c
  {
    assert a == a / 4 * 4 + a % 4 && b == b / 16 * 16 + b % 16 && c == c / 64 * 64 + c % 64;
  }

  lemma FirstGroupSpellsBytes(bytes: seq<Byte>)
    requires bytes != []
    ensures Quartet(EncodeBytes(bytes), 0) == Triple(bytes, 0)
  {
    var s := EncodeBytes(bytes);
    var v := GroupSextets(if |bytes| <= 3 then bytes else bytes[..3]);
    assert v <= Sextets(bytes);
    assert SextetAt(s, 0) == v[0] && SextetAt(s, 1) == v[1];
    assert SextetAt(s, 2) == if |v| > 2 then v[2] else 0;
    assert SextetAt(s, 3) == if |v| > 3 then v[3] else 0;
    GroupSpellsBytes(bytes[0], ByteAt(bytes, 1), ByteAt(bytes, 2));
  }

  lemma BehindFirstGroup(bytes: seq<Byte>, i: nat)
    requires |bytes| > 3
    ensures SextetAt(EncodeBytes(bytes), i + 4) == SextetAt(EncodeBytes(bytes[3..]), i)
    ensures ByteAt(bytes, i + 3) == ByteAt(bytes[3..], i)
  {
    DigitsAppend(GroupSextets(bytes[..3]), Sextets(bytes[3..]));
  }

  lemma NumbersBehindFirstGroup(bytes: seq<Byte>, i: nat, j: nat)
    requires |bytes| > 3
    ensures Quartet(EncodeBytes(bytes), i + 4) == Quartet(EncodeBytes(bytes[3..]), i)
    ensures Triple(bytes, j + 3) == Triple(bytes[3..], j)
  {
    forall n: nat {
      BehindFirstGroup(bytes, n);
    }
  }

  /** Without a decoder: each four characters, with their values in the table as digits, spell the number
      that the three bytes they stand for spell, zeros standing for what is missing at the end. */
  lemma {:induction false} EncodingSpellsBytes(bytes: seq<Byte>, k: nat)
    requires 3 * k < |bytes|
    ensures Quartet(EncodeBytes(bytes), 4 * k) == Triple(bytes, 3 * k)
  {
    if k == 0 {
      FirstGroupSpellsBytes(bytes);
    } else {
      var i, j := 4 * (k - 1), 3 * (k - 1);
      assert 4 * k == i + 4 && 3 * k == j + 3;
      NumbersBehindFirstGroup(bytes, i, j);
      EncodingSpellsBytes(bytes[3..], k - 1);
    }
  }

  // ---------------------------------------------------------------- item identifiers

  predicate IsSpecial(identifier: string) {
    identifier == ROOT_CONTAINER_IDENTIFIER || identifier == WORKING_SET
  }

  /** `macos_file_provider_item_identifier`. */
  function ItemIdentifier(mountId: string, identifier: string): string {
    if IsSpecial(identifier) then identifier
    else "m:" + EncodeBytes(Encode(mountId)) + ":" + EncodeBytes(Encode(identifier))
  }

  lemma EncodeBytesIsInjective(a: seq<Byte>, b: seq<Byte>)
    requires EncodeBytes(a) == EncodeBytes(b)
    ensures a == b
  {
    DecodeIffEncoded(EncodeBytes(a), a);
    DecodeIffEncoded(EncodeBytes(b), b);
  }

  lemma SplitAtColon(a: string, b: string, c: string, d: string)
    requires AllInAlphabet(a) && AllInAlphabet(c)
    requires "m:" + a + ":" + b == "m:" + c + ":" + d
    ensures a == c && b == d
  {
    var x, y := a + [':'] + b, c + [':'] + d;
    assert x == ("m:" + a + ":" + b)[2..] && y == ("m:" + c + ":" + d)[2..];
    IndexOfSplit(a, ':', b);
    IndexOfSplit(c, ':', d);
    assert a == x[..|a|] && c == y[..|c|] && b == x[|a| + 1..] && d == y[|c| + 1..];
  }

  /** The identifier of an ordinary item reads back: behind `m:`, the mount's part up to the next colon and
      the item's part behind it, both decoded. The two special items are named by themselves. */
  lemma ItemIdentifierReadsBack(mountId: string, identifier: string) returns (a: string, b: string)
    ensures identifier == "root" || identifier == "working-set" ==> ItemIdentifier(mountId, identifier) == identifier
    ensures identifier != "root" && identifier != "working-set" ==>
              && ItemIdentifier(mountId, identifier) == "m:" + a + ":" + b && ':' !in a && ':' !in b
              && Decode(a) == Some(Encode(mountId)) && Decode(b) == Some(Encode(identifier))
  {
    a, b := EncodeBytes(Encode(mountId)), EncodeBytes(Encode(identifier));
    DecodeIffEncoded(a, Encode(mountId));
    DecodeIffEncoded(b, Encode(identifier));
    EncodedLengthAndAlphabet(Encode(mountId));
    EncodedLengthAndAlphabet(Encode(identifier));
  }

  /** Two items have the same identifier exactly if they are the same special item, or the same
      ordinary item of the same mount. */
  lemma ItemIdentifierIsInjective(mountA: string, a: string, mountB: string, b: string)
    ensures ItemIdentifier(mountA, a) == ItemIdentifier(mountB, b)
       <==> a == b && (IsSpecial(a) || mountA == mountB)
  {
    var x, y := ItemIdentifier(mountA, a), ItemIdentifier(mountB, b);
    assert !IsSpecial(a) ==> x[0] == 'm';
    assert !IsSpecial(b) ==> y[0] == 'm';
    assert ROOT_CONTAINER_IDENTIFIER[0] == 'r' && WORKING_SET[0] == 'w';
    if x == y && !IsSpecial(a) && !IsSpecial(b) {
      EncodedLengthAndAlphabet(Encode(mountA));
      EncodedLengthAndAlphabet(Encode(mountB));
      SplitAtColon(EncodeBytes(Encode(mountA)), EncodeBytes(Encode(a)), EncodeBytes(Encode(mountB)), EncodeBytes(Encode(b)));
      EncodeBytesIsInjective(Encode(mountA), Encode(mountB));
      EncodeBytesIsInjective(Encode(a), Encode(b));
      EncodeIsInjective(mountA, mountB);
      EncodeIsInjective(a, b);
    }
  }
}
