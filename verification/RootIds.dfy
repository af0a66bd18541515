/** Root ids of Linux FUSE projections: the 64-bit FNV-1a hash of the root, its 16-digit
    hexadecimal form, the bounded hint, and the systemd unit name built from them. */
module RootIds {
  import opened Bits
  import opened Powers
  import opened Text
  import opened Utf8

  const LINUX_FUSE_ROOT_HINT_MAX_BYTES := 48
  const LINUX_FUSE_UNIT_PREFIX := "ai.codeflash.locality.fuse."
  const LINUX_FUSE_UNIT_SUFFIX := ".service"
  const FNV_OFFSET_BASIS := 0xcbf2_9ce4_8422_2325
  const FNV_PRIME := 0x0000_0100_0000_01b3
  const TWO_TO_THE_64 := 0x1_0000_0000_0000_0000
  // The inverse of the (odd) FNV prime modulo 2^64.
  const FNV_PRIME_INVERSE := 0xce96_5057_aff6_957b

  type Word64 = n: nat | n < 0x1_0000_0000_0000_0000

  // ---------------------------------------------------------------- FNV-1a

  lemma Pow2Of64()
    ensures Pow2(64) == TWO_TO_THE_64
  {
    assert Pow2(4) == 16;
    assert Pow2(8) == 256 by { Pow2Adds(4, 4); }
    assert Pow2(16) == 0x1_0000 by { Pow2Adds(8, 8); }
    assert Pow2(32) == 0x1_0000 * Pow2(16) by { Pow2Adds(16, 16); }
    assert Pow2(64) == Pow2(32) * 0x1_0000_0000 by { Pow2Adds(32, 32); }
  }

  /** One round: exclusive or with the byte, then a multiplication that wraps at 64 bits. */
  function FnvStep(hash: Word64, byte: Byte): Word64 {
    Xor(hash, byte) * FNV_PRIME % TWO_TO_THE_64
  }

  /** Multiplying by the odd prime loses nothing modulo 2^64. */
  lemma MultiplyIsInjective(x: Word64, y: Word64)
    requires x * FNV_PRIME % TWO_TO_THE_64 == y * FNV_PRIME % TWO_TO_THE_64
    ensures x == y
  {
    var k := x * FNV_PRIME / TWO_TO_THE_64 - y * FNV_PRIME / TWO_TO_THE_64;
    assert (x - y) * FNV_PRIME == k * TWO_TO_THE_64;
    assert FNV_PRIME * FNV_PRIME_INVERSE == 1 + (FNV_PRIME * FNV_PRIME_INVERSE / TWO_TO_THE_64) * TWO_TO_THE_64;
    var m := k * FNV_PRIME_INVERSE - (x - y) * (FNV_PRIME * FNV_PRIME_INVERSE / TWO_TO_THE_64);
    assert x - y == m * TWO_TO_THE_64;
  }

  /** A round is injective in the state and in the byte. */
  lemma FnvStepIsInjective(g: Word64, a: Byte, h: Word64, b: Byte)
    requires FnvStep(g, a) == FnvStep(h, b)
    ensures g == h <==> a == b
  {
    Pow2Of64();
    XorStaysBelow(g, a, 64);
    XorStaysBelow(h, b, 64);
    MultiplyIsInjective(Xor(g, a), Xor(h, b));
    XorIsInjective(g, a, h, b);
  }

  function FnvFrom(hash: Word64, bytes: seq<Byte>): Word64
    decreases |bytes|
  {
    if bytes == [] then hash else FnvFrom(FnvStep(hash, bytes[0]), bytes[1..])
  }

  lemma {:induction false} FnvFromAppend(hash: Word64, a: seq<Byte>, b: seq<Byte>)
    ensures FnvFrom(hash, a + b) == FnvFrom(FnvFrom(hash, a), b)
    decreases |a|
  {
    if a == [] {
      assert a + b == b;
    } else {
      assert (a + b)[1..] == a[1..] + b;
      FnvFromAppend(FnvStep(hash, a[0]), a[1..], b);
    }
  }

  /** Appending a common suffix keeps hashes equal and keeps them different. */
  lemma {:induction false} CommonSuffixDecidesNothing(g: Word64, h: Word64, suffix: seq<Byte>)
    ensures FnvFrom(g, suffix) == FnvFrom(h, suffix) <==> g == h
    decreases |suffix|
  {
    if suffix != [] {
      CommonSuffixDecidesNothing(FnvStep(g, suffix[0]), FnvStep(h, suffix[0]), suffix[1..]);
      if FnvStep(g, suffix[0]) == FnvStep(h, suffix[0]) {
        FnvStepIsInjective(g, suffix[0], h, suffix[0]);
      }
    }
  }

  ghost predicate DifferInExactlyOneByte(a: seq<Byte>, b: seq<Byte>) {
    |a| == |b| && exists k :: 0 <= k < |a| && a[k] != b[k] && a[..k] == b[..k] && a[k + 1..] == b[k + 1..]
  }

  lemma FnvFromAt(hash: Word64, a: seq<Byte>, k: nat)
    requires k < |a|
    ensures FnvFrom(hash, a) == FnvFrom(FnvStep(FnvFrom(hash, a[..k]), a[k]), a[k + 1..])
  {
    assert a == a[..k] + a[k..] && a[k..][1..] == a[k + 1..];
    FnvFromAppend(hash, a[..k], a[k..]);
  }

  lemma OneByteChangesTheHash(hash: Word64, a: seq<Byte>, b: seq<Byte>)
    requires DifferInExactlyOneByte(a, b)
    ensures FnvFrom(hash, a) != FnvFrom(hash, b)
  {
    var k :| 0 <= k < |a| && a[k] != b[k] && a[..k] == b[..k] && a[k + 1..] == b[k + 1..];
    FnvFromAt(hash, a, k);
    FnvFromAt(hash, b, k);
    var h := FnvFrom(hash, a[..k]);
    if FnvStep(h, a[k]) == FnvStep(h, b[k]) {
      FnvStepIsInjective(h, a[k], h, b[k]);
      assert false;
    }
    CommonSuffixDecidesNothing(FnvStep(h, a[k]), FnvStep(h, b[k]), a[k + 1..]);
  }

  // ---------------------------------------------------------------- hexadecimal form

  function HexDigit(n: nat): (c: char)
    requires n < 16
    ensures '0' <= c <= '9' || 'a' <= c <= 'f'
  {
    "0123456789abcdef"[n]
  }

  lemma HexDigitIsInjective(m: nat, n: nat)
    requires m < 16 && n < 16 && HexDigit(m) == HexDigit(n)
    ensures m == n
  {
  }

  /** The low `width` hexadecimal digits, most significant first. */
  function Hex(n: nat, width: nat): (digits: string)
    ensures |digits| == width
    ensures forall i :: 0 <= i < width ==> '0' <= digits[i] <= '9' || 'a' <= digits[i] <= 'f'
  {
    if width == 0 then "" else Hex(n / 16, width - 1) + [HexDigit(n % 16)]
  }

  function Pow16(n: nat): nat {
    if n == 0 then 1 else 16 * Pow16(n - 1)
  }

  lemma {:induction false} HexIsInjective(m: nat, n: nat, width: nat)
    requires m < Pow16(width) && n < Pow16(width)
    requires Hex(m, width) == Hex(n, width)
    ensures m == n
  {
    if width > 0 {
      var a, b := Hex(m, width), Hex(n, width);
      assert a[width - 1] == b[width - 1];
      HexDigitIsInjective(m % 16, n % 16);
      assert a[..width - 1] == b[..width - 1];
      assert Hex(m / 16, width - 1) == a[..width - 1] && Hex(n / 16, width - 1) == b[..width - 1];
      HexIsInjective(m / 16, n / 16, width - 1);
    }
  }

  lemma {:induction false} Pow16IsPow2(n: nat)
    ensures Pow16(n) == Pow2(4 * n)
  {
    if n > 0 {
      Pow16IsPow2(n - 1);
      Pow2Adds(4, 4 * (n - 1));
      assert Pow2(4) == 16;
    }
  }

  lemma Hex16IsInjective(g: Word64, h: Word64)
    requires Hex(g, 16) == Hex(h, 16)
    ensures g == h
  {
    Pow16IsPow2(16);
    Pow2Of64();
    HexIsInjective(g, h, 16);
  }

  /** `stable_hex_hash`. */
  function StableHexHash(value: string): string {
    Hex(FnvFrom(FNV_OFFSET_BASIS, Encode(value)), 16)
  }

  method ComputeStableHexHash(value: string) returns (digits: string)
    ensures digits == StableHexHash(value)
  {
    var bytes := Encode(value);
    var hash: Word64 := FNV_OFFSET_BASIS;
    for i := 0 to |bytes|
      invariant FnvFrom(hash, bytes[i..]) == FnvFrom(FNV_OFFSET_BASIS, bytes)
    {
      assert bytes[i..][1..] == bytes[i + 1..];
      hash := FnvStep(hash, bytes[i]);
    }
    digits := Hex(hash, 16);
  }

  // ---------------------------------------------------------------- what a round does, and check values

  lemma RemainderOfSum(x: Word64, m: int)
    ensures (x + m * TWO_TO_THE_64) % TWO_TO_THE_64 == x
  {
  }

  lemma MultiplicationUndone(x: Word64)
    ensures x * FNV_PRIME % TWO_TO_THE_64 * FNV_PRIME_INVERSE % TWO_TO_THE_64 == x
  {
    var product := x * FNV_PRIME;
    var k := product / TWO_TO_THE_64;
    var unit := FNV_PRIME * FNV_PRIME_INVERSE / TWO_TO_THE_64;
    assert FNV_PRIME * FNV_PRIME_INVERSE == 1 + unit * TWO_TO_THE_64;
    assert product % TWO_TO_THE_64 * FNV_PRIME_INVERSE == x + (x * unit - k * FNV_PRIME_INVERSE) * TWO_TO_THE_64;
    RemainderOfSum(x, x * unit - k * FNV_PRIME_INVERSE);
  }

  /** Undoing the multiplication of a round leaves the state with the byte put in by exclusive or: FNV-1a,
      where FNV-1 would have multiplied first. */
  lemma RoundUndone(hash: Word64, byte: Byte)
    ensures FnvStep(hash, byte) * FNV_PRIME_INVERSE % TWO_TO_THE_64 == Xor(hash, byte)
  {
    Pow2Of64();
    XorStaysBelow(hash, byte, 64);
    MultiplicationUndone(Xor(hash, byte));
  }

  /** The number that digits spell. */
  function FromHex(digits: seq<nat>): nat {
    if digits == [] then 0 else 16 * FromHex(digits[..|digits| - 1]) + digits[|digits| - 1]
  }

  function HexValue(c: char): (d: nat)
    requires IsHexDigit(c)
    ensures d < 16 && HexDigit(d) == c
  {
    if c <= '9' then c as int - '0' as int else c as int - 'a' as int + 10
  }

  predicate IsHexDigit(c: char) {
    '0' <= c <= '9' || 'a' <= c <= 'f'
  }

  predicate IsHexText(text: string) {
    forall i :: 0 <= i < |text| ==> IsHexDigit(text[i])
  }

  function HexValues(text: string): (digits: seq<nat>)
    requires IsHexText(text)
    ensures |digits| == |text| && forall i :: 0 <= i < |text| ==> digits[i] == HexValue(text[i])
  {
    seq(|text|, i requires 0 <= i < |text| => HexValue(text[i]))
  }

  predicate AreHexValues(d: seq<nat>) {
    forall i :: 0 <= i < |d| ==> d[i] < 16
  }

  function HexTextOf(d: seq<nat>): (text: string)
    requires AreHexValues(d)
    ensures |text| == |d| && forall i :: 0 <= i < |d| ==> text[i] == HexDigit(d[i])
  {
    seq(|d|, i requires 0 <= i < |d| => HexDigit(d[i]))
  }

  lemma HexStep(n: nat, m: nat, d: nat, width: nat)
    requires d < 16 && n == 16 * m + d
    ensures Hex(n, width + 1) == Hex(m, width) + [HexDigit(d)]
  {
    assert n / 16 == m && n % 16 == d;
  }

  /** The hexadecimal form of a number is the digits that spell it, most significant first. */
  lemma {:induction false} HexOfDigits(d: seq<nat>)
    requires AreHexValues(d)
    ensures Hex(FromHex(d), |d|) == HexTextOf(d)
  {
    if d != [] {
      var n := |d| - 1;
      HexOfDigits(d[..n]);
      LastDigit(d);
      HexStep(FromHex(d), FromHex(d[..n]), d[n], n);
      assert HexTextOf(d) == HexTextOf(d[..n]) + [HexDigit(d[n])];
    }
  }

  lemma HexOfText(text: string)
    requires IsHexText(text)
    ensures Hex(FromHex(HexValues(text)), |text|) == text
  {
    HexOfDigits(HexValues(text));
    assert HexTextOf(HexValues(text)) == text;
  }

  lemma LastFourDigits(d: seq<nat>)
    requires |d| >= 4
    ensures FromHex(d) == 0x1_0000 * FromHex(d[..|d| - 4])
                          + 0x1000 * d[|d| - 4] + 0x100 * d[|d| - 3] + 0x10 * d[|d| - 2] + d[|d| - 1]
  {
    var n := |d|;
    var x := d[..n - 1];
    var y := d[..n - 2];
    var z := d[..n - 3];
    assert x[..n - 2] == y && y[..n - 3] == z && z[..n - 4] == d[..n - 4];
    LastDigit(d);
    LastDigit(x);
    LastDigit(y);
    LastDigit(z);
  }

  lemma LastDigit(d: seq<nat>)
    requires d != []
    ensures FromHex(d) == 16 * FromHex(d[..|d| - 1]) + d[|d| - 1]
  {
  }

  lemma EightDigits(d: seq<nat>)
    requires |d| == 8
    ensures FromHex(d) == 0x1_0000 * (0x1000 * d[0] + 0x100 * d[1] + 0x10 * d[2] + d[3])
                          + (0x1000 * d[4] + 0x100 * d[5] + 0x10 * d[6] + d[7])
  {
    LastFourDigits(d);
    LastFourDigits(d[..4]);
    assert d[..4][..0] == [];
  }

  lemma SixteenDigits(d: seq<nat>)
    requires |d| == 16
    ensures FromHex(d) ==
      0x1_0000 * (0x1_0000 * (0x1_0000 * (0x1000 * d[0] + 0x100 * d[1] + 0x10 * d[2] + d[3])
                              + (0x1000 * d[4] + 0x100 * d[5] + 0x10 * d[6] + d[7]))
                  + (0x1000 * d[8] + 0x100 * d[9] + 0x10 * d[10] + d[11]))
      + (0x1000 * d[12] + 0x100 * d[13] + 0x10 * d[14] + d[15])
  {
    LastFourDigits(d);
    LastFourDigits(d[..12]);
    EightDigits(d[..8]);
    assert d[..12][..8] == d[..8];
  }

  lemma DigestFrom(n: nat, text: string)
    requires |text| == 16 && IsHexText(text)
    requires var v := (i: int) requires 0 <= i < 16 => HexValue(text[i]);
      n == 0x1_0000 * (0x1_0000 * (0x1_0000 * (0x1000 * v(0) + 0x100 * v(1) + 0x10 * v(2) + v(3))
                                   + (0x1000 * v(4) + 0x100 * v(5) + 0x10 * v(6) + v(7)))
                       + (0x1000 * v(8) + 0x100 * v(9) + 0x10 * v(10) + v(11)))
           + (0x1000 * v(12) + 0x100 * v(13) + 0x10 * v(14) + v(15))
    ensures Hex(n, |text|) == text
  {
    SixteenDigits(HexValues(text));
    HexOfText(text);
  }

  lemma DigestOfBasis(basis: Word64, digest: string)
    requires basis == 0xcbf2_9ce4_8422_2325 && |digest| == 16 && digest == "cbf29ce484222325"
    ensures Hex(basis, 16) == digest
  {
    DigestFrom(basis, digest);
  }

  lemma DigestOfA(hash: Word64, digest: string)
    requires hash == 0xaf63_dc4c_8601_ec8c && |digest| == 16 && digest == "af63dc4c8601ec8c"
    ensures Hex(hash, 16) == digest
  {
    DigestFrom(hash, digest);
  }

  /** The state and the byte as bits: the byte changes the low eight. */
  lemma XorOfA(high: nat, basis: nat, byte: nat, x: nat)
    requires basis == 256 * high + 0x25 && byte == 0x61 && x == 256 * high + 0x44
    ensures Xor(basis, byte) == x
  {
    var a, b, c := ToBits("00100101"), ToBits("01100001"), ToBits("01000100");
    EightBits(high, a);
    EightBits(0, b);
    EightBits(high, c);
    XorNothing(high);
    XorOfBits(high, a, 0, b, c);
  }

  lemma RoundOf(hash: Word64, byte: Byte, x: Word64, next: Word64)
    requires Xor(hash, byte) == x && next == x * 0x0000_0100_0000_01b3 % 0x1_0000_0000_0000_0000
    ensures FnvStep(hash, byte) == next
  {
  }

  lemma ProductForA(x: Word64, hash: Word64)
    requires x == 0xcbf2_9ce4_8422_2344 && hash == 0xaf63_dc4c_8601_ec8c
    ensures hash == x * 0x0000_0100_0000_01b3 % 0x1_0000_0000_0000_0000
  {
  }

  lemma RoundForA(high: nat, basis: Word64, byte: Byte, x: Word64, hash: Word64)
    requires basis == 256 * high + 0x25 && byte == 0x61 && x == 256 * high + 0x44
    requires hash == x * 0x0000_0100_0000_01b3 % 0x1_0000_0000_0000_0000
    ensures FnvStep(basis, byte) == hash
  {
    XorOfA(high, basis, byte, x);
    RoundOf(basis, byte, x, hash);
  }

  lemma HashOfLetter(value: string, c: char)
    requires value == [c] && c as int < 0x80
    ensures FnvFrom(FNV_OFFSET_BASIS, Encode(value)) == FnvStep(FNV_OFFSET_BASIS, c as int)
  {
    assert value[1..] == "" && Encode(value) == [c as int] + [];
    assert Encode(value)[1..] == [];
  }

  lemma HashOfA(value: string, digest: string)
    requires |value| == 1 && value[0] == 'a' && |digest| == 16 && digest == "af63dc4c8601ec8c"
    ensures StableHexHash(value) == digest
  {
    HashOfLetter(value, 'a');
    ProductForA(0xcbf2_9ce4_8422_2344, 0xaf63_dc4c_8601_ec8c);
    RoundForA(0xcb_f29c_e484_2223, FNV_OFFSET_BASIS, 'a' as int, 0xcbf2_9ce4_8422_2344, 0xaf63_dc4c_8601_ec8c);
    DigestOfA(FnvFrom(FNV_OFFSET_BASIS, Encode(value)), digest);
  }

  lemma HashOfNothing(value: string, digest: string)
    requires |value| == 0 && |digest| == 16 && digest == "cbf29ce484222325"
    ensures StableHexHash(value) == digest
  {
    DigestOfBasis(FNV_OFFSET_BASIS, digest);
  }

  /** The check values published for 64-bit FNV-1a, of the empty string and of `a`. */
  method CheckValues() returns (ofNothing: string, ofA: string)
    ensures ofNothing == "cbf29ce484222325"
    ensures ofA == "af63dc4c8601ec8c"
  {
    var nothing, a := "", "a";
    HashOfNothing(nothing, "cbf29ce484222325");
    HashOfA(a, "af63dc4c8601ec8c");
    ofNothing := ComputeStableHexHash(nothing);
    ofA := ComputeStableHexHash(a);
  }

  // ---------------------------------------------------------------- hint, root id, unit name

  predicate IsSafe(c: char) {
    IsAsciiAlphanumeric(c) || c == '-' || c == '_' || c == '.'
  }

  ghost predicate AllSafe(s: string) {
    forall i :: 0 <= i < |s| ==> IsSafe(s[i])
  }

  /** `sanitize_systemd_fragment`. */
  function Sanitize(value: string): (r: string)
    ensures |r| == |value|
    ensures forall i :: 0 <= i < |r| ==> r[i] == if IsSafe(value[i]) then value[i] else '_'
  {
    seq(|value|, i requires 0 <= i < |value| => if IsSafe(value[i]) then value[i] else '_')
  }

  lemma SafeIff(c: char)
    ensures IsSafe(c) <==> c in "abcdefghijklmnopqrstuvwxyz" + "ABCDEFGHIJKLMNOPQRSTUVWXYZ" + "0123456789" + "-_."
  {
    AlphanumericIff(c);
    InFour("abcdefghijklmnopqrstuvwxyz", "ABCDEFGHIJKLMNOPQRSTUVWXYZ", "0123456789", "-_.", c);
  }

  /** What sanitising does: letters, digits and these three marks stay, and all else becomes an underscore. */
  lemma SanitizeKeeps(value: string)
    ensures var safe := "abcdefghijklmnopqrstuvwxyz" + "ABCDEFGHIJKLMNOPQRSTUVWXYZ" + "0123456789" + "-_.";
            && |Sanitize(value)| == |value|
            && forall i :: 0 <= i < |value| ==> Sanitize(value)[i] == if value[i] in safe then value[i] else '_'
  {
    forall c: char {
      SafeIff(c);
    }
  }

  /** Sanitising is a projection onto the safe strings: it fixes exactly those. */
  lemma SanitizeFixesExactlyTheSafe(value: string)
    ensures AllSafe(Sanitize(value))
    ensures Sanitize(value) == value <==> AllSafe(value)
  {
    if AllSafe(value) {
      assert Sanitize(value) == value;
    }
  }

  function Utf8Length(c: char): nat {
    |EncodeChar(c)|
  }

  /** `bounded_systemd_hint`: the longest prefix of the sanitised value within the limit, without
      underscores at its ends, or `root` when nothing is left. */
  function Hint(value: string, maxBytes: nat): string {
    var sanitized := Sanitize(value);
    var hint := TrimMatches(if |sanitized| <= maxBytes then sanitized else sanitized[..maxBytes], c => c == '_');
    if hint == "" then "root" else hint
  }

  method BoundedHint(value: string, maxBytes: nat) returns (result: string)
    ensures result == Hint(value, maxBytes)
  {
    var sanitized := Sanitize(value);
    SanitizeFixesExactlyTheSafe(value);
    var hint := "";
    var i := 0;
    while i < |sanitized|
      invariant 0 <= i <= |sanitized|
      invariant hint == sanitized[..i]
      invariant i <= maxBytes
    {
      assert IsSafe(sanitized[i]) && Utf8Length(sanitized[i]) == 1;
      // `String::len` counts bytes; every pushed character is ASCII.
      if |hint| + Utf8Length(sanitized[i]) > maxBytes {
        break;
      }
      hint := hint + [sanitized[i]];
      i := i + 1;
    }
    assert hint == if |sanitized| <= maxBytes then sanitized else sanitized[..maxBytes];
    result := TrimMatches(hint, c => c == '_');
    if result == "" {
      result := "root";
    }
  }

  lemma HintIsSafeAndBounded(value: string, maxBytes: nat)
    requires maxBytes >= 4
    ensures AllSafe(Hint(value, maxBytes))
    ensures 1 <= |Hint(value, maxBytes)| <= maxBytes
  {
    var sanitized := Sanitize(value);
    SanitizeFixesExactlyTheSafe(value);
    var cut := if |sanitized| <= maxBytes then sanitized else sanitized[..maxBytes];
    var p := c => c == '_';
    var n, m := TrimMatchesCuts(cut, p);
  }

  function AssembleRootId(hint: string, digest: string): string {
    "root-" + hint + ("-" + digest)
  }

  /** `linux_fuse_root_id_for_projection_root`. */
  function RootId(root: string): string {
    AssembleRootId(Hint(root, LINUX_FUSE_ROOT_HINT_MAX_BYTES), StableHexHash(root))
  }

  /** `linux_fuse_unit_name`. */
  function UnitName(rootId: string): string {
    LINUX_FUSE_UNIT_PREFIX + Sanitize(rootId) + LINUX_FUSE_UNIT_SUFFIX
  }

  lemma AssembledIsBoundedAndSafe(hint: string, digest: string)
    requires AllSafe(hint) && AllSafe(digest) && |digest| == 16
    ensures AllSafe(AssembleRootId(hint, digest)) && |AssembleRootId(hint, digest)| == |hint| + 22
  {
  }

  lemma UnitNameKeepsSafe(id: string)
    requires AllSafe(id)
    ensures Sanitize(id) == id && |Encode(id)| == |id|
    ensures UnitName(id) == LINUX_FUSE_UNIT_PREFIX + id + LINUX_FUSE_UNIT_SUFFIX
  {
    SanitizeFixesExactlyTheSafe(id);
    AsciiTakesOneByteEach(id);
  }

  lemma DigestIsSafe(value: string)
    ensures AllSafe(StableHexHash(value)) && |StableHexHash(value)| == 16
  {
  }

  /** Every root id is safe ASCII of at most 70 bytes, and naming a unit after it keeps it whole. */
  lemma RootIdIsBoundedAndSafe(root: string)
    ensures AllSafe(RootId(root))
    ensures |Encode(RootId(root))| == |RootId(root)| <= 70
    ensures Sanitize(RootId(root)) == RootId(root)
    ensures UnitName(RootId(root)) == LINUX_FUSE_UNIT_PREFIX + RootId(root) + LINUX_FUSE_UNIT_SUFFIX
  {
    HintIsSafeAndBounded(root, LINUX_FUSE_ROOT_HINT_MAX_BYTES);
    DigestIsSafe(root);
    AssembledIsBoundedAndSafe(Hint(root, LINUX_FUSE_ROOT_HINT_MAX_BYTES), StableHexHash(root));
    UnitNameKeepsSafe(RootId(root));
  }

  /** Fixed-width ends of a concatenation can be read off again. */
  lemma MiddleAndTail(prefix: string, g: string, s: string, h: string, t: string)
    requires |s| == |t| && prefix + g + s == prefix + h + t
    ensures g == h && s == t
  {
    var x, y := prefix + g + s, prefix + h + t;
    assert |g| == |h|;
    assert g == x[|prefix|..|prefix| + |g|] && h == y[|prefix|..|prefix| + |h|];
    assert s == x[|prefix| + |g|..] && t == y[|prefix| + |h|..];
  }

  lemma AssemblyIsInjective(g: string, s: string, h: string, t: string)
    requires |s| == |t| && AssembleRootId(g, s) == AssembleRootId(h, t)
    ensures g == h && s == t
  {
    MiddleAndTail("root-", g, "-" + s, h, "-" + t);
    assert ("-" + s)[1..] == s && ("-" + t)[1..] == t;
  }

  lemma UnitNameIsInjectiveOnRootIds(a: string, b: string)
    requires UnitName(RootId(a)) == UnitName(RootId(b))
    ensures RootId(a) == RootId(b)
  {
    RootIdIsBoundedAndSafe(a);
    RootIdIsBoundedAndSafe(b);
    MiddleAndTail(LINUX_FUSE_UNIT_PREFIX, RootId(a), LINUX_FUSE_UNIT_SUFFIX, RootId(b), LINUX_FUSE_UNIT_SUFFIX);
  }

  /** Two roots share an id exactly when they share both the hint and the whole 64-bit hash. */
  lemma SameRootIdIffSameHintAndHash(a: string, b: string)
    ensures UnitName(RootId(a)) == UnitName(RootId(b)) <==> RootId(a) == RootId(b)
    ensures RootId(a) == RootId(b) <==>
            Hint(a, LINUX_FUSE_ROOT_HINT_MAX_BYTES) == Hint(b, LINUX_FUSE_ROOT_HINT_MAX_BYTES)
            && FnvFrom(FNV_OFFSET_BASIS, Encode(a)) == FnvFrom(FNV_OFFSET_BASIS, Encode(b))
  {
    if RootId(a) == RootId(b) {
      AssemblyIsInjective(Hint(a, LINUX_FUSE_ROOT_HINT_MAX_BYTES), StableHexHash(a),
                          Hint(b, LINUX_FUSE_ROOT_HINT_MAX_BYTES), StableHexHash(b));
      Hex16IsInjective(FnvFrom(FNV_OFFSET_BASIS, Encode(a)), FnvFrom(FNV_OFFSET_BASIS, Encode(b)));
    }
    if UnitName(RootId(a)) == UnitName(RootId(b)) {
      UnitNameIsInjectiveOnRootIds(a, b);
    }
  }

  /** Roots that differ in exactly one byte never collide. */
  lemma OneByteChangesTheUnitName(a: string, b: string)
    requires DifferInExactlyOneByte(Encode(a), Encode(b))
    ensures RootId(a) != RootId(b)
    ensures UnitName(RootId(a)) != UnitName(RootId(b))
  {
    OneByteChangesTheHash(FNV_OFFSET_BASIS, Encode(a), Encode(b));
    SameRootIdIffSameHintAndHash(a, b);
  }

  // ---------------------------------------------------------------- what ids look like

  /** The hint is the longest sanitised prefix that fits, less the underscores at its ends, and `root` if
      nothing else is left. */
  lemma HintIsTrimmedPrefix(value: string, maxBytes: nat) returns (n: nat, m: nat)
    ensures var s := Sanitize(value);
            var fits := if |s| <= maxBytes then |s| else maxBytes;
            && n <= m <= fits
            && (forall i :: 0 <= i < n || m <= i < fits ==> s[i] == '_')
            && (n < m ==> s[n] != '_' && s[m - 1] != '_')
            && Hint(value, maxBytes) == if n < m then s[n..m] else "root"
  {
    var s := Sanitize(value);
    var cut := if |s| <= maxBytes then s else s[..maxBytes];
    var p := c => c == '_';
    n, m := TrimMatchesCuts(cut, p);
    assert cut[n..m] == s[n..m];
    forall i | 0 <= i < n || m <= i < |cut| ensures s[i] == '_' {
      assert p(cut[i]) && cut[i] == s[i];
    }
  }

  /** A long root of safe characters shows its first 48 in its id, which has the full 70. */
  lemma LongRootId(root: string)
    requires |root| >= 48 && AllSafe(root) && '_' !in root
    ensures RootId(root) == "root-" + root[..48] + "-" + StableHexHash(root) && |RootId(root)| == 70
  {
    SanitizeFixesExactlyTheSafe(root);
    TrimmedIffEndsDoNotMatch(root[..48], c => c == '_');
    assert root[0] in root && root[47] in root;
    assert root[..48][47] == root[47];
    assert Hint(root, 48) == root[..48];
    ConcatAssoc("root-" + root[..48], "-", StableHexHash(root));
  }

  lemma HintOfA(root: string)
    requires |root| == 1 && root[0] == 'a'
    ensures Hint(root, LINUX_FUSE_ROOT_HINT_MAX_BYTES) == root
  {
    SanitizeFixesExactlyTheSafe(root);
    TrimmedIffEndsDoNotMatch(root, c => c == '_');
  }

  lemma UnitNameOfRoot(root: string)
    ensures UnitName(RootId(root)) == "ai.codeflash.locality.fuse." + RootId(root) + ".service"
  {
    RootIdIsBoundedAndSafe(root);
  }

  lemma RootIdFrom(root: string, hint: string, digest: string)
    requires Hint(root, LINUX_FUSE_ROOT_HINT_MAX_BYTES) == hint && StableHexHash(root) == digest
    ensures RootId(root) == "root-" + hint + ("-" + digest)
  {
  }

  /** For example: the id and the unit of the root `a`. */
  lemma UnitNameOfA(root: string)
    requires |root| == 1 && root[0] == 'a'
    ensures RootId(root) == "root-" + root + ("-" + "af63dc4c8601ec8c")
    ensures UnitName(RootId(root)) == "ai.codeflash.locality.fuse." + ("root-" + root + ("-" + "af63dc4c8601ec8c")) + ".service"
  {
    var digest := "af63dc4c8601ec8c";
    HashOfA(root, digest);
    HintOfA(root);
    RootIdFrom(root, root, digest);
    UnitNameOfRoot(root);
  }
}
