/** Shortening of a path for display. A path is a sequence of UTF-16 code units, so that lengths and cuts
    are those of the original also for characters that take two. */
module CompactPath {
  import opened Text

  type CodeUnit = n: nat | n < 0x1_0000

  type Units = seq<CodeUnit>

  const SLASH: CodeUnit := 0x2F
  const BACKSLASH: CodeUnit := 0x5C
  const TILDE: CodeUnit := 0x7E
  const COLON: CodeUnit := 0x3A
  const ELLIPSIS: Units := [0x2E, 0x2E, 0x2E]

  // `/Users/`, `/home/` and `\users\`
  const UNIX_USERS: Units := [0x2F, 0x55, 0x73, 0x65, 0x72, 0x73, 0x2F]
  const UNIX_HOME: Units := [0x2F, 0x68, 0x6F, 0x6D, 0x65, 0x2F]
  const WINDOWS_USERS: Units := [0x5C, 0x75, 0x73, 0x65, 0x72, 0x73, 0x5C]

  /** What `String.prototype.trim` removes. */
  predicate IsJsSpace(n: CodeUnit) {
    0x09 <= n <= 0x0D || n == 0x20 || n == 0xA0 || n == 0x1680 || 0x2000 <= n <= 0x200A
    || n == 0x2028 || n == 0x2029 || n == 0x202F || n == 0x205F || n == 0x3000 || n == 0xFEFF
  }

  predicate IsSlash(c: CodeUnit) {
    c == SLASH || c == BACKSLASH
  }

  predicate IsLetter(c: CodeUnit) {
    0x61 <= c <= 0x7A || 0x41 <= c <= 0x5A
  }

  function LowerCase(s: Units): Units {
    if s == [] then [] else [if 0x41 <= s[0] <= 0x5A then s[0] + 32 else s[0]] + LowerCase(s[1..])
  }

  /** `~` for the home prefix, if a user name follows it. */
  function ReplaceHome(path: Units, prefix: nat, separator: CodeUnit): Units
    requires prefix <= |path|
  {
    var user := IndexOf(path[prefix..], separator);
    if user == 0 then path else [TILDE] + path[prefix + user..]
  }

  /** `homeRelativePath`. */
  function HomeRelative(path: Units): Units {
    if StartsWith(path, UNIX_USERS) then ReplaceHome(path, 7, SLASH)
    else if StartsWith(path, UNIX_HOME) then ReplaceHome(path, 6, SLASH)
    else if |path| >= 9 && IsLetter(path[0]) && path[1] == COLON && LowerCase(path[2..9]) == WINDOWS_USERS then
      ReplaceHome(path, 9, BACKSLASH)
    else path
  }

  // ---------------------------------------------------------------- the home folder

  /** The code units of an ASCII text. */
  function Codes(text: string): Units
    requires forall i :: 0 <= i < |text| ==> text[i] as int < 128
  {
    seq(|text|, i requires 0 <= i < |text| => text[i] as int)
  }

  lemma ConstantsInText()
    ensures UNIX_USERS == Codes("/Users/") && UNIX_HOME == Codes("/home/") && ELLIPSIS == Codes("...")
    ensures [SLASH] == Codes("/") && [BACKSLASH] == Codes("\\") && [TILDE] == Codes("~")
  {
  }

  predicate IsEither(c: CodeUnit, a: char, b: char) {
    c == a as int || c == b as int
  }

  /** A drive and the folder `Users`, in letters of any case. */
  predicate IsWindowsHome(home: Units) {
    && |home| == 9 && ('a' as int <= home[0] <= 'z' as int || 'A' as int <= home[0] <= 'Z' as int)
    && home[1] == ':' as int && home[2] == '\\' as int && home[8] == '\\' as int
    && IsEither(home[3], 'U', 'u') && IsEither(home[4], 'S', 's') && IsEither(home[5], 'E', 'e')
    && IsEither(home[6], 'R', 'r') && IsEither(home[7], 'S', 's')
  }

  /** What stands before a user name, and what ends it. */
  predicate IsHome(home: Units, separator: CodeUnit) {
    || (separator == '/' as int && (home == Codes("/Users/") || home == Codes("/home/")))
    || (separator == '\\' as int && IsWindowsHome(home))
  }

  /** A path that leads into the home folder of a user: the part before the name, the name, and what
      follows, which is nothing or begins with the separator. */
  predicate LeadsHome(path: Units, home: Units, user: Units, rest: Units, separator: CodeUnit) {
    && path == home + user + rest && IsHome(home, separator)
    && user != [] && separator !in user && (rest == [] || rest[0] == separator)
  }

  function LowerCaseOf(c: CodeUnit): CodeUnit {
    if 0x41 <= c <= 0x5A then c + 32 else c
  }

  lemma {:induction false} LowerCaseAt(s: Units)
    ensures |LowerCase(s)| == |s|
    ensures forall i :: 0 <= i < |s| ==> LowerCase(s)[i] == LowerCaseOf(s[i])
  {
    if s != [] {
      LowerCaseAt(s[1..]);
    }
  }

  lemma LowerCaseOfSeven(s: Units)
    requires |s| == 7
    ensures LowerCase(s) == [LowerCaseOf(s[0]), LowerCaseOf(s[1]), LowerCaseOf(s[2]), LowerCaseOf(s[3]),
                             LowerCaseOf(s[4]), LowerCaseOf(s[5]), LowerCaseOf(s[6])]
  {
    LowerCaseAt(s);
  }

  lemma WindowsHomeIff(home: Units)
    requires |home| == 9
    ensures IsLetter(home[0]) && home[1] == COLON && LowerCase(home[2..9]) == WINDOWS_USERS <==> IsWindowsHome(home)
  {
    LowerCaseOfSeven(home[2..9]);
  }

  /** The home folder becomes `~`, and what follows it stays. */
  lemma HomeBecomesTilde(path: Units, home: Units, user: Units, rest: Units, separator: CodeUnit)
    requires LeadsHome(path, home, user, rest, separator)
    ensures HomeRelative(path) == ['~' as int] + rest
  {
    ConstantsInText();
    var behind := user + rest;
    var n := |home|;
    assert path == home + behind && path[..n] == home && path[n..] == behind && path[n + |user|..] == rest;
    NameEnds(user, rest, separator);
    assert path[0] == home[0] && path[1] == home[1];
    if separator == BACKSLASH {
      WindowsHomeIff(home);
      assert path[2..9] == home[2..9];
    }
  }

  lemma NameEnds(user: Units, rest: Units, separator: CodeUnit)
    requires separator !in user && (rest == [] || rest[0] == separator)
    ensures IndexOf(user + rest, separator) == |user|
  {
    if rest == [] {
      assert user + rest == user;
    } else {
      assert user + rest == user + [separator] + rest[1..];
      IndexOfSplit(user, separator, rest[1..]);
    }
  }

  lemma NameInFront(path: Units, n: nat, separator: CodeUnit) returns (user: Units, rest: Units)
    requires n <= |path|
    ensures path == path[..n] + user + rest
    ensures separator !in user && (rest == [] || rest[0] == separator)
    ensures ReplaceHome(path, n, separator) == if user == [] then path else ['~' as int] + rest
  {
    var k := IndexOf(path[n..], separator);
    user, rest := path[n..][..k], path[n..][k..];
    assert path[n + k..] == rest;
  }

  /** Any other path stays as it is. */
  lemma OnlyHomeBecomesTilde(path: Units) returns (home: Units, user: Units, rest: Units, separator: CodeUnit)
    ensures HomeRelative(path) == path || LeadsHome(path, home, user, rest, separator)
  {
    ConstantsInText();
    home, user, rest, separator := [], [], [], SLASH;
    if StartsWith(path, UNIX_USERS) {
      home := UNIX_USERS;
      user, rest := NameInFront(path, 7, SLASH);
      assert path[..7] == home;
    } else if StartsWith(path, UNIX_HOME) {
      home := UNIX_HOME;
      user, rest := NameInFront(path, 6, SLASH);
      assert path[..6] == home;
    } else if |path| >= 9 {
      home, separator := path[..9], BACKSLASH;
      assert path[2..9] == home[2..9];
      WindowsHomeIff(home);
      user, rest := NameInFront(path, 9, BACKSLASH);
    }
  }

  function DropSlashes(s: Units): (t: Units)
    ensures |t| <= |s|
    ensures t == [] || !IsSlash(t[0])
  {
    if s != [] && IsSlash(s[0]) then DropSlashes(s[1..]) else s
  }

  /** Each run of slashes and backslashes becomes one separator. */
  function Collapse(s: Units, separator: CodeUnit): Units
    decreases |s|
  {
    if s == [] then []
    else if IsSlash(s[0]) then [separator] + Collapse(DropSlashes(s[1..]), separator)
    else [s[0]] + Collapse(s[1..], separator)
  }

  predicate IsComponent(s: Units) {
    s != [] && forall i :: 0 <= i < |s| ==> !IsSlash(s[i])
  }

  function ComponentLength(s: Units): (n: nat)
    ensures n <= |s|
    ensures forall i :: 0 <= i < n ==> !IsSlash(s[i])
    ensures n < |s| ==> IsSlash(s[n])
  {
    if s == [] || IsSlash(s[0]) then 0 else 1 + ComponentLength(s[1..])
  }

  /** The non-empty components. */
  function Parts(s: Units): (parts: seq<Units>)
    ensures forall i :: 0 <= i < |parts| ==> IsComponent(parts[i])
    decreases |s|
  {
    if s == [] then []
    else if IsSlash(s[0]) then Parts(s[1..])
    else
      var n := ComponentLength(s);
      [s[..n]] + Parts(s[n..])
  }

  /** A component in front of a slash is the first part. */
  lemma PartsOfFirst(p: Units, slash: CodeUnit, rest: Units)
    requires IsComponent(p) && IsSlash(slash)
    ensures Parts(p) == [p]
    ensures Parts(p + [slash] + rest) == [p] + Parts(rest)
  {
    var s := p + [slash] + rest;
    assert s[|p|] == slash && forall i :: 0 <= i < |p| ==> s[i] == p[i];
    assert ComponentLength(s) == |p| && s[..|p|] == p;
    assert s[|p|..][1..] == rest;
    assert p[..|p|] == p && p[|p|..] == [];
  }

  lemma PartsBehindSlash(slash: CodeUnit, rest: Units)
    requires IsSlash(slash)
    ensures Parts([slash] + rest) == Parts(rest)
  {
    assert ([slash] + rest)[1..] == rest;
  }

  /** Components joined by a separator are read back. */
  lemma {:induction false} PartsOfJoin(parts: seq<Units>, slash: CodeUnit)
    requires forall i :: 0 <= i < |parts| ==> IsComponent(parts[i])
    requires IsSlash(slash)
    ensures Parts(Join(parts, [slash])) == parts
  {
    if |parts| == 1 {
      PartsOfFirst(parts[0], slash, []);
    } else if |parts| > 1 {
      PartsOfFirst(parts[0], slash, Join(parts[1..], [slash]));
      PartsOfJoin(parts[1..], slash);
    }
  }

  function Separator(path: Units): CodeUnit {
    if BACKSLASH in path && SLASH !in path then BACKSLASH else SLASH
  }

  function Normalize(path: Units): Units {
    TrimEnd(Collapse(path, Separator(path)), IsSlash)
  }

  /** `pathPrefix`. */
  function PathPrefix(path: Units, firstPart: Units, separator: CodeUnit): Units {
    if StartsWith(path, [TILDE, separator]) then [TILDE]
    else if StartsWith(path, [separator]) then []
    else firstPart
  }

  /** `compactPathCandidate`. */
  function Candidate(prefix: Units, separator: CodeUnit, tail: Units): Units {
    if prefix == [] && separator == SLASH then [SLASH] + ELLIPSIS + [SLASH] + tail
    else if prefix == [TILDE] then [TILDE] + [SLASH] + ELLIPSIS + [SLASH] + tail
    else prefix + [separator] + ELLIPSIS + [separator] + tail
  }

  /** `truncateLeading`. */
  function TruncateLeading(value: Units, maxLength: int): (r: Units)
    ensures maxLength >= 0 ==> |r| <= maxLength
  {
    if maxLength <= 3 then
      var n := if maxLength < 0 then 0 else maxLength;
      if |value| <= n then value else value[..n]
    else
      ELLIPSIS + if |value| <= maxLength - 3 then value else value[|value| - (maxLength - 3)..]
  }

  /** A path taken apart. */
  datatype Anatomy = Anatomy(prefix: Units, separator: CodeUnit, parts: seq<Units>)

  predicate Proper(a: Anatomy) {
    && IsSlash(a.separator)
    && (a.prefix == [] || IsComponent(a.prefix))
    && forall i :: 0 <= i < |a.parts| ==> IsComponent(a.parts[i])
  }

  function TakeApart(trimmed: Units): (a: Anatomy)
    ensures Proper(a)
  {
    var separator := Separator(trimmed);
    var normalized := Normalize(trimmed);
    var parts := Parts(normalized);
    Anatomy(PathPrefix(normalized, if parts == [] then [] else parts[0], separator), separator, parts)
  }

  /** The candidate that keeps the last `count` components. */
  function TailCandidate(a: Anatomy, count: nat): Units
    requires 1 <= count <= |a.parts|
  {
    Candidate(a.prefix, a.separator, Join(a.parts[|a.parts| - count..], [a.separator]))
  }

  predicate Fits(a: Anatomy, maxLength: int, count: nat)
    requires 1 <= count <= |a.parts|
  {
    |TailCandidate(a, count)| <= maxLength
  }

  /** The largest number of components, up to `count`, whose candidate fits; 0 if there is none.
      This looks at every candidate, from the longest down. */
  function LongestFit(a: Anatomy, maxLength: int, count: nat): (k: nat)
    requires count <= |a.parts|
    ensures k <= count
    ensures k > 0 ==> Fits(a, maxLength, k)
    ensures forall j :: k < j <= count ==> !Fits(a, maxLength, j)
  {
    if count == 0 then 0
    else if Fits(a, maxLength, count) then count
    else LongestFit(a, maxLength, count - 1)
  }

  lemma CandidateGrows(a: Anatomy, count: nat)
    requires Proper(a) && 1 <= count < |a.parts|
    ensures |TailCandidate(a, count)| < |TailCandidate(a, count + 1)|
  {
    var longer := a.parts[|a.parts| - count - 1..];
    assert longer[1..] == a.parts[|a.parts| - count..] && longer[0] == a.parts[|a.parts| - count - 1];
  }

  /** The more components, the longer the candidate. */
  lemma {:induction false} MoreComponentsAreLonger(a: Anatomy, k: nat, j: nat)
    requires Proper(a) && 1 <= k < j <= |a.parts|
    ensures |TailCandidate(a, k)| < |TailCandidate(a, j)|
  {
    CandidateGrows(a, j - 1);
    if k < j - 1 {
      MoreComponentsAreLonger(a, k, j - 1);
    }
  }

  /** The path without white space around it, and with the home folder as `~`. */
  function Trimmed(path: Units): Units {
    HomeRelative(TrimMatches(path, IsJsSpace))
  }

  /** What `compactPath` computes: the path itself if it fits, else the candidate with as many trailing
      components as fit, else a plain truncation. */
  function Compact(path: Units, maxLength: int): Units {
    var trimmed := Trimmed(path);
    if |trimmed| <= maxLength then trimmed
    else
      var a := TakeApart(trimmed);
      var k := if |a.parts| <= 1 then 0 else LongestFit(a, maxLength, |a.parts|);
      if k == 0 then TruncateLeading(trimmed, maxLength) else TailCandidate(a, k)
  }

  lemma CandidateIsNotEmpty(a: Anatomy, count: nat)
    requires 1 <= count <= |a.parts|
    ensures TailCandidate(a, count) != []
  {
  }

  /** The loop of `compactPath`. It stops at the first candidate that is too long after one that
      fitted; empty means that none fits. */
  method BestCandidate(a: Anatomy, maxLength: int) returns (best: Units)
    requires Proper(a)
    ensures var k := LongestFit(a, maxLength, |a.parts|);
            best == if k == 0 then [] else TailCandidate(a, k)
  {
    best := [];
    ghost var kept := 0;
    for tailCount := 1 to |a.parts| + 1
      invariant kept == LongestFit(a, maxLength, tailCount - 1)
      invariant best == if kept == 0 then [] else TailCandidate(a, kept)
      invariant kept > 0 ==> kept == tailCount - 1
    {
      var candidate := TailCandidate(a, tailCount);
      CandidateIsNotEmpty(a, tailCount);
      if |candidate| <= maxLength {
        best := candidate;
        kept := tailCount;
      } else if best != [] {
        NothingLongerFits(a, maxLength, tailCount, |a.parts|);
        return;
      }
    }
  }

  /** `compactPath`. */
  method CompactPath(path: Units, maxLength: int) returns (result: Units)
    ensures result == Compact(path, maxLength)
  {
    var trimmed := Trimmed(path);
    if |trimmed| <= maxLength {
      return trimmed;
    }
    var a := TakeApart(trimmed);
    if |a.parts| <= 1 {
      return TruncateLeading(trimmed, maxLength);
    }
    var best := BestCandidate(a, maxLength);
    ghost var k := LongestFit(a, maxLength, |a.parts|);
    if k > 0 {
      CandidateIsNotEmpty(a, k);
    }
    result := if best != [] then best else TruncateLeading(trimmed, maxLength);
  }

  /** The early exit loses nothing: past a candidate that does not fit, none does. */
  lemma {:induction false} NothingLongerFits(a: Anatomy, maxLength: int, count: nat, limit: nat)
    requires Proper(a) && 1 <= count <= limit <= |a.parts| && !Fits(a, maxLength, count)
    ensures LongestFit(a, maxLength, limit) == LongestFit(a, maxLength, count - 1)
  {
    if count < limit {
      MoreComponentsAreLonger(a, count, limit);
      NothingLongerFits(a, maxLength, count, limit - 1);
    }
  }

  /** Within the limit only white space around the path is dropped, and the home folder shortened. */
  lemma ShortPathIsKept(before: Units, path: Units, after: Units, maxLength: int)
    requires forall i :: 0 <= i < |before| ==> IsJsSpace(before[i])
    requires forall i :: 0 <= i < |after| ==> IsJsSpace(after[i])
    requires path != [] && !IsJsSpace(path[0]) && !IsJsSpace(path[|path| - 1])
    ensures |HomeRelative(path)| <= maxLength ==> Compact(before + path + after, maxLength) == HomeRelative(path)
  {
    TrimDropsAround(before, path, after, IsJsSpace);
  }

  /** White space is that of Unicode without U+0085 and with the byte order mark. */
  lemma JsSpaceIff(n: CodeUnit)
    requires n < 0xD800 || 0xE000 <= n
    ensures IsJsSpace(n) <==> n == 0xFEFF || (n != 0x85 && IsWhitespace(n as char))
  {
  }

  /** A path of one component, or none, that is too long is cut in front: an ellipsis and the end of it;
      with no room for more than an ellipsis it is cut at the end. */
  lemma SingleComponentIsCut(path: Units, front: Units, end: Units, maxLength: int)
    requires Trimmed(path) == front + end && |front + end| > maxLength && |TakeApart(front + end).parts| <= 1
    ensures maxLength > 3 && |end| == maxLength - 3 ==> Compact(path, maxLength) == ELLIPSIS + end
    ensures 0 <= maxLength <= 3 && |front| == maxLength ==> Compact(path, maxLength) == front
    ensures maxLength <= 0 ==> Compact(path, maxLength) == []
  {
    if maxLength > 3 && |end| == maxLength - 3 {
      assert (front + end)[|front + end| - (maxLength - 3)..] == end;
    }
  }

  /** So is a longer path none of whose tails fits. */
  lemma PathWithoutFitIsCut(path: Units, front: Units, end: Units, maxLength: int)
    requires Trimmed(path) == front + end && |front + end| > maxLength
    requires forall k :: 1 <= k <= |TakeApart(front + end).parts| ==> |TailCandidate(TakeApart(front + end), k)| > maxLength
    ensures maxLength > 3 && |end| == maxLength - 3 ==> Compact(path, maxLength) == ELLIPSIS + end
    ensures 0 <= maxLength <= 3 && |front| == maxLength ==> Compact(path, maxLength) == front
    ensures maxLength <= 0 ==> Compact(path, maxLength) == []
  {
    var a := TakeApart(front + end);
    assert LongestFit(a, maxLength, |a.parts|) == 0;
    if maxLength > 3 && |end| == maxLength - 3 {
      assert (front + end)[|front + end| - (maxLength - 3)..] == end;
    }
  }

  /** The result never exceeds the limit. */
  lemma CompactFits(path: Units, maxLength: int)
    requires maxLength >= 0
    ensures |Compact(path, maxLength)| <= maxLength
  {
  }

  /** Exactly the candidates with up to the chosen number of components fit. */
  lemma FitsUpToLongest(a: Anatomy, maxLength: int, j: nat)
    requires Proper(a) && 1 <= j <= |a.parts|
    ensures Fits(a, maxLength, j) <==> j <= LongestFit(a, maxLength, |a.parts|)
  {
    var k := LongestFit(a, maxLength, |a.parts|);
    if j < k {
      MoreComponentsAreLonger(a, j, k);
    }
  }

  /** A path that is too long, taken apart into two or more components, keeps the longest tail that
      fits: one more component would not fit, and none fits if the path is merely truncated. */
  lemma CompactKeepsLongestTail(path: Units, maxLength: int)
    returns (a: Anatomy, k: nat)
    requires |Trimmed(path)| > maxLength
    requires |TakeApart(Trimmed(path)).parts| >= 2
    ensures a == TakeApart(Trimmed(path)) && k <= |a.parts|
    ensures k > 0 ==> Compact(path, maxLength) == TailCandidate(a, k)
    ensures k == 0 ==> Compact(path, maxLength) == TruncateLeading(Trimmed(path), maxLength)
    ensures forall j :: 1 <= j <= |a.parts| ==> (Fits(a, maxLength, j) <==> j <= k)
  {
    a := TakeApart(Trimmed(path));
    k := LongestFit(a, maxLength, |a.parts|);
    forall j | 1 <= j <= |a.parts| ensures Fits(a, maxLength, j) <==> j <= k {
      FitsUpToLongest(a, maxLength, j);
    }
  }

  lemma PartsOfEllipsis(slash: CodeUnit, tail: Units)
    requires IsSlash(slash)
    ensures Parts([slash] + (ELLIPSIS + [slash] + tail)) == [ELLIPSIS] + Parts(tail)
    ensures Parts(ELLIPSIS + [slash] + tail) == [ELLIPSIS] + Parts(tail)
  {
    PartsOfFirst(ELLIPSIS, slash, tail);
    var s := ELLIPSIS + [slash] + tail;
    assert ([slash] + s)[1..] == s;
  }

  lemma CandidateIsFlat(prefix: Units, separator: CodeUnit, tail: Units) returns (slash: CodeUnit)
    requires IsSlash(separator)
    ensures IsSlash(slash) && Candidate(prefix, separator, tail) == prefix + ([slash] + (ELLIPSIS + [slash] + tail))
  {
    slash := if prefix == [TILDE] || (prefix == [] && separator == SLASH) then SLASH else separator;
  }

  lemma PartsOfBehind(prefix: Units, slash: CodeUnit, rest: Units)
    requires IsSlash(slash) && (prefix == [] || IsComponent(prefix))
    ensures Parts(prefix + ([slash] + rest)) == (if prefix == [] then [] else [prefix]) + Parts([slash] + rest)
  {
    PartsBehindSlash(slash, rest);
    if prefix == [] {
      assert prefix + ([slash] + rest) == [slash] + rest;
    } else {
      PartsOfFirst(prefix, slash, rest);
      ConcatAssoc(prefix, [slash], rest);
    }
  }

  lemma PartsOfCandidate(prefix: Units, separator: CodeUnit, tail: Units)
    requires IsSlash(separator) && (prefix == [] || IsComponent(prefix))
    ensures Parts(Candidate(prefix, separator, tail))
         == (if prefix == [] then [] else [prefix]) + ([ELLIPSIS] + Parts(tail))
  {
    var slash := CandidateIsFlat(prefix, separator, tail);
    PartsOfEllipsis(slash, tail);
    PartsOfBehind(prefix, slash, ELLIPSIS + [slash] + tail);
  }

  /** An elided path still says where it leads: its components are the prefix, an ellipsis, and the
      kept tail, unchanged. */
  lemma ElidedReadsBack(a: Anatomy, k: nat)
    requires Proper(a) && 1 <= k <= |a.parts|
    ensures Parts(TailCandidate(a, k))
         == (if a.prefix == [] then [] else [a.prefix]) + ([ELLIPSIS] + a.parts[|a.parts| - k..])
  {
    PartsOfJoin(a.parts[|a.parts| - k..], a.separator);
    PartsOfCandidate(a.prefix, a.separator, Join(a.parts[|a.parts| - k..], [a.separator]));
  }

  // ---------------------------------------------------------------- what a normalized path looks like

  /** All slashes are the separator, and no two stand together. */
  predicate Flat(s: Units, separator: CodeUnit) {
    forall i :: 0 <= i < |s| && IsSlash(s[i]) ==> s[i] == separator && (i + 1 < |s| ==> !IsSlash(s[i + 1]))
  }

  lemma {:induction false} CollapseIsFlat(s: Units, separator: CodeUnit)
    requires IsSlash(separator)
    ensures Flat(Collapse(s, separator), separator)
    ensures s == [] ==> Collapse(s, separator) == []
    ensures s != [] && !IsSlash(s[0]) ==> Collapse(s, separator) != [] && Collapse(s, separator)[0] == s[0]
    decreases |s|
  {
    if s != [] {
      var rest := if IsSlash(s[0]) then DropSlashes(s[1..]) else s[1..];
      CollapseIsFlat(rest, separator);
    }
  }

  lemma FlatPrefix(s: Units, t: Units, separator: CodeUnit)
    requires Flat(s, separator) && t <= s
    ensures Flat(t, separator)
  {
    assert forall i :: 0 <= i < |t| ==> t[i] == s[i];
  }

  lemma FlatSuffix(s: Units, n: nat, separator: CodeUnit)
    requires Flat(s, separator) && n <= |s|
    ensures Flat(s[n..], separator)
  {
    assert forall i :: 0 <= i < |s[n..]| ==> s[n..][i] == s[n + i];
  }

  /** The separator in front, if there is one. */
  function Lead(s: Units): Units {
    if s != [] && IsSlash(s[0]) then s[..1] else []
  }

  lemma JoinFirst(part: Units, parts: seq<Units>, separator: CodeUnit)
    requires parts != []
    ensures Join([part] + parts, [separator]) == part + [separator] + Join(parts, [separator])
  {
    assert ([part] + parts)[1..] == parts;
  }

  /** A path is its components, joined, behind a separator if it begins with one. */
  predicate IsJoin(s: Units, separator: CodeUnit) {
    s == Lead(s) + Join(Parts(s), [separator]) && (s != [] ==> Parts(s) != [])
  }

  lemma JoinBehindSlash(s: Units, separator: CodeUnit)
    requires |s| > 1 && IsSlash(s[0]) && !IsSlash(s[1]) && IsJoin(s[1..], separator)
    ensures IsJoin(s, separator)
  {
    assert s[1..][0] == s[1];
    assert s == s[..1] + s[1..];
  }

  lemma JoinBehindPart(part: Units, rest: Units, separator: CodeUnit)
    requires IsComponent(part) && IsSlash(separator) && rest != [] && rest[0] == separator && IsJoin(rest, separator)
    ensures IsJoin(part + rest, separator)
  {
    var tail := rest[1..];
    assert part + rest == part + [separator] + tail && rest == [separator] + tail;
    PartsOfFirst(part, separator, tail);
    assert Parts(rest) == Parts(tail);
    JoinFirst(part, Parts(tail), separator);
    ConcatAssoc(part, [separator], Join(Parts(tail), [separator]));
    assert Lead(rest) == [separator];
    assert Lead(part + rest) == [];
  }

  /** A flat path that does not end in a slash is its components, joined. */
  lemma {:induction false} FlatIsJoin(s: Units, separator: CodeUnit)
    requires IsSlash(separator) && Flat(s, separator) && (s == [] || !IsSlash(s[|s| - 1]))
    ensures IsJoin(s, separator)
    decreases |s|
  {
    if s != [] {
      if IsSlash(s[0]) {
        FlatSuffix(s, 1, separator);
        FlatIsJoin(s[1..], separator);
        JoinBehindSlash(s, separator);
      } else {
        var n := ComponentLength(s);
        assert s == s[..n] + s[n..];
        if n < |s| {
          FlatSuffix(s, n, separator);
          FlatIsJoin(s[n..], separator);
          JoinBehindPart(s[..n], s[n..], separator);
        } else {
          PartsOfFirst(s, separator, []);
        }
      }
    }
  }

  lemma NormalizedIsJoin(trimmed: Units)
    ensures var normalized := Normalize(trimmed);
            && Flat(normalized, Separator(trimmed))
            && normalized == Lead(normalized) + Join(Parts(normalized), [Separator(trimmed)])
            && (normalized != [] ==> Parts(normalized) != [])
  {
    var separator := Separator(trimmed);
    CollapseIsFlat(trimmed, separator);
    FlatPrefix(Collapse(trimmed, separator), Normalize(trimmed), separator);
    FlatIsJoin(Normalize(trimmed), separator);
  }

  lemma {:induction false} PartsOfDropped(s: Units)
    ensures Parts(DropSlashes(s)) == Parts(s)
  {
    if s != [] && IsSlash(s[0]) {
      PartsOfDropped(s[1..]);
    }
  }

  lemma {:induction false} CollapseComponent(s: Units, n: nat, separator: CodeUnit)
    requires n <= |s| && forall i :: 0 <= i < n ==> !IsSlash(s[i])
    ensures Collapse(s, separator) == s[..n] + Collapse(s[n..], separator)
    decreases n
  {
    if n > 0 {
      CollapseComponent(s[1..], n - 1, separator);
      assert s[..n] == [s[0]] + s[1..][..n - 1] && s[1..][n - 1..] == s[n..];
    }
  }

  /** Making one separator of each run of slashes changes no component. */
  lemma {:induction false} PartsOfCollapsed(s: Units, separator: CodeUnit)
    requires IsSlash(separator)
    ensures Parts(Collapse(s, separator)) == Parts(s)
    decreases |s|
  {
    if s != [] {
      var n := ComponentLength(s);
      CollapseComponent(s, n, separator);
      if n < |s| {
        var behind := DropSlashes(s[n..][1..]);
        PartsOfDropped(s[n..][1..]);
        PartsOfCollapsed(behind, separator);
        PartsBehindSlash(separator, Collapse(behind, separator));
        if n > 0 {
          PartsOfFirst(s[..n], separator, Collapse(behind, separator));
          ConcatAssoc(s[..n], [separator], Collapse(behind, separator));
        }
      } else {
        assert s[..n] + Collapse(s[n..], separator) == s[..n] == s;
      }
    }
  }

  lemma {:induction false} PartsOfSlashes(run: Units)
    requires forall i :: 0 <= i < |run| ==> IsSlash(run[i])
    ensures Parts(run) == []
  {
    if run != [] {
      PartsOfSlashes(run[1..]);
    }
  }

  /** Slashes at the end add no component. */
  lemma {:induction false} PartsBeforeSlashes(s: Units, run: Units)
    requires forall i :: 0 <= i < |run| ==> IsSlash(run[i])
    ensures Parts(s + run) == Parts(s)
    decreases |s|
  {
    PartsOfSlashes(run);
    if s == [] || run == [] {
      assert s + run == if s == [] then run else s;
    } else if IsSlash(s[0]) {
      assert (s + run)[1..] == s[1..] + run;
      PartsBeforeSlashes(s[1..], run);
    } else {
      var n := ComponentLength(s);
      var behind := s[n..] + run;
      assert s + run == s[..n] + [behind[0]] + behind[1..];
      PartsOfFirst(s[..n], behind[0], behind[1..]);
      assert Parts(s + run) == [s[..n]] + Parts(behind);
      PartsBeforeSlashes(s[n..], run);
    }
  }

  lemma PartsOfTrimmedEnd(s: Units)
    ensures Parts(TrimEnd(s, IsSlash)) == Parts(s)
  {
    var kept := TrimEnd(s, IsSlash);
    var run := s[|kept|..];
    TrimEndCuts(s, IsSlash);
    assert forall i :: 0 <= i < |run| ==> run[i] == s[|kept| + i];
    PartsBeforeSlashes(kept, run);
    assert s == kept + run;
  }

  lemma PartsOfNormalized(trimmed: Units)
    ensures Parts(Normalize(trimmed)) == Parts(trimmed)
  {
    PartsOfCollapsed(trimmed, Separator(trimmed));
    PartsOfTrimmedEnd(Collapse(trimmed, Separator(trimmed)));
  }

  /** A normalized path is the components of the path itself, joined by the one separator, behind a
      separator if the path begins with a slash of either kind and has a component. */
  lemma NormalizedIs(trimmed: Units)
    ensures Normalize(trimmed)
         == (if Parts(trimmed) != [] && IsSlash(trimmed[0]) then [Separator(trimmed)] else []) + Join(Parts(trimmed), [Separator(trimmed)])
  {
    var separator, normalized := Separator(trimmed), Normalize(trimmed);
    NormalizedIsJoin(trimmed);
    PartsOfNormalized(trimmed);
    CollapseIsFlat(trimmed, separator);
    if normalized != [] {
      assert normalized[0] == Collapse(trimmed, separator)[0];
      assert normalized[..1] == [normalized[0]];
    }
  }

  // ---------------------------------------------------------------- what the ellipsis stands for

  /** The components that the prefix shows. */
  function Shown(a: Anatomy): nat {
    if a.prefix == [] then 0 else 1
  }

  lemma PartsOfTildePath(path: Units, separator: CodeUnit)
    requires IsSlash(separator) && StartsWith(path, [TILDE, separator])
    ensures Parts(path) != [] && Parts(path)[0] == [TILDE] && Lead(path) == []
  {
    var slash, tilde := separator, [TILDE];
    assert IsComponent(tilde);
    PartsOfFirst(tilde, slash, path[2..]);
    assert path == tilde + [slash] + path[2..];
  }

  /** The prefix is the first component, unless the path begins with a separator. */
  lemma PrefixIsFirstPart(trimmed: Units)
    ensures var a := TakeApart(trimmed);
            && (a.prefix != [] ==> a.parts != [] && a.prefix == a.parts[0])
            && (a.parts != [] ==> (a.prefix == [] <==> Lead(Normalize(trimmed)) != []))
  {
    var separator := Separator(trimmed);
    var normalized := Normalize(trimmed);
    NormalizedIsJoin(trimmed);
    if StartsWith(normalized, [TILDE, separator]) {
      PartsOfTildePath(normalized, separator);
    }
  }

  /** Prefix, ellipsis and all components that the prefix does not show take four units more than the
      normalized path. */
  lemma FullCandidateLength(trimmed: Units)
    requires |TakeApart(trimmed).parts| >= 2
    ensures var a := TakeApart(trimmed);
            |TailCandidate(a, |a.parts| - Shown(a))| == |Normalize(trimmed)| + 4
  {
    var a := TakeApart(trimmed);
    NormalizedIsJoin(trimmed);
    PrefixIsFirstPart(trimmed);
    if Shown(a) == 1 {
      JoinFirst(a.parts[0], a.parts[1..], a.separator);
      assert a.parts == [a.parts[0]] + a.parts[1..];
      assert a.parts[|a.parts| - (|a.parts| - 1)..] == a.parts[1..];
    } else {
      assert a.parts[|a.parts| - |a.parts|..] == a.parts;
    }
  }

  lemma ElisionOf(trimmed: Units, maxLength: int)
    requires |TakeApart(trimmed).parts| >= 2
    ensures var a := TakeApart(trimmed);
            var n := |a.parts|;
            var k := LongestFit(a, maxLength, n);
            && (Shown(a) + k >= n <==> |Normalize(trimmed)| + 4 <= maxLength)
            && (k == n <==> |a.prefix| + 5 + |Join(a.parts, [a.separator])| <= maxLength)
  {
    var a := TakeApart(trimmed);
    var n := |a.parts|;
    FullCandidateLength(trimmed);
    FitsUpToLongest(a, maxLength, n - Shown(a));
    FitsUpToLongest(a, maxLength, n);
    assert a.parts[n - n..] == a.parts;
  }

  lemma PartsOfTail(trimmed: Units, k: nat)
    requires 1 <= k <= |TakeApart(trimmed).parts|
    ensures var a := TakeApart(trimmed);
            Parts(TailCandidate(a, k)) == a.parts[..Shown(a)] + ([ELLIPSIS] + a.parts[|a.parts| - k..])
  {
    var a := TakeApart(trimmed);
    PrefixIsFirstPart(trimmed);
    ElidedReadsBack(a, k);
    assert a.parts[..Shown(a)] == if a.prefix == [] then [] else [a.prefix];
  }

  /** What a path that is too long and keeps k > 0 components is compacted to: the component that the
      prefix shows, if any, an ellipsis, and the last k. The ellipsis stands for the components between
      them, and for none exactly if the normalized path is at least four units below the limit, so that the
      path was too long only for repeated separators. If the first component is among the k as well, which
      is so exactly if all of them fit behind the prefix, the prefix repeats it. */
  lemma EllipsisStandsForNothingIff(path: Units, maxLength: int)
    requires |Trimmed(path)| > maxLength && |TakeApart(Trimmed(path)).parts| >= 2
    ensures var a := TakeApart(Trimmed(path));
            var n := |a.parts|;
            var k := LongestFit(a, maxLength, n);
            && (k > 0 ==> Parts(Compact(path, maxLength)) == a.parts[..Shown(a)] + ([ELLIPSIS] + a.parts[n - k..]))
            && (Shown(a) + k >= n <==> |Normalize(Trimmed(path))| + 4 <= maxLength)
            && (k == n <==> |a.prefix| + 5 + |Join(a.parts, [a.separator])| <= maxLength)
  {
    var a := TakeApart(Trimmed(path));
    var k := LongestFit(a, maxLength, |a.parts|);
    ElisionOf(Trimmed(path), maxLength);
    if k > 0 {
      assert Compact(path, maxLength) == TailCandidate(a, k);
      PartsOfTail(Trimmed(path), k);
    }
  }

  // ---------------------------------------------------------------- which slashes are written

  /** An elided path is joined by the separator of the path throughout; but behind `~` the ellipsis stands
      between slashes also where the separator is the backslash. */
  lemma ElidedIsJoin(a: Anatomy, k: nat)
    requires Proper(a) && 1 <= k <= |a.parts|
    ensures var tail := a.parts[|a.parts| - k..];
            TailCandidate(a, k)
            == if a.prefix == [] then [a.separator] + Join([ELLIPSIS] + tail, [a.separator])
               else if a.prefix == Codes("~") && a.separator == '\\' as int then Codes("~/.../") + Join(tail, [a.separator])
               else Join([a.prefix] + ([ELLIPSIS] + tail), [a.separator])
  {
    var tail := a.parts[|a.parts| - k..];
    var sep := [a.separator];
    ConstantsInText();
    JoinFirst(ELLIPSIS, tail, a.separator);
    JoinFirst(a.prefix, [ELLIPSIS] + tail, a.separator);
    assert Codes("~/.../") == [TILDE] + [SLASH] + ELLIPSIS + [SLASH];
    if a.prefix != [] {
      assert a.prefix + sep + (ELLIPSIS + sep + Join(tail, sep)) == a.prefix + sep + ELLIPSIS + sep + Join(tail, sep);
    } else {
      assert sep + (ELLIPSIS + sep + Join(tail, sep)) == sep + ELLIPSIS + sep + Join(tail, sep);
      assert [] + sep + ELLIPSIS + sep + Join(tail, sep) == sep + ELLIPSIS + sep + Join(tail, sep);
    }
  }

  /** Joined components hold the separator exactly if there are two, and no other slash. */
  lemma {:induction false} SlashesOfJoin(parts: seq<Units>, separator: CodeUnit)
    requires IsSlash(separator) && forall i :: 0 <= i < |parts| ==> IsComponent(parts[i])
    ensures forall c :: c in Join(parts, [separator]) && IsSlash(c) ==> c == separator
    ensures separator in Join(parts, [separator]) <==> |parts| > 1
  {
    if |parts| > 1 {
      var joined := Join(parts, [separator]);
      SlashesOfJoin(parts[1..], separator);
      assert joined[|parts[0]|] == separator;
      assert joined == parts[0] + ([separator] + Join(parts[1..], [separator]));
    }
  }

  /** Both kinds of slashes stand in an elided path exactly if it keeps two components or more behind `~`
      and the separator is the backslash. */
  lemma SlashesAreMixedIff(a: Anatomy, k: nat)
    requires Proper(a) && 1 <= k <= |a.parts|
    ensures SLASH in TailCandidate(a, k) && BACKSLASH in TailCandidate(a, k) <==>
            k > 1 && a.prefix == Codes("~") && a.separator == '\\' as int
  {
    var tail := a.parts[|a.parts| - k..];
    ElidedIsJoin(a, k);
    if a.prefix == [] {
      SlashesOfJoin([ELLIPSIS] + tail, a.separator);
    } else if a.prefix == Codes("~") && a.separator == BACKSLASH {
      SlashesOfJoin(tail, a.separator);
      assert Codes("~/.../")[1] == SLASH;
    } else {
      SlashesOfJoin([a.prefix] + ([ELLIPSIS] + tail), a.separator);
    }
  }

  /** A path behind `~` whose slashes are all backslashes. */
  predicate IsBackslashedHome(trimmed: Units) {
    SLASH !in trimmed && |trimmed| >= 2 && trimmed[0] == '~' as int && trimmed[1] == '\\' as int
  }

  lemma TildePrefixIff(trimmed: Units)
    requires |TakeApart(trimmed).parts| >= 2
    ensures TakeApart(trimmed).prefix == Codes("~") && TakeApart(trimmed).separator == '\\' as int <==> IsBackslashedHome(trimmed)
  {
    var separator := Separator(trimmed);
    PartsOfNormalized(trimmed);
    PrefixIsFirstPart(trimmed);
    NormalizedIs(trimmed);
    assert trimmed != [];
    var n := ComponentLength(trimmed);
    if !IsSlash(trimmed[0]) {
      assert Parts(trimmed)[0] == trimmed[..n];
      if trimmed[..n] == Codes("~") {
        assert trimmed[0] == trimmed[..n][0] && trimmed[1] in trimmed;
      }
      if IsBackslashedHome(trimmed) {
        assert trimmed[1] in trimmed;
        assert trimmed[..n] == Codes("~");
      }
    }
  }

  /** For a path that is too long and keeps k > 0 components: the result mixes slashes exactly if the path,
      with the home folder as `~`, begins with `~` and a backslash, holds no slash, and k is two or more. */
  lemma CompactMixesSlashesIff(path: Units, maxLength: int)
    requires |Trimmed(path)| > maxLength && |TakeApart(Trimmed(path)).parts| >= 2
    ensures var a := TakeApart(Trimmed(path));
            var k := LongestFit(a, maxLength, |a.parts|);
            k > 0 ==> (SLASH in Compact(path, maxLength) && BACKSLASH in Compact(path, maxLength) <==>
                       k > 1 && IsBackslashedHome(Trimmed(path)))
  {
    var a := TakeApart(Trimmed(path));
    var k := LongestFit(a, maxLength, |a.parts|);
    if k > 0 {
      TildePrefixIff(Trimmed(path));
      SlashesAreMixedIff(a, k);
    }
  }

  // ---------------------------------------------------------------- stretched paths

  function Slashes(n: nat): (s: Units)
    ensures |s| == n && forall i :: 0 <= i < n ==> s[i] == SLASH
  {
    seq(n, i => SLASH)
  }

  lemma {:induction false} DropAllSlashes(n: nat, rest: Units)
    requires rest != [] && !IsSlash(rest[0])
    ensures DropSlashes(Slashes(n) + rest) == rest
  {
    if n == 0 {
      assert Slashes(n) + rest == rest;
    } else {
      assert (Slashes(n) + rest)[1..] == Slashes(n - 1) + rest;
      DropAllSlashes(n - 1, rest);
    }
  }

  predicate IsWord(s: Units) {
    s != [] && forall i :: 0 <= i < |s| ==> IsLetter(s[i])
  }

  /** A path of two components with many slashes between them. */
  function Stretched(first: Units, n: nat, last: Units): Units {
    first + (Slashes(n + 1) + last)
  }

  lemma {:induction false} CollapseWord(word: Units)
    requires forall i :: 0 <= i < |word| ==> IsLetter(word[i])
    ensures Collapse(word, SLASH) == word
  {
    if word != [] {
      CollapseWord(word[1..]);
    }
  }

  lemma {:induction false} CollapseStretched(first: Units, n: nat, last: Units)
    requires (forall i :: 0 <= i < |first| ==> IsLetter(first[i])) && IsWord(last)
    ensures Collapse(Stretched(first, n, last), SLASH) == first + ([SLASH] + last)
  {
    var path := Stretched(first, n, last);
    if first == [] {
      assert path == Slashes(n + 1) + last && path[1..] == Slashes(n) + last;
      DropAllSlashes(n, last);
      CollapseWord(last);
    } else {
      assert path[1..] == Stretched(first[1..], n, last);
      CollapseStretched(first[1..], n, last);
    }
  }

  lemma StretchedIsKept(first: Units, n: nat, last: Units)
    requires IsWord(first) && IsWord(last)
    ensures Trimmed(Stretched(first, n, last)) == Stretched(first, n, last)
  {
    var path := Stretched(first, n, last);
    assert path[|path| - 1] == last[|last| - 1];
    assert path[1] == if |first| > 1 then first[1] else SLASH;
    TrimmedIffEndsDoNotMatch(path, IsJsSpace);
  }

  lemma StretchedNormalized(first: Units, n: nat, last: Units)
    requires IsWord(first) && IsWord(last)
    ensures Separator(Stretched(first, n, last)) == SLASH
    ensures Normalize(Stretched(first, n, last)) == first + ([SLASH] + last)
  {
    assert BACKSLASH !in Stretched(first, n, last);
    CollapseStretched(first, n, last);
    var t := first + ([SLASH] + last);
    assert t[|t| - 1] == last[|last| - 1];
  }

  lemma PartsOfTwoWords(first: Units, last: Units)
    requires IsWord(first) && IsWord(last)
    ensures Parts(first + ([SLASH] + last)) == [first, last]
  {
    var slash := SLASH;
    assert IsComponent(first) && IsComponent(last) && IsSlash(slash);
    ConcatAssoc(first, [slash], last);
    PartsOfFirst(first, slash, last);
    PartsOfFirst(last, slash, []);
  }

  lemma PrefixOfTwoWords(first: Units, last: Units)
    requires IsWord(first)
    ensures PathPrefix(first + ([SLASH] + last), first, SLASH) == first
  {
    assert (first + ([SLASH] + last))[0] == first[0];
  }

  lemma StretchedTakenApart(first: Units, n: nat, last: Units)
    requires IsWord(first) && IsWord(last)
    ensures TakeApart(Stretched(first, n, last)) == Anatomy(first, SLASH, [first, last])
  {
    StretchedNormalized(first, n, last);
    PartsOfTwoWords(first, last);
    PrefixOfTwoWords(first, last);
  }

  lemma CandidatesOfTwo(first: Units, last: Units)
    requires IsWord(first)
    ensures var a := Anatomy(first, SLASH, [first, last]);
            && TailCandidate(a, 1) == first + [SLASH] + ELLIPSIS + [SLASH] + last
            && TailCandidate(a, 2) == first + [SLASH] + ELLIPSIS + [SLASH] + (first + [SLASH] + last)
  {
    var parts: seq<Units> := [first, last];
    assert parts[2 - 2..] == parts && parts[2 - 1..] == [last] && parts[1..] == [last];
    assert first[0] != TILDE;
  }

  /** It happens that the ellipsis stands for nothing: two words with so many slashes between them that
      they do not fit. If all fits twice over, the first word is repeated, as for `a`, ten slashes and `b`
      with a limit of ten; if not, as for `aa`, ten slashes and `b`, it is not. */
  lemma StretchedPathIsCompacted(first: Units, n: nat, last: Units, maxLength: int)
    requires IsWord(first) && IsWord(last)
    requires |first| + |last| + 5 <= maxLength < |first| + n + 1 + |last|
    ensures Compact(Stretched(first, n, last), maxLength)
         == if 2 * |first| + |last| + 6 <= maxLength then first + [SLASH] + ELLIPSIS + [SLASH] + (first + [SLASH] + last)
            else first + [SLASH] + ELLIPSIS + [SLASH] + last
  {
    StretchedIsKept(first, n, last);
    StretchedTakenApart(first, n, last);
    CandidatesOfTwo(first, last);
    var a := Anatomy(first, SLASH, [first, last]);
    assert Fits(a, maxLength, 1);
    assert Fits(a, maxLength, 2) <==> 2 * |first| + |last| + 6 <= maxLength;
  }
}
