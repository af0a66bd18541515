/** The string operations of the standard libraries that the model needs. Those that make sense on any
    sequence are used on code units too. */
module Text {
  predicate IsAsciiAlphanumeric(c: char) {
    'a' <= c <= 'z' || 'A' <= c <= 'Z' || '0' <= c <= '9'
  }

  lemma SmallLetters(c: char)
    ensures c in "abcdefghijklmnopqrstuvwxyz" <==> 'a' <= c <= 'z'
  {
    assert 'a' <= c <= 'z' ==> "abcdefghijklmnopqrstuvwxyz"[c as int - 'a' as int] == c;
  }

  lemma CapitalLetters(c: char)
    ensures c in "ABCDEFGHIJKLMNOPQRSTUVWXYZ" <==> 'A' <= c <= 'Z'
  {
    assert 'A' <= c <= 'Z' ==> "ABCDEFGHIJKLMNOPQRSTUVWXYZ"[c as int - 'A' as int] == c;
  }

  /** The letters and digits, one by one. */
  lemma AlphanumericIff(c: char)
    ensures IsAsciiAlphanumeric(c) <==>
            c in "abcdefghijklmnopqrstuvwxyz" || c in "ABCDEFGHIJKLMNOPQRSTUVWXYZ" || c in "0123456789"
  {
    SmallLetters(c);
    CapitalLetters(c);
    assert '0' <= c <= '9' ==> "0123456789"[c as int - '0' as int] == c;
  }

  lemma InFour(a: string, b: string, d: string, e: string, c: char)
    ensures c in a + b + d + e <==> c in a || c in b || c in d || c in e
  {
  }

  /** `char::is_whitespace`: the Unicode White_Space property. */
  predicate IsWhitespace(c: char) {
    var n := c as int;
    0x09 <= n <= 0x0D || n == 0x20 || n == 0x85 || n == 0xA0 || n == 0x1680
    || 0x2000 <= n <= 0x200A || n == 0x2028 || n == 0x2029 || n == 0x202F || n == 0x205F || n == 0x3000
  }

  lemma ConcatAssoc<T>(a: seq<T>, b: seq<T>, c: seq<T>)
    ensures a + b + c == a + (b + c)
  {
  }

  predicate StartsWith<T(==)>(s: seq<T>, prefix: seq<T>) {
    prefix <= s
  }

  predicate EndsWith(s: string, suffix: string) {
    |suffix| <= |s| && s[|s| - |suffix|..] == suffix
  }

  function TrimStart<T>(s: seq<T>, p: T -> bool): (t: seq<T>)
    ensures t == [] || !p(t[0])
  {
    if s != [] && p(s[0]) then TrimStart(s[1..], p) else s
  }

  function TrimEnd<T>(s: seq<T>, p: T -> bool): (t: seq<T>)
    ensures t <= s
    ensures t == [] || !p(t[|t| - 1])
  {
    if s != [] && p(s[|s| - 1]) then TrimEnd(s[..|s| - 1], p) else s
  }

  function TrimMatches<T>(s: seq<T>, p: T -> bool): (t: seq<T>)
    ensures t == [] || (!p(t[0]) && !p(t[|t| - 1]))
  {
    var t := TrimEnd(TrimStart(s, p), p);
    assert t != [] ==> t[0] == TrimStart(s, p)[0];
    t
  }

  /** `str::trim`. */
  function Trim(s: string): string {
    TrimMatches(s, IsWhitespace)
  }

  /** What is trimmed in front is a run of matching characters. */
  lemma {:induction false} TrimStartCuts<T>(s: seq<T>, p: T -> bool) returns (n: nat)
    ensures n <= |s| && TrimStart(s, p) == s[n..]
    ensures forall i :: 0 <= i < n ==> p(s[i])
  {
    n := 0;
    if s != [] && p(s[0]) {
      var k := TrimStartCuts(s[1..], p);
      assert s[1..][k..] == s[k + 1..];
      assert forall i :: 0 < i < k + 1 ==> s[i] == s[1..][i - 1];
      n := k + 1;
    }
  }

  /** What is trimmed at the end is a run of matching characters. */
  lemma {:induction false} TrimEndCuts<T>(s: seq<T>, p: T -> bool)
    ensures forall i :: |TrimEnd(s, p)| <= i < |s| ==> p(s[i])
  {
    if s != [] && p(s[|s| - 1]) {
      TrimEndCuts(s[..|s| - 1], p);
      assert forall i :: 0 <= i < |s| - 1 ==> s[i] == s[..|s| - 1][i];
    }
  }

  /** What is left of trimming is a part of `s`, with matching characters around it only. */
  lemma TrimMatchesCuts<T>(s: seq<T>, p: T -> bool) returns (n: nat, m: nat)
    ensures n <= m <= |s| && TrimMatches(s, p) == s[n..m]
    ensures forall i :: 0 <= i < n || m <= i < |s| ==> p(s[i])
    ensures n < m ==> !p(s[n]) && !p(s[m - 1])
  {
    n := TrimStartCuts(s, p);
    TrimEndCuts(s[n..], p);
    m := n + |TrimMatches(s, p)|;
    assert TrimMatches(s, p) == s[n..][..m - n] == s[n..m];
    assert forall i :: m <= i < |s| ==> s[i] == s[n..][i - n];
    if n < m {
      assert TrimMatches(s, p)[0] == s[n] && TrimMatches(s, p)[m - n - 1] == s[m - 1];
    }
  }

  /** Trimming leaves alone what has nothing to trim, and exactly that. */
  lemma TrimmedIffEndsDoNotMatch<T>(s: seq<T>, p: T -> bool)
    ensures TrimMatches(s, p) == s <==> s == [] || (!p(s[0]) && !p(s[|s| - 1]))
  {
  }

  /** Removes a run of matching characters behind `s`. */
  lemma {:induction false} TrimEndDropsRun<T>(s: seq<T>, run: seq<T>, p: T -> bool)
    requires forall i :: 0 <= i < |run| ==> p(run[i])
    ensures TrimEnd(s + run, p) == TrimEnd(s, p)
  {
    if run == [] {
      assert s + run == s;
    } else {
      assert (s + run)[..|s + run| - 1] == s + run[..|run| - 1];
      TrimEndDropsRun(s, run[..|run| - 1], p);
    }
  }

  lemma {:induction false} TrimStartDropsRun<T>(run: seq<T>, s: seq<T>, p: T -> bool)
    requires forall i :: 0 <= i < |run| ==> p(run[i])
    ensures TrimStart(run + s, p) == TrimStart(s, p)
  {
    if run == [] {
      assert run + s == s;
    } else {
      assert (run + s)[1..] == run[1..] + s;
      TrimStartDropsRun(run[1..], s, p);
    }
  }

  /** Trimming removes the runs around a sequence whose ends do not match, and nothing else. */
  lemma TrimDropsAround<T>(before: seq<T>, s: seq<T>, after: seq<T>, p: T -> bool)
    requires forall i :: 0 <= i < |before| ==> p(before[i])
    requires forall i :: 0 <= i < |after| ==> p(after[i])
    requires s != [] && !p(s[0]) && !p(s[|s| - 1])
    ensures TrimMatches(before + s + after, p) == s
  {
    ConcatAssoc(before, s, after);
    TrimStartDropsRun(before, s + after, p);
    TrimEndDropsRun(s, after, p);
  }

  function Join<T>(words: seq<seq<T>>, separator: seq<T>): seq<T> {
    if words == [] then []
    else if |words| == 1 then words[0]
    else words[0] + separator + Join(words[1..], separator)
  }

  /** The position of the first `c`, or the length. */
  function IndexOf<T(==)>(s: seq<T>, c: T): (i: nat)
    ensures i <= |s|
    ensures c !in s[..i]
    ensures i < |s| ==> s[i] == c
  {
    if s == [] || s[0] == c then 0
    else
      var i := 1 + IndexOf(s[1..], c);
      assert s[..i] == [s[0]] + s[1..][..i - 1];
      i
  }

  lemma IndexOfSplit<T>(a: seq<T>, c: T, b: seq<T>)
    requires c !in a
    ensures IndexOf(a + [c] + b, c) == |a|
  {
    var s := a + [c] + b;
    assert forall k :: 0 <= k < |a| ==> s[k] == a[k];
    assert forall k :: |a| < k <= |s| ==> s[..k][|a|] == c;
  }

  function StripCarriageReturn(line: string): string {
    if line != [] && line[|line| - 1] == '\r' then line[..|line| - 1] else line
  }

  /** `str::lines`: newline-terminated pieces, a final piece without newline kept as it is. */
  function Lines(s: string): seq<string>
    decreases |s|
  {
    if s == [] then []
    else
      var n := IndexOf(s, '\n');
      if n == |s| then [s] else [StripCarriageReturn(s[..n])] + Lines(s[n + 1..])
  }

  lemma LinesOfFirst(a: string, b: string)
    requires '\n' !in a
    ensures Lines(a + "\n" + b) == [StripCarriageReturn(a)] + Lines(b)
  {
    var s := a + "\n" + b;
    IndexOfSplit(a, '\n', b);
    assert s[..|a|] == a && s[|a| + 1..] == b;
  }

  lemma {:induction false} LinesHaveNoNewline(s: string, k: nat)
    requires k < |Lines(s)|
    ensures '\n' !in Lines(s)[k]
    decreases |s|
  {
    var n := IndexOf(s, '\n');
    if n == |s| {
      assert s == s[..n];
    } else if k > 0 {
      LinesHaveNoNewline(s[n + 1..], k - 1);
    }
  }

  /** `str::replace` of a single character. */
  function ReplaceChar(s: string, from: char, to: string): string {
    if s == [] then [] else (if s[0] == from then to else [s[0]]) + ReplaceChar(s[1..], from, to)
  }

  lemma {:induction false} ReplaceCharAppend(a: string, b: string, from: char, to: string)
    ensures ReplaceChar(a + b, from, to) == ReplaceChar(a, from, to) + ReplaceChar(b, from, to)
  {
    if a == [] {
      assert a + b == b;
    } else {
      assert (a + b)[1..] == a[1..] + b;
      ReplaceCharAppend(a[1..], b, from, to);
    }
  }

  lemma {:induction false} ReplaceCharKeeps(s: string, from: char, to: string, c: char)
    requires c != from && c !in to
    ensures c in ReplaceChar(s, from, to) <==> c in s
  {
    if s != [] {
      ReplaceCharKeeps(s[1..], from, to, c);
      assert s == [s[0]] + s[1..];
    }
  }
}
