/** Quoting of a word for a systemd `ExecStart=` line, and the scanner that splits such a line. */
module SystemdExec {
  import opened Text

  // ---------------------------------------------------------------- quoting

  predicate NeedsNoQuotes(c: char) {
    IsAsciiAlphanumeric(c) || c == '/' || c == '.' || c == '-' || c == '_' || c == ':'
  }

  predicate IsPlain(word: string) {
    forall i :: 0 <= i < |word| ==> NeedsNoQuotes(word[i])
  }

  function ReplaceAll(word: string): string {
    ReplaceChar(ReplaceChar(ReplaceChar(ReplaceChar(word, '\\', "\\\\"), '"', "\\\""), '$', "\\$"), '`', "\\`")
  }

  /** `systemd_quote`. */
  function Quote(word: string): string {
    if IsPlain(word) then word else "\"" + ReplaceAll(word) + "\""
  }

  predicate IsSpecial(c: char) {
    c == '\\' || c == '"' || c == '$' || c == '`'
  }

  function EscapeChar(c: char): string {
    if IsSpecial(c) then ['\\', c] else [c]
  }

  /** Escaping in one pass: a backslash before each special character. */
  function Escape(word: string): string {
    if word == [] then [] else EscapeChar(word[0]) + Escape(word[1..])
  }

  lemma ReplaceOne(c: char, from: char, to: string)
    ensures ReplaceChar([c], from, to) == if c == from then to else [c]
    ensures c != from && from != '\\' ==> ReplaceChar(['\\', c], from, to) == ['\\', c]
  {
    assert ReplaceChar([], from, to) == [];
    assert [c][1..] == [] && ['\\', c][1..] == [c];
  }

  /** What the four passes make of a single character. */
  lemma ReplaceAllOfOne(c: char)
    ensures ReplaceAll([c]) == EscapeChar(c)
  {
    ReplaceOne(c, '\\', "\\\\");
    ReplaceOne(c, '"', "\\\"");
    ReplaceOne(c, '$', "\\$");
    ReplaceOne(c, '`', "\\`");
  }

  /** The four sequential passes amount to escaping in one pass. */
  lemma {:induction false} SequentialReplacesEscapeOnce(word: string)
    ensures ReplaceAll(word) == Escape(word)
  {
    if word != [] {
      assert word == [word[0]] + word[1..];
      var a, b := [word[0]], word[1..];
      ReplaceCharAppend(a, b, '\\', "\\\\");
      var a1, b1 := ReplaceChar(a, '\\', "\\\\"), ReplaceChar(b, '\\', "\\\\");
      ReplaceCharAppend(a1, b1, '"', "\\\"");
      var a2, b2 := ReplaceChar(a1, '"', "\\\""), ReplaceChar(b1, '"', "\\\"");
      ReplaceCharAppend(a2, b2, '$', "\\$");
      ReplaceCharAppend(ReplaceChar(a2, '$', "\\$"), ReplaceChar(b2, '$', "\\$"), '`', "\\`");
      ReplaceAllOfOne(word[0]);
      SequentialReplacesEscapeOnce(b);
    }
  }

  // ---------------------------------------------------------------- splitting

  /** The local variables of the scanner. */
  datatype Scan = Scan(args: seq<string>, current: string, inQuotes: bool, escaped: bool, tokenStarted: bool)

  const EMPTY_SCAN := Scan([], "", false, false, false)

  function ScanChar(s: Scan, c: char): Scan {
    if s.escaped then s.(current := s.current + [c], escaped := false, tokenStarted := true)
    else if c == '\\' then s.(escaped := true, tokenStarted := true)
    else if c == '"' then s.(inQuotes := !s.inQuotes, tokenStarted := true)
    else if IsWhitespace(c) && !s.inQuotes then
      if s.tokenStarted then s.(args := s.args + [s.current], current := "", tokenStarted := false) else s
    else s.(current := s.current + [c], tokenStarted := true)
  }

  function ScanText(s: Scan, text: string): Scan
    decreases |text|
  {
    if text == [] then s else ScanText(ScanChar(s, text[0]), text[1..])
  }

  /** A dangling backslash stands for itself; an unfinished token counts. */
  function Finish(s: Scan): seq<string> {
    var current := if s.escaped then s.current + "\\" else s.current;
    if s.tokenStarted then s.args + [current] else s.args
  }

  function SplitFrom(s: Scan, text: string): seq<string> {
    Finish(ScanText(s, text))
  }

  function Split(text: string): seq<string> {
    SplitFrom(EMPTY_SCAN, text)
  }

  /** `split_systemd_exec_args`. */
  method SplitExecArgs(value: string) returns (args: seq<string>)
    ensures args == Split(value)
  {
    args := [];
    var current := "";
    var inQuotes, escaped, tokenStarted := false, false, false;
    for i := 0 to |value|
      invariant ScanText(Scan(args, current, inQuotes, escaped, tokenStarted), value[i..])
             == ScanText(EMPTY_SCAN, value)
    {
      assert value[i..][1..] == value[i + 1..];
      var character := value[i];
      if escaped {
        current := current + [character];
        escaped := false;
        tokenStarted := true;
        continue;
      }
      if character == '\\' {
        escaped := true;
        tokenStarted := true;
        continue;
      }
      if character == '"' {
        inQuotes := !inQuotes;
        tokenStarted := true;
        continue;
      }
      if IsWhitespace(character) && !inQuotes {
        if tokenStarted {
          args := args + [current];
          current := "";
          tokenStarted := false;
        }
        continue;
      }
      current := current + [character];
      tokenStarted := true;
    }
    if escaped {
      current := current + "\\";
    }
    if tokenStarted {
      args := args + [current];
    }
  }

  lemma {:induction false} ScanTextAppend(s: Scan, a: string, b: string)
    ensures ScanText(s, a + b) == ScanText(ScanText(s, a), b)
    decreases |a|
  {
    if a == [] {
      assert a + b == b;
    } else {
      assert (a + b)[1..] == a[1..] + b;
      ScanTextAppend(ScanChar(s, a[0]), a[1..], b);
    }
  }

  // ---------------------------------------------------------------- round trip

  /** Between tokens: nothing is pending. */
  predicate BetweenTokens(s: Scan) {
    s.current == "" && !s.inQuotes && !s.escaped && !s.tokenStarted
  }

  lemma {:induction false} ScanPlain(s: Scan, word: string)
    requires !s.inQuotes && !s.escaped && IsPlain(word)
    ensures ScanText(s, word) == s.(current := s.current + word, tokenStarted := s.tokenStarted || word != "")
    decreases |word|
  {
    if word == [] {
      assert s.current + word == s.current;
    } else {
      assert NeedsNoQuotes(word[0]);
      var t := s.(current := s.current + [word[0]], tokenStarted := true);
      assert IsPlain(word[1..]) by {
        assert forall i :: 0 <= i < |word[1..]| ==> word[1..][i] == word[i + 1];
      }
      ScanPlain(t, word[1..]);
      assert t.current + word[1..] == s.current + word;
    }
  }

  lemma ScanEscapedChar(s: Scan, c: char)
    requires s.inQuotes && !s.escaped && s.tokenStarted
    ensures ScanText(s, EscapeChar(c)) == s.(current := s.current + [c])
  {
    if IsSpecial(c) {
      assert EscapeChar(c)[1..] == [c] && [c][1..] == [];
      assert ScanText(s, EscapeChar(c)) == ScanText(ScanChar(s, '\\'), [c]);
    } else {
      assert EscapeChar(c)[1..] == [];
    }
  }

  lemma {:induction false} ScanEscaped(s: Scan, word: string)
    requires s.inQuotes && !s.escaped && s.tokenStarted
    ensures ScanText(s, Escape(word)) == s.(current := s.current + word)
    decreases |word|
  {
    if word == [] {
      assert s.current + word == s.current;
    } else {
      var t := s.(current := s.current + [word[0]]);
      ScanEscapedChar(s, word[0]);
      ScanTextAppend(s, EscapeChar(word[0]), Escape(word[1..]));
      ScanEscaped(t, word[1..]);
      assert t.current + word[1..] == s.current + word;
    }
  }

  /** A quoted word is read back whole. Only the empty word leaves no token. */
  lemma ScanQuoted(s: Scan, word: string)
    requires BetweenTokens(s)
    ensures ScanText(s, Quote(word)) == s.(current := word, tokenStarted := word != "")
  {
    if IsPlain(word) {
      ScanPlain(s, word);
      assert s.current + word == word;
    } else {
      SequentialReplacesEscapeOnce(word);
      var open := s.(inQuotes := true, tokenStarted := true);
      assert Quote(word) == "\"" + (Escape(word) + "\"");
      assert ScanText(s, Quote(word)) == ScanText(open, Escape(word) + "\"") by {
        assert Quote(word)[1..] == Escape(word) + "\"";
      }
      ScanTextAppend(open, Escape(word), "\"");
      ScanEscaped(open, word);
      assert open.current + word == word;
      assert "\""[1..] == [];
    }
  }

  function QuoteEach(words: seq<string>): (quoted: seq<string>)
    ensures |quoted| == |words|
  {
    if words == [] then [] else [Quote(words[0])] + QuoteEach(words[1..])
  }

  /** A command line: each word quoted, joined by spaces. */
  function QuoteLine(words: seq<string>): string {
    Join(QuoteEach(words), " ")
  }

  /** The empty word is written as nothing. */
  function OneToken(word: string): seq<string> {
    if word == "" then [] else [word]
  }

  function NonEmpty(words: seq<string>): seq<string> {
    if words == [] then [] else OneToken(words[0]) + NonEmpty(words[1..])
  }

  lemma {:induction false} NonEmptyAppend(a: seq<string>, b: seq<string>)
    ensures NonEmpty(a + b) == NonEmpty(a) + NonEmpty(b)
  {
    if a == [] {
      assert a + b == b;
    } else {
      assert (a + b)[1..] == a[1..] + b;
      NonEmptyAppend(a[1..], b);
    }
  }

  lemma NonEmptyOfOne(word: string)
    ensures NonEmpty([word]) == OneToken(word)
  {
    assert OneToken(word) + NonEmpty([word][1..]) == OneToken(word);
  }

  lemma QuoteLineOfOne(word: string)
    ensures QuoteLine([word]) == Quote(word)
  {
    assert QuoteEach([word]) == [Quote(word)];
  }

  lemma QuoteLineFirst(word: string, more: seq<string>)
    requires more != []
    ensures QuoteLine([word] + more) == Quote(word) + (" " + QuoteLine(more))
  {
    assert ([word] + more)[1..] == more;
    assert QuoteEach([word] + more)[1..] == QuoteEach(more);
  }

  lemma ScanQuotedThenSpace(s: Scan, word: string, rest: string)
    requires BetweenTokens(s)
    ensures Finish(ScanText(s, Quote(word))) == s.args + OneToken(word)
    ensures ScanText(s, Quote(word) + (" " + rest)) == ScanText(s.(args := s.args + OneToken(word)), rest)
  {
    ScanQuoted(s, word);
    ScanTextAppend(s, Quote(word), " " + rest);
    assert (" " + rest)[1..] == rest;
    assert s.args + [] == s.args;
  }

  lemma ScanOnlyWord(s: Scan, words: seq<string>)
    requires BetweenTokens(s) && |words| == 1
    ensures Finish(ScanText(s, QuoteLine(words))) == s.args + OneToken(words[0])
  {
    ScanQuotedThenSpace(s, words[0], "");
    assert words == [words[0]];
    QuoteLineOfOne(words[0]);
  }

  lemma ScanFirstWord(s: Scan, words: seq<string>)
    requires BetweenTokens(s) && |words| > 1
    ensures SplitFrom(s, QuoteLine(words))
         == SplitFrom(s.(args := s.args + OneToken(words[0])), QuoteLine(words[1..]))
  {
    assert words == [words[0]] + words[1..];
    QuoteLineFirst(words[0], words[1..]);
    ScanQuotedThenSpace(s, words[0], QuoteLine(words[1..]));
  }

  lemma {:induction false} ScanQuotedWords(s: Scan, words: seq<string>)
    requires BetweenTokens(s) && words != []
    ensures SplitFrom(s, QuoteLine(words)) == s.args + NonEmpty(words)
    decreases |words|
  {
    if |words| == 1 {
      ScanOnlyWord(s, words);
      NonEmptyOfOne(words[0]);
      assert words == [words[0]];
    } else {
      ScanFirstWord(s, words);
      ScanQuotedWords(s.(args := s.args + OneToken(words[0])), words[1..]);
      ConcatAssoc(s.args, OneToken(words[0]), NonEmpty(words[1..]));
    }
  }

  /** For every list of words: quoting each, joining with spaces and splitting gives the non-empty
      words back, unchanged and in order. */
  lemma SplitInvertsQuote(words: seq<string>)
    ensures Split(QuoteLine(words)) == NonEmpty(words)
  {
    if words != [] {
      ScanQuotedWords(EMPTY_SCAN, words);
      assert EMPTY_SCAN.args + NonEmpty(words) == NonEmpty(words);
    }
  }

  lemma {:induction false} NonEmptyShortens(words: seq<string>)
    ensures |NonEmpty(words)| <= |words|
    ensures NonEmpty(words) == words <==> "" !in words
  {
    if words != [] {
      NonEmptyShortens(words[1..]);
      if words[0] != "" {
        assert NonEmpty(words)[1..] == NonEmpty(words[1..]);
        assert words == [words[0]] + words[1..];
      } else {
        assert |NonEmpty(words)| < |words|;
      }
    }
  }

  /** The list comes back as it was exactly when it holds no empty word, which `systemd_quote`
      leaves unquoted. */
  lemma RoundTripIffNoEmptyWord(words: seq<string>)
    ensures Split(QuoteLine(words)) == words <==> "" !in words
  {
    SplitInvertsQuote(words);
    NonEmptyShortens(words);
  }

  // ---------------------------------------------------------------- any spelling of a line

  /** A character as it may stand in a line: by itself or behind a backslash. */
  datatype Spelled = Spelled(c: char, escaped: bool)

  function SpellChar(s: Spelled): string {
    if s.escaped then ['\\', s.c] else [s.c]
  }

  function SpellChars(chars: seq<Spelled>): string {
    if chars == [] then "" else SpellChar(chars[0]) + SpellChars(chars[1..])
  }

  function TextOf(chars: seq<Spelled>): string {
    if chars == [] then "" else [chars[0].c] + TextOf(chars[1..])
  }

  /** By themselves, backslashes and quotes cannot stand anywhere, and white space only between quotes. */
  predicate CanStand(chars: seq<Spelled>, inQuotes: bool) {
    forall i :: 0 <= i < |chars| ==>
      chars[i].escaped || (chars[i].c != '\\' && chars[i].c != '"' && (inQuotes || !IsWhitespace(chars[i].c)))
  }

  /** A stretch of a word, between quotes or not. */
  datatype Piece = Piece(chars: seq<Spelled>, quoted: bool)

  function SpellPiece(piece: Piece): string {
    if piece.quoted then "\"" + SpellChars(piece.chars) + "\"" else SpellChars(piece.chars)
  }

  function SpellWord(pieces: seq<Piece>): string {
    if pieces == [] then "" else SpellPiece(pieces[0]) + SpellWord(pieces[1..])
  }

  function WordText(pieces: seq<Piece>): string {
    if pieces == [] then "" else TextOf(pieces[0].chars) + WordText(pieces[1..])
  }

  /** A word is written as something, if only as a pair of quotes. */
  predicate IsWord(pieces: seq<Piece>) {
    && pieces != []
    && forall i :: 0 <= i < |pieces| ==> CanStand(pieces[i].chars, pieces[i].quoted) && (pieces[i].quoted || pieces[i].chars != [])
  }

  predicate IsGap(gap: string) {
    forall i :: 0 <= i < |gap| ==> IsWhitespace(gap[i])
  }

  /** White space before the first word, between any two, and behind the last. */
  predicate Separates(gaps: seq<string>, words: seq<seq<Piece>>) {
    && |gaps| == |words| + 1
    && (forall i :: 0 <= i < |gaps| ==> IsGap(gaps[i]))
    && forall i :: 0 < i < |words| ==> gaps[i] != ""
  }

  function SpellLine(gaps: seq<string>, words: seq<seq<Piece>>): string
    requires |gaps| == |words| + 1
  {
    if words == [] then gaps[0] else gaps[0] + (SpellWord(words[0]) + SpellLine(gaps[1..], words[1..]))
  }

  function TextsOf(words: seq<seq<Piece>>): (texts: seq<string>)
    ensures |texts| == |words|
    ensures forall i :: 0 <= i < |words| ==> texts[i] == WordText(words[i])
  {
    if words == [] then [] else [WordText(words[0])] + TextsOf(words[1..])
  }

  lemma ScanOne(s: Scan, c: char)
    ensures ScanText(s, [c]) == ScanChar(s, c)
  {
    assert [c][1..] == "";
  }

  lemma ScanSpelledChar(s: Scan, spelled: Spelled)
    requires !s.escaped && CanStand([spelled], s.inQuotes)
    ensures ScanText(s, SpellChar(spelled)) == s.(current := s.current + [spelled.c], tokenStarted := true)
  {
    assert [spelled][0] == spelled;
    if spelled.escaped {
      ScanTextAppend(s, ['\\'], [spelled.c]);
      ScanOne(s, '\\');
      ScanOne(ScanChar(s, '\\'), spelled.c);
    } else {
      ScanOne(s, spelled.c);
    }
  }

  lemma {:induction false} ScanSpelled(s: Scan, chars: seq<Spelled>)
    requires !s.escaped && CanStand(chars, s.inQuotes)
    ensures ScanText(s, SpellChars(chars)) == s.(current := s.current + TextOf(chars), tokenStarted := s.tokenStarted || chars != [])
    decreases |chars|
  {
    if chars == [] {
      assert s.current + TextOf(chars) == s.current;
    } else {
      var t := s.(current := s.current + [chars[0].c], tokenStarted := true);
      assert CanStand([chars[0]], s.inQuotes);
      ScanSpelledChar(s, chars[0]);
      ScanTextAppend(s, SpellChar(chars[0]), SpellChars(chars[1..]));
      ScanSpelled(t, chars[1..]);
      ConcatAssoc(s.current, [chars[0].c], TextOf(chars[1..]));
    }
  }

  lemma ScanPiece(s: Scan, piece: Piece)
    requires !s.escaped && !s.inQuotes && CanStand(piece.chars, piece.quoted) && (piece.quoted || piece.chars != [])
    ensures ScanText(s, SpellPiece(piece)) == s.(current := s.current + TextOf(piece.chars), tokenStarted := true)
  {
    if piece.quoted {
      var open := s.(inQuotes := true, tokenStarted := true);
      var inner := SpellChars(piece.chars);
      assert SpellPiece(piece) == "\"" + (inner + "\"");
      assert SpellPiece(piece)[1..] == inner + "\"";
      ScanTextAppend(open, inner, "\"");
      ScanSpelled(open, piece.chars);
      assert "\""[1..] == "";
    } else {
      ScanSpelled(s, piece.chars);
    }
  }

  lemma {:induction false} ScanWord(s: Scan, pieces: seq<Piece>)
    requires !s.escaped && !s.inQuotes && IsWord(pieces)
    ensures ScanText(s, SpellWord(pieces)) == s.(current := s.current + WordText(pieces), tokenStarted := true)
    decreases |pieces|
  {
    var t := s.(current := s.current + TextOf(pieces[0].chars), tokenStarted := true);
    ScanPiece(s, pieces[0]);
    ScanTextAppend(s, SpellPiece(pieces[0]), SpellWord(pieces[1..]));
    if |pieces| == 1 {
      assert t.current + "" == t.current && WordText(pieces[1..]) == "" && SpellWord(pieces[1..]) == "";
      assert TextOf(pieces[0].chars) + "" == TextOf(pieces[0].chars);
    } else {
      ScanWord(t, pieces[1..]);
      ConcatAssoc(s.current, TextOf(pieces[0].chars), WordText(pieces[1..]));
    }
  }

  /** White space ends a word that was begun. */
  function Closed(s: Scan): Scan {
    if s.tokenStarted then s.(args := s.args + [s.current], current := "", tokenStarted := false) else s
  }

  lemma {:induction false} ScanGap(s: Scan, gap: string)
    requires !s.escaped && !s.inQuotes && IsGap(gap)
    ensures ScanText(s, gap) == if gap == "" then s else Closed(s)
    decreases |gap|
  {
    if gap != "" {
      assert IsGap(gap[1..]) by {
        assert forall i :: 0 <= i < |gap[1..]| ==> gap[1..][i] == gap[i + 1];
      }
      assert IsWhitespace(gap[0]);
      ScanGap(Closed(s), gap[1..]);
    }
  }

  /** The last word of a line is still open at its end. */
  predicate EndsOpen(gaps: seq<string>, words: seq<seq<Piece>>)
    requires |gaps| == |words| + 1
  {
    words != [] && gaps[|words|] == ""
  }

  /** Where the scanner is at the end of a line. */
  function AtEnd(args: seq<string>, gaps: seq<string>, words: seq<seq<Piece>>): Scan
    requires |gaps| == |words| + 1
  {
    var texts := TextsOf(words);
    var n := |words|;
    if EndsOpen(gaps, words) then Scan(args + texts[..n - 1], texts[n - 1], false, false, true)
    else Scan(args + texts, "", false, false, false)
  }

  lemma ScanWordThenGap(s: Scan, word: seq<Piece>, gap: string)
    requires BetweenTokens(s) && IsWord(word) && IsGap(gap)
    ensures ScanText(s, SpellWord(word))
         == Scan(s.args, WordText(word), false, false, true)
    ensures gap != "" ==> ScanText(ScanText(s, SpellWord(word)), gap) == Scan(s.args + [WordText(word)], "", false, false, false)
  {
    ScanWord(s, word);
    assert s.current + WordText(word) == WordText(word);
    ScanGap(ScanText(s, SpellWord(word)), gap);
  }

  lemma {:induction false} ScanLine(s: Scan, gaps: seq<string>, words: seq<seq<Piece>>)
    requires BetweenTokens(s) && Separates(gaps, words) && forall i :: 0 <= i < |words| ==> IsWord(words[i])
    ensures ScanText(s, SpellLine(gaps, words)) == AtEnd(s.args, gaps, words)
    decreases |words|
  {
    ScanGap(s, gaps[0]);
    if words == [] {
      assert s.args + [] == s.args;
    } else {
      var word, rest := SpellWord(words[0]), SpellLine(gaps[1..], words[1..]);
      ScanTextAppend(s, gaps[0], word + rest);
      ScanTextAppend(s, word, rest);
      ScanWordThenGap(s, words[0], gaps[1]);
      var open := ScanText(s, word);
      var closed := Scan(s.args + [WordText(words[0])], "", false, false, false);
      if words[1..] == [] {
        assert rest == gaps[1] && |words| == 1;
        assert s.args + [] == s.args && TextsOf(words) == [WordText(words[0])];
      } else {
        SeparatesRest(gaps, words);
        GapStartsLine(open, closed, gaps[1..], words[1..]);
        ScanLine(closed, gaps[1..], words[1..]);
        AtEndOfRest(s.args, gaps, words);
      }
    }
  }

  lemma SeparatesRest(gaps: seq<string>, words: seq<seq<Piece>>)
    requires words != [] && Separates(gaps, words)
    ensures Separates(gaps[1..], words[1..])
  {
    forall i | 0 < i < |words[1..]| ensures gaps[1..][i] != "" {
      assert gaps[i + 1] != "";
    }
    forall i | 0 <= i < |gaps[1..]| ensures IsGap(gaps[1..][i]) {
      assert IsGap(gaps[i + 1]);
    }
  }

  /** A line that begins with white space is scanned alike whether or not a word was open before it. */
  lemma GapStartsLine(open: Scan, closed: Scan, gaps: seq<string>, words: seq<seq<Piece>>)
    requires |gaps| == |words| + 1 && words != [] && gaps[0] != "" && IsGap(gaps[0])
    requires !open.escaped && !open.inQuotes && BetweenTokens(closed) && closed == Closed(open)
    ensures ScanText(open, SpellLine(gaps, words)) == ScanText(closed, SpellLine(gaps, words))
  {
    var rest := SpellWord(words[0]) + SpellLine(gaps[1..], words[1..]);
    ScanTextAppend(open, gaps[0], rest);
    ScanTextAppend(closed, gaps[0], rest);
    ScanGap(open, gaps[0]);
    ScanGap(closed, gaps[0]);
  }

  lemma AtEndOfRest(args: seq<string>, gaps: seq<string>, words: seq<seq<Piece>>)
    requires |gaps| == |words| + 1 && |words| > 1
    ensures AtEnd(args + [WordText(words[0])], gaps[1..], words[1..]) == AtEnd(args, gaps, words)
  {
    var texts, rest := TextsOf(words), TextsOf(words[1..]);
    assert texts == [WordText(words[0])] + rest;
    assert texts[..|words| - 1] == [WordText(words[0])] + rest[..|words| - 2];
    ConcatAssoc(args, [WordText(words[0])], rest);
    ConcatAssoc(args, [WordText(words[0])], rest[..|words| - 2]);
  }

  lemma LastBehindFront(texts: seq<string>)
    ensures [] + texts == texts
    ensures texts != [] ==> [] + texts[..|texts| - 1] + [texts[|texts| - 1]] == texts
  {
  }

  /** For every line, however its words are spelled, between quotes in whole, in part or not at all, with
      any backslashes and any white space between the words: each word is read as its text. A pair of quotes
      with nothing between them is an empty word. */
  lemma SplitReadsAnySpelling(gaps: seq<string>, words: seq<seq<Piece>>)
    requires Separates(gaps, words) && forall i :: 0 <= i < |words| ==> IsWord(words[i])
    ensures Split(SpellLine(gaps, words)) == TextsOf(words)
  {
    ScanLine(EMPTY_SCAN, gaps, words);
    LastBehindFront(TextsOf(words));
  }

  /** What a line that is not finished adds: a new word, or more of the last one if it was still open. */
  function WithUnfinished(gaps: seq<string>, words: seq<seq<Piece>>, more: string): seq<string>
    requires |gaps| == |words| + 1
  {
    var texts := TextsOf(words);
    if EndsOpen(gaps, words) then texts[..|words| - 1] + [texts[|words| - 1] + more] else texts + [more]
  }

  /** A line that ends in a lone backslash, or in quotes that are never closed, is read as well: the
      backslash stands for itself, and the quotes take in the rest, white space included. */
  lemma SplitReadsUnfinished(gaps: seq<string>, words: seq<seq<Piece>>, chars: seq<Spelled>)
    requires Separates(gaps, words) && forall i :: 0 <= i < |words| ==> IsWord(words[i])
    requires CanStand(chars, true)
    ensures Split(SpellLine(gaps, words) + "\\") == WithUnfinished(gaps, words, "\\")
    ensures Split(SpellLine(gaps, words) + ("\"" + SpellChars(chars))) == WithUnfinished(gaps, words, TextOf(chars))
  {
    var line := SpellLine(gaps, words);
    var end := AtEnd([], gaps, words);
    ScanLine(EMPTY_SCAN, gaps, words);
    ScanTextAppend(EMPTY_SCAN, line, "\\");
    ScanTextAppend(EMPTY_SCAN, line, "\"" + SpellChars(chars));
    assert "\\"[1..] == "" && ("\"" + SpellChars(chars))[1..] == SpellChars(chars);
    var open := end.(inQuotes := true, tokenStarted := true);
    ScanSpelled(open, chars);
    assert ScanText(end, "\\") == end.(escaped := true, tokenStarted := true);
    var texts := TextsOf(words);
    assert [] + texts == texts && "" + "\\" == "\\" && "" + TextOf(chars) == TextOf(chars);
    if words != [] {
      assert [] + texts[..|words| - 1] == texts[..|words| - 1];
    }
  }

  /** The word as it is spelled between quotes: a backslash before each of four characters. */
  function Marked(word: string): (chars: seq<Spelled>)
    ensures |chars| == |word|
    ensures forall i :: 0 <= i < |word| ==> chars[i] == Spelled(word[i], word[i] in "\\\"$`")
  {
    seq(|word|, i requires 0 <= i < |word| => Spelled(word[i], word[i] in "\\\"$`"))
  }

  lemma {:induction false} EscapeSpellsMarked(word: string)
    ensures Escape(word) == SpellChars(Marked(word))
  {
    if word != "" {
      EscapeSpellsMarked(word[1..]);
      assert Marked(word)[1..] == Marked(word[1..]);
    }
  }

  /** How a word is quoted: left as it is exactly if all of it is letters, digits and these five marks, and
      otherwise put between quotes, with backslashes before the four characters and no other. */
  lemma QuoteSpells(word: string)
    ensures var safe := "abcdefghijklmnopqrstuvwxyz" + "ABCDEFGHIJKLMNOPQRSTUVWXYZ" + "0123456789" + "/.-_:";
            Quote(word) == if forall i :: 0 <= i < |word| ==> word[i] in safe then word else "\"" + SpellChars(Marked(word)) + "\""
  {
    forall c: char {
      SafeIff(c);
    }
    SequentialReplacesEscapeOnce(word);
    EscapeSpellsMarked(word);
  }

  lemma SafeIff(c: char)
    ensures NeedsNoQuotes(c) <==>
            c in "abcdefghijklmnopqrstuvwxyz" + "ABCDEFGHIJKLMNOPQRSTUVWXYZ" + "0123456789" + "/.-_:"
  {
    AlphanumericIff(c);
    InFour("abcdefghijklmnopqrstuvwxyz", "ABCDEFGHIJKLMNOPQRSTUVWXYZ", "0123456789", "/.-_:", c);
  }
}
