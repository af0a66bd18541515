/** Quoting done when a page is created: a path for a POSIX shell, a title for a YAML front matter, and
    the directory name made from a title. */
module CreateQuoting {
  import opened Wrappers
  import opened Text

  // ---------------------------------------------------------------- shell words

  predicate NeedsNoShellQuotes(c: char) {
    IsAsciiAlphanumeric(c) || c == '/' || c == '.' || c == '_' || c == '-' || c == ':'
  }

  predicate IsPlainWord(path: string) {
    forall i :: 0 <= i < |path| ==> NeedsNoShellQuotes(path[i])
  }

  /** `shell_quote_path`. */
  function ShellQuote(path: string): string {
    if IsPlainWord(path) then path else "'" + ReplaceChar(path, '\'', "'\\''") + "'"
  }

  datatype Mode = Unquoted | AfterBackslash | SingleQuoted

  datatype Tokenizer = Tokenizer(words: seq<string>, current: string, started: bool, mode: Mode)

  const EMPTY_TOKENIZER := Tokenizer([], "", false, Unquoted)

  /** Characters that section 2.2 of the POSIX.1-2017 Shell Command Language gives, or may give, a
      meaning of their own when unquoted, other than those the tokenizer handles. */
  predicate IsShellSpecial(c: char) {
    c == '|' || c == '&' || c == ';' || c == '<' || c == '>' || c == '(' || c == ')' || c == '$' || c == '`'
    || c == '"' || c == '\n' || c == '*' || c == '?' || c == '[' || c == '#' || c == '~' || c == '=' || c == '%'
  }

  /** One character; None when it would make the text more than a list of plain words. */
  function Shift(t: Tokenizer, c: char): Option<Tokenizer> {
    match t.mode
    case SingleQuoted =>
      Some(if c == '\'' then t.(mode := Unquoted) else t.(current := t.current + [c]))
    case AfterBackslash =>
      Some(if c == '\n' then t.(mode := Unquoted) else t.(current := t.current + [c], started := true, mode := Unquoted))
    case Unquoted =>
      if c == '\'' then Some(t.(started := true, mode := SingleQuoted))
      else if c == '\\' then Some(t.(mode := AfterBackslash))
      else if c == ' ' || c == '\t' then
        Some(if t.started then t.(words := t.words + [t.current], current := "", started := false) else t)
      else if IsShellSpecial(c) then None
      else Some(t.(current := t.current + [c], started := true))
  }

  function Consume(t: Tokenizer, text: string): Option<Tokenizer>
    decreases |text|
  {
    if text == "" then Some(t)
    else
      var next := Shift(t, text[0]);
      if next.None? then None else Consume(next.value, text[1..])
  }

  /** The words of a text made of blanks, plain characters, backslashes and single quotes. */
  function ShellWords(text: string): Option<seq<string>> {
    var t := Consume(EMPTY_TOKENIZER, text);
    if t.None? || t.value.mode != Unquoted then None
    else Some(if t.value.started then t.value.words + [t.value.current] else t.value.words)
  }

  lemma {:induction false} ConsumeAppend(t: Tokenizer, a: string, b: string)
    ensures Consume(t, a + b) == if Consume(t, a).None? then None else Consume(Consume(t, a).value, b)
    decreases |a|
  {
    if a == "" {
      assert a + b == b;
    } else {
      assert (a + b)[1..] == a[1..] + b;
      if Shift(t, a[0]).Some? {
        ConsumeAppend(Shift(t, a[0]).value, a[1..], b);
      }
    }
  }

  lemma {:induction false} ConsumePlain(t: Tokenizer, word: string)
    requires t.mode == Unquoted && IsPlainWord(word)
    ensures Consume(t, word) == Some(t.(current := t.current + word, started := t.started || word != ""))
    decreases |word|
  {
    if word == "" {
      assert t.current + word == t.current;
    } else {
      assert NeedsNoShellQuotes(word[0]);
      var u := t.(current := t.current + [word[0]], started := true);
      assert IsPlainWord(word[1..]) by {
        assert forall i :: 0 <= i < |word[1..]| ==> word[1..][i] == word[i + 1];
      }
      ConsumePlain(u, word[1..]);
      assert u.current + word[1..] == t.current + word;
    }
  }

  /** A quote inside single quotes leaves them, adds itself and enters them again. */
  lemma ConsumeQuoteMark(t: Tokenizer)
    requires t.mode == SingleQuoted && t.started
    ensures Consume(t, "'\\''") == Some(t.(current := t.current + "'"))
  {
    assert "'\\''"[1..] == "\\''" && "\\''"[1..] == "''" && "''"[1..] == "'" && "'"[1..] == "";
    var a := t.(mode := Unquoted);
    var b := a.(mode := AfterBackslash);
    assert Consume(t, "'\\''") == Consume(a, "\\''") == Consume(b, "''");
  }

  lemma {:induction false} ConsumeQuoted(t: Tokenizer, word: string)
    requires t.mode == SingleQuoted && t.started
    ensures Consume(t, ReplaceChar(word, '\'', "'\\''")) == Some(t.(current := t.current + word))
    decreases |word|
  {
    if word == "" {
      assert t.current + word == t.current;
    } else {
      var head := if word[0] == '\'' then "'\\''" else [word[0]];
      var u := t.(current := t.current + [word[0]]);
      if word[0] == '\'' {
        ConsumeQuoteMark(t);
      } else {
        assert head[1..] == "";
      }
      assert Consume(t, head) == Some(u);
      ConsumeAppend(t, head, ReplaceChar(word[1..], '\'', "'\\''"));
      ConsumeQuoted(u, word[1..]);
      assert u.current + word[1..] == t.current + word;
    }
  }

  predicate BetweenWords(t: Tokenizer) {
    t.mode == Unquoted && !t.started && t.current == ""
  }

  lemma ConsumeShellQuoted(t: Tokenizer, word: string)
    requires BetweenWords(t)
    ensures Consume(t, ShellQuote(word)) == Some(t.(current := word, started := word != ""))
  {
    if IsPlainWord(word) {
      ConsumePlain(t, word);
      assert t.current + word == word;
    } else {
      var inner := ReplaceChar(word, '\'', "'\\''");
      var open := t.(started := true, mode := SingleQuoted);
      assert ShellQuote(word) == "'" + (inner + "'");
      assert ("'" + (inner + "'"))[1..] == inner + "'";
      assert Consume(t, ShellQuote(word)) == Consume(open, inner + "'");
      ConsumeAppend(open, inner, "'");
      ConsumeQuoted(open, word);
      assert open.current + word == word;
      assert "'"[1..] == "";
    }
  }

  /** A shell reads the quoted path as exactly the one word that is the path, for every path but the
      empty one, which is left unquoted and vanishes. */
  lemma ShellReadsQuotedPath(path: string)
    ensures ShellWords(ShellQuote(path)) == Some(if path == "" then [] else [path])
  {
    ConsumeShellQuoted(EMPTY_TOKENIZER, path);
    assert [] + [path] == [path];
  }

  /** Also inside a command: quoted paths do not run into their neighbours. */
  lemma ShellReadsQuotedPathBeforeRest(t: Tokenizer, path: string, rest: string)
    requires BetweenWords(t)
    ensures Consume(t, ShellQuote(path) + (" " + rest))
         == Consume(t.(words := t.words + if path == "" then [] else [path]), rest)
  {
    ConsumeShellQuoted(t, path);
    ConsumeAppend(t, ShellQuote(path), " " + rest);
    assert (" " + rest)[1..] == rest;
    assert t.words + [] == t.words;
  }

  lemma {:induction false} ReplacingLengthens(s: string, from: char, to: string)
    requires to != ""
    ensures |ReplaceChar(s, from, to)| >= |s|
  {
    if s != "" {
      ReplacingLengthens(s[1..], from, to);
    }
  }

  lemma PlainIffKept(path: string)
    ensures ShellQuote(path) == path <==> IsPlainWord(path)
  {
    ReplacingLengthens(path, '\'', "'\\''");
  }

  lemma SafeIff(c: char)
    ensures NeedsNoShellQuotes(c) <==>
            c in "abcdefghijklmnopqrstuvwxyz" + "ABCDEFGHIJKLMNOPQRSTUVWXYZ" + "0123456789" + "/._-:"
  {
    AlphanumericIff(c);
    InFour("abcdefghijklmnopqrstuvwxyz", "ABCDEFGHIJKLMNOPQRSTUVWXYZ", "0123456789", "/._-:", c);
  }

  /** Which paths are left as they are: exactly those of letters, digits and these five marks alone. */
  lemma ShellQuoteKeepsIff(path: string)
    ensures var safe := "abcdefghijklmnopqrstuvwxyz" + "ABCDEFGHIJKLMNOPQRSTUVWXYZ" + "0123456789" + "/._-:";
            ShellQuote(path) == path <==> forall i :: 0 <= i < |path| ==> path[i] in safe
  {
    forall c: char {
      SafeIff(c);
    }
    PlainIffKept(path);
  }

  // ---------------------------------------------------------------- YAML scalars

  function YamlEscapeChar(c: char): string {
    if c == '\\' then "\\\\"
    else if c == '"' then "\\\""
    else if c == '\n' then "\\n"
    else if c == '\r' then "\\r"
    else if c == '\t' then "\\t"
    else [c]
  }

  function YamlEscape(value: string): string {
    if value == "" then "" else YamlEscapeChar(value[0]) + YamlEscape(value[1..])
  }

  function YamlDoubleQuoted(value: string): string {
    "\"" + YamlEscape(value) + "\""
  }

  /** `yaml_double_quoted`. */
  method WriteYamlDoubleQuoted(value: string) returns (escaped: string)
    ensures escaped == YamlDoubleQuoted(value)
  {
    escaped := "\"";
    for i := 0 to |value|
      invariant escaped == "\"" + YamlEscape(value[..i])
    {
      var ch := value[i];
      YamlEscapeAppend(value[..i], ch);
      assert value[..i + 1] == value[..i] + [ch];
      ConcatAssoc("\"", YamlEscape(value[..i]), YamlEscapeChar(ch));
      match ch
      case '\\' => escaped := escaped + "\\\\";
      case '"' => escaped := escaped + "\\\"";
      case '\n' => escaped := escaped + "\\n";
      case '\r' => escaped := escaped + "\\r";
      case '\t' => escaped := escaped + "\\t";
      case _ => escaped := escaped + [ch];
    }
    assert value[..|value|] == value;
    escaped := escaped + "\"";
  }

  lemma {:induction false} YamlEscapeAppend(value: string, ch: char)
    ensures YamlEscape(value + [ch]) == YamlEscape(value) + YamlEscapeChar(ch)
  {
    if value == "" {
      assert value + [ch] == [ch] && [ch][1..] == "";
    } else {
      assert (value + [ch])[1..] == value[1..] + [ch];
      YamlEscapeAppend(value[1..], ch);
    }
  }

  /** The one-character escapes of section 5.7 of YAML 1.2.2. */
  function YamlUnescape(c: char): Option<char> {
    match c
    case '0' => Some(0 as char)
    case 'a' => Some(7 as char)
    case 'b' => Some(8 as char)
    case 't' => Some('\t')
    case 'n' => Some('\n')
    case 'v' => Some(11 as char)
    case 'f' => Some(12 as char)
    case 'r' => Some('\r')
    case 'e' => Some(27 as char)
    case ' ' => Some(' ')
    case '"' => Some('"')
    case '/' => Some('/')
    case '\\' => Some('\\')
    case 'N' => Some(0x85 as char)
    case '_' => Some(0xA0 as char)
    case 'L' => Some(0x2028 as char)
    case 'P' => Some(0x2029 as char)
    case _ => None
  }

  /** A character that may stand for itself between double quotes (`nb-json` in section 5.1). */
  predicate MayStandRaw(c: char) {
    c == '\t' || ' ' <= c
  }

  /** What follows the opening quote: the content up to the closing quote, which ends the text. */
  function ReadYamlRest(text: string): Option<string>
    decreases |text|
  {
    if text == "" then None
    else if text[0] == '"' then (if |text| == 1 then Some("") else None)
    else if text[0] == '\\' then
      if |text| == 1 then None
      else
        var c, rest := YamlUnescape(text[1]), ReadYamlRest(text[2..]);
        if c.None? || rest.None? then None else Some([c.value] + rest.value)
    else if !MayStandRaw(text[0]) then None
    else
      var rest := ReadYamlRest(text[1..]);
      if rest.None? then None else Some([text[0]] + rest.value)
  }

  /** A one-line double-quoted scalar (section 7.3.1 of YAML 1.2.2). */
  function ReadYamlDoubleQuoted(text: string): Option<string> {
    if text != "" && text[0] == '"' then ReadYamlRest(text[1..]) else None
  }

  predicate IsPrintableTitle(value: string) {
    forall i :: 0 <= i < |value| ==> IsPrintableChar(value[i])
  }

  predicate IsPrintableChar(c: char) {
    ' ' <= c || c == '\t' || c == '\n' || c == '\r'
  }

  lemma ReadYamlEscapedChar(c: char, tail: string)
    ensures ReadYamlRest(YamlEscapeChar(c) + tail)
         == if IsPrintableChar(c) && ReadYamlRest(tail).Some? then Some([c] + ReadYamlRest(tail).value) else None
  {
    var e := YamlEscapeChar(c);
    var text := e + tail;
    if |e| == 2 {
      assert text[0] == '\\' && text[2..] == tail;
      assert YamlUnescape(text[1]) == Some(c);
    } else {
      assert text[0] == c && text[1..] == tail;
    }
  }

  lemma {:induction false} ReadYamlEscaped(value: string)
    ensures ReadYamlRest(YamlEscape(value) + "\"") == if IsPrintableTitle(value) then Some(value) else None
  {
    if value == "" {
      assert YamlEscape(value) + "\"" == "\"";
    } else {
      var tail := YamlEscape(value[1..]) + "\"";
      assert YamlEscape(value) + "\"" == YamlEscapeChar(value[0]) + tail;
      ReadYamlEscapedChar(value[0], tail);
      ReadYamlEscaped(value[1..]);
      assert value == [value[0]] + value[1..];
      assert forall i :: 0 <= i < |value[1..]| ==> value[1..][i] == value[i + 1];
    }
  }

  /** A YAML reader gives the title back, single-line or multi-line, exactly when it holds no control
      character below the space other than tab, newline and carriage return. */
  lemma YamlReadsTitleIffPrintable(value: string)
    ensures ReadYamlDoubleQuoted(YamlDoubleQuoted(value)) == Some(value) <==> IsPrintableTitle(value)
    ensures !IsPrintableTitle(value) ==> ReadYamlDoubleQuoted(YamlDoubleQuoted(value)) == None
  {
    ReadYamlEscaped(value);
    assert YamlDoubleQuoted(value)[1..] == YamlEscape(value) + "\"";
  }

  lemma {:induction false} EscapingLengthens(value: string)
    ensures |YamlEscape(value)| >= |value|
    ensures |YamlEscape(value)| == |value| <==> forall i :: 0 <= i < |value| ==> value[i] !in "\\\"\n\r\t"
    ensures |YamlEscape(value)| == |value| ==> YamlEscape(value) == value
  {
    if value != "" {
      EscapingLengthens(value[1..]);
      assert |YamlEscapeChar(value[0])| == 1 <==> value[0] !in "\\\"\n\r\t";
      assert forall i :: 0 < i < |value| ==> value[i] == value[1..][i - 1];
      assert value == [value[0]] + value[1..];
    }
  }

  /** The scalar stands on one line, with no tab in it. */
  lemma {:induction false} EscapedIsOneLine(value: string)
    ensures '\n' !in YamlEscape(value) && '\r' !in YamlEscape(value) && '\t' !in YamlEscape(value)
  {
    if value != "" {
      EscapedIsOneLine(value[1..]);
    }
  }

  /** How a title is written: between quotes, on one line and without tabs, and otherwise as it is exactly if
      it holds none of the five characters that are escaped. */
  lemma YamlWritesOneLine(value: string)
    ensures '\n' !in YamlDoubleQuoted(value) && '\r' !in YamlDoubleQuoted(value) && '\t' !in YamlDoubleQuoted(value)
    ensures YamlDoubleQuoted(value) == "\"" + value + "\"" <==> forall i :: 0 <= i < |value| ==> value[i] !in "\\\"\n\r\t"
  {
    EscapedIsOneLine(value);
    EscapingLengthens(value);
    if YamlDoubleQuoted(value) == "\"" + value + "\"" {
      assert |YamlEscape(value)| == |value|;
    }
  }

  // ---------------------------------------------------------------- directory names

  predicate IsControl(c: char) {
    c as int < 0x20 || 0x7F <= c as int <= 0x9F
  }

  predicate IsForbidden(c: char) {
    c == '/' || c == '\\' || c == ':' || c == '*' || c == '?' || c == '"' || c == '<' || c == '>' || c == '|' || IsControl(c)
  }

  function ReplaceForbidden(title: string): (r: string)
    ensures |r| == |title|
    ensures forall i :: 0 <= i < |r| ==> r[i] == if IsForbidden(title[i]) then '-' else title[i]
  {
    seq(|title|, i requires 0 <= i < |title| => if IsForbidden(title[i]) then '-' else title[i])
  }

  predicate IsDot(c: char) {
    c == '.'
  }

  /** A title with everything replaced and trimmed but its dots. */
  function Cleaned(title: string): string {
    Trim(ReplaceForbidden(title))
  }

  /** `page_directory_name_for_title`. */
  function DirectoryName(title: string): string {
    var sanitized := TrimMatches(Cleaned(title), IsDot);
    if sanitized == "" then "Untitled" else sanitized
  }

  /** The characters that a name cannot hold, one by one, and the control characters. */
  predicate IsReplaced(c: char) {
    c in "/\\:*?\"<>|" || c as int < 32 || 127 <= c as int < 160
  }

  predicate HasNoForbidden(s: string) {
    forall i :: 0 <= i < |s| ==> !IsReplaced(s[i])
  }

  /** For every title: a non-empty name without separators, reserved or control characters, that is
      neither `.` nor `..` nor hidden, and does not end in a dot. */
  lemma DirectoryNameIsSafe(title: string)
    ensures DirectoryName(title) != "" && HasNoForbidden(DirectoryName(title))
    ensures !IsDot(DirectoryName(title)[0]) && !IsDot(DirectoryName(title)[|DirectoryName(title)| - 1])
  {
    var a := ReplaceForbidden(title);
    assert HasNoForbidden(a) by { assert !IsForbidden('-'); }
    TrimKeepsAllowed(a, IsWhitespace);
    TrimKeepsAllowed(Trim(a), IsDot);
    assert HasNoForbidden("Untitled");
  }

  /** White space that is not a control character. */
  predicate IsSpace(c: char) {
    IsWhitespace(c) && !IsReplaced(c)
  }

  lemma ReplaceForbiddenAppend(a: string, b: string, c: string)
    ensures ReplaceForbidden(a + b + c) == ReplaceForbidden(a) + ReplaceForbidden(b) + ReplaceForbidden(c)
    ensures HasNoForbidden(a) ==> ReplaceForbidden(a) == a
  {
  }

  lemma TrimCleaned(before: string, middle: string, after: string)
    requires (forall i :: 0 <= i < |before| ==> IsSpace(before[i])) && forall i :: 0 <= i < |after| ==> IsSpace(after[i])
    requires middle != "" && !IsSpace(middle[0]) && !IsSpace(middle[|middle| - 1])
    ensures Cleaned(before + middle + after) == ReplaceForbidden(middle)
  {
    var replaced := ReplaceForbidden(middle);
    ReplaceForbiddenAppend(before, middle, after);
    ReplaceForbiddenAppend(after, "", "");
    assert HasNoForbidden(before) && HasNoForbidden(after);
    assert !IsWhitespace(replaced[0]) && !IsWhitespace(replaced[|replaced| - 1]);
    TrimDropsAround(before, replaced, after, IsWhitespace);
  }

  lemma TrimDots(before: string, core: string, after: string)
    requires (forall i :: 0 <= i < |before| ==> before[i] == '.') && forall i :: 0 <= i < |after| ==> after[i] == '.'
    requires core != "" && core[0] != '.' && core[|core| - 1] != '.'
    ensures TrimMatches(ReplaceForbidden(before + core + after), IsDot) == ReplaceForbidden(core)
  {
    ReplaceForbiddenAppend(before, core, after);
    ReplaceForbiddenAppend(after, "", "");
    assert HasNoForbidden(before) && HasNoForbidden(after);
    TrimDropsAround(before, ReplaceForbidden(core), after, IsDot);
  }

  /** What the name of a title is: white space around it is dropped, then dots around what is left, and in
      the rest each forbidden character becomes a hyphen; all others stay. */
  lemma DirectoryNameOf(spaceBefore: string, dotsBefore: string, core: string, dotsAfter: string, spaceAfter: string)
    requires (forall i :: 0 <= i < |spaceBefore| ==> IsSpace(spaceBefore[i])) && forall i :: 0 <= i < |spaceAfter| ==> IsSpace(spaceAfter[i])
    requires (forall i :: 0 <= i < |dotsBefore| ==> dotsBefore[i] == '.') && forall i :: 0 <= i < |dotsAfter| ==> dotsAfter[i] == '.'
    requires core != "" && core[0] != '.' && core[|core| - 1] != '.'
    requires (dotsBefore == "" ==> !IsSpace(core[0])) && (dotsAfter == "" ==> !IsSpace(core[|core| - 1]))
    ensures var name := DirectoryName(spaceBefore + (dotsBefore + core + dotsAfter) + spaceAfter);
            |name| == |core| && forall i :: 0 <= i < |core| ==> name[i] == if IsReplaced(core[i]) then '-' else core[i]
  {
    var middle := dotsBefore + core + dotsAfter;
    EndsOfMiddle(dotsBefore, core, dotsAfter);
    TrimCleaned(spaceBefore, middle, spaceAfter);
    TrimDots(dotsBefore, core, dotsAfter);
    assert |ReplaceForbidden(core)| > 0;
    ReplacedIffForbidden(core);
  }

  lemma EndsOfMiddle(dotsBefore: string, core: string, dotsAfter: string)
    requires (forall i :: 0 <= i < |dotsBefore| ==> dotsBefore[i] == '.') && forall i :: 0 <= i < |dotsAfter| ==> dotsAfter[i] == '.'
    requires core != "" && (dotsBefore == "" ==> !IsSpace(core[0])) && (dotsAfter == "" ==> !IsSpace(core[|core| - 1]))
    ensures var middle := dotsBefore + core + dotsAfter;
            middle != "" && !IsSpace(middle[0]) && !IsSpace(middle[|middle| - 1])
  {
    var middle := dotsBefore + core + dotsAfter;
    assert middle[0] == if dotsBefore == "" then core[0] else '.';
    assert middle[|middle| - 1] == if dotsAfter == "" then core[|core| - 1] else '.';
  }

  lemma ReplacedIffForbidden(s: string)
    ensures forall i :: 0 <= i < |s| ==> ReplaceForbidden(s)[i] == if IsReplaced(s[i]) then '-' else s[i]
  {
  }

  /** A title with nothing but white space around dots has the fixed name. */
  lemma DirectoryNameOfDots(spaceBefore: string, dots: string, spaceAfter: string)
    requires (forall i :: 0 <= i < |spaceBefore| ==> IsSpace(spaceBefore[i])) && forall i :: 0 <= i < |spaceAfter| ==> IsSpace(spaceAfter[i])
    requires forall i :: 0 <= i < |dots| ==> dots[i] == '.'
    ensures DirectoryName(spaceBefore + dots + spaceAfter) == "Untitled"
  {
    ReplaceForbiddenAppend(spaceBefore, dots, spaceAfter);
    ReplaceForbiddenAppend(spaceAfter, "", "");
    assert HasNoForbidden(spaceBefore) && HasNoForbidden(spaceAfter) && HasNoForbidden(dots);
    ReplaceForbiddenAppend(dots, "", "");
    if dots == "" {
      var n, m := TrimMatchesCuts(spaceBefore + dots + spaceAfter, IsWhitespace);
    } else {
      TrimCleaned(spaceBefore, dots, spaceAfter);
      var n, m := TrimMatchesCuts(dots, IsDot);
    }
  }

  lemma TrimKeepsAllowed(s: string, p: char -> bool)
    requires HasNoForbidden(s)
    ensures HasNoForbidden(TrimMatches(s, p))
  {
    var n, m := TrimMatchesCuts(s, p);
    assert forall i :: 0 <= i < m - n ==> s[n..m][i] == s[n + i];
  }

  /** A title is its own directory name exactly when nothing in it needs replacing or trimming. */
  lemma DirectoryNameKeepsExactlyCleanTitles(title: string)
    ensures DirectoryName(title) == title
       <==> title != "" && HasNoForbidden(title)
            && !IsDot(title[0]) && !IsDot(title[|title| - 1])
            && !IsWhitespace(title[0]) && !IsWhitespace(title[|title| - 1])
  {
    var a := ReplaceForbidden(title);
    DirectoryNameIsSafe(title);
    if HasNoForbidden(title) {
      assert a == title;
      TrimmedIffEndsDoNotMatch(title, IsWhitespace);
      TrimmedIffEndsDoNotMatch(title, IsDot);
      if Trim(title) != title && title != "" {
        var _, _ := TrimMatchesCuts(title, IsWhitespace);
        var _, _ := TrimMatchesCuts(Trim(title), IsDot);
        assert |Trim(title)| < |title|;
        assert |TrimMatches(Trim(title), IsDot)| < |title|;
      }
    }
  }

  predicate HasOuterSpace(s: string) {
    s != "" && (IsWhitespace(s[0]) || IsWhitespace(s[|s| - 1]))
  }

  /** A space with nothing but dots in front of it. */
  predicate DotsThenSpace(s: string) {
    exists n :: 0 <= n < |s| && IsWhitespace(s[n]) && forall i :: 0 <= i < n ==> IsDot(s[i])
  }

  /** A space with nothing but dots behind it. */
  predicate SpaceThenDots(s: string) {
    exists n :: 0 <= n < |s| && IsWhitespace(s[n]) && forall i :: n < i < |s| ==> IsDot(s[i])
  }

  lemma TrimmingDotsBaresSpace(s: string)
    ensures HasOuterSpace(TrimMatches(s, IsDot)) <==> DotsThenSpace(s) || SpaceThenDots(s)
  {
    var n, m := TrimMatchesCuts(s, IsDot);
    var trimmed := TrimMatches(s, IsDot);
    if n < m {
      assert s[n] == trimmed[0] && s[m - 1] == trimmed[m - n - 1];
      assert DotsThenSpace(s) <==> IsWhitespace(s[n]);
      assert SpaceThenDots(s) <==> IsWhitespace(s[m - 1]);
    } else {
      assert forall i :: 0 <= i < |s| ==> IsDot(s[i]);
    }
  }

  /** White space is trimmed before dots are: a name keeps white space at its ends exactly if, with all
      else replaced and trimmed, nothing but dots stood around it. Taking the directory name once more
      would change exactly these names. */
  lemma OuterSpaceStaysBehindDots(title: string)
    ensures HasOuterSpace(DirectoryName(title)) <==> DotsThenSpace(Cleaned(title)) || SpaceThenDots(Cleaned(title))
    ensures DirectoryName(DirectoryName(title)) == DirectoryName(title) <==> !HasOuterSpace(DirectoryName(title))
  {
    TrimmingDotsBaresSpace(Cleaned(title));
    DirectoryNameIsSafe(title);
    DirectoryNameKeepsExactlyCleanTitles(DirectoryName(title));
  }

  /** For example. */
  lemma SpacesBehindDotsRemain()
    ensures DirectoryName(". a .") == " a " && DirectoryName(" a ") == "a"
  {
    var dotted, spaced := ". a .", " a ";
    assert ReplaceForbidden(dotted) == dotted && ReplaceForbidden(spaced) == spaced;
    TrimmedIffEndsDoNotMatch(dotted, IsWhitespace);
    assert dotted[1..] == " a ." && " a ."[..3] == spaced;
    assert TrimStart(dotted, IsDot) == " a .";
    assert TrimEnd(" a .", IsDot) == spaced;
    assert TrimMatches(Cleaned(dotted), IsDot) == spaced;
    assert spaced[1..] == "a " && "a "[..1] == "a";
    assert TrimStart(spaced, IsWhitespace) == "a ";
    assert TrimEnd("a ", IsWhitespace) == "a";
    TrimmedIffEndsDoNotMatch("a", IsDot);
    assert TrimMatches(Cleaned(spaced), IsDot) == "a";
  }
}
