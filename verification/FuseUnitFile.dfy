/** The systemd unit file of a Linux FUSE root: what is written, and what is read back from it. */
module FuseUnitFile {
  import opened Wrappers
  import Paths
  import opened Text
  import opened SystemdExec

  // ---------------------------------------------------------------- writing

  /** Each line followed by a newline. */
  function Unlines(lines: seq<string>): string {
    if lines == [] then "" else lines[0] + "\n" + Unlines(lines[1..])
  }

  function ExecWords(helper: string, stateRoot: string, mountpoint: string): seq<string> {
    [helper, "--state-dir", stateRoot, "--mountpoint", mountpoint]
  }

  function AcrossFlag(before: string, flag: string, after: string): string {
    before + ((" " + flag + " ") + after)
  }

  function CommandLine(helper: string, stateRoot: string, mountpoint: string): string {
    AcrossFlag(Quote(helper), "--state-dir", AcrossFlag(Quote(stateRoot), "--mountpoint", Quote(mountpoint)))
  }

  function LinesBeforeCommand(mountpoint: string): seq<string> {
    [
      "[Unit]",
      "Description=Locality FUSE root for " + Quote(mountpoint),
      "After=default.target",
      "",
      "[Service]",
      "Type=simple"
    ]
  }

  function LinesAfterCommand(mountpoint: string, logPath: string): seq<string> {
    [
      "ExecStop=/usr/bin/fusermount3 -uz " + Quote(mountpoint),
      "KillSignal=SIGINT",
      "TimeoutStopSec=10",
      "LimitCORE=0",
      "Restart=on-failure",
      "RestartSec=2",
      "StandardOutput=append:" + logPath,
      "StandardError=append:" + logPath,
      "",
      "[Install]",
      "WantedBy=default.target"
    ]
  }

  /** `linux_fuse_unit_contents`. */
  function UnitContents(helper: string, stateRoot: string, mountpoint: string, logPath: string): string {
    Unlines(LinesBeforeCommand(mountpoint)
            + ["ExecStart=" + CommandLine(helper, stateRoot, mountpoint)]
            + LinesAfterCommand(mountpoint, logPath))
  }

  // ---------------------------------------------------------------- reading

  datatype ExecStart = ExecStart(stateDir: Option<string>, mountpoint: Option<string>, hasMountId: bool)

  predicate IsHelperName(name: string) {
    name == "locality-fuse" || name == "afs-fuse" || name == "agentfs-fuse"
  }

  /** Does `arg` have the form `flag=...`? */
  predicate IsAssignment(arg: string, flag: string) {
    StartsWith(arg, flag) && StartsWith(arg[|flag|..], "=")
  }

  /** `command_flag_value`. */
  function FlagValue(args: seq<string>, flag: string): Option<string> {
    if args == [] then None
    else if args[0] == flag then (if |args| > 1 then Some(args[1]) else None)
    else if IsAssignment(args[0], flag) then Some(args[0][|flag| + 1..])
    else FlagValue(args[1..], flag)
  }

  /** `command_has_flag`. */
  predicate HasFlag(args: seq<string>, flag: string) {
    exists i :: 0 <= i < |args| && (args[i] == flag || IsAssignment(args[i], flag))
  }

  /** The rest of the first line that, trimmed, starts with `ExecStart=`. */
  function FindExecStart(lines: seq<string>): Option<string> {
    if lines == [] then None
    else
      var line := Trim(lines[0]);
      if StartsWith(line, "ExecStart=") then Some(line[10..]) else FindExecStart(lines[1..])
  }

  /** The command line that a unit file starts. */
  function CommandIn(contents: string): Option<string> {
    FindExecStart(Lines(contents))
  }

  /** What a command line that starts the helper says. */
  function ReadCommand(args: seq<string>): Option<ExecStart> {
    if args == [] then None
    else
      var name := Paths.FileName(args[0]);
      if name.None? || !IsHelperName(name.value) then None
      else Some(ExecStart(FlagValue(args, "--state-dir"), FlagValue(args, "--mountpoint"), HasFlag(args, "--mount-id")))
  }

  /** `parse_linux_fuse_exec_start`. */
  function ParseExecStart(contents: string): Option<ExecStart> {
    var line := CommandIn(contents);
    if line.None? then None else ReadCommand(Split(line.value))
  }

  // ---------------------------------------------------------------- trimming around the line

  lemma {:induction false} TrimEndKeepsHead(head: string, tail: string)
    requires head != "" && !IsWhitespace(head[|head| - 1])
    ensures TrimEnd(head + tail, IsWhitespace) == head + TrimEnd(tail, IsWhitespace)
  {
    var s := head + tail;
    if tail == "" {
      assert s == head && head + "" == head;
    } else if IsWhitespace(tail[|tail| - 1]) {
      assert s[..|s| - 1] == head + tail[..|tail| - 1];
      TrimEndKeepsHead(head, tail[..|tail| - 1]);
    }
  }

  lemma TrimWithFirstKept(s: string)
    requires s != "" && !IsWhitespace(s[0])
    ensures Trim(s) == TrimEnd(s, IsWhitespace)
    ensures Trim(StripCarriageReturn(s)) == TrimEnd(s, IsWhitespace)
  {
    var t := StripCarriageReturn(s);
    assert t != "" && t[0] == s[0];
    assert TrimStart(s, IsWhitespace) == s && TrimStart(t, IsWhitespace) == t;
  }

  lemma TrimOfKept(first: string, tail: string)
    requires first != "" && !IsWhitespace(first[0]) && !IsWhitespace(first[|first| - 1])
    ensures Trim(StripCarriageReturn(first + tail)) == first + TrimEnd(tail, IsWhitespace)
  {
    TrimWithFirstKept(first + tail);
    TrimEndKeepsHead(first, tail);
  }

  /** A line that does not start with `E` or white space is passed over. */
  lemma OtherLineIsSkipped(line: string, rest: string)
    requires '\n' !in line
    requires line == "" || (!IsWhitespace(line[0]) && line[0] != 'E')
    ensures CommandIn(line + "\n" + rest) == CommandIn(rest)
  {
    LinesOfFirst(line, rest);
    if line != "" {
      TrimOfKept(line[..1], line[1..]);
      assert line == line[..1] + line[1..];
      assert Trim(StripCarriageReturn(line))[0] == line[0];
      assert "ExecStart="[0] == 'E';
    }
  }

  /** A newline-free `ExecStart=` line is found, less its trailing white space. */
  lemma ExecStartLineIsFound(command: string, rest: string)
    requires '\n' !in command
    ensures CommandIn("ExecStart=" + command + "\n" + rest) == Some(TrimEnd(command, IsWhitespace))
  {
    var line := "ExecStart=" + command;
    assert '\n' !in line;
    LinesOfFirst(line, rest);
    TrimOfKept("ExecStart=", command);
    assert (("ExecStart=") + TrimEnd(command, IsWhitespace))[10..] == TrimEnd(command, IsWhitespace);
  }

  // ---------------------------------------------------------------- newlines in and out of words

  lemma QuoteKeepsNewlines(word: string)
    ensures '\n' in Quote(word) <==> '\n' in word
  {
    var a := ReplaceChar(word, '\\', "\\\\");
    var b := ReplaceChar(a, '"', "\\\"");
    var c := ReplaceChar(b, '$', "\\$");
    ReplaceCharKeeps(word, '\\', "\\\\", '\n');
    ReplaceCharKeeps(a, '"', "\\\"", '\n');
    ReplaceCharKeeps(b, '$', "\\$", '\n');
    ReplaceCharKeeps(c, '`', "\\`", '\n');
  }

  ghost predicate Free(args: seq<string>, c: char) {
    forall i :: 0 <= i < |args| ==> c !in args[i]
  }

  lemma {:induction false} ScanAddsNoNewline(s: Scan, text: string)
    requires '\n' !in text && Free(s.args, '\n') && '\n' !in s.current
    ensures Free(Finish(ScanText(s, text)), '\n')
    decreases |text|
  {
    if text != [] {
      assert text[0] != '\n' && forall i :: 0 <= i < |text[1..]| ==> text[1..][i] == text[i + 1];
      ScanAddsNoNewline(ScanChar(s, text[0]), text[1..]);
    }
  }

  lemma {:induction false} FlagValueHasNoNewline(args: seq<string>, flag: string)
    requires Free(args, '\n')
    ensures FlagValue(args, flag).Some? ==> '\n' !in FlagValue(args, flag).value
  {
    if args != [] {
      assert Free(args[1..], '\n');
      FlagValueHasNoNewline(args[1..], flag);
    }
  }

  lemma {:induction false} FoundLineHasNoNewline(lines: seq<string>)
    requires Free(lines, '\n')
    ensures FindExecStart(lines).Some? ==> '\n' !in FindExecStart(lines).value
  {
    if lines != [] {
      var n, m := TrimMatchesCuts(lines[0], IsWhitespace);
      assert '\n' !in lines[0][n..m];
      assert Free(lines[1..], '\n');
      FoundLineHasNoNewline(lines[1..]);
    }
  }

  /** Nothing read out of any unit file contains a newline. */
  lemma ParsedPathsHaveNoNewline(contents: string)
    ensures ParseExecStart(contents).Some? ==>
            var e := ParseExecStart(contents).value;
            && (e.stateDir.Some? ==> '\n' !in e.stateDir.value)
            && (e.mountpoint.Some? ==> '\n' !in e.mountpoint.value)
  {
    var lines := Lines(contents);
    forall k | 0 <= k < |lines| ensures '\n' !in lines[k] {
      LinesHaveNoNewline(contents, k);
    }
    FoundLineHasNoNewline(lines);
    var line := FindExecStart(lines);
    if line.Some? {
      ScanAddsNoNewline(EMPTY_SCAN, line.value);
      FlagValueHasNoNewline(Split(line.value), "--state-dir");
      FlagValueHasNoNewline(Split(line.value), "--mountpoint");
    }
  }

  // ---------------------------------------------------------------- round trip

  lemma JoinAcrossFlag(word: string, flag: string, more: seq<string>)
    requires IsPlain(flag) && more != []
    ensures QuoteLine([word, flag] + more) == AcrossFlag(Quote(word), flag, QuoteLine(more))
  {
    assert [word, flag] + more == [word] + ([flag] + more);
    QuoteLineFirst(word, [flag] + more);
    QuoteLineFirst(flag, more);
    assert Quote(flag) == flag;
    FlagBetween(Quote(word), flag, QuoteLine(more));
  }

  lemma FlagBetween(before: string, flag: string, after: string)
    ensures before + (" " + (flag + (" " + after))) == AcrossFlag(before, flag, after)
  {
  }

  /** The command line written is the quoted words, joined by spaces. */
  lemma CommandIsJoinedWords(helper: string, stateRoot: string, mountpoint: string)
    ensures CommandLine(helper, stateRoot, mountpoint)
         == QuoteLine(ExecWords(helper, stateRoot, mountpoint))
  {
    FlagsArePlain();
    JoinAcrossFlag(stateRoot, "--mountpoint", [mountpoint]);
    JoinAcrossFlag(helper, "--state-dir", [stateRoot, "--mountpoint"] + [mountpoint]);
    assert ExecWords(helper, stateRoot, mountpoint)
        == [helper, "--state-dir"] + ([stateRoot, "--mountpoint"] + [mountpoint]);
    QuoteLineOfOne(mountpoint);
  }

  lemma FlagsArePlain()
    ensures IsPlain("--state-dir") && IsPlain("--mountpoint")
  {
  }

  predicate IsOtherLine(line: string) {
    '\n' !in line && (line == "" || (!IsWhitespace(line[0]) && line[0] != 'E'))
  }

  lemma {:induction false} OtherLinesAreSkipped(before: seq<string>, after: seq<string>)
    requires forall i :: 0 <= i < |before| ==> IsOtherLine(before[i])
    ensures CommandIn(Unlines(before + after)) == CommandIn(Unlines(after))
  {
    if before == [] {
      assert before + after == after;
    } else {
      assert (before + after)[1..] == before[1..] + after;
      OtherLineIsSkipped(before[0], Unlines(before[1..] + after));
      OtherLinesAreSkipped(before[1..], after);
    }
  }

  lemma DescriptionLineIsOther(mountpoint: string)
    requires '\n' !in mountpoint
    ensures IsOtherLine("Description=Locality FUSE root for " + Quote(mountpoint))
  {
    QuoteKeepsNewlines(mountpoint);
  }

  lemma UnlinesFirst(line: string, rest: seq<string>)
    ensures Unlines([line] + rest) == line + "\n" + Unlines(rest)
  {
    assert ([line] + rest)[1..] == rest;
  }

  lemma LinesBeforeCommandAreOther(mountpoint: string, i: nat)
    requires '\n' !in mountpoint && i < |LinesBeforeCommand(mountpoint)|
    ensures IsOtherLine(LinesBeforeCommand(mountpoint)[i])
  {
    if i == 1 {
      DescriptionLineIsOther(mountpoint);
    }
  }

  lemma CommandAfterOtherLines(before: seq<string>, command: string, after: seq<string>)
    requires forall i :: 0 <= i < |before| ==> IsOtherLine(before[i])
    ensures CommandIn(Unlines(before + [command] + after)) == CommandIn(command + "\n" + Unlines(after))
  {
    assert before + [command] + after == before + ([command] + after);
    OtherLinesAreSkipped(before, [command] + after);
    UnlinesFirst(command, after);
  }

  /** Whatever the mountpoint, the parser reaches the line with the command. */
  lemma ParserReachesCommand(helper: string, stateRoot: string, mountpoint: string, logPath: string)
    requires '\n' !in mountpoint
    ensures CommandIn(UnitContents(helper, stateRoot, mountpoint, logPath))
         == CommandIn("ExecStart=" + CommandLine(helper, stateRoot, mountpoint) + "\n"
                      + Unlines(LinesAfterCommand(mountpoint, logPath)))
  {
    var before := LinesBeforeCommand(mountpoint);
    forall i | 0 <= i < |before| ensures IsOtherLine(before[i]) {
      LinesBeforeCommandAreOther(mountpoint, i);
    }
    CommandAfterOtherLines(before, "ExecStart=" + CommandLine(helper, stateRoot, mountpoint),
                           LinesAfterCommand(mountpoint, logPath));
  }

  predicate DoesNotBeginWithDash(path: string) {
    path == "" || path[0] != '-'
  }

  predicate NamesHelper(path: string) {
    Paths.FileName(path).Some? && IsHelperName(Paths.FileName(path).value)
  }

  lemma NoDashNoFlag(arg: string, flag: string)
    requires DoesNotBeginWithDash(arg) && flag != "" && flag[0] == '-'
    ensures arg != flag && !IsAssignment(arg, flag)
  {
  }

  lemma NoFlagInWords(word: string)
    requires DoesNotBeginWithDash(word)
    ensures word != "--state-dir" && !IsAssignment(word, "--state-dir")
    ensures word != "--mountpoint" && !IsAssignment(word, "--mountpoint")
    ensures word != "--mount-id" && !IsAssignment(word, "--mount-id")
  {
    NoDashNoFlag(word, "--state-dir");
    NoDashNoFlag(word, "--mountpoint");
    NoDashNoFlag(word, "--mount-id");
  }

  lemma FlagsDiffer()
    ensures "--state-dir" != "--mountpoint" && !IsAssignment("--state-dir", "--mountpoint")
    ensures "--state-dir" != "--mount-id" && !IsAssignment("--state-dir", "--mount-id")
    ensures "--mountpoint" != "--mount-id" && !IsAssignment("--mountpoint", "--mount-id")
  {
    assert "--state-dir"[2] == 's' && "--mountpoint"[2] == 'm' && "--mount-id"[2] == 'm';
    assert "--mountpoint"[7] == 'p' && "--mount-id"[7] == '-';
  }

  lemma FlagValueSkips(args: seq<string>, flag: string)
    requires args != [] && args[0] != flag && !IsAssignment(args[0], flag)
    ensures FlagValue(args, flag) == FlagValue(args[1..], flag)
  {
  }

  lemma BareFlagNamesNoHelper(path: string)
    requires path == "--state-dir" || path == "--mountpoint" || path == "--state-dir" + "="
    ensures !NamesHelper(path)
  {
    assert path[0] == '-' && path[1] == '-';
    Paths.FileNameOfName(path);
  }

  /** The value found for a flag when `word` is looked at before anything else. */
  lemma AssignedValue(word: string, flag: string, value: string)
    requires IsAssignment(word, flag)
    ensures word[|flag| + 1..] == value <==> word == flag + "=" + value
  {
    assert word == flag + "=" + word[|flag| + 1..];
    if word == flag + "=" + value {
      AssignmentValue(flag, value);
    }
  }

  function StateDirRead(helper: string, stateRoot: string): string {
    if IsAssignment(helper, "--state-dir") then helper[12..] else stateRoot
  }

  function MountpointRead(helper: string, stateRoot: string, mountpoint: string): Option<string> {
    if IsAssignment(helper, "--mountpoint") then Some(helper[13..])
    else if stateRoot == "--mountpoint" then Some("--mountpoint")
    else if IsAssignment(stateRoot, "--mountpoint") then Some(stateRoot[13..])
    else if mountpoint != "" then Some(mountpoint)
    else None
  }

  lemma StateDirOfWords(args: seq<string>)
    requires |args| >= 3 && args[1] == "--state-dir" && args[0] != "--state-dir"
    ensures FlagValue(args, "--state-dir") == Some(StateDirRead(args[0], args[2]))
  {
    if !IsAssignment(args[0], "--state-dir") {
      FlagValueSkips(args, "--state-dir");
      assert args[1..][0] == "--state-dir" && args[1..][1] == args[2];
    }
  }

  lemma MountpointOfWords(helper: string, stateRoot: string, mountpoint: string)
    requires helper != "--mountpoint"
    ensures FlagValue([helper, "--state-dir", stateRoot, "--mountpoint"] + OneToken(mountpoint), "--mountpoint")
         == MountpointRead(helper, stateRoot, mountpoint)
  {
    var flag := "--mountpoint";
    var args := [helper, "--state-dir", stateRoot, flag] + OneToken(mountpoint);
    if !IsAssignment(helper, flag) {
      FlagsDiffer();
      FlagValueSkips(args, flag);
      FlagValueSkips(args[1..], flag);
      assert args[1..][1..] == args[2..] && args[2..][0] == stateRoot && args[2..][1] == flag;
      if stateRoot != flag && !IsAssignment(stateRoot, flag) {
        FlagValueSkips(args[2..], flag);
        assert args[2..][1..] == [flag] + OneToken(mountpoint);
      }
    }
  }

  lemma MountIdOfWords(helper: string, stateRoot: string, mountpoint: string)
    ensures HasFlag([helper, "--state-dir", stateRoot, "--mountpoint"] + OneToken(mountpoint), "--mount-id")
       <==> HasFlag([helper, stateRoot, mountpoint], "--mount-id")
  {
    FlagsDiffer();
    var args, words := [helper, "--state-dir", stateRoot, "--mountpoint"] + OneToken(mountpoint), [helper, stateRoot, mountpoint];
    assert words[0] == args[0] && words[1] == args[2] && (mountpoint != "" ==> words[2] == args[4]);
  }

  lemma NonEmptyOfFlag(flag: string, value: string)
    requires flag != ""
    ensures NonEmpty([flag, value]) == [flag] + OneToken(value)
  {
    NonEmptyAppend([flag], [value]);
    NonEmptyOfOne(flag);
    NonEmptyOfOne(value);
    assert [flag, value] == [flag] + [value];
  }

  lemma NonEmptyOfWords(helper: string, stateRoot: string, mountpoint: string)
    ensures NonEmpty(ExecWords(helper, stateRoot, mountpoint))
         == OneToken(helper) + (["--state-dir"] + OneToken(stateRoot) + (["--mountpoint"] + OneToken(mountpoint)))
  {
    NonEmptyAppend(["--state-dir", stateRoot], ["--mountpoint", mountpoint]);
    NonEmptyAppend([helper], ["--state-dir", stateRoot] + ["--mountpoint", mountpoint]);
    NonEmptyOfOne(helper);
    NonEmptyOfFlag("--state-dir", stateRoot);
    NonEmptyOfFlag("--mountpoint", mountpoint);
    assert ExecWords(helper, stateRoot, mountpoint)
        == [helper] + (["--state-dir", stateRoot] + ["--mountpoint", mountpoint]);
  }

  /** What is read from the words of a command whose state root is not empty. */
  lemma ReadWrittenWords(helper: string, stateRoot: string, mountpoint: string)
    requires NamesHelper(helper) && stateRoot != ""
    ensures ReadCommand(NonEmpty(ExecWords(helper, stateRoot, mountpoint)))
         == Some(ExecStart(Some(StateDirRead(helper, stateRoot)),
                           MountpointRead(helper, stateRoot, mountpoint),
                           HasFlag([helper, stateRoot, mountpoint], "--mount-id")))
  {
    var args := [helper, "--state-dir", stateRoot, "--mountpoint"] + OneToken(mountpoint);
    assert helper != "";
    NonEmptyOfWords(helper, stateRoot, mountpoint);
    assert NonEmpty(ExecWords(helper, stateRoot, mountpoint)) == args;
    if helper == "--state-dir" || helper == "--mountpoint" {
      BareFlagNamesNoHelper(helper);
      assert false;
    }
    StateDirOfWords(args);
    MountpointOfWords(helper, stateRoot, mountpoint);
    MountIdOfWords(helper, stateRoot, mountpoint);
  }

  /** An empty state root is not written as a word, so the flag before it takes the next one. */
  lemma EmptyStateRootIsNotRead(helper: string, mountpoint: string)
    requires NamesHelper(helper)
    ensures ReadCommand(NonEmpty(ExecWords(helper, "", mountpoint))).value.stateDir != Some("")
  {
    var args := [helper, "--state-dir", "--mountpoint"] + OneToken(mountpoint);
    assert helper != "";
    NonEmptyOfWords(helper, "", mountpoint);
    assert NonEmpty(ExecWords(helper, "", mountpoint)) == args;
    if helper == "--state-dir" || helper == "--state-dir" + "=" {
      BareFlagNamesNoHelper(helper);
      assert false;
    }
    StateDirOfWords(args);
    if IsAssignment(helper, "--state-dir") {
      AssignedValue(helper, "--state-dir", "");
      assert "--state-dir" + "=" + "" == "--state-dir" + "=";
    }
  }

  /** A helper path that does not name the helper, if only because it is empty, is not recognised. */
  lemma OtherHelperIsNotRead(helper: string, stateRoot: string, mountpoint: string)
    requires !NamesHelper(helper)
    ensures ReadCommand(NonEmpty(ExecWords(helper, stateRoot, mountpoint))) == None
  {
    NonEmptyOfWords(helper, stateRoot, mountpoint);
    BareFlagNamesNoHelper("--state-dir");
  }

  // A helper path with a newline breaks its own quoted word off: one unfinished token is left.

  lemma {:induction false} EscapeAppend(a: string, b: string)
    ensures Escape(a + b) == Escape(a) + Escape(b)
  {
    if a == [] {
      assert a + b == b;
    } else {
      assert (a + b)[1..] == a[1..] + b;
      EscapeAppend(a[1..], b);
    }
  }

  lemma {:induction false} ScanInsideQuotes(s: Scan, word: string, cut: string)
    requires s.inQuotes && s.tokenStarted && !s.escaped && cut <= Escape(word)
    ensures ScanText(s, cut).args == s.args && ScanText(s, cut).tokenStarted
    decreases |word|
  {
    if cut != [] {
      var head := EscapeChar(word[0]);
      assert cut[0] == Escape(word)[0] == head[0];
      var t := s.(current := s.current + [word[0]]);
      if IsSpecial(word[0]) && |cut| == 1 {
        assert cut == ['\\'] && cut[1..] == [];
      } else {
        assert cut == head + cut[|head|..];
        assert cut[|head|..] <= Escape(word)[|head|..] == Escape(word[1..]);
        ScanTextAppend(s, head, cut[|head|..]);
        ScanEscapedChar(s, word[0]);
        ScanInsideQuotes(t, word[1..], cut[|head|..]);
      }
    }
  }

  /** One token can name one of the paths, but not both. */
  lemma OneTokenNamesOnePath(args: seq<string>)
    requires |args| == 1
    ensures FlagValue(args, "--state-dir") == None || FlagValue(args, "--mountpoint") == None
  {
    if IsAssignment(args[0], "--state-dir") {
      assert args[0][2] == "--state-dir"[2] == 's' && "--mountpoint"[2] == 'm';
      FlagValueSkips(args, "--mountpoint");
    } else if args[0] != "--state-dir" {
      FlagValueSkips(args, "--state-dir");
    }
  }

  ghost predicate NamesBothPaths(e: Option<ExecStart>) {
    e.Some? && e.value.stateDir.Some? && e.value.mountpoint.Some?
  }

  lemma CutAtNewline(start: string, head: string, tail: string, after: string, rest: string)
    ensures start + (("\"" + (head + ("\n" + tail)) + "\"") + after) + "\n" + rest
         == start + ("\"" + head) + "\n" + (tail + "\"" + after + "\n" + rest)
  {
  }

  lemma EscapeSplitsAtNewline(helper: string, p: string, q: string)
    requires helper == p + ("\n" + q)
    ensures Quote(helper) == "\"" + (Escape(p) + ("\n" + Escape(q))) + "\""
  {
    SequentialReplacesEscapeOnce(helper);
    EscapeAppend(p, "\n" + q);
    EscapeAppend("\n", q);
    assert Escape("\n") == EscapeChar('\n') + Escape([]);
    assert helper[|p|] == '\n' && !NeedsNoQuotes(helper[|p|]);
  }

  /** A token left open by a cut is all there is. */
  lemma OpenTokenNamesOnePath(p: string)
    ensures !NamesBothPaths(ReadCommand(Split(TrimEnd("\"" + Escape(p), IsWhitespace))))
  {
    TrimEndKeepsHead("\"", Escape(p));
    var cut := TrimEnd(Escape(p), IsWhitespace);
    var open := ScanChar(EMPTY_SCAN, '"');
    assert ("\"" + cut)[1..] == cut;
    ScanInsideQuotes(open, p, cut);
    OneTokenNamesOnePath(Split("\"" + cut));
  }

  /** Whatever the paths: a newline in the helper path keeps one of the two from being read. */
  lemma BrokenHelperLosesPath(helper: string, stateRoot: string, mountpoint: string, logPath: string)
    requires '\n' in helper && '\n' !in mountpoint
    ensures !NamesBothPaths(ParseExecStart(UnitContents(helper, stateRoot, mountpoint, logPath)))
  {
    var n := IndexOf(helper, '\n');
    var p, q := helper[..n], helper[n + 1..];
    assert helper == p + ("\n" + q);
    EscapeSplitsAtNewline(helper, p, q);
    var rest := Unlines(LinesAfterCommand(mountpoint, logPath));
    var after := (" " + "--state-dir" + " ") + AcrossFlag(Quote(stateRoot), "--mountpoint", Quote(mountpoint));
    CutAtNewline("ExecStart=", Escape(p), Escape(q), after, rest);
    EscapeAddsNoNewline(p);
    ParserReachesCommand(helper, stateRoot, mountpoint, logPath);
    ExecStartLineIsFound("\"" + Escape(p), Escape(q) + "\"" + after + "\n" + rest);
    OpenTokenNamesOnePath(p);
  }

  lemma {:induction false} EscapeAddsNoNewline(p: string)
    requires '\n' !in p
    ensures '\n' !in Escape(p)
  {
    if p != [] {
      assert p == [p[0]] + p[1..];
      EscapeAddsNoNewline(p[1..]);
    }
  }

  lemma QuoteEndsInWord(word: string)
    requires word != ""
    ensures Quote(word) != "" && !IsWhitespace(Quote(word)[|Quote(word)| - 1])
  {
    if IsPlain(word) {
      assert NeedsNoQuotes(word[|word| - 1]);
    }
  }

  lemma AcrossFlagEnds(before: string, flag: string, after: string)
    requires after != ""
    ensures AcrossFlag(before, flag, after) != ""
    ensures AcrossFlag(before, flag, after)[|AcrossFlag(before, flag, after)| - 1] == after[|after| - 1]
  {
  }

  lemma CommandEndsInWord(helper: string, stateRoot: string, mountpoint: string)
    requires mountpoint != ""
    ensures TrimEnd(CommandLine(helper, stateRoot, mountpoint), IsWhitespace)
         == CommandLine(helper, stateRoot, mountpoint)
  {
    QuoteEndsInWord(mountpoint);
    AcrossFlagEnds(Quote(stateRoot), "--mountpoint", Quote(mountpoint));
    AcrossFlagEnds(Quote(helper), "--state-dir", AcrossFlag(Quote(stateRoot), "--mountpoint", Quote(mountpoint)));
  }

  lemma NothingAcrossFlag(before: string, flag: string, inner: string, innerFlag: string)
    ensures AcrossFlag(before, flag, AcrossFlag(inner, innerFlag, ""))
         == AcrossFlag(before, flag, inner + (" " + innerFlag)) + " "
  {
  }

  lemma JoinAcrossLastFlag(stateRoot: string)
    ensures QuoteLine([stateRoot, "--mountpoint"]) == Quote(stateRoot) + (" " + "--mountpoint")
  {
    FlagsArePlain();
    QuoteLineFirst(stateRoot, ["--mountpoint"]);
    QuoteLineOfOne("--mountpoint");
    assert [stateRoot, "--mountpoint"] == [stateRoot] + ["--mountpoint"];
  }

  /** The space left behind by an empty mountpoint is trimmed away. */
  lemma TrailingSpaceIsTrimmed(helper: string, stateRoot: string)
    ensures TrimEnd(CommandLine(helper, stateRoot, ""), IsWhitespace)
         == AcrossFlag(Quote(helper), "--state-dir", Quote(stateRoot) + (" " + "--mountpoint"))
  {
    var inner := Quote(stateRoot) + (" " + "--mountpoint");
    var kept := AcrossFlag(Quote(helper), "--state-dir", inner);
    NothingAcrossFlag(Quote(helper), "--state-dir", Quote(stateRoot), "--mountpoint");
    AcrossFlagEnds(Quote(helper), "--state-dir", inner);
    assert inner[|inner| - 1] == "--mountpoint"[11];
    TrimEndDropsRun(kept, " ", IsWhitespace);
  }

  /** With an empty mountpoint the flag in front of it is the last word. */
  lemma CommandWithoutMountpoint(helper: string, stateRoot: string)
    ensures Split(TrimEnd(CommandLine(helper, stateRoot, ""), IsWhitespace))
         == NonEmpty(ExecWords(helper, stateRoot, ""))
  {
    var words := [helper, "--state-dir"] + [stateRoot, "--mountpoint"];
    TrailingSpaceIsTrimmed(helper, stateRoot);
    FlagsArePlain();
    JoinAcrossLastFlag(stateRoot);
    JoinAcrossFlag(helper, "--state-dir", [stateRoot, "--mountpoint"]);
    SplitInvertsQuote(words);
    assert ExecWords(helper, stateRoot, "") == words + [""];
    NonEmptyAppend(words, [""]);
    NonEmptyOfOne("");
    assert NonEmpty(words) + [] == NonEmpty(words);
  }

  lemma AcrossFlagHasNoNewline(before: string, flag: string, after: string)
    requires '\n' !in before && '\n' !in flag && '\n' !in after
    ensures '\n' !in AcrossFlag(before, flag, after)
  {
  }

  lemma CommandHasNoNewline(helper: string, stateRoot: string, mountpoint: string)
    requires '\n' !in helper && '\n' !in stateRoot && '\n' !in mountpoint
    ensures '\n' !in CommandLine(helper, stateRoot, mountpoint)
  {
    QuoteKeepsNewlines(helper);
    QuoteKeepsNewlines(stateRoot);
    QuoteKeepsNewlines(mountpoint);
    AcrossFlagHasNoNewline(Quote(stateRoot), "--mountpoint", Quote(mountpoint));
    AcrossFlagHasNoNewline(Quote(helper), "--state-dir", AcrossFlag(Quote(stateRoot), "--mountpoint", Quote(mountpoint)));
  }

  /** Without newlines the parser sees the non-empty words of the command. */
  lemma WholeCommandIsRead(helper: string, stateRoot: string, mountpoint: string, logPath: string)
    requires '\n' !in helper && '\n' !in stateRoot && '\n' !in mountpoint
    ensures ParseExecStart(UnitContents(helper, stateRoot, mountpoint, logPath))
         == ReadCommand(NonEmpty(ExecWords(helper, stateRoot, mountpoint)))
  {
    var command := CommandLine(helper, stateRoot, mountpoint);
    ParserReachesCommand(helper, stateRoot, mountpoint, logPath);
    CommandHasNoNewline(helper, stateRoot, mountpoint);
    ExecStartLineIsFound(command, Unlines(LinesAfterCommand(mountpoint, logPath)));
    assert Split(TrimEnd(command, IsWhitespace)) == NonEmpty(ExecWords(helper, stateRoot, mountpoint)) by {
      if mountpoint != "" {
        CommandEndsInWord(helper, stateRoot, mountpoint);
        CommandIsJoinedWords(helper, stateRoot, mountpoint);
        SplitInvertsQuote(ExecWords(helper, stateRoot, mountpoint));
      } else {
        CommandWithoutMountpoint(helper, stateRoot);
      }
    }
  }

  /** Is the written state root the one that is read? A helper path may be taken for the flag. */
  predicate StateRootIsRead(helper: string, stateRoot: string) {
    stateRoot != "" && (IsAssignment(helper, "--state-dir") ==> helper == "--state-dir" + "=" + stateRoot)
  }

  /** Is the written mountpoint the one that is read? The helper path, and then the state root, may be
      taken for the flag; only if neither is must the mountpoint have been written as a word. */
  predicate MountpointIsRead(helper: string, stateRoot: string, mountpoint: string) {
    if IsAssignment(helper, "--mountpoint") then helper == "--mountpoint" + "=" + mountpoint
    else if stateRoot == "--mountpoint" then mountpoint == stateRoot
    else if IsAssignment(stateRoot, "--mountpoint") then stateRoot == "--mountpoint" + "=" + mountpoint
    else mountpoint != ""
  }

  /** A condition on the three paths that can be checked before the unit is written. */
  predicate ReadsBack(helper: string, stateRoot: string, mountpoint: string) {
    && '\n' !in helper && '\n' !in stateRoot && '\n' !in mountpoint
    && NamesHelper(helper)
    && StateRootIsRead(helper, stateRoot)
    && MountpointIsRead(helper, stateRoot, mountpoint)
    && !HasFlag([helper, stateRoot, mountpoint], "--mount-id")
  }

  lemma RightPathsAreRead(helper: string, stateRoot: string, mountpoint: string)
    requires stateRoot != ""
    ensures StateDirRead(helper, stateRoot) == stateRoot <==> StateRootIsRead(helper, stateRoot)
    ensures MountpointRead(helper, stateRoot, mountpoint) == Some(mountpoint) <==> MountpointIsRead(helper, stateRoot, mountpoint)
  {
    if IsAssignment(helper, "--state-dir") {
      AssignedValue(helper, "--state-dir", stateRoot);
    }
    if IsAssignment(helper, "--mountpoint") {
      AssignedValue(helper, "--mountpoint", mountpoint);
    } else if IsAssignment(stateRoot, "--mountpoint") {
      AssignedValue(stateRoot, "--mountpoint", mountpoint);
    }
  }

  lemma CommandReadsBackIff(helper: string, stateRoot: string, mountpoint: string)
    requires '\n' !in helper && '\n' !in stateRoot && '\n' !in mountpoint
    ensures ReadCommand(NonEmpty(ExecWords(helper, stateRoot, mountpoint)))
         == Some(ExecStart(Some(stateRoot), Some(mountpoint), false))
       <==> ReadsBack(helper, stateRoot, mountpoint)
  {
    if !NamesHelper(helper) {
      OtherHelperIsNotRead(helper, stateRoot, mountpoint);
    } else if stateRoot == "" {
      EmptyStateRootIsNotRead(helper, mountpoint);
    } else {
      ReadWrittenWords(helper, stateRoot, mountpoint);
      RightPathsAreRead(helper, stateRoot, mountpoint);
    }
  }

  /** For all paths whatever: reading the written unit gives back exactly both paths and no mount id, if
      and only if the three paths meet the condition. */
  lemma UnitFileRoundTrip(helper: string, stateRoot: string, mountpoint: string, logPath: string)
    ensures ParseExecStart(UnitContents(helper, stateRoot, mountpoint, logPath))
         == Some(ExecStart(Some(stateRoot), Some(mountpoint), false))
       <==> ReadsBack(helper, stateRoot, mountpoint)
  {
    ParsedPathsHaveNoNewline(UnitContents(helper, stateRoot, mountpoint, logPath));
    if '\n' !in stateRoot && '\n' !in mountpoint {
      if '\n' in helper {
        BrokenHelperLosesPath(helper, stateRoot, mountpoint, logPath);
      } else {
        WholeCommandIsRead(helper, stateRoot, mountpoint, logPath);
        CommandReadsBackIff(helper, stateRoot, mountpoint);
      }
    }
  }

  lemma UndashedReadsBackIff(helper: string, stateRoot: string, mountpoint: string)
    requires DoesNotBeginWithDash(helper) && DoesNotBeginWithDash(stateRoot) && DoesNotBeginWithDash(mountpoint)
    ensures ReadsBack(helper, stateRoot, mountpoint)
       <==> NamesHelper(helper) && stateRoot != "" && mountpoint != ""
            && '\n' !in helper && '\n' !in stateRoot && '\n' !in mountpoint
  {
    NoFlagInWords(helper);
    NoFlagInWords(stateRoot);
    NoFlagInWords(mountpoint);
  }

  /** Without dashes in front nothing is taken for a flag: the paths come back if and only if neither is
      empty and none holds a newline. */
  lemma UndashedRoundTrip(helper: string, stateRoot: string, mountpoint: string, logPath: string)
    requires NamesHelper(helper)
    requires DoesNotBeginWithDash(helper) && DoesNotBeginWithDash(stateRoot) && DoesNotBeginWithDash(mountpoint)
    ensures ParseExecStart(UnitContents(helper, stateRoot, mountpoint, logPath))
         == Some(ExecStart(Some(stateRoot), Some(mountpoint), false))
       <==> stateRoot != "" && mountpoint != ""
            && '\n' !in helper && '\n' !in stateRoot && '\n' !in mountpoint
  {
    UnitFileRoundTrip(helper, stateRoot, mountpoint, logPath);
    UndashedReadsBackIff(helper, stateRoot, mountpoint);
  }

  lemma AssignmentValue(flag: string, value: string)
    ensures IsAssignment(flag + "=" + value, flag)
    ensures (flag + "=" + value)[|flag| + 1..] == value
  {
    assert (flag + "=" + value)[|flag|..] == "=" + value;
  }

  lemma MountpointFlagIsNoOtherFlag(path: string)
    ensures "--mountpoint" + "=" + path != "--mount-id" && !IsAssignment("--mountpoint" + "=" + path, "--mount-id")
  {
    assert ("--mountpoint" + "=" + path)[7] == 'p' && "--mount-id"[7] == '-';
  }

  lemma DashedStateRootReadsBackIff(helper: string, path: string, mountpoint: string)
    requires NamesHelper(helper) && DoesNotBeginWithDash(helper) && DoesNotBeginWithDash(mountpoint)
    requires '\n' !in helper && '\n' !in path && '\n' !in mountpoint
    ensures ReadsBack(helper, "--mountpoint" + "=" + path, mountpoint) <==> mountpoint == path
  {
    var flag := "--mountpoint";
    var stateRoot := flag + "=" + path;
    assert '\n' !in stateRoot;
    assert |stateRoot| > |flag|;
    NoFlagInWords(helper);
    NoFlagInWords(mountpoint);
    AssignmentValue(flag, path);
    AssignedValue(stateRoot, flag, mountpoint);
    MountpointFlagIsNoOtherFlag(path);
  }

  /** A state root that has the form of the flag for the mountpoint decides what is read back: the path
      in it is read as the mountpoint, so the unit reads back for that one mountpoint, be it empty, and
      for no other. */
  lemma DashedStateRootDecidesMountpoint(helper: string, path: string, mountpoint: string, logPath: string)
    requires NamesHelper(helper) && DoesNotBeginWithDash(helper) && DoesNotBeginWithDash(mountpoint)
    requires '\n' !in helper && '\n' !in path && '\n' !in mountpoint
    ensures var stateRoot := "--mountpoint" + "=" + path;
            var e := ParseExecStart(UnitContents(helper, stateRoot, mountpoint, logPath));
            && e.Some? && e.value.mountpoint == Some(path)
            && (e == Some(ExecStart(Some(stateRoot), Some(mountpoint), false)) <==> mountpoint == path)
  {
    var flag := "--mountpoint";
    var stateRoot := flag + "=" + path;
    assert '\n' !in stateRoot && |stateRoot| > |flag|;
    WholeCommandIsRead(helper, stateRoot, mountpoint, logPath);
    ReadWrittenWords(helper, stateRoot, mountpoint);
    NoFlagInWords(helper);
    AssignmentValue(flag, path);
    UnitFileRoundTrip(helper, stateRoot, mountpoint, logPath);
    DashedStateRootReadsBackIff(helper, path, mountpoint);
  }

  /** In any directory, exactly the three helper names are taken for the helper. */
  lemma HelperInDirectory(directory: string, name: string)
    requires Paths.IsName(name)
    ensures NamesHelper(directory + "/" + name) <==> name == "locality-fuse" || name == "afs-fuse" || name == "agentfs-fuse"
  {
    Paths.FileNameOfChild(directory, name);
  }

  lemma NoNewlineInJoin(directory: string, name: string)
    requires '\n' !in directory && '\n' !in name
    ensures '\n' !in directory + "/" + name
  {
  }

  lemma InstalledHelperReadsBack(directory: string, name: string, stateRoot: string, mountpoint: string)
    requires name == "locality-fuse" || name == "afs-fuse" || name == "agentfs-fuse"
    requires '\n' !in directory && '\n' !in stateRoot && '\n' !in mountpoint
    requires DoesNotBeginWithDash(directory) && DoesNotBeginWithDash(stateRoot) && DoesNotBeginWithDash(mountpoint)
    requires stateRoot != "" && mountpoint != ""
    ensures ReadsBack(directory + "/" + name, stateRoot, mountpoint)
  {
    var helper := directory + "/" + name;
    assert helper[0] == if directory == "" then '/' else directory[0];
    HelperInDirectory(directory, name);
    NoNewlineInJoin(directory, name);
    UndashedReadsBackIff(helper, stateRoot, mountpoint);
  }

  /** The unit written for a helper in any directory reads back: exactly the state root and the mountpoint
      written, and no mount id. */
  lemma InstalledHelperRoundTrip(directory: string, name: string, stateRoot: string, mountpoint: string, logPath: string)
    requires name == "locality-fuse" || name == "afs-fuse" || name == "agentfs-fuse"
    requires '\n' !in directory && '\n' !in stateRoot && '\n' !in mountpoint
    requires DoesNotBeginWithDash(directory) && DoesNotBeginWithDash(stateRoot) && DoesNotBeginWithDash(mountpoint)
    requires stateRoot != "" && mountpoint != ""
    ensures ParseExecStart(UnitContents(directory + "/" + name, stateRoot, mountpoint, logPath))
         == Some(ExecStart(Some(stateRoot), Some(mountpoint), false))
  {
    InstalledHelperReadsBack(directory, name, stateRoot, mountpoint);
    UnitFileRoundTrip(directory + "/" + name, stateRoot, mountpoint, logPath);
  }

  // ---------------------------------------------------------------- what the parser looks for, in any file

  /** Argument i is the flag, or assigns it a value. */
  ghost predicate Mentions(args: seq<string>, i: nat, flag: string) {
    i < |args| && (args[i] == flag || exists v :: args[i] == flag + "=" + v)
  }

  lemma AssignmentForm(arg: string, flag: string)
    ensures IsAssignment(arg, flag) <==> exists v :: arg == flag + "=" + v
  {
    if IsAssignment(arg, flag) {
      assert arg == flag + "=" + arg[|flag| + 1..];
    }
    forall v | arg == flag + "=" + v ensures IsAssignment(arg, flag) {
      AssignmentValue(flag, v);
    }
  }

  /** A flag is present exactly if some argument is the flag or assigns it a value. */
  lemma HasFlagIff(args: seq<string>, flag: string)
    ensures HasFlag(args, flag) <==> exists i: nat :: Mentions(args, i, flag)
  {
    forall i: nat | i < |args| ensures IsAssignment(args[i], flag) <==> exists v :: args[i] == flag + "=" + v {
      AssignmentForm(args[i], flag);
    }
    if HasFlag(args, flag) {
      var i: int :| 0 <= i < |args| && (args[i] == flag || IsAssignment(args[i], flag));
      assert Mentions(args, i, flag);
    }
  }

  /** Argument i is the first to mention the flag. */
  ghost predicate MentionsFirst(args: seq<string>, i: nat, flag: string) {
    Mentions(args, i, flag) && forall j: nat :: j < i ==> !Mentions(args, j, flag)
  }

  lemma MentionsInRest(args: seq<string>, i: nat, flag: string)
    requires args != []
    ensures Mentions(args, i + 1, flag) <==> Mentions(args[1..], i, flag)
  {
  }

  /** The value of a flag is that of the first argument that mentions it, or the argument behind it; an
      argument that is the flag and the last has none. */
  lemma {:induction false} FlagValueIsFirst(args: seq<string>, i: nat, flag: string)
    requires MentionsFirst(args, i, flag)
    ensures args[i] == flag ==> FlagValue(args, flag) == if i + 1 < |args| then Some(args[i + 1]) else None
    ensures forall v :: args[i] == flag + "=" + v ==> FlagValue(args, flag) == Some(v)
  {
    AssignmentForm(args[0], flag);
    if i == 0 {
      forall v | args[0] == flag + "=" + v ensures FlagValue(args, flag) == Some(v) {
        AssignmentValue(flag, v);
      }
    } else {
      assert !Mentions(args, 0, flag);
      MentionsInRest(args, i - 1, flag);
      forall j: nat | j < i - 1 ensures !Mentions(args[1..], j, flag) {
        MentionsInRest(args, j, flag);
      }
      FlagValueSkips(args, flag);
      FlagValueIsFirst(args[1..], i - 1, flag);
    }
  }

  lemma {:induction false} NoFlagNoValue(args: seq<string>, flag: string)
    requires forall i: nat :: !Mentions(args, i, flag)
    ensures FlagValue(args, flag) == None
  {
    if args != [] {
      assert !Mentions(args, 0, flag);
      AssignmentForm(args[0], flag);
      forall i: nat ensures !Mentions(args[1..], i, flag) {
        MentionsInRest(args, i, flag);
        assert !Mentions(args, i + 1, flag);
      }
      NoFlagNoValue(args[1..], flag);
    }
  }

  /** Line k is the first that is, but for white space around it, `ExecStart=` and the command. */
  ghost predicate IsFirstCommand(lines: seq<string>, k: nat, command: string) {
    && k < |lines| && Trim(lines[k]) == "ExecStart=" + command
    && forall j, c :: 0 <= j < k ==> Trim(lines[j]) != "ExecStart=" + c
  }

  lemma CommandForm(line: string)
    ensures StartsWith(line, "ExecStart=") <==> exists c :: line == "ExecStart=" + c
    ensures forall c :: line == "ExecStart=" + c ==> line[10..] == c
  {
    if StartsWith(line, "ExecStart=") {
      assert line == "ExecStart=" + line[10..];
    }
  }

  /** The command of a file is that of its first such line, indented or not. */
  lemma {:induction false} FirstCommandIsFound(lines: seq<string>, k: nat, command: string)
    requires IsFirstCommand(lines, k, command)
    ensures FindExecStart(lines) == Some(command)
  {
    CommandForm(Trim(lines[0]));
    if k > 0 {
      assert !StartsWith(Trim(lines[0]), "ExecStart=");
      assert IsFirstCommand(lines[1..], k - 1, command) by {
        forall j, c | 0 <= j < k - 1 ensures Trim(lines[1..][j]) != "ExecStart=" + c {
          assert lines[1..][j] == lines[j + 1];
        }
      }
      FirstCommandIsFound(lines[1..], k - 1, command);
    }
  }

  lemma {:induction false} NoCommandIsFound(lines: seq<string>)
    requires forall k, c :: 0 <= k < |lines| ==> Trim(lines[k]) != "ExecStart=" + c
    ensures FindExecStart(lines) == None
  {
    if lines != [] {
      CommandForm(Trim(lines[0]));
      assert forall k :: 0 <= k < |lines[1..]| ==> lines[1..][k] == lines[k + 1];
      NoCommandIsFound(lines[1..]);
    }
  }

  /** What the first mention of a flag says is its value. */
  ghost predicate IsValueOf(value: Option<string>, args: seq<string>, flag: string) {
    && (forall i: nat :: MentionsFirst(args, i, flag) && args[i] == flag ==>
          value == if i + 1 < |args| then Some(args[i + 1]) else None)
    && (forall i: nat, v :: MentionsFirst(args, i, flag) && args[i] == flag + "=" + v ==> value == Some(v))
    && ((forall i: nat :: !Mentions(args, i, flag)) ==> value == None)
  }

  lemma FlagValueIsValue(args: seq<string>, flag: string)
    ensures IsValueOf(FlagValue(args, flag), args, flag)
  {
    forall i: nat | MentionsFirst(args, i, flag)
      ensures args[i] == flag ==> FlagValue(args, flag) == if i + 1 < |args| then Some(args[i + 1]) else None
      ensures forall v :: args[i] == flag + "=" + v ==> FlagValue(args, flag) == Some(v)
    {
      FlagValueIsFirst(args, i, flag);
    }
    if forall i: nat :: !Mentions(args, i, flag) {
      NoFlagNoValue(args, flag);
    }
  }

  predicate IsHelper(path: string) {
    var name := Paths.FileName(path);
    name == Some("locality-fuse") || name == Some("afs-fuse") || name == Some("agentfs-fuse")
  }

  /** What the words of a command say: something exactly if the first names a helper, and then state root and
      mountpoint are the values of their flags, and there is a mount id exactly if its flag is mentioned. */
  ghost predicate IsReadFrom(read: Option<ExecStart>, args: seq<string>) {
    && (read.Some? <==> args != [] && IsHelper(args[0]))
    && (read.Some? ==>
          && IsValueOf(read.value.stateDir, args, "--state-dir")
          && IsValueOf(read.value.mountpoint, args, "--mountpoint")
          && (read.value.hasMountId <==> exists i: nat :: Mentions(args, i, "--mount-id")))
  }

  lemma ReadCommandSays(args: seq<string>)
    ensures IsReadFrom(ReadCommand(args), args)
  {
    FlagValueIsValue(args, "--state-dir");
    FlagValueIsValue(args, "--mountpoint");
    HasFlagIff(args, "--mount-id");
  }

  /** What the parser says of any file: nothing without a command, and otherwise what the words of the first
      one say. */
  lemma ParserSays(contents: string, k: nat, command: string)
    ensures (forall j, c :: 0 <= j < |Lines(contents)| ==> Trim(Lines(contents)[j]) != "ExecStart=" + c) ==> ParseExecStart(contents) == None
    ensures IsFirstCommand(Lines(contents), k, command) ==> IsReadFrom(ParseExecStart(contents), Split(command))
  {
    var lines := Lines(contents);
    if forall j, c :: 0 <= j < |lines| ==> Trim(lines[j]) != "ExecStart=" + c {
      NoCommandIsFound(lines);
    }
    if IsFirstCommand(lines, k, command) {
      FirstCommandIsFound(lines, k, command);
      ReadCommandSays(Split(command));
    }
  }

  // ---------------------------------------------------------------- the text that is written

  lemma Flattened(e: string, h: string, x: string, s: string, y: string, m: string)
    ensures e + (h + (x + (s + (y + m)))) == e + h + x + s + y + m
  {
    ConcatAssoc(e, h, x + (s + (y + m)));
    ConcatAssoc(e + h, x, s + (y + m));
    ConcatAssoc(e + h + x, s, y + m);
    ConcatAssoc(e + h + x + s, y, m);
  }

  lemma FlagsInText()
    ensures " " + "--state-dir" + " " == " --state-dir " && " " + "--mountpoint" + " " == " --mountpoint "
  {
  }

  lemma CommandInWords(helper: string, stateRoot: string, mountpoint: string)
    ensures "ExecStart=" + CommandLine(helper, stateRoot, mountpoint)
         == "ExecStart=" + Quote(helper) + " --state-dir " + Quote(stateRoot) + " --mountpoint " + Quote(mountpoint)
  {
    FlagsInText();
    Flattened("ExecStart=", Quote(helper), " --state-dir ", Quote(stateRoot), " --mountpoint ", Quote(mountpoint));
  }

  /** One line of text: no newline in it, and no carriage return at its end. */
  ghost predicate IsLine(line: string) {
    '\n' !in line && (line != "" ==> line[|line| - 1] != '\r')
  }

  lemma QuoteIsLine(word: string)
    requires '\n' !in word
    ensures IsLine(Quote(word))
  {
    QuoteKeepsNewlines(word);
    if IsPlain(word) && word != "" {
      assert NeedsNoQuotes(word[|word| - 1]);
    }
  }

  lemma BothAreLine(prefix: string, rest: string)
    requires IsLine(prefix) && IsLine(rest)
    ensures IsLine(prefix + rest)
  {
    if rest == "" {
      assert prefix + rest == prefix;
    } else {
      assert (prefix + rest)[|prefix + rest| - 1] == rest[|rest| - 1];
    }
  }

  lemma FirstLinesAreLines(mountpoint: string, i: nat)
    requires '\n' !in mountpoint && i < |LinesBeforeCommand(mountpoint)|
    ensures IsLine(LinesBeforeCommand(mountpoint)[i])
  {
    if i == 1 {
      QuoteIsLine(mountpoint);
      BothAreLine("Description=Locality FUSE root for ", Quote(mountpoint));
    }
  }

  lemma FixedLinesAreLines()
    ensures IsLine("KillSignal=SIGINT") && IsLine("TimeoutStopSec=10") && IsLine("LimitCORE=0")
    ensures IsLine("Restart=on-failure") && IsLine("RestartSec=2")
  {
  }

  lemma ClosingLinesAreLines()
    ensures IsLine("") && IsLine("[Install]") && IsLine("WantedBy=default.target")
  {
  }

  lemma LastLinesAreLines(mountpoint: string, logPath: string, i: nat)
    requires '\n' !in mountpoint && IsLine(logPath) && i < |LinesAfterCommand(mountpoint, logPath)|
    ensures IsLine(LinesAfterCommand(mountpoint, logPath)[i])
  {
    FixedLinesAreLines();
    ClosingLinesAreLines();
    if i == 0 {
      QuoteIsLine(mountpoint);
      BothAreLine("ExecStop=/usr/bin/fusermount3 -uz ", Quote(mountpoint));
    } else if i == 6 {
      BothAreLine("StandardOutput=append:", logPath);
    } else if i == 7 {
      BothAreLine("StandardError=append:", logPath);
    }
  }

  lemma CommandIsLine(helper: string, stateRoot: string, mountpoint: string)
    requires '\n' !in helper && '\n' !in stateRoot && '\n' !in mountpoint
    ensures IsLine("ExecStart=" + CommandLine(helper, stateRoot, mountpoint))
  {
    CommandHasNoNewline(helper, stateRoot, mountpoint);
    QuoteIsLine(mountpoint);
    BothAreLine(Quote(stateRoot) + (" " + "--mountpoint" + " "), Quote(mountpoint)) by {
      QuoteIsLine(stateRoot);
      BothAreLine(Quote(stateRoot), " " + "--mountpoint" + " ");
    }
    ConcatAssoc(Quote(stateRoot), " " + "--mountpoint" + " ", Quote(mountpoint));
    var inner := AcrossFlag(Quote(stateRoot), "--mountpoint", Quote(mountpoint));
    QuoteIsLine(helper);
    BothAreLine(Quote(helper), " " + "--state-dir" + " ");
    BothAreLine(Quote(helper) + (" " + "--state-dir" + " "), inner);
    ConcatAssoc(Quote(helper), " " + "--state-dir" + " ", inner);
    BothAreLine("ExecStart=", CommandLine(helper, stateRoot, mountpoint));
  }

  lemma {:induction false} LinesOfUnlines(lines: seq<string>)
    requires forall line :: line in lines ==> IsLine(line)
    ensures Lines(Unlines(lines)) == lines
  {
    if lines != [] {
      assert lines[0] in lines;
      LinesOfFirst(lines[0], Unlines(lines[1..]));
      LinesOfUnlines(lines[1..]);
      assert lines == [lines[0]] + lines[1..];
    }
  }

  /** Without newlines in the paths the file has exactly the eighteen lines of the format. */
  lemma UnitFileHasLines(helper: string, stateRoot: string, mountpoint: string, logPath: string)
    requires '\n' !in helper && '\n' !in stateRoot && '\n' !in mountpoint
    requires '\n' !in logPath && (logPath != "" ==> logPath[|logPath| - 1] != '\r')
    ensures Lines(UnitContents(helper, stateRoot, mountpoint, logPath)) ==
      [
        "[Unit]",
        "Description=Locality FUSE root for " + Quote(mountpoint),
        "After=default.target",
        "",
        "[Service]",
        "Type=simple"
      ] + [
        "ExecStart=" + Quote(helper) + " --state-dir " + Quote(stateRoot) + " --mountpoint " + Quote(mountpoint)
      ] + [
        "ExecStop=/usr/bin/fusermount3 -uz " + Quote(mountpoint),
        "KillSignal=SIGINT",
        "TimeoutStopSec=10",
        "LimitCORE=0",
        "Restart=on-failure",
        "RestartSec=2",
        "StandardOutput=append:" + logPath,
        "StandardError=append:" + logPath,
        "",
        "[Install]",
        "WantedBy=default.target"
      ]
  {
    var command := ["ExecStart=" + CommandLine(helper, stateRoot, mountpoint)];
    CommandInWords(helper, stateRoot, mountpoint);
    UnitLinesAreLines(helper, stateRoot, mountpoint, logPath);
  }

  lemma UnitLinesAreLines(helper: string, stateRoot: string, mountpoint: string, logPath: string)
    requires '\n' !in helper && '\n' !in stateRoot && '\n' !in mountpoint && IsLine(logPath)
    ensures Lines(UnitContents(helper, stateRoot, mountpoint, logPath))
         == LinesBeforeCommand(mountpoint) + ["ExecStart=" + CommandLine(helper, stateRoot, mountpoint)]
            + LinesAfterCommand(mountpoint, logPath)
  {
    var before, after := LinesBeforeCommand(mountpoint), LinesAfterCommand(mountpoint, logPath);
    var command := "ExecStart=" + CommandLine(helper, stateRoot, mountpoint);
    CommandIsLine(helper, stateRoot, mountpoint);
    forall line | line in before ensures IsLine(line) {
      var i :| 0 <= i < |before| && before[i] == line;
      FirstLinesAreLines(mountpoint, i);
    }
    forall line | line in after ensures IsLine(line) {
      var i :| 0 <= i < |after| && after[i] == line;
      LastLinesAreLines(mountpoint, logPath, i);
    }
    AllAreLines(before, command, after);
  }

  lemma AllAreLines(before: seq<string>, command: string, after: seq<string>)
    requires forall line :: line in before || line == command || line in after ==> IsLine(line)
    ensures Lines(Unlines(before + [command] + after)) == before + [command] + after
  {
    LinesOfUnlines(before + [command] + after);
  }
}
