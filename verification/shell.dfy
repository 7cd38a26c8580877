/**
 * The top level of `src/shell.rs`: how `read_input_with_continuation` puts one
 * command line together from the lines the editor returns, what `run` does
 * with that line, and what `fg` and `bg` do to the job table.
 *
 * The lines the editor would return are a parameter, in order; running out of
 * them stands for a read error. `Command::needs_line_continuation` is not part
 * of this model and is a function parameter. Whether a background job has
 * exited (`try_wait`) and what spawning a program gives (`spawn`) are
 * parameters as well.
 */
module ShellLoop {
  import opened Wrappers
  import opened Text
  import Commands
  import Pipes
  import Jobs
  import HistoryCursor

  // ---------------------------------------------------------------------
  // Trailing backslashes
  // ---------------------------------------------------------------------

  /** The number of consecutive backslashes at the end of `s`: a maximal run. */
  function TrailingBackslashes(s: string): (n: nat)
    ensures n <= |s|
    ensures forall k :: |s| - n <= k < |s| ==> s[k] == '\\'
    ensures n == |s| || s[|s| - n - 1] != '\\'
  {
    if s != [] && s[|s| - 1] == '\\' then TrailingBackslashes(s[..|s| - 1]) + 1 else 0
  }

  /** Any maximal run of backslashes at the end is the one `TrailingBackslashes` counts. */
  lemma {:induction false} TrailingBackslashesUnique(s: string, n: nat)
    requires n <= |s|
    requires forall k :: |s| - n <= k < |s| ==> s[k] == '\\'
    requires n == |s| || s[|s| - n - 1] != '\\'
    ensures TrailingBackslashes(s) == n
  {
    if n > 0 {
      var t := s[..|s| - 1];
      assert forall k :: |t| - (n - 1) <= k < |t| ==> t[k] == s[k];
      TrailingBackslashesUnique(t, n - 1);
    }
  }

  /** The count loop: walks back from the end while it sees backslashes. */
  method CountTrailingBackslashes(line: string) returns (count: nat)
    ensures count == TrailingBackslashes(line)
  {
    count := 0;
    var k: nat := |line|;
    while k > 0 && line[k - 1] == '\\'
      invariant k <= |line| && count == |line| - k
      invariant forall m :: k <= m < |line| ==> line[m] == '\\'
    {
      count := count + 1;
      k := k - 1;
    }
    TrailingBackslashesUnique(line, count);
  }

  /** A line asks for the next one when, without its trailing whitespace, it ends in an odd number of backslashes. */
  predicate ContinuesWithBackslash(line: string) {
    TrailingBackslashes(TrimEnd(line)) % 2 == 1
  }

  /** `has_trailing_backslash`: the `ends_with('\\')` test, then the count. */
  method HasTrailingBackslash(line: string) returns (b: bool)
    ensures b <==> ContinuesWithBackslash(line)
  {
    var lineTrimmed := TrimEnd(line);
    if lineTrimmed != [] && lineTrimmed[|lineTrimmed| - 1] == '\\' {
      var count := CountTrailingBackslashes(lineTrimmed);
      b := count % 2 == 1;
    } else {
      b := false;
    }
  }

  /** A continued line ends, before its trailing whitespace, in a backslash that is not escaped by another. */
  lemma ContinuedLineEndsInBackslash(line: string)
    requires ContinuesWithBackslash(line)
    ensures var t := TrimEnd(line); t != [] && t[|t| - 1] == '\\'
    ensures var t := TrimEnd(line); TrailingBackslashes(t[..|t| - 1]) % 2 == 0
  {
    var t := TrimEnd(line);
    assert TrailingBackslashes(t) != 0;
    assert TrailingBackslashes(t) == TrailingBackslashes(t[..|t| - 1]) + 1;
    SuccessorParity(TrailingBackslashes(t[..|t| - 1]));
  }

  lemma SuccessorParity(n: nat)
    ensures (n + 1) % 2 == 1 <==> n % 2 == 0
  {
  }

  /** What a line continued by a backslash adds to the input: the line without its trailing whitespace and that backslash. */
  function Piece(line: string): (p: string)
    requires ContinuesWithBackslash(line)
    ensures p + "\\" == TrimEnd(line)
  {
    ContinuedLineEndsInBackslash(line);
    var t := TrimEnd(line);
    t[..|t| - 1]
  }

  /** Two backslashes at the end are an escaped backslash: the line does not continue. */
  lemma EscapedBackslashEndsLine(s: string)
    requires s == [] || s[|s| - 1] != '\\'
    ensures ContinuesWithBackslash(s + "\\ ")
    ensures !ContinuesWithBackslash(s + "\\\\")
  {
    var one := s + "\\";
    var two := s + "\\\\";
    assert (s + "\\ ")[..|s| + 1] == one;
    assert TrimEnd(s + "\\ ") == one;
    TrimEndUnchanged(two);
    TrailingBackslashesUnique(one, 1);
    TrailingBackslashesUnique(two, 2);
  }

  // ---------------------------------------------------------------------
  // `read_input_with_continuation`
  // ---------------------------------------------------------------------

  /**
   * The input gathered from `lines[i..]`, given the text `full` gathered so far
   * and whether no line has been read yet: the input and the number of lines
   * read in all, or None when the lines run out first.
   *  - A line continued by a backslash loses that backslash and its trailing
   *    whitespace and is appended, after a space unless it is the first line or
   *    nothing has been gathered yet.
   *  - Any other line is appended as it is, after a newline unless it is the
   *    first, and the input is complete unless `needsMore` asks for more.
   * A complete input never comes right after a backslash line, and `needsMore`
   * does not hold for it.
   */
  function Gather(lines: seq<string>, i: nat, full: string, first: bool, needsMore: string -> bool): (r: Option<(string, nat)>)
    requires i <= |lines|
    ensures r.Some? ==> i < r.value.1 <= |lines|
    ensures r.Some? ==> !ContinuesWithBackslash(lines[r.value.1 - 1]) && !needsMore(r.value.0)
    decreases |lines| - i
  {
    if i == |lines| then None
    else if ContinuesWithBackslash(lines[i]) then
      Gather(lines, i + 1, (if !first && full != [] then full + " " else full) + Piece(lines[i]), false, needsMore)
    else
      var joined := (if !first then full + "\n" else full) + lines[i];
      if needsMore(joined) then Gather(lines, i + 1, joined, false, needsMore)
      else Some((joined, i + 1))
  }

  /** The input read from the start. */
  function ReadInput(lines: seq<string>, needsMore: string -> bool): Option<(string, nat)> {
    Gather(lines, 0, [], true, needsMore)
  }

  /** `read_input_with_continuation`: the loop over the lines, with `continue` for continued lines. */
  method ReadInputWithContinuation(lines: seq<string>, needsMore: string -> bool) returns (r: Option<(string, nat)>)
    ensures r == ReadInput(lines, needsMore)
  {
    var fullInput: string := [];
    var firstLine := true;
    var i := 0;
    ghost var goal := ReadInput(lines, needsMore);
    while i < |lines|
      invariant i <= |lines|
      invariant Gather(lines, i, fullInput, firstLine, needsMore) == goal
      decreases |lines| - i
    {
      ghost var before := fullInput;
      ghost var wasFirst := firstLine;
      var line := lines[i];
      var hasTrailingBackslash := HasTrailingBackslash(line);
      if hasTrailingBackslash {
        var withoutBackslash := Piece(line);
        if !firstLine && fullInput != [] {
          fullInput := fullInput + " ";
        }
        fullInput := fullInput + withoutBackslash;
        firstLine := false;
        GatherBackslashLine(lines, i, before, wasFirst, needsMore);
      } else {
        if !firstLine {
          fullInput := fullInput + "\n";
        }
        fullInput := fullInput + line;
        firstLine := false;
        GatherPlainLine(lines, i, before, wasFirst, needsMore);
        if !needsMore(fullInput) {
          return Some((fullInput, i + 1));
        }
      }
      i := i + 1;
    }
    return None;
  }

  /** A line that is not continued in either way is the whole input. */
  lemma OneLineInput(line: string, rest: seq<string>, needsMore: string -> bool)
    requires !ContinuesWithBackslash(line) && !needsMore(line)
    ensures ReadInput([line] + rest, needsMore) == Some((line, 1))
  {
    assert ([line] + rest)[0] == line;
    assert [] + line == line;
  }

  /** After a backslash line, the next line is joined with a newline, not a space. */
  lemma BackslashThenLine(a: string, b: string, rest: seq<string>, needsMore: string -> bool)
    requires ContinuesWithBackslash(a) && !ContinuesWithBackslash(b)
    requires !needsMore(Piece(a) + "\n" + b)
    ensures ReadInput([a, b] + rest, needsMore) == Some((Piece(a) + "\n" + b, 2))
  {
    var lines := [a, b] + rest;
    assert lines[0] == a && lines[1] == b;
    GatherBackslashLine(lines, 0, [], true, needsMore);
    assert [] + Piece(a) == Piece(a);
    GatherLastLine(lines, 1, Piece(a), false, needsMore);
  }

  /** One backslash line: its piece goes on the end of what was gathered. */
  lemma GatherBackslashLine(lines: seq<string>, i: nat, full: string, first: bool, needsMore: string -> bool)
    requires i < |lines| && ContinuesWithBackslash(lines[i])
    ensures Gather(lines, i, full, first, needsMore) == Gather(lines, i + 1, (if !first && full != [] then full + " " else full) + Piece(lines[i]), false, needsMore)
  {
  }

  /** A line that is not continued by a backslash is joined on with a newline, then `needsMore` decides. */
  lemma GatherPlainLine(lines: seq<string>, i: nat, full: string, first: bool, needsMore: string -> bool)
    requires i < |lines| && !ContinuesWithBackslash(lines[i])
    ensures var joined := (if !first then full + "\n" else full) + lines[i];
      Gather(lines, i, full, first, needsMore) == if needsMore(joined) then Gather(lines, i + 1, joined, false, needsMore) else Some((joined, i + 1))
  {
  }

  /** A line that is not continued completes the input when `needsMore` does not ask for more. */
  lemma GatherLastLine(lines: seq<string>, i: nat, full: string, first: bool, needsMore: string -> bool)
    requires i < |lines| && !ContinuesWithBackslash(lines[i])
    requires !needsMore((if !first then full + "\n" else full) + lines[i])
    ensures Gather(lines, i, full, first, needsMore) == Some(((if !first then full + "\n" else full) + lines[i], i + 1))
  {
  }

  /** Two backslash lines in a row are joined with a space when the first leaves some text. */
  lemma BackslashLinesJoinWithSpace(a: string, b: string, c: string, rest: seq<string>, needsMore: string -> bool)
    requires ContinuesWithBackslash(a) && ContinuesWithBackslash(b) && !ContinuesWithBackslash(c)
    requires Piece(a) != []
    requires !needsMore(Piece(a) + " " + Piece(b) + "\n" + c)
    ensures ReadInput([a, b, c] + rest, needsMore) == Some((Piece(a) + " " + Piece(b) + "\n" + c, 3))
  {
    var lines := [a, b, c] + rest;
    assert lines[0] == a && lines[1] == b && lines[2] == c;
    GatherBackslashLine(lines, 0, [], true, needsMore);
    assert [] + Piece(a) == Piece(a);
    GatherBackslashLine(lines, 1, Piece(a), false, needsMore);
    GatherLastLine(lines, 2, Piece(a) + " " + Piece(b), false, needsMore);
  }

  /** An unclosed quote keeps reading, and the lines are joined with a newline. */
  lemma OpenQuoteThenLine(a: string, b: string, rest: seq<string>, needsMore: string -> bool)
    requires !ContinuesWithBackslash(a) && !ContinuesWithBackslash(b)
    requires needsMore(a) && !needsMore(a + "\n" + b)
    ensures ReadInput([a, b] + rest, needsMore) == Some((a + "\n" + b, 2))
  {
    var lines := [a, b] + rest;
    assert lines[0] == a && lines[1] == b;
    assert [] + a == a;
    assert Gather(lines, 1, a, false, needsMore) == Some((a + "\n" + b, 2));
    assert Gather(lines, 0, [], true, needsMore) == Gather(lines, 1, a, false, needsMore);
  }

  // ---------------------------------------------------------------------
  // `run`: what happens to one command line
  // ---------------------------------------------------------------------

  /** What `run` does with a command line. */
  datatype Action =
    | Skip                                                 // blank: nothing recorded, nothing run
    | RunPipeline(stages: seq<seq<string>>, background: bool)
    | RunCommand(cmd: Commands.Command)
    | NoCommand                                            // `Command::parse` gave nothing

  /**
   * The line `run` works on: trimmed, and with a trailing '&' cut off and the
   * rest trimmed again; the flag says whether there was one. None for a blank line.
   */
  function Stripped(input: string): (r: Option<(string, bool)>)
    ensures r.None? <==> AllWhitespace(input)
    ensures r.Some? ==> r.value.1 == Commands.EndsWithAmpersand(Trim(input))
    ensures r.Some? && !r.value.1 ==> r.value.0 == Trim(input)
  {
    TrimEmptyIff(input);
    if Trim(input) == [] then None
    else
      StrippedTrimmed(Trim(input));
      TrimIdempotent(input);
      Some((Commands.Body(Trim(input)), Commands.EndsWithAmpersand(Trim(input))))
  }

  /** The line `run` works on has no whitespace left at either end. */
  lemma StrippedIsTrimmed(input: string)
    requires Stripped(input).Some?
    ensures Trim(Stripped(input).value.0) == Stripped(input).value.0
  {
    TrimEmptyIff(input);
    TrimIdempotent(input);
    StrippedTrimmed(Trim(input));
  }

  /** The text left after cutting a trailing '&' off a trimmed line is itself trimmed. */
  lemma StrippedTrimmed(trimmed: string)
    requires Trim(trimmed) == trimmed
    ensures Trim(Commands.Body(trimmed)) == Commands.Body(trimmed)
  {
    if Commands.EndsWithAmpersand(trimmed) {
      TrimIdempotent(trimmed[..|trimmed| - 1]);
    }
  }

  /**
   * What `run` does with the line once it is trimmed and its '&' cut off, as
   * written: a line holding '|' is a pipeline, run in the background when there
   * was an '&'; any other line goes to `Command::parse`, which never sees that '&'.
   */
  function Classify(line: string, background: bool): (a: Action)
    ensures !a.Skip?
    ensures a.RunPipeline? <==> '|' in line
    ensures a.RunPipeline? ==> a.background == background && |a.stages| == Count(line, '|') + 1
    ensures a.RunCommand? ==> Commands.Parse(line) == Some(a.cmd)
    ensures a.NoCommand? <==> '|' !in line && Commands.Parse(line).None?
  {
    if '|' in line then RunPipeline(Pipes.ParsePipeline(line), background)
    else
      var parsed := Commands.Parse(line);
      if parsed.None? then NoCommand else RunCommand(parsed.value)
  }

  /** The same with the '&' handed on: a single command keeps the background mark that was cut off. */
  function ClassifyCorrected(line: string, background: bool): (a: Action)
    ensures !a.RunCommand? ==> a == Classify(line, background)
    ensures a.RunCommand? <==> Classify(line, background).RunCommand?
    ensures a.RunCommand? && a.cmd.External? && background ==> a.cmd.background
  {
    var a := Classify(line, background);
    if a.RunCommand? && background then RunCommand(Commands.InBackground(a.cmd)) else a
  }

  /** The decision in `run` as written, from the line as read. */
  function Decide(input: string): (a: Action)
    ensures a.Skip? <==> AllWhitespace(input)
    ensures a.RunPipeline? ==> a.background == Commands.EndsWithAmpersand(Trim(input))
  {
    var stripped := Stripped(input);
    if stripped.None? then Skip else Classify(stripped.value.0, stripped.value.1)
  }

  /** The decision with the '&' handed on, from the line as read. */
  function DecideCorrected(input: string): (a: Action)
    ensures a.Skip? <==> AllWhitespace(input)
    ensures a.RunCommand? && a.cmd.External? && Commands.EndsWithAmpersand(Trim(input)) ==> a.cmd.background
  {
    var stripped := Stripped(input);
    if stripped.None? then Skip else ClassifyCorrected(stripped.value.0, stripped.value.1)
  }

  /** A line that parses as a single command on its own. */
  predicate SingleCommand(x: string) {
    Commands.Parse(x).Some? && !Commands.EndsWithAmpersand(Trim(x)) && '|' !in Trim(x)
  }

  /** Such a line is run as the command it parses to. */
  lemma DecideSingle(x: string)
    requires SingleCommand(x)
    ensures Decide(x) == RunCommand(Commands.Parse(x).value)
    ensures DecideCorrected(x) == RunCommand(Commands.Parse(x).value)
  {
    TrimEmptyIff(x);
    TrimIdempotent(x);
    Commands.ParseSplitsOnWhitespace(x);
    Commands.ParseSplitsOnWhitespace(Trim(x));
    SplitWhitespaceTrim(x);
  }

  /** A line that is not blank is stripped to the body of its trim, flagged by its trailing '&'. */
  lemma StrippedOf(input: string)
    requires !AllWhitespace(input)
    ensures Stripped(input) == Some((Commands.Body(Trim(input)), Commands.EndsWithAmpersand(Trim(input))))
  {
    TrimEmptyIff(input);
  }

  /** Cutting " &" off `x + " &"` gives the trimmed `x` back, with the flag set. */
  lemma StrippedAmpersand(x: string)
    requires SingleCommand(x)
    ensures Stripped(x + " &") == Some((Trim(x), true))
  {
    var y := x + " &";
    assert y[|y| - 1] == '&';
    StrippedOf(y);
    Commands.TrimAmpersandSuffix(x);
    TrimmedAmpersand(x);
  }

  /** `x + " &"`, trimmed, ends with '&', and cutting it off leaves the trimmed `x`. */
  lemma TrimmedAmpersand(x: string)
    requires !AllWhitespace(x)
    ensures var t := TrimStart(x) + " &"; Commands.EndsWithAmpersand(t) && Commands.Body(t) == Trim(x)
  {
    TrimEmptyIff(x);
    var u := TrimStart(x);
    assert u != [] by {
      assert Trim(x) <= u;
    }
    Commands.BodyOfAmpersandSuffix(u);
  }

  /** As written, " &" after a single command changes nothing: the command never runs in the background. */
  lemma AmpersandIgnoredAsWritten(x: string)
    requires SingleCommand(x)
    ensures Decide(x + " &") == Decide(x)
  {
    DecideSingle(x);
    StrippedAmpersand(x);
    TrimIdempotent(x);
    DecideSingle(Trim(x));
  }

  /** With the mark handed on, " &" after a single command puts it in the background. */
  lemma AmpersandHonouredCorrected(x: string)
    requires SingleCommand(x)
    ensures DecideCorrected(x + " &") == RunCommand(Commands.InBackground(Commands.Parse(x).value))
  {
    AmpersandIgnoredAsWritten(x);
    StrippedAmpersand(x);
    DecideSingle(x);
  }

  /** "sleep 5 &", as written, runs `sleep 5` in the foreground. */
  lemma SleepInForegroundAsWritten(x: string)
    requires x == "sleep 5"
    ensures Decide(x + " &") == RunCommand(Commands.External("sleep", ["5"], false))
    ensures DecideCorrected(x + " &") == RunCommand(Commands.External("sleep", ["5"], true))
  {
    SleepFiveParses();
    AmpersandIgnoredAsWritten(x);
    AmpersandHonouredCorrected(x);
    DecideSingle(x);
  }

  /** "sleep 5" on its own is a single command: the external program `sleep` with argument "5". */
  lemma SleepFiveParses()
    ensures SingleCommand("sleep 5")
    ensures Commands.Parse("sleep 5") == Some(Commands.External("sleep", ["5"], false))
  {
    SleepFiveWords();
    SleepFiveTrimmed();
  }

  /** "sleep 5" splits into the program `sleep`, which is not a built-in, and "5". */
  lemma SleepFiveWords()
    ensures Commands.Parse("sleep 5") == Some(Commands.External("sleep", ["5"], false))
  {
    SleepIsExternal();
    SleepFiveJoined();
    Commands.TwoWordLine("sleep", "5");
  }

  /** `sleep` is not a built-in, so it is run as an external program. */
  lemma SleepIsExternal()
    ensures Commands.Dispatch("sleep", ["5"], false) == Some(Commands.External("sleep", ["5"], false))
  {
    NoBuiltinStartsWithS("sleep");
  }

  /** "sleep 5" is the words "sleep" and "5" with a space between them. */
  lemma SleepFiveJoined()
    ensures "sleep" + " " + "5" == "sleep 5"
    ensures NoWhitespace("sleep") && NoWhitespace("5")
  {
  }

  /** "sleep 5" has no whitespace at its ends, no '|' and no trailing '&'. */
  lemma SleepFiveTrimmed()
    ensures Trim("sleep 5") == "sleep 5" && '|' !in "sleep 5" && !Commands.EndsWithAmpersand("sleep 5")
  {
    var x := "sleep 5";
    assert '|' !in x by {
      forall k | 0 <= k < |x| ensures x[k] != '|' {
      }
    }
    TrimUnchanged(x);
  }

  /** No built-in command name starts with 's'. */
  lemma NoBuiltinStartsWithS(w: string)
    requires w != [] && w[0] == 's'
    ensures !Commands.IsBuiltin(w)
  {
    var names := ["cd", "pwd", "echo", "exit", "help", "ls", "cat", "mkdir", "rm", "touch",
                  "clear", "history", "jobs", "fg", "bg"];
    forall k | 0 <= k < |names| ensures names[k] != w {
      assert names[k][0] != 's';
    }
  }

  /** The text `run` hands to `history.add`, and what the list of entries becomes. */
  function Recorded(cmds: seq<string>, input: string): (r: seq<string>)
    ensures AllWhitespace(input) ==> r == cmds
    ensures cmds <= r && |r| <= |cmds| + 1
    ensures |r| == |cmds| + 1 ==> r[|cmds|] == Stripped(input).value.0
  {
    var stripped := Stripped(input);
    if stripped.None? || AllWhitespace(stripped.value.0) then cmds
    else HistoryCursor.Appended(cmds, stripped.value.0)
  }

  /** The text `execute` names a background job by: the program, a space, and the arguments joined by spaces. */
  function JobCommand(program: string, args: seq<string>): (s: string)
    ensures program + " " <= s
  {
    program + " " + Join(args, ' ')
  }

  /**
   * The job table after the action: `fg` takes the job out, a background
   * external command that was spawned is added under the next id, and nothing
   * else touches the table.
   */
  function TableAfter(table: map<nat, Jobs.Job>, nextId: nat, action: Action, spawn: Option<(nat, Jobs.Child)>): (r: map<nat, Jobs.Job>)
    ensures action.RunCommand? && action.cmd.Fg? ==> r == table - {action.cmd.job}
    ensures action.RunCommand? && action.cmd.Bg? ==> r == table
    ensures action.RunPipeline? ==> r == table
  {
    match action
    case RunCommand(c) =>
      if c.Fg? then table - {c.job}
      else if c.External? && c.background && spawn.Some? then
        table[nextId := Jobs.Job(nextId, spawn.value.0, JobCommand(c.program, c.args), Jobs.Running, Some(spawn.value.1))]
      else table
    case _ => table
  }

  /** Apart from `fg`, no action drops a job, and none changes a job other than the one added under the next id. */
  lemma TableAfterKeepsJobs(table: map<nat, Jobs.Job>, nextId: nat, action: Action, spawn: Option<(nat, Jobs.Child)>)
    ensures TableAfter(table, nextId, action, spawn).Keys <= table.Keys + {nextId}
    ensures forall id :: id in TableAfter(table, nextId, action, spawn) && id in table && id != nextId ==> TableAfter(table, nextId, action, spawn)[id] == table[id]
    ensures !(action.RunCommand? && action.cmd.Fg?) ==> table.Keys <= TableAfter(table, nextId, action, spawn).Keys
  {
  }

  /** Whether the shell keeps running after the action: `exit` stops it, the commands `run` handles itself leave it. */
  function RunningAfter(running: bool, action: Action): (r: bool)
    ensures action.RunCommand? && action.cmd.Exit? ==> !r
    ensures running ==> (r <==> !(action.RunCommand? && action.cmd.Exit?))
  {
    match action
    case RunCommand(c) =>
      if c.History? || c.Jobs? || c.Fg? || c.Bg? then running
      else if c.Exit? then false
      else Commands.KeepsRunning(c)
    case _ => running
  }

  /** The trimming at the top of `run`'s loop: trim, stop on a blank line, cut off a trailing '&' and trim again. */
  method StripLine(input: string) returns (r: Option<(string, bool)>)
    ensures r == Stripped(input)
  {
    var trimmed := Trim(input);
    if trimmed == [] {
      TrimEmptyIff(input);
      return None;
    }
    var background := Commands.EndsWithAmpersand(trimmed);
    if background {
      trimmed := Trim(trimmed[..|trimmed| - 1]);
    }
    r := Some((trimmed, background));
  }

  /** A blank line is skipped and recorded nowhere. */
  lemma StrippedNone(input: string, cmds: seq<string>)
    requires Stripped(input).None?
    ensures DecideCorrected(input) == Skip && Recorded(cmds, input) == cmds
  {
  }

  /** Any other line is classified and recorded as it is after stripping. */
  lemma StrippedSome(input: string, cmds: seq<string>)
    requires Stripped(input).Some?
    ensures var line := Stripped(input).value.0;
      DecideCorrected(input) == ClassifyCorrected(line, Stripped(input).value.1) &&
      Recorded(cmds, input) == if AllWhitespace(line) then cmds else HistoryCursor.Appended(cmds, line)
  {
  }

  class Shell {
    var history: HistoryCursor.History
    var jobManager: Jobs.JobManager
    var running: bool

    predicate Valid()
      reads this, history, jobManager
    {
      history.Valid() && jobManager.Valid()
    }

    /** `Shell::new`: the history from its file, an empty job table, running. */
    constructor (loaded: seq<string>)
      ensures Valid() && running
      ensures history.commands == loaded && history.position == |loaded|
      ensures jobManager.jobs == map[] && jobManager.nextId == 1
    {
      history := new HistoryCursor.History(loaded);
      jobManager := new Jobs.JobManager();
      running := true;
    }

    /** `foreground_job`: takes the job out of the table; an unknown id leaves the table as it was. */
    method ForegroundJob(jobId: nat) returns (job: Option<Jobs.Job>)
      requires Valid()
      modifies jobManager
      ensures Valid()
      ensures job == old(jobManager.GetJob(jobId))
      ensures jobManager.jobs == old(jobManager.jobs) - {jobId}
      ensures jobId !in old(jobManager.jobs) ==> jobManager.jobs == old(jobManager.jobs)
      ensures jobManager.nextId == old(jobManager.nextId)
    {
      job := jobManager.RemoveJob(jobId);
    }

    /** `background_job`: only looks the job up; the table does not change. */
    method BackgroundJob(jobId: nat) returns (found: bool)
      requires Valid()
      ensures found <==> jobId in jobManager.jobs
    {
      found := jobManager.GetJob(jobId).Some?;
    }

    /**
     * What `run` does with a parsed single command: `fg` and `bg` act on the
     * job table, `exit` stops the shell, `history` and `jobs` only list, and
     * any other command is executed, a spawned background program joining the
     * job table, and `running` becomes what `execute` returns.
     */
    method Perform(cmd: Commands.Command, spawn: Option<(nat, Jobs.Child)>)
      requires Valid()
      modifies this, jobManager
      ensures Valid()
      ensures history == old(history) && jobManager == old(jobManager)
      ensures running == RunningAfter(old(running), RunCommand(cmd))
      ensures jobManager.jobs == TableAfter(old(jobManager.jobs), old(jobManager.nextId), RunCommand(cmd), spawn)
    {
      if cmd.History? || cmd.Jobs? {
        // listings only
      } else if cmd.Fg? {
        var _ := ForegroundJob(cmd.job);
      } else if cmd.Bg? {
        var _ := BackgroundJob(cmd.job);
      } else if cmd.Exit? {
        running := false;
      } else {
        if cmd.External? && cmd.background && spawn.Some? {
          var _ := jobManager.AddJob(spawn.value.0, JobCommand(cmd.program, cmd.args), spawn.value.1);
        }
        running := Commands.KeepsRunning(cmd);
      }
    }

    /**
     * `run`'s handling of a line already trimmed and with its '&' cut off:
     * recorded in the history, then a pipeline or a single command.
     */
    method Handle(line: string, background: bool, spawn: Option<(nat, Jobs.Child)>) returns (action: Action)
      requires Valid()
      modifies this, history, jobManager
      ensures Valid()
      ensures history == old(history) && jobManager == old(jobManager)
      ensures action == ClassifyCorrected(line, background)
      ensures history.commands == if AllWhitespace(line) then old(history.commands) else HistoryCursor.Appended(old(history.commands), line)
      ensures running == RunningAfter(old(running), action)
      ensures jobManager.jobs == TableAfter(old(jobManager.jobs), old(jobManager.nextId), action, spawn)
    {
      history.Add(line);
      ghost var table := jobManager.jobs;
      ghost var nextId := jobManager.nextId;
      ghost var wasRunning := running;
      if '|' in line {
        var commands := Pipes.ParsePipeline(line);
        action := RunPipeline(commands, background);
        assert action == ClassifyCorrected(line, background);
        assert TableAfter(table, nextId, action, spawn) == table;
        assert RunningAfter(wasRunning, action) == wasRunning;
        return;
      }
      var parsed := Commands.Parse(line);
      if parsed.None? {
        action := NoCommand;
        assert action == ClassifyCorrected(line, background);
        assert TableAfter(table, nextId, action, spawn) == table;
        assert RunningAfter(wasRunning, action) == wasRunning;
        return;
      }
      var cmd := parsed.value;
      if background {
        cmd := Commands.InBackground(cmd);
      }
      action := RunCommand(cmd);
      assert action == ClassifyCorrected(line, background);
      Perform(cmd, spawn);
      assert jobManager.jobs == TableAfter(table, nextId, action, spawn);
      assert running == RunningAfter(wasRunning, action);
    }

    /**
     * The rest of a turn of `run`'s loop once the input is read: a blank line
     * ends the turn; otherwise the line is trimmed, its '&' cut off, and it is
     * handled. A spawned background command is given as `spawn`.
     */
    method HandleInput(input: string, spawn: Option<(nat, Jobs.Child)>) returns (action: Action)
      requires Valid()
      modifies this, history, jobManager
      ensures Valid()
      ensures history == old(history) && jobManager == old(jobManager)
      ensures action == DecideCorrected(input)
      ensures history.commands == Recorded(old(history.commands), input)
      ensures running == RunningAfter(old(running), action)
      ensures jobManager.jobs == TableAfter(old(jobManager.jobs), old(jobManager.nextId), action, spawn)
    {
      var stripped := StripLine(input);
      if stripped.None? {
        StrippedNone(input, history.commands);
        action := Skip;
        assert TableAfter(jobManager.jobs, jobManager.nextId, action, spawn) == jobManager.jobs;
        assert RunningAfter(running, action) == running;
        return;
      }
      StrippedSome(input, history.commands);
      ghost var table := jobManager.jobs;
      ghost var nextId := jobManager.nextId;
      ghost var wasRunning := running;
      action := Handle(stripped.value.0, stripped.value.1, spawn);
      assert jobManager.jobs == TableAfter(table, nextId, action, spawn);
      assert running == RunningAfter(wasRunning, action);
    }

    /** One turn of `run`'s loop once the input is read: finished background jobs are dropped, then the input is handled. */
    method Step(input: string, poll: Jobs.Child -> Jobs.Poll, spawn: Option<(nat, Jobs.Child)>) returns (action: Action)
      requires Valid()
      modifies this, history, jobManager
      ensures Valid()
      ensures history == old(history) && jobManager == old(jobManager)
      ensures action == DecideCorrected(input)
      ensures history.commands == Recorded(old(history.commands), input)
      ensures running == RunningAfter(old(running), action)
      ensures jobManager.jobs == TableAfter(Jobs.Surviving(old(jobManager.jobs), poll), old(jobManager.nextId), action, spawn)
    {
      jobManager.UpdateJobs(poll);
      ghost var surviving := jobManager.jobs;
      ghost var nextId := jobManager.nextId;
      ghost var wasRunning := running;
      assert surviving == Jobs.Surviving(old(jobManager.jobs), poll);
      action := HandleInput(input, spawn);
      assert jobManager.jobs == TableAfter(surviving, nextId, action, spawn);
      assert running == RunningAfter(wasRunning, action);
    }
  }
}
