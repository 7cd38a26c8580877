/**
 * `Command::parse` of `src/command.rs`: a line becomes a built-in command or
 * an external program with its arguments and a background flag. What
 * `execute` does to the system is left out; its return value (whether the
 * shell keeps running) is modelled.
 */
module Commands {
  import opened Wrappers
  import opened Text

  datatype Command =
    | Cd(path: Option<string>)
    | Pwd
    | Echo(words: seq<string>)
    | Exit
    | Help
    | Ls(listed: Option<string>)
    | Cat(shown: string)
    | Mkdir(dir: string)
    | Rm(target: string)
    | Touch(file: string)
    | Clear
    | History
    | Jobs
    | Fg(job: nat)
    | Bg(job: nat)
    | External(program: string, args: seq<string>, background: bool)

  // ---------------------------------------------------------------------
  // `str::parse::<u32>`
  // ---------------------------------------------------------------------

  const U32Limit: nat := 0x1_0000_0000

  predicate IsDigit(c: char) {
    '0' <= c <= '9'
  }

  predicate AllDigits(s: string) {
    forall i :: 0 <= i < |s| ==> IsDigit(s[i])
  }

  /** The number a run of decimal digits denotes. */
  function DigitsValue(s: string): nat
    requires AllDigits(s)
  {
    if s == [] then 0 else 10 * DigitsValue(s[..|s| - 1]) + (s[|s| - 1] as int - '0' as int)
  }

  /**
   * `s.parse::<u32>()`: an optional '+' (not on its own), then one or more
   * decimal digits whose value fits in 32 bits; anything else is an error.
   */
  function ParseU32(s: string): (r: Option<nat>)
    ensures r.Some? ==> r.value < U32Limit
    ensures r.Some? ==> s != [] && (IsDigit(s[0]) || (s[0] == '+' && |s| > 1))
  {
    var digits := if |s| > 1 && s[0] == '+' then s[1..] else s;
    if digits != [] && AllDigits(digits) && DigitsValue(digits) < U32Limit then Some(DigitsValue(digits))
    else None
  }

  /** The decimal rendering of `n` (`n.to_string()`), used to state what `ParseU32` accepts. */
  function Decimal(n: nat): (s: string)
    ensures s != [] && AllDigits(s)
  {
    if n < 10 then ['0' + n as char]
    else Decimal(n / 10) + ['0' + (n % 10) as char]
  }

  /** Reading back a rendered number gives the number. */
  lemma {:induction false} DecimalValue(n: nat)
    ensures DigitsValue(Decimal(n)) == n
  {
    if n >= 10 {
      var s := Decimal(n);
      assert s[..|s| - 1] == Decimal(n / 10);
      DecimalValue(n / 10);
    }
  }

  /** `parse::<u32>` accepts exactly the numbers below 2^32, with or without a '+'. */
  lemma ParseU32Decimal(n: nat)
    ensures ParseU32(Decimal(n)) == if n < U32Limit then Some(n) else None
    ensures ParseU32("+" + Decimal(n)) == if n < U32Limit then Some(n) else None
  {
    DecimalValue(n);
    assert ("+" + Decimal(n))[1..] == Decimal(n);
  }

  // ---------------------------------------------------------------------
  // `Command::parse`
  // ---------------------------------------------------------------------

  function First(args: seq<string>): (r: Option<string>)
    ensures r.Some? <==> args != []
    ensures r.Some? ==> r.value == args[0]
  {
    if args == [] then None else Some(args[0])
  }

  /** The job id of `fg`/`bg`: the first argument read as a u32, or 1. */
  function JobArgument(args: seq<string>): (id: nat)
    ensures id < U32Limit
    ensures args == [] ==> id == 1
  {
    if args != [] && ParseU32(args[0]).Some? then ParseU32(args[0]).value else 1
  }

  predicate IsBuiltin(word: string) {
    word in ["cd", "pwd", "echo", "exit", "help", "ls", "cat", "mkdir", "rm", "touch",
             "clear", "history", "jobs", "fg", "bg"]
  }

  /** The `match` on the first word. Built-ins ignore `background`. */
  function Dispatch(cmd: string, args: seq<string>, background: bool): (r: Option<Command>)
    ensures !IsBuiltin(cmd) ==> r == Some(External(cmd, args, background))
    ensures r.Some? && r.value.External? ==> !IsBuiltin(cmd)
    ensures r.None? <==> cmd in ["cat", "mkdir", "rm", "touch"] && args == []
  {
    match cmd
    case "cd" => Some(Cd(First(args)))
    case "pwd" => Some(Pwd)
    case "echo" => Some(Echo(args))
    case "exit" => Some(Exit)
    case "help" => Some(Help)
    case "ls" => Some(Ls(First(args)))
    case "cat" => if args == [] then None else Some(Cat(args[0]))
    case "mkdir" => if args == [] then None else Some(Mkdir(args[0]))
    case "rm" => if args == [] then None else Some(Rm(args[0]))
    case "touch" => if args == [] then None else Some(Touch(args[0]))
    case "clear" => Some(Clear)
    case "history" => Some(History)
    case "jobs" => Some(Jobs)
    case "fg" => Some(Fg(JobArgument(args)))
    case "bg" => Some(Bg(JobArgument(args)))
    case _ => Some(External(cmd, args, background))
  }

  /** `trimmed` ends with '&'. */
  predicate EndsWithAmpersand(trimmed: string) {
    trimmed != [] && trimmed[|trimmed| - 1] == '&'
  }

  /** The text the words come from: with a trailing '&' cut off and the rest trimmed again. */
  function Body(trimmed: string): (body: string)
    ensures |body| <= |trimmed|
  {
    if EndsWithAmpersand(trimmed) then Trim(trimmed[..|trimmed| - 1]) else trimmed
  }

  /** The first word picks the command, the rest are its arguments. */
  function DispatchWords(words: seq<string>, background: bool): (r: Option<Command>)
    ensures words == [] ==> r == None
  {
    if words == [] then None else Dispatch(words[0], words[1..], background)
  }

  /**
   * `Command::parse`: trim; nothing for empty input; a trailing '&' marks the
   * command for the background and is cut off, the rest trimmed again; the
   * words are split on whitespace and the first decides the command.
   */
  function Parse(input: string): (r: Option<Command>)
    ensures AllWhitespace(input) ==> r == None
    ensures Trim(input) == "&" ==> r == None
    ensures r.Some? && r.value.External? ==> r.value.background == EndsWithAmpersand(Trim(input))
  {
    var t := Trim(input);
    TrimEmptyIff(input);
    if t == [] then None
    else
      assert t == "&" ==> Body(t) == [] && SplitWhitespace(Body(t)) == [];
      DispatchWords(SplitWhitespace(Body(t)), EndsWithAmpersand(t))
  }

  /** Without a trailing '&', the command comes from the whitespace-separated words of the input. */
  lemma ParseSplitsOnWhitespace(input: string)
    requires !EndsWithAmpersand(Trim(input))
    ensures Parse(input) == DispatchWords(SplitWhitespace(input), false)
  {
    TrimEmptyIff(input);
    SplitWhitespaceEmptyIff(input);
    SplitWhitespaceTrim(input);
  }

  /** What a trailing " &" does to a parsed command: externals go to the background, built-ins ignore it. */
  function InBackground(c: Command): Command {
    if c.External? then c.(background := true) else c
  }

  /** The background flag reaches externals only. */
  lemma DispatchInBackground(words: seq<string>)
    requires DispatchWords(words, false).Some?
    ensures DispatchWords(words, true) == Some(InBackground(DispatchWords(words, false).value))
  {
  }

  /** Trimming `x + " &"` keeps the '&' as the last character, after the trimmed `x` and a space. */
  lemma TrimAmpersandSuffix(x: string)
    requires !AllWhitespace(x)
    ensures Trim(x + " &") == TrimStart(x) + " &"
  {
    TrimStartAppend(x, " &");
    var t := TrimStart(x) + " &";
    assert t[|t| - 1] == '&';
    TrimEndUnchanged(t);
  }

  /** Cutting the '&' off `u + " &"` and trimming again gives the trimmed `u`. */
  lemma BodyOfAmpersandSuffix(u: string)
    requires u != [] && !IsWhitespace(u[0])
    ensures Body(u + " &") == TrimEnd(u)
  {
    var t := u + " &";
    assert t[..|t| - 1] == u + " ";
    TrimStartAppend(u, " ");
    assert TrimStart(u + " ") == u + " ";
    assert (u + " ")[..|u|] == u;
  }

  /** Appending " &" to a line that parses sets the background flag and changes nothing else. */
  lemma ParseBackgroundSuffix(x: string)
    requires Parse(x).Some? && !EndsWithAmpersand(Trim(x))
    ensures Parse(x + " &") == Some(InBackground(Parse(x).value))
  {
    TrimEmptyIff(x);
    var t := Trim(x);
    var u := TrimStart(x);
    assert t != [] && t <= u;
    TrimAmpersandSuffix(x);
    BodyOfAmpersandSuffix(u);
    var t2 := Trim(x + " &");
    assert t2 == u + " &" && EndsWithAmpersand(t2);
    assert Body(t2) == t;
    assert Body(t) == t;
    var words := SplitWhitespace(t);
    assert Parse(x) == DispatchWords(words, false);
    assert Parse(x + " &") == DispatchWords(words, true);
    DispatchInBackground(words);
  }

  /** A line that is one word followed by a space and another word is already trimmed and splits into the two. */
  lemma TwoWordLine(a: string, b: string)
    requires a != [] && b != [] && NoWhitespace(a) && NoWhitespace(b) && b[|b| - 1] != '&'
    ensures Parse(a + " " + b) == Dispatch(a, [b], false)
  {
    assert [a, b][1..] == [b];
    var s := a + " " + b;
    assert s[0] == a[0] && s[|s| - 1] == b[|b| - 1];
    TrimUnchanged(s);
    SplitTwoWords(a, b);
  }

  /** A line that is one word is already trimmed and splits into that word. */
  lemma OneWordLine(a: string)
    requires a != [] && NoWhitespace(a) && a[|a| - 1] != '&'
    ensures Parse(a) == Dispatch(a, [], false)
  {
    assert [a][1..] == [];
    TrimUnchanged(a);
    SplitOneWord(a);
  }

  /** `fg` takes its job id from its arguments. */
  lemma DispatchFg(args: seq<string>, background: bool)
    ensures Dispatch("fg", args, background) == Some(Fg(JobArgument(args)))
  {
  }

  /** `fg` alone means job 1. */
  lemma ParseFgAlone()
    ensures Parse("fg") == Some(Fg(1))
  {
    OneWordLine("fg");
    DispatchFg([], false);
  }

  /** A rendered number is one word that does not end in '&'. */
  lemma DecimalIsWord(n: nat)
    ensures var d := Decimal(n); NoWhitespace(d) && d[|d| - 1] != '&'
  {
    var d := Decimal(n);
    forall i | 0 <= i < |d| ensures !IsWhitespace(d[i]) {
      assert IsDigit(d[i]);
    }
    assert IsDigit(d[|d| - 1]);
  }

  /** `fg` and one word: the job id is what `JobArgument` makes of the word. */
  lemma ParseFgWord(w: string)
    requires w != [] && NoWhitespace(w) && w[|w| - 1] != '&'
    ensures Parse("fg " + w) == Some(Fg(JobArgument([w])))
  {
    assert "fg " + w == "fg" + " " + w;
    TwoWordLine("fg", w);
    DispatchFg([w], false);
  }

  /** `fg n` means job n for every u32 n. */
  lemma ParseFgNumber(n: nat)
    requires n < U32Limit
    ensures Parse("fg " + Decimal(n)) == Some(Fg(n))
  {
    DecimalIsWord(n);
    ParseFgWord(Decimal(n));
    ParseU32Decimal(n);
  }

  /** `fg` followed by a word that is not a u32 means job 1. */
  lemma ParseFgJunk(junk: string)
    requires junk != [] && NoWhitespace(junk) && junk[|junk| - 1] != '&' && ParseU32(junk).None?
    ensures Parse("fg " + junk) == Some(Fg(1))
  {
    ParseFgWord(junk);
  }

  /** `cat`, `mkdir`, `rm` and `touch` need an operand, and take it as their target. */
  lemma ParseNeedsOperand(cmd: string, file: string)
    requires cmd in ["cat", "mkdir", "rm", "touch"] && file != [] && NoWhitespace(file) && file[|file| - 1] != '&'
    ensures Parse(cmd) == None
    ensures Parse(cmd + " " + file).Some?
    ensures Parse(cmd + " " + file) ==
      Some(if cmd == "cat" then Cat(file) else if cmd == "mkdir" then Mkdir(file) else if cmd == "rm" then Rm(file) else Touch(file))
  {
    OneWordLine(cmd);
    TwoWordLine(cmd, file);
    DispatchOperand(cmd, file);
  }

  /** The target of `cat`, `mkdir`, `rm` and `touch` is their one operand. */
  lemma DispatchOperand(cmd: string, file: string)
    requires cmd in ["cat", "mkdir", "rm", "touch"]
    ensures Dispatch(cmd, [file], false) ==
      Some(if cmd == "cat" then Cat(file) else if cmd == "mkdir" then Mkdir(file) else if cmd == "rm" then Rm(file) else Touch(file))
  {
    assert [file][0] == file;
  }

  /**
   * The value `execute` returns: whether the shell keeps running, false only
   * for `exit`. That one flag is all of the value; what it does to the shell
   * loop is stated by `ShellLoop.RunningAfter`.
   */
  function KeepsRunning(c: Command): (running: bool)
    ensures running <==> !c.Exit?
  {
    match c
    case Exit => false
    case _ => true
  }
}
