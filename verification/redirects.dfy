/**
 * `src/redirects.rs`: the quote-aware tokenizer that splits off the
 * redirection operators `<`, `>`, `>>`, `2>`, `2>>` and `&>`, and
 * `ParsedCommand::parse`, which pairs each operator with the token after it.
 * Opening files and spawning the program (`execute`) are left out.
 */
module Redirects {
  import opened Wrappers
  import Text

  datatype RedirectType =
    | StdinFrom(file: string)
    | StdoutTo(file: string)
    | StdoutAppend(file: string)
    | StderrTo(file: string)
    | StderrAppend(file: string)
    | BothTo(file: string)

  datatype ParsedCommand = ParsedCommand(program: string, args: seq<string>, redirects: seq<RedirectType>)

  /** The six redirection operators. */
  datatype Operator = In | Out | Append | ErrOut | ErrAppend | Both

  function OperatorText(o: Operator): string {
    match o
    case In => "<"
    case Out => ">"
    case Append => ">>"
    case ErrOut => "2>"
    case ErrAppend => "2>>"
    case Both => "&>"
  }

  /** Which operator a token's text spells, as the `match` of `parse` decides it. */
  function OperatorOf(s: string): (r: Option<Operator>)
    ensures r.Some? ==> OperatorText(r.value) == s
    ensures r.None? ==> forall o: Operator :: OperatorText(o) != s
  {
    if s == "<" then Some(In)
    else if s == ">" then Some(Out)
    else if s == ">>" then Some(Append)
    else if s == "2>" then Some(ErrOut)
    else if s == "2>>" then Some(ErrAppend)
    else if s == "&>" then Some(Both)
    else None
  }

  /** Every operator's text is read back as that operator. */
  lemma OperatorTextRoundTrip(o: Operator)
    ensures OperatorOf(OperatorText(o)) == Some(o)
  {
  }

  /** Every operator's text has '<' or '>' in it. */
  lemma OperatorHasAngle(o: Operator)
    ensures '<' in OperatorText(o) || '>' in OperatorText(o)
  {
    assert OperatorText(o)[|OperatorText(o)| - 1] in "<>";
  }

  /** No operator has a space in it. */
  lemma OperatorHasNoSpace(o: Operator)
    ensures ' ' !in OperatorText(o)
  {
    match o
    case In =>
    case Out =>
    case Append =>
    case ErrOut =>
    case ErrAppend =>
    case Both =>
  }

  /** The redirect an operator makes of its target. */
  function Redirect(o: Operator, file: string): RedirectType {
    match o
    case In => StdinFrom(file)
    case Out => StdoutTo(file)
    case Append => StdoutAppend(file)
    case ErrOut => StderrTo(file)
    case ErrAppend => StderrAppend(file)
    case Both => BothTo(file)
  }

  // ---------------------------------------------------------------------
  // Tokenizer
  // ---------------------------------------------------------------------

  /**
   * A token together with how the tokenizer made it: a word collected from the
   * input (quotes removed), or an operator recognised outside quotes. The
   * source keeps only the text.
   */
  datatype Token = Word(text: string) | Op(op: Operator)

  function TokenText(t: Token): string {
    match t
    case Word(w) => w
    case Op(o) => OperatorText(o)
  }

  /** The texts of the tokens, which is what `tokenize_with_redirects` returns. */
  function Texts(ts: seq<Token>): (r: seq<string>)
    ensures |r| == |ts|
    ensures forall k :: 0 <= k < |ts| ==> r[k] == TokenText(ts[k])
  {
    seq(|ts|, k requires 0 <= k < |ts| => TokenText(ts[k]))
  }

  predicate IsQuote(c: char) {
    c == '"' || c == '\''
  }

  /** The word collected so far, if any: pushing an empty `current` is skipped. */
  function Flush(current: string): (r: seq<Token>)
    ensures current == [] ==> r == []
    ensures current != [] ==> r == [Word(current)]
  {
    if current == [] then [] else [Word(current)]
  }

  /**
   * The tokens produced from position `i` of `s` on, given the word collected so
   * far and the quote state: quotes open and close (the other kind inside
   * quotes is kept), a space outside quotes ends the word, and outside quotes
   * `>`, `>>`, `<`, `2>`, `2>>` and `&>` end the word and become operators
   * (`2` and `&` only when a `>` follows). At the end the last word is pushed.
   */
  function Lex(s: string, i: nat, current: string, inQuotes: bool, quote: char): seq<Token>
    requires i <= |s|
    decreases |s| - i
  {
    if i == |s| then Flush(current)
    else
      var c := s[i];
      var peek := if i + 1 < |s| then Some(s[i + 1]) else None;
      if IsQuote(c) && !inQuotes then Lex(s, i + 1, current, true, c)
      else if IsQuote(c) && inQuotes && c == quote then Lex(s, i + 1, current, false, quote)
      else if inQuotes then Lex(s, i + 1, current + [c], inQuotes, quote)
      else if c == ' ' then Flush(current) + Lex(s, i + 1, [], false, quote)
      else if c == '>' then
        if peek == Some('>') then Flush(current) + [Op(Append)] + Lex(s, i + 2, [], false, quote)
        else Flush(current) + [Op(Out)] + Lex(s, i + 1, [], false, quote)
      else if c == '<' then Flush(current) + [Op(In)] + Lex(s, i + 1, [], false, quote)
      else if c == '2' && peek == Some('>') then
        if i + 2 < |s| && s[i + 2] == '>' then Flush(current) + [Op(ErrAppend)] + Lex(s, i + 3, [], false, quote)
        else Flush(current) + [Op(ErrOut)] + Lex(s, i + 2, [], false, quote)
      else if c == '&' && peek == Some('>') then Flush(current) + [Op(Both)] + Lex(s, i + 2, [], false, quote)
      else Lex(s, i + 1, current + [c], false, quote)
  }

  /** The tagged tokens of a whole line. */
  function Tokens(input: string): seq<Token> {
    Lex(input, 0, [], false, ' ')
  }

  /** Pushing the collected word, if any, adds the text of its `Flush`. */
  lemma TextsFlush(pushed: seq<string>, current: string)
    ensures pushed + Texts(Flush(current)) == if current == [] then pushed else pushed + [current]
  {
  }

  /** Pushing one more token adds its text. */
  lemma TextsSnoc(pushed: seq<string>, ts: seq<Token>, t: Token)
    ensures pushed + Texts(ts + [t]) == (pushed + Texts(ts)) + [TokenText(t)]
  {
  }

  lemma TextsAppend(a: seq<Token>, b: seq<Token>)
    ensures Texts(a + b) == Texts(a) + Texts(b)
  {
  }

  /** `tokenize_with_redirects`: the loop over the characters with one character of lookahead. */
  method TokenizeWithRedirects(input: string) returns (tokens: seq<string>)
    ensures tokens == Texts(Tokens(input))
  {
    tokens := [];
    var current: string := [];
    var inQuotes := false;
    var quoteChar := ' ';
    ghost var done: seq<Token> := [];
    var i := 0;
    while i < |input|
      invariant i <= |input|
      invariant tokens == Texts(done)
      invariant done + Lex(input, i, current, inQuotes, quoteChar) == Tokens(input)
      decreases |input| - i
    {
      var c := input[i];
      var next := i + 1;
      ghost var before := Lex(input, i, current, inQuotes, quoteChar);
      ghost var emitted: seq<Token> := [];
      if IsQuote(c) && !inQuotes {
        inQuotes := true;
        quoteChar := c;
      } else if IsQuote(c) && inQuotes && c == quoteChar {
        inQuotes := false;
      } else if inQuotes || !(c == ' ' || c == '>' || c == '<' || ((c == '2' || c == '&') && next < |input| && input[next] == '>')) {
        current := current + [c];
      } else {
        emitted := Flush(current);
        TextsFlush(tokens, current);
        if current != [] {
          tokens := tokens + [current];
          current := [];
        }
        if c != ' ' {
          var op: Operator;
          if c == '>' {
            if next < |input| && input[next] == '>' {
              next := next + 1;
              op := Append;
            } else {
              op := Out;
            }
          } else if c == '<' {
            op := In;
          } else if c == '2' {
            next := next + 1;
            if next < |input| && input[next] == '>' {
              next := next + 1;
              op := ErrAppend;
            } else {
              op := ErrOut;
            }
          } else {
            next := next + 1;
            op := Both;
          }
          TextsSnoc(Texts(done), emitted, Op(op));
          tokens := tokens + [OperatorText(op)];
          emitted := emitted + [Op(op)];
        }
      }
      assert before == emitted + Lex(input, next, current, inQuotes, quoteChar);
      Text.AppendAssoc(done, emitted, Lex(input, next, current, inQuotes, quoteChar));
      TextsAppend(done, emitted);
      done := done + emitted;
      i := next;
    }
    if current != [] {
      tokens := tokens + [current];
      done := done + [Word(current)];
    }
    assert done == Tokens(input);
  }

  /** No token has an empty text. */
  predicate NoEmptyWords(ts: seq<Token>) {
    forall k :: 0 <= k < |ts| ==> TokenText(ts[k]) != []
  }

  /** The tokenizer never emits an empty token. */
  lemma {:induction false} LexNoEmptyTokens(s: string, i: nat, current: string, inQuotes: bool, quote: char)
    requires i <= |s|
    ensures NoEmptyWords(Lex(s, i, current, inQuotes, quote))
    decreases |s| - i
  {
    if i < |s| {
      var c := s[i];
      if IsQuote(c) || inQuotes {
        LexAtQuote(s, i, current, inQuotes, quote);
        if IsQuote(c) && !inQuotes {
          LexNoEmptyTokens(s, i + 1, current, true, c);
        } else if IsQuote(c) && c == quote {
          LexNoEmptyTokens(s, i + 1, current, false, quote);
        } else {
          LexNoEmptyTokens(s, i + 1, current + [c], true, quote);
        }
      } else if c == ' ' {
        LexNoEmptyTokens(s, i + 1, [], false, quote);
        LexAtSpace(s, i, current, quote);
        NoEmptyAfterFlush(current, [], Lex(s, i + 1, [], false, quote));
      } else if OperatorAt(s, i).Some? {
        var m := OperatorAt(s, i).value;
        LexNoEmptyTokens(s, m.end, [], false, quote);
        LexAtOperator(s, i, current, quote);
        NoEmptyAfterFlush(current, [Op(m.op)], Lex(s, m.end, [], false, quote));
      } else {
        LexNoEmptyTokens(s, i + 1, current + [c], false, quote);
        LexAtPlain(s, i, current, quote);
      }
    }
  }

  /** A flushed word, operators and tokens without empty words have no empty words. */
  lemma NoEmptyAfterFlush(current: string, ops: seq<Token>, tail: seq<Token>)
    requires forall k :: 0 <= k < |ops| ==> ops[k].Op?
    requires NoEmptyWords(tail)
    ensures NoEmptyWords(Flush(current) + ops + tail)
  {
    var ts := Flush(current) + ops + tail;
    forall k | 0 <= k < |ts| ensures TokenText(ts[k]) != [] {
      if k < |Flush(current)| {
      } else if k < |Flush(current)| + |ops| {
        var o := ops[k - |Flush(current)|].op;
        assert ts[k] == Op(o);
        OperatorHasAngle(o);
      } else {
        assert ts[k] == tail[k - |Flush(current)| - |ops|];
      }
    }
  }

  /** `tokenize_with_redirects` never returns an empty string. */
  lemma TokensNonEmpty(input: string)
    ensures forall k :: 0 <= k < |Texts(Tokens(input))| ==> Texts(Tokens(input))[k] != []
  {
    LexNoEmptyTokens(input, 0, [], false, ' ');
  }

  /** No quote character in `s[i..]`. */
  predicate QuoteFree(s: string, i: nat)
    requires i <= |s|
  {
    forall k :: i <= k < |s| ==> !IsQuote(s[k])
  }

  /** No space, '<' or '>' in `w`: text outside quotes that is still a word. */
  predicate Plain(w: string) {
    forall k :: 0 <= k < |w| ==> w[k] != ' ' && w[k] != '<' && w[k] != '>'
  }

  /** Every word token is `Plain`. */
  predicate PlainWords(ts: seq<Token>) {
    forall k :: 0 <= k < |ts| ==> ts[k].Word? ==> Plain(ts[k].text)
  }

  /** `s` with every space removed. */
  function Unspaced(s: string): (r: string)
    ensures |r| <= |s|
  {
    if s == [] then [] else (if s[0] == ' ' then [] else [s[0]]) + Unspaced(s[1..])
  }

  /** Without spaces in `s[i..j]`, `Unspaced` keeps that stretch whole. */
  lemma {:induction false} UnspacedKeeps(s: string, i: nat, j: nat)
    requires i <= j <= |s| && forall k :: i <= k < j ==> s[k] != ' '
    ensures Unspaced(s[i..]) == s[i..j] + Unspaced(s[j..])
    decreases j - i
  {
    if i < j {
      assert s[i..][1..] == s[i + 1..];
      UnspacedKeeps(s, i + 1, j);
      assert s[i..j] == [s[i]] + s[i + 1..j];
    }
  }

  /** What a word flushed before some operator tokens and the rest spell together. */
  lemma EmitStep(current: string, mid: seq<Token>, tail: seq<Token>)
    ensures Text.Concat(Texts(Flush(current) + mid + tail)) ==
      current + Text.Concat(Texts(mid)) + Text.Concat(Texts(tail))
  {
    TextsAppend(Flush(current) + mid, tail);
    TextsAppend(Flush(current), mid);
    Text.ConcatAppend(Texts(Flush(current)) + Texts(mid), Texts(tail));
    Text.ConcatAppend(Texts(Flush(current)), Texts(mid));
    if current != [] {
      assert Texts(Flush(current)) == [current];
      assert Text.Concat([current]) == current + Text.Concat([]);
    }
  }

  /** An operator found in the input and the position just after it. */
  datatype OperatorMatch = OperatorMatch(op: Operator, end: nat)

  /** The operator at position `i` and where it ends, when there is one (outside quotes). */
  function OperatorAt(s: string, i: nat): (r: Option<OperatorMatch>)
    requires i < |s|
    ensures r.Some? ==> i < r.value.end <= |s| && s[i..r.value.end] == OperatorText(r.value.op)
  {
    var c := s[i];
    var peek := if i + 1 < |s| then Some(s[i + 1]) else None;
    if c == '>' then
      if peek == Some('>') then Some(OperatorMatch(Append, i + 2)) else Some(OperatorMatch(Out, i + 1))
    else if c == '<' then Some(OperatorMatch(In, i + 1))
    else if c == '2' && peek == Some('>') then
      if i + 2 < |s| && s[i + 2] == '>' then Some(OperatorMatch(ErrAppend, i + 3)) else Some(OperatorMatch(ErrOut, i + 2))
    else if c == '&' && peek == Some('>') then Some(OperatorMatch(Both, i + 2))
    else None
  }

  /** Outside quotes, `Lex` at an operator flushes the word and emits the operator. */
  lemma LexAtOperator(s: string, i: nat, current: string, quote: char)
    requires i < |s| && !IsQuote(s[i]) && OperatorAt(s, i).Some?
    ensures var m := OperatorAt(s, i).value;
      Lex(s, i, current, false, quote) == Flush(current) + [Op(m.op)] + Lex(s, m.end, [], false, quote)
  {
  }

  /** At a quote, or inside quotes, `Lex` opens or closes the quotes or adds the character to the word. */
  lemma LexAtQuote(s: string, i: nat, current: string, inQuotes: bool, quote: char)
    requires i < |s| && (IsQuote(s[i]) || inQuotes)
    ensures IsQuote(s[i]) && !inQuotes ==> Lex(s, i, current, inQuotes, quote) == Lex(s, i + 1, current, true, s[i])
    ensures inQuotes && s[i] == quote && IsQuote(s[i]) ==> Lex(s, i, current, inQuotes, quote) == Lex(s, i + 1, current, false, quote)
    ensures inQuotes && !(s[i] == quote && IsQuote(s[i])) ==>
      Lex(s, i, current, inQuotes, quote) == Lex(s, i + 1, current + [s[i]], true, quote)
  {
  }

  /** Outside quotes, `Lex` at a character that is neither a space nor starts an operator adds it to the word. */
  lemma LexAtPlain(s: string, i: nat, current: string, quote: char)
    requires i < |s| && !IsQuote(s[i]) && s[i] != ' ' && OperatorAt(s, i).None?
    ensures Lex(s, i, current, false, quote) == Lex(s, i + 1, current + [s[i]], false, quote)
    ensures s[i] != '<' && s[i] != '>'
  {
  }

  /** Without quotes, the tokens spell the input with its spaces removed. */
  lemma {:induction false} LexQuoteFreeSpells(s: string, i: nat, current: string, quote: char)
    requires i <= |s| && QuoteFree(s, i)
    ensures Text.Concat(Texts(Lex(s, i, current, false, quote))) == current + Unspaced(s[i..])
    decreases |s| - i
  {
    if i == |s| {
      assert s[i..] == [];
      EmitStep(current, [], []);
      assert Flush(current) + [] + [] == Flush(current);
    } else if s[i] == ' ' {
      LexQuoteFreeSpells(s, i + 1, [], quote);
      SpellsAtSpace(s, i, current, quote);
    } else if OperatorAt(s, i).Some? {
      LexQuoteFreeSpells(s, OperatorAt(s, i).value.end, [], quote);
      SpellsAtOperator(s, i, current, quote);
    } else {
      LexQuoteFreeSpells(s, i + 1, current + [s[i]], quote);
      SpellsAtPlain(s, i, current, quote);
    }
  }

  /** The space step of `LexQuoteFreeSpells`. */
  lemma SpellsAtSpace(s: string, i: nat, current: string, quote: char)
    requires i < |s| && s[i] == ' '
    requires Text.Concat(Texts(Lex(s, i + 1, [], false, quote))) == Unspaced(s[i + 1..])
    ensures Text.Concat(Texts(Lex(s, i, current, false, quote))) == current + Unspaced(s[i..])
  {
    UnspacedSpace(s, i);
    var tail := Lex(s, i + 1, [], false, quote);
    LexAtSpace(s, i, current, quote);
    EmitWord(current, tail);
  }

  /** What a flushed word followed by more tokens spells. */
  lemma EmitWord(current: string, tail: seq<Token>)
    ensures Text.Concat(Texts(Flush(current) + tail)) == current + Text.Concat(Texts(tail))
  {
    EmitStep(current, [], tail);
    assert Flush(current) + [] == Flush(current);
  }

  lemma UnspacedSpace(s: string, i: nat)
    requires i < |s| && s[i] == ' '
    ensures Unspaced(s[i..]) == Unspaced(s[i + 1..])
  {
    assert s[i..][0] == ' ';
    assert s[i..][1..] == s[i + 1..];
  }

  /** Outside quotes, `Lex` at a space flushes the word. */
  lemma LexAtSpace(s: string, i: nat, current: string, quote: char)
    requires i < |s| && s[i] == ' '
    ensures Lex(s, i, current, false, quote) == Flush(current) + Lex(s, i + 1, [], false, quote)
  {
  }

  /** The operator step of `LexQuoteFreeSpells`. */
  lemma SpellsAtOperator(s: string, i: nat, current: string, quote: char)
    requires i < |s| && !IsQuote(s[i]) && OperatorAt(s, i).Some?
    requires Text.Concat(Texts(Lex(s, OperatorAt(s, i).value.end, [], false, quote))) == Unspaced(s[OperatorAt(s, i).value.end..])
    ensures Text.Concat(Texts(Lex(s, i, current, false, quote))) == current + Unspaced(s[i..])
  {
    var m := OperatorAt(s, i).value;
    LexAtOperator(s, i, current, quote);
    UnspacedOperator(s, i);
    EmitOperator(current, m.op, Lex(s, m.end, [], false, quote));
  }

  /** An operator has no space, so `Unspaced` keeps its text. */
  lemma UnspacedOperator(s: string, i: nat)
    requires i < |s| && OperatorAt(s, i).Some?
    ensures var m := OperatorAt(s, i).value; Unspaced(s[i..]) == OperatorText(m.op) + Unspaced(s[m.end..])
  {
    var m := OperatorAt(s, i).value;
    OperatorHasNoSpace(m.op);
    forall k | i <= k < m.end ensures s[k] != ' ' {
      assert s[k] == s[i..m.end][k - i];
    }
    UnspacedKeeps(s, i, m.end);
  }

  /** What a flushed word, an operator and the tokens after them spell. */
  lemma EmitOperator(current: string, o: Operator, tail: seq<Token>)
    ensures Text.Concat(Texts(Flush(current) + [Op(o)] + tail)) == current + (OperatorText(o) + Text.Concat(Texts(tail)))
  {
    EmitStep(current, [Op(o)], tail);
    assert Text.Concat(Texts([Op(o)])) == OperatorText(o) + Text.Concat([]);
    Text.AppendAssoc(current, OperatorText(o), Text.Concat(Texts(tail)));
  }

  /** The ordinary-character step of `LexQuoteFreeSpells`. */
  lemma SpellsAtPlain(s: string, i: nat, current: string, quote: char)
    requires i < |s| && !IsQuote(s[i]) && s[i] != ' ' && OperatorAt(s, i).None?
    requires Text.Concat(Texts(Lex(s, i + 1, current + [s[i]], false, quote))) == current + [s[i]] + Unspaced(s[i + 1..])
    ensures Text.Concat(Texts(Lex(s, i, current, false, quote))) == current + Unspaced(s[i..])
  {
    LexAtPlain(s, i, current, quote);
    UnspacedKeeps(s, i, i + 1);
    assert s[i..i + 1] == [s[i]];
    Text.AppendAssoc(current, [s[i]], Unspaced(s[i + 1..]));
  }

  /** Without quotes, no word token has a space, '<' or '>' in it, so none reads as an operator. */
  lemma {:induction false} LexQuoteFreePlain(s: string, i: nat, current: string, quote: char)
    requires i <= |s| && QuoteFree(s, i) && Plain(current)
    ensures PlainWords(Lex(s, i, current, false, quote))
    decreases |s| - i
  {
    if i < |s| {
      if s[i] == ' ' {
        LexQuoteFreePlain(s, i + 1, [], quote);
      } else if OperatorAt(s, i).Some? {
        var m := OperatorAt(s, i).value;
        LexAtOperator(s, i, current, quote);
        LexQuoteFreePlain(s, m.end, [], quote);
        PlainAroundOperator(current, m.op, Lex(s, m.end, [], false, quote));
      } else {
        LexAtPlain(s, i, current, quote);
        LexQuoteFreePlain(s, i + 1, current + [s[i]], quote);
      }
    }
  }

  /** A plain word, an operator and plain words after it: all the words are plain. */
  lemma PlainAroundOperator(current: string, o: Operator, tail: seq<Token>)
    requires Plain(current) && PlainWords(tail)
    ensures PlainWords(Flush(current) + [Op(o)] + tail)
  {
    var ts := Flush(current) + [Op(o)] + tail;
    forall k | 0 <= k < |ts| && ts[k].Word? ensures Plain(ts[k].text) {
      if k > |Flush(current)| {
        assert ts[k] == tail[k - |Flush(current)| - 1];
      }
    }
  }

  /** A line without quotes tokenizes into its space-free text, and none of its words is an operator. */
  lemma TokensQuoteFree(input: string)
    requires forall k :: 0 <= k < |input| ==> !IsQuote(input[k])
    ensures Text.Concat(Texts(Tokens(input))) == Unspaced(input)
    ensures PlainWords(Tokens(input))
  {
    LexQuoteFreeSpells(input, 0, [], ' ');
    LexQuoteFreePlain(input, 0, [], ' ');
    assert input[0..] == input;
  }

  // ---------------------------------------------------------------------
  // ParsedCommand::parse
  // ---------------------------------------------------------------------

  /** What the loop of `parse` collects: the command words and the redirects, in order. */
  datatype Gathered = Gathered(words: seq<string>, redirects: seq<RedirectType>)

  function Join(a: Gathered, b: Gathered): Gathered {
    Gathered(a.words + b.words, a.redirects + b.redirects)
  }

  /**
   * The loop of `parse` over classified tokens: an operator takes the next token,
   * whatever it is, as its file; an operator in last place is reported and
   * dropped; every other token is a command word.
   */
  function Gather(ts: seq<Token>): (g: Gathered)
    ensures |g.words| + 2 * |g.redirects| <= |ts| <= |g.words| + 2 * |g.redirects| + 1
  {
    if ts == [] then Gathered([], [])
    else if ts[0].Op? then
      if |ts| > 1 then Join(Gathered([], [Redirect(ts[0].op, TokenText(ts[1]))]), Gather(ts[2..]))
      else Gathered([], [])
    else Join(Gathered([ts[0].text], []), Gather(ts[1..]))
  }

  lemma JoinAssociative(a: Gathered, b: Gathered, c: Gathered)
    ensures Join(Join(a, b), c) == Join(a, Join(b, c))
  {
    assert (a.words + b.words) + c.words == a.words + (b.words + c.words);
    assert (a.redirects + b.redirects) + c.redirects == a.redirects + (b.redirects + c.redirects);
  }

  /** The tokens split exactly into words and operator-target pairs, with no operator left dangling. */
  predicate Aligned(ts: seq<Token>) {
    ts == [] ||
    (ts[0].Word? && Aligned(ts[1..])) ||
    (ts[0].Op? && |ts| > 1 && Aligned(ts[2..]))
  }

  /** Gathering distributes over a split after an aligned prefix. */
  lemma {:induction false} GatherAppend(a: seq<Token>, b: seq<Token>)
    requires Aligned(a)
    ensures Gather(a + b) == Join(Gather(a), Gather(b))
    decreases |a|
  {
    if a == [] {
      assert a + b == b;
      assert Join(Gathered([], []), Gather(b)) == Gather(b);
    } else if a[0].Word? && Aligned(a[1..]) {
      var head := Gathered([a[0].text], []);
      assert (a + b)[0] == a[0];
      assert (a + b)[1..] == a[1..] + b;
      GatherAppend(a[1..], b);
      assert Gather(a + b) == Join(head, Join(Gather(a[1..]), Gather(b)));
      JoinAssociative(head, Gather(a[1..]), Gather(b));
    } else {
      var head := Gathered([], [Redirect(a[0].op, TokenText(a[1]))]);
      assert (a + b)[0] == a[0];
      assert (a + b)[2..] == a[2..] + b;
      assert (a + b)[1] == a[1];
      GatherAppend(a[2..], b);
      assert Gather(a + b) == Join(head, Join(Gather(a[2..]), Gather(b)));
      JoinAssociative(head, Gather(a[2..]), Gather(b));
    }
  }

  /** An operator with nothing after it adds nothing. */
  lemma DanglingOperatorDropped(a: seq<Token>, o: Operator)
    requires Aligned(a)
    ensures Gather(a + [Op(o)]) == Gather(a)
  {
    GatherAppend(a, [Op(o)]);
  }

  /** An operator and the token after it become one redirect to that token's text. */
  lemma GatherRedirect(o: Operator, target: Token)
    ensures Gather([Op(o), target]) == Gathered([], [Redirect(o, TokenText(target))])
  {
    assert [Op(o), target][2..] == [];
  }

  /** Without operators every token is a command word. */
  lemma {:induction false} GatherWords(ts: seq<Token>)
    requires forall k :: 0 <= k < |ts| ==> ts[k].Word?
    ensures Gather(ts) == Gathered(Texts(ts), [])
    decreases |ts|
  {
    if ts != [] {
      GatherWords(ts[1..]);
      assert Texts(ts) == [ts[0].text] + Texts(ts[1..]);
    }
  }

  /** `program` is the first command word or ""; `args` the rest. */
  function Assemble(g: Gathered): (p: ParsedCommand)
    ensures p.redirects == g.redirects
    ensures g.words == [] ==> p.program == [] && p.args == []
    ensures g.words != [] ==> [p.program] + p.args == g.words
  {
    ParsedCommand(if g.words == [] then [] else g.words[0],
                  if |g.words| > 1 then g.words[1..] else [],
                  g.redirects)
  }

  /** How `parse` classifies a token from its text alone: it is an operator when its text spells one. */
  function Retag(text: string): Token {
    match OperatorOf(text)
    case Some(o) => Op(o)
    case None => Word(text)
  }

  /** Reclassifying keeps every text: only the tags can change. */
  function RetagAll(texts: seq<string>): (r: seq<Token>)
    ensures |r| == |texts|
    ensures Texts(r) == texts
  {
    seq(|texts|, k requires 0 <= k < |texts| => Retag(texts[k]))
  }

  /** What `ParsedCommand::parse` returns for a line: the token texts reclassified, gathered and assembled. */
  function ParsedAsWritten(input: string): ParsedCommand {
    Assemble(Gather(RetagAll(Texts(Tokens(input)))))
  }

  /** A classification that keeps how each token was made: quoted text is never an operator. */
  function Parsed(input: string): ParsedCommand {
    Assemble(Gather(Tokens(input)))
  }

  /** One step of `Gather` at position `i`. */
  lemma GatherAt(ts: seq<Token>, i: nat)
    requires i < |ts|
    ensures ts[i].Word? ==> Gather(ts[i..]) == Join(Gathered([ts[i].text], []), Gather(ts[i + 1..]))
    ensures ts[i].Op? && i + 1 < |ts| ==>
      Gather(ts[i..]) == Join(Gathered([], [Redirect(ts[i].op, TokenText(ts[i + 1]))]), Gather(ts[i + 2..]))
    ensures ts[i].Op? && i + 1 == |ts| ==> Gather(ts[i..]) == Gathered([], [])
  {
    assert ts[i..][0] == ts[i];
    if i + 1 < |ts| {
      assert ts[i..][1] == ts[i + 1];
      assert ts[i..][2..] == ts[i + 2..];
    }
    assert ts[i..][1..] == ts[i + 1..];
  }

  /** A token text classified by `parse` keeps its text. */
  lemma RetagText(text: string)
    ensures TokenText(Retag(text)) == text
    ensures OperatorOf(text).Some? ==> Retag(text) == Op(OperatorOf(text).value)
    ensures OperatorOf(text).None? ==> Retag(text) == Word(text)
  {
  }

  /** A step of the loop of `parse` over a command word. */
  lemma ParseStepWord(tokens: seq<string>, i: nat, words: seq<string>, redirects: seq<RedirectType>)
    requires i < |tokens| && OperatorOf(tokens[i]).None?
    ensures Join(Gathered(words, redirects), Gather(RetagAll(tokens)[i..]))
         == Join(Gathered(words + [tokens[i]], redirects), Gather(RetagAll(tokens)[i + 1..]))
  {
    var ts := RetagAll(tokens);
    assert ts[i] == Retag(tokens[i]);
    GatherAt(ts, i);
    RetagText(tokens[i]);
    var head := Gathered([tokens[i]], []);
    JoinAssociative(Gathered(words, redirects), head, Gather(ts[i + 1..]));
    assert redirects + [] == redirects;
  }

  /** A step of the loop of `parse` over an operator and its target. */
  lemma ParseStepRedirect(tokens: seq<string>, i: nat, o: Operator, words: seq<string>, redirects: seq<RedirectType>)
    requires i + 1 < |tokens| && OperatorOf(tokens[i]) == Some(o)
    ensures Join(Gathered(words, redirects), Gather(RetagAll(tokens)[i..]))
         == Join(Gathered(words, redirects + [Redirect(o, tokens[i + 1])]), Gather(RetagAll(tokens)[i + 2..]))
  {
    var ts := RetagAll(tokens);
    assert ts[i] == Retag(tokens[i]);
    assert ts[i + 1] == Retag(tokens[i + 1]);
    GatherAt(ts, i);
    RetagText(tokens[i]);
    RetagText(tokens[i + 1]);
    var head := Gathered([], [Redirect(o, tokens[i + 1])]);
    JoinAssociative(Gathered(words, redirects), head, Gather(ts[i + 2..]));
    assert words + [] == words;
  }

  /** A last token that spells an operator adds nothing. */
  lemma ParseStepDangling(tokens: seq<string>, i: nat, words: seq<string>, redirects: seq<RedirectType>)
    requires i + 1 == |tokens| && OperatorOf(tokens[i]).Some?
    ensures Join(Gathered(words, redirects), Gather(RetagAll(tokens)[i..]))
         == Join(Gathered(words, redirects), Gather(RetagAll(tokens)[i + 1..]))
  {
    var ts := RetagAll(tokens);
    assert ts[i] == Retag(tokens[i]);
    GatherAt(ts, i);
    RetagText(tokens[i]);
    assert ts[i + 1..] == [];
  }

  /** The loop of `parse` over the token texts. */
  method ParseTokens(tokens: seq<string>) returns (p: ParsedCommand)
    ensures p == Assemble(Gather(RetagAll(tokens)))
  {
    var redirects: seq<RedirectType> := [];
    var cmdParts: seq<string> := [];
    ghost var ts := RetagAll(tokens);
    var i := 0;
    while i < |tokens|
      invariant i <= |tokens|
      invariant Join(Gathered(cmdParts, redirects), Gather(ts[i..])) == Gather(ts)
      decreases |tokens| - i
    {
      match OperatorOf(tokens[i]) {
        case Some(o) =>
          if i + 1 < |tokens| {
            ParseStepRedirect(tokens, i, o, cmdParts, redirects);
            redirects := redirects + [Redirect(o, tokens[i + 1])];
            i := i + 2;
          } else {
            ParseStepDangling(tokens, i, cmdParts, redirects);
            i := i + 1;
          }
        case None =>
          ParseStepWord(tokens, i, cmdParts, redirects);
          cmdParts := cmdParts + [tokens[i]];
          i := i + 1;
      }
    }
    assert ts[i..] == [];
    assert Join(Gathered(cmdParts, redirects), Gathered([], [])) == Gathered(cmdParts, redirects);
    var program: string := if cmdParts == [] then [] else cmdParts[0];
    var args: seq<string> := if |cmdParts| > 1 then cmdParts[1..] else [];
    p := ParsedCommand(program, args, redirects);
  }

  /** `ParsedCommand::parse`: tokenize, then gather. */
  method Parse(input: string) returns (p: ParsedCommand)
    ensures p == ParsedAsWritten(input)
  {
    var tokens := TokenizeWithRedirects(input);
    p := ParseTokens(tokens);
  }

  /** Reclassifying plain words by their text gives back the tokenizer's own tokens. */
  lemma RetagPlain(ts: seq<Token>)
    requires PlainWords(ts)
    ensures RetagAll(Texts(ts)) == ts
  {
    forall k | 0 <= k < |ts| ensures RetagAll(Texts(ts))[k] == ts[k] {
      match ts[k]
      case Op(o) =>
        OperatorTextRoundTrip(o);
      case Word(w) =>
        if OperatorOf(w).Some? {
          var o := OperatorOf(w).value;
          OperatorHasAngle(o);
          assert false;
        }
    }
  }

  /** Without quotes in the line, reading operators from the token text loses nothing. */
  lemma ParsedAgreesWithoutQuotes(input: string)
    requires forall k :: 0 <= k < |input| ==> !IsQuote(input[k])
    ensures ParsedAsWritten(input) == Parsed(input)
  {
    TokensQuoteFree(input);
    RetagPlain(Tokens(input));
  }

  /** Operators split words without spaces around them, '2' included: "a2>f" gives a, 2>, f. */
  lemma ErrOutSplitsWord()
    ensures Texts(Tokens("a2>f")) == ["a", "2>", "f"]
  {
    var s := "a2>f";
    assert Lex(s, 4, "f", false, ' ') == [Word("f")];
    assert [] + ['f'] == "f";
    assert Lex(s, 3, [], false, ' ') == [Word("f")];
    assert Lex(s, 1, "a", false, ' ') == [Word("a")] + [Op(ErrOut)] + [Word("f")];
    assert [] + ['a'] == "a";
    assert Lex(s, 0, [], false, ' ') == [Word("a"), Op(ErrOut), Word("f")];
  }

  /** `<` and `>>` need no spaces around them. */
  lemma InAndAppendSplitWords()
    ensures Texts(Tokens("c<i>>o")) == ["c", "<", "i", ">>", "o"]
  {
    var s := "c<i>>o";
    assert [] + ['o'] == "o" && [] + ['i'] == "i" && [] + ['c'] == "c";
    assert Lex(s, 6, "o", false, ' ') == [Word("o")];
    assert Lex(s, 5, [], false, ' ') == [Word("o")];
    assert Lex(s, 3, "i", false, ' ') == [Word("i")] + [Op(Append)] + [Word("o")];
    assert Lex(s, 2, [], false, ' ') == [Word("i"), Op(Append), Word("o")];
    assert Lex(s, 1, "c", false, ' ') == [Word("c")] + [Op(In)] + [Word("i"), Op(Append), Word("o")];
    assert Lex(s, 0, [], false, ' ') == [Word("c"), Op(In), Word("i"), Op(Append), Word("o")];
  }

  /** `&>` needs no spaces around it, and an '&' with no '>' after it stays in the word. */
  lemma BothSplitsWord()
    ensures Texts(Tokens("c&>o&")) == ["c", "&>", "o&"]
  {
    var s := "c&>o&";
    assert [] + ['o'] == "o" && "o" + ['&'] == "o&" && [] + ['c'] == "c";
    assert Lex(s, 5, "o&", false, ' ') == [Word("o&")];
    assert Lex(s, 4, "o", false, ' ') == [Word("o&")];
    assert Lex(s, 3, [], false, ' ') == [Word("o&")];
    assert Lex(s, 1, "c", false, ' ') == [Word("c")] + [Op(Both)] + [Word("o&")];
    assert Lex(s, 0, [], false, ' ') == [Word("c"), Op(Both), Word("o&")];
  }

  /**
   * Inside quotes every character other than the opening quote joins the
   * current word, spaces and operator characters included.
   */
  lemma {:induction false} LexInsideQuotes(s: string, i: nat, j: nat, current: string, quote: char)
    requires i <= j <= |s| && quote !in s[i..j]
    ensures Lex(s, i, current, true, quote) == Lex(s, j, current + s[i..j], true, quote)
    decreases j - i
  {
    if i < j {
      assert s[i] == s[i..j][0] && s[i + 1..j] == s[i..j][1..];
      LexInsideQuotes(s, i + 1, j, current + [s[i]], quote);
      assert (current + [s[i]]) + s[i + 1..j] == current + s[i..j];
    } else {
      assert current + s[i..j] == current;
    }
  }

  /**
   * A quoted stretch outside quotes: the opening quote, text without that
   * quote, the matching quote. Its text, without the quotes, is added to the
   * current word, and tokenizing carries on outside quotes after it.
   */
  lemma QuotedStretch(s: string, i: nat, j: nat, current: string, quote: char)
    requires i < j < |s| && IsQuote(s[i]) && s[j] == s[i] && s[i] !in s[i + 1..j]
    ensures Lex(s, i, current, false, quote) == Lex(s, j + 1, current + s[i + 1..j], false, s[i])
  {
    LexInsideQuotes(s, i + 1, j, current, s[i]);
  }

  /** A quote that is never closed makes the rest of the line part of the last word. */
  lemma UnclosedQuote(s: string, i: nat, current: string, quote: char)
    requires i <= |s| && quote !in s[i..]
    ensures Lex(s, i, current, true, quote) == Flush(current + s[i..])
  {
    LexInsideQuotes(s, i, |s|, current, quote);
    assert s[i..|s|] == s[i..];
  }

  /** Quotes are dropped and keep a space inside one word. */
  lemma QuotesGroupWords()
    ensures Tokens("e \"a b\"") == [Word("e"), Word("a b")]
  {
    var s := "e \"a b\"";
    assert [] + ['e'] == "e" && [] + ['a'] == "a" && "a" + [' '] == "a " && "a " + ['b'] == "a b";
    assert Lex(s, 7, "a b", false, '"') == [Word("a b")];
    assert Lex(s, 6, "a b", true, '"') == [Word("a b")];
    assert Lex(s, 5, "a ", true, '"') == [Word("a b")];
    assert Lex(s, 4, "a", true, '"') == [Word("a b")];
    assert Lex(s, 3, [], true, '"') == [Word("a b")];
    assert Lex(s, 2, [], false, ' ') == [Word("a b")];
    assert Lex(s, 1, "e", false, ' ') == [Word("e")] + [Word("a b")];
    assert Lex(s, 0, [], false, ' ') == [Word("e"), Word("a b")];
  }

  /** Only the space character separates words: a tab stays inside the word. */
  lemma TabDoesNotSeparate()
    ensures Tokens("a\tb") == [Word("a\tb")]
  {
    var s := "a\tb";
    assert [] + ['a'] == "a" && "a" + ['\t'] == "a\t" && "a\t" + ['b'] == "a\tb";
    assert Lex(s, 3, "a\tb", false, ' ') == [Word("a\tb")];
    assert Lex(s, 2, "a\t", false, ' ') == [Word("a\tb")];
    assert Lex(s, 1, "a", false, ' ') == [Word("a\tb")];
  }

  /** `e ">" f` tokenizes into three words; the middle one was quoted. */
  lemma QuotedOperatorTokens()
    ensures Tokens("e \">\" f") == [Word("e"), Word(">"), Word("f")]
  {
    var s := "e \">\" f";
    assert [] + ['e'] == "e" && [] + ['>'] == ">" && [] + ['f'] == "f";
    assert Lex(s, 7, "f", false, '"') == [Word("f")];
    assert Lex(s, 6, [], false, '"') == [Word("f")];
    assert Lex(s, 5, ">", false, '"') == [Word(">")] + [Word("f")];
    assert Lex(s, 4, ">", true, '"') == [Word(">"), Word("f")];
    assert Lex(s, 3, [], true, '"') == [Word(">"), Word("f")];
    assert Lex(s, 2, [], false, ' ') == [Word(">"), Word("f")];
    assert Lex(s, 1, "e", false, ' ') == [Word("e")] + [Word(">"), Word("f")];
  }

  /**
   * As written, `parse` reads a quoted ">" as the operator: `e ">" f` runs `e`
   * with its output sent to f. Keeping the tokenizer's classification gives
   * the program the two arguments ">" and "f".
   */
  lemma QuotedOperatorIsRedirected()
    ensures ParsedAsWritten("e \">\" f") == ParsedCommand("e", [], [StdoutTo("f")])
    ensures Parsed("e \">\" f") == ParsedCommand("e", [">", "f"], [])
  {
    QuotedOperatorTokens();
    var ts := [Word("e"), Word(">"), Word("f")];
    QuotedOperatorRetagged(ts);
    GatherRedirectsToF([Word("e"), Op(Out), Word("f")]);
    GatherQuotedWords(ts);
  }

  /** Reclassifying the texts of the three words turns the middle one into the operator. */
  lemma QuotedOperatorRetagged(ts: seq<Token>)
    requires ts == [Word("e"), Word(">"), Word("f")]
    ensures RetagAll(Texts(ts)) == [Word("e"), Op(Out), Word("f")]
  {
    assert Texts(ts) == ["e", ">", "f"];
  }

  lemma GatherRedirectsToF(ts: seq<Token>)
    requires ts == [Word("e"), Op(Out), Word("f")]
    ensures Gather(ts) == Gathered(["e"], [StdoutTo("f")])
  {
    assert ts[1..][0] == Op(Out) && ts[1..][1] == Word("f") && ts[1..][2..] == [];
    assert Gather(ts[1..]) == Gathered([], [StdoutTo("f")]);
  }

  lemma GatherQuotedWords(ts: seq<Token>)
    requires ts == [Word("e"), Word(">"), Word("f")]
    ensures Gather(ts) == Gathered(["e", ">", "f"], [])
  {
    GatherWords(ts);
    assert Texts(ts) == ["e", ">", "f"];
  }
}
