/**
 * `expand_variables` of `src/variables.rs`: `$NAME` is replaced by the
 * variable's value. The process environment is a parameter: a map from
 * names to values, where a missing key is an unset variable.
 */
module Variables {
  import opened Text

  /** A character that may continue a variable name: an ASCII letter or digit, or '_'. */
  predicate IsNameChar(c: char) {
    ('a' <= c <= 'z') || ('A' <= c <= 'Z') || ('0' <= c <= '9') || c == '_'
  }

  /** The end of the run of name characters that starts at `k`. */
  function NameEnd(s: string, k: nat): (e: nat)
    requires k <= |s|
    ensures k <= e <= |s|
    ensures forall m :: k <= m < e ==> IsNameChar(s[m])
    ensures e == |s| || !IsNameChar(s[e])
    decreases |s| - k
  {
    if k < |s| && IsNameChar(s[k]) then NameEnd(s, k + 1) else k
  }

  /** The run is maximal, so any position with its two properties is the run's end. */
  lemma {:induction false} NameEndUnique(s: string, k: nat, e: nat)
    requires k <= e <= |s|
    requires forall m :: k <= m < e ==> IsNameChar(s[m])
    requires e == |s| || !IsNameChar(s[e])
    ensures NameEnd(s, k) == e
    decreases e - k
  {
    if k < e {
      NameEndUnique(s, k + 1, e);
    }
  }

  /** What `$name` becomes: the value when set, '$' and the name when unset, `lone` when there is no name. */
  function Replacement(name: string, env: map<string, string>, lone: string): string {
    if name == [] then lone else if name in env then env[name] else "$" + name
  }

  /**
   * The expansion of `s` from position `i` on: each '$' followed by a name
   * becomes the variable's value, or stays as '$' and the name when the
   * variable is unset; a '$' with no name after it becomes `lone`; every other
   * character is copied.
   */
  function ExpandFrom(s: string, i: nat, env: map<string, string>, lone: string): string
    requires i <= |s|
    decreases |s| - i
  {
    if i == |s| then []
    else if s[i] == '$' then
      var j := NameEnd(s, i + 1);
      var name := s[i + 1..j];
      Replacement(name, env, lone) + ExpandFrom(s, j, env, lone)
    else [s[i]] + ExpandFrom(s, i + 1, env, lone)
  }

  /** The expansion as written: a lone '$' becomes '>'. */
  function ExpandAsWritten(s: string, env: map<string, string>): string {
    ExpandFrom(s, 0, env, ">")
  }

  /** The expansion with a lone '$' kept as '$'. */
  function Expand(s: string, env: map<string, string>): string {
    ExpandFrom(s, 0, env, "$")
  }

  /** `expand_variables`: the loop over the characters, with an inner loop collecting the name. */
  method ExpandVariables(input: string, env: map<string, string>) returns (result: string)
    ensures result == ExpandAsWritten(input, env)
  {
    result := [];
    var i := 0;
    while i < |input|
      invariant i <= |input|
      invariant result + ExpandFrom(input, i, env, ">") == ExpandAsWritten(input, env)
      decreases |input| - i
    {
      ghost var start := i;
      var ch := input[i];
      i := i + 1;
      var piece: string;
      if ch == '$' {
        var varName;
        varName, i := ReadName(input, i);
        if varName != [] {
          if varName in env {
            piece := env[varName];
          } else {
            piece := "$" + varName;
          }
        } else {
          piece := ">";
        }
      } else {
        piece := [ch];
      }
      ExpandStep(input, start, i, env, piece, result);
      result := result + piece;
    }
  }

  /** The inner loop of `expand_variables`: collects the name characters from `from` on. */
  method ReadName(input: string, from: nat) returns (name: string, next: nat)
    requires from <= |input|
    ensures next == NameEnd(input, from) && name == input[from..next]
  {
    name := [];
    next := from;
    while next < |input| && IsNameChar(input[next])
      invariant from <= next <= |input|
      invariant name == input[from..next]
      invariant NameEnd(input, next) == NameEnd(input, from)
      decreases |input| - next
    {
      assert input[from..next + 1] == input[from..next] + [input[next]];
      name := name + [input[next]];
      next := next + 1;
    }
  }

  /** One step of the loop: the text of position `i` becomes `piece`, and the expansion goes on from `j`. */
  lemma ExpandStep(s: string, i: nat, j: nat, env: map<string, string>, piece: string, done: string)
    requires i < j <= |s|
    requires s[i] == '$' ==> j == NameEnd(s, i + 1) && piece == Replacement(s[i + 1..j], env, ">")
    requires s[i] != '$' ==> j == i + 1 && piece == [s[i]]
    ensures done + ExpandFrom(s, i, env, ">") == (done + piece) + ExpandFrom(s, j, env, ">")
  {
    var rest := ExpandFrom(s, j, env, ">");
    assert ExpandFrom(s, i, env, ">") == piece + rest;
    AppendAssoc(done, piece, rest);
  }

  /** Text without '$' comes through unchanged, whatever the environment. */
  lemma {:induction false} NoDollarUnchanged(s: string, i: nat, env: map<string, string>, lone: string)
    requires i <= |s| && '$' !in s[i..]
    ensures ExpandFrom(s, i, env, lone) == s[i..]
    decreases |s| - i
  {
    if i < |s| {
      assert s[i] == s[i..][0];
      assert s[i + 1..] == s[i..][1..];
      NoDollarUnchanged(s, i + 1, env, lone);
    }
  }

  /** With nothing set, expansion keeps '$' and the name, so the text comes through unchanged. */
  lemma {:induction false} NothingSetUnchanged(s: string, i: nat)
    requires i <= |s|
    ensures ExpandFrom(s, i, map[], "$") == s[i..]
    decreases |s| - i
  {
    if i < |s| {
      if s[i] == '$' {
        var j := NameEnd(s, i + 1);
        NothingSetUnchanged(s, j);
        assert Replacement(s[i + 1..j], map[], "$") == "$" + s[i + 1..j];
        assert s[i..] == "$" + s[i + 1..j] + s[j..];
      } else {
        NothingSetUnchanged(s, i + 1);
        assert s[i..] == [s[i]] + s[i + 1..];
      }
    }
  }

  /**
   * As written, with nothing set, a text in which every '$' is followed by a
   * name character comes through unchanged: each name is unset and keeps its
   * '$', and no lone '$' is there to turn into '>'.
   */
  lemma {:induction false} NothingSetNamedUnchanged(s: string, i: nat)
    requires i <= |s|
    requires forall k :: i <= k < |s| && s[k] == '$' ==> k + 1 < |s| && IsNameChar(s[k + 1])
    ensures ExpandFrom(s, i, map[], ">") == s[i..]
    decreases |s| - i
  {
    if i < |s| {
      if s[i] == '$' {
        var j := NameEnd(s, i + 1);
        assert i + 1 < j;
        NothingSetNamedUnchanged(s, j);
        assert Replacement(s[i + 1..j], map[], ">") == "$" + s[i + 1..j];
        assert s[i..] == "$" + s[i + 1..j] + s[j..];
      } else {
        NothingSetNamedUnchanged(s, i + 1);
        assert s[i..] == [s[i]] + s[i + 1..];
      }
    }
  }

  /** `Expand` with nothing set is the identity. */
  lemma ExpandNothingSet(s: string)
    ensures Expand(s, map[]) == s
  {
    NothingSetUnchanged(s, 0);
  }

  /** As written, a lone '$' turns into '>': "a $ b" with nothing set becomes "a > b". */
  lemma LoneDollarAsWritten()
    ensures ExpandAsWritten("a $ b", map[]) == "a > b"
    ensures Expand("a $ b", map[]) == "a $ b"
  {
    var s := "a $ b";
    assert NameEnd(s, 3) == 3;
    assert ExpandFrom(s, 4, map[], ">") == "b" by {
      assert ExpandFrom(s, 5, map[], ">") == [];
    }
    assert ExpandFrom(s, 3, map[], ">") == " b";
    assert ExpandFrom(s, 2, map[], ">") == "> b";
    ExpandNothingSet(s);
  }

  /** A set variable is replaced by its value: with TEST=value, "echo $TEST" becomes "echo value". */
  lemma SetVariableReplaced()
    ensures Expand("echo $TEST", map["TEST" := "value"]) == "echo value"
    ensures ExpandAsWritten("echo $TEST", map["TEST" := "value"]) == "echo value"
  {
    var s := "echo $TEST";
    var env := map["TEST" := "value"];
    NameEndUnique(s, 6, 10);
    assert s[6..10] == "TEST";
    assert ExpandFrom(s, 5, env, "$") == "value" + ExpandFrom(s, 10, env, "$");
    assert ExpandFrom(s, 5, env, ">") == "value" + ExpandFrom(s, 10, env, ">");
    assert s[..5] == "echo ";
    ExpandPrefix(s, 0, 5, env, "$");
    ExpandPrefix(s, 0, 5, env, ">");
  }

  /** A stretch without '$' is copied ahead of the expansion of what follows it. */
  lemma {:induction false} ExpandPrefix(s: string, k: nat, j: nat, env: map<string, string>, lone: string)
    requires k <= j <= |s| && '$' !in s[k..j]
    ensures ExpandFrom(s, k, env, lone) == s[k..j] + ExpandFrom(s, j, env, lone)
    decreases j - k
  {
    if k < j {
      assert s[k] == s[k..j][0];
      assert s[k + 1..j] == s[k..j][1..];
      ExpandPrefix(s, k + 1, j, env, lone);
      assert s[k..j] == [s[k]] + s[k + 1..j];
    }
  }
}
