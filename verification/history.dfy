/**
 * The history cursor of `src/history.rs`: the submitted lines plus a position
 * that Up/Down move. Loading from and appending to the history file are left
 * out; the constructor takes the lines the file held.
 */
module HistoryCursor {
  import opened Wrappers
  import opened Text

  /** No entry equals the one right before it. */
  predicate NoAdjacentDuplicates(cmds: seq<string>) {
    forall i :: 0 < i < |cmds| ==> cmds[i - 1] != cmds[i]
  }

  /** The list after `add` accepts `command`: appended unless it repeats the last entry. */
  function Appended(cmds: seq<string>, command: string): (r: seq<string>)
    ensures |r| > 0 && r[|r| - 1] == command
    ensures cmds <= r && |r| <= |cmds| + 1
  {
    if cmds != [] && cmds[|cmds| - 1] == command then cmds else cmds + [command]
  }

  /** `add` never creates two adjacent equal entries. */
  lemma AddKeepsNoAdjacentDuplicates(cmds: seq<string>, command: string)
    requires NoAdjacentDuplicates(cmds)
    ensures NoAdjacentDuplicates(Appended(cmds, command))
  {
  }

  /** The (index, command) pairs from index `from` on whose command contains `pattern`, in index order. */
  function Matching(cmds: seq<string>, pattern: string, from: nat): (r: seq<(nat, string)>)
    requires from <= |cmds|
    ensures forall k :: 0 <= k < |r| ==> from <= r[k].0 < |cmds| && r[k].1 == cmds[r[k].0] && Contains(r[k].1, pattern)
    decreases |cmds| - from
  {
    if from == |cmds| then []
    else
      var rest := Matching(cmds, pattern, from + 1);
      if Contains(cmds[from], pattern) then [(from, cmds[from])] + rest else rest
  }

  /** The indices of `r` strictly increase. */
  predicate Increasing(r: seq<(nat, string)>) {
    forall k, l :: 0 <= k < l < |r| ==> r[k].0 < r[l].0
  }

  /** The matches come in strictly increasing index order. */
  lemma {:induction false} MatchingOrdered(cmds: seq<string>, pattern: string, from: nat)
    requires from <= |cmds|
    ensures Increasing(Matching(cmds, pattern, from))
    decreases |cmds| - from
  {
    if from < |cmds| {
      MatchingOrdered(cmds, pattern, from + 1);
      var rest := Matching(cmds, pattern, from + 1);
      var r := Matching(cmds, pattern, from);
      if Contains(cmds[from], pattern) {
        assert r == [(from, cmds[from])] + rest;
        forall k, l | 0 <= k < l < |r| ensures r[k].0 < r[l].0 {
          assert r[l] == rest[l - 1];
          assert from < rest[l - 1].0;
          if k > 0 {
            assert r[k] == rest[k - 1];
          } else {
            assert r[k].0 == from;
          }
        }
      } else {
        assert r == rest;
      }
    }
  }

  /** Every command from index `from` on that contains `pattern` is listed. */
  lemma {:induction false} MatchingComplete(cmds: seq<string>, pattern: string, from: nat, i: nat)
    requires from <= i < |cmds| && Contains(cmds[i], pattern)
    ensures exists k :: 0 <= k < |Matching(cmds, pattern, from)| && Matching(cmds, pattern, from)[k] == (i, cmds[i])
    decreases |cmds| - from
  {
    var r := Matching(cmds, pattern, from);
    if i == from {
      assert r[0] == (i, cmds[i]);
    } else {
      MatchingComplete(cmds, pattern, from + 1, i);
      var rest := Matching(cmds, pattern, from + 1);
      var k :| 0 <= k < |rest| && rest[k] == (i, cmds[i]);
      if Contains(cmds[from], pattern) {
        assert r[k + 1] == rest[k];
      } else {
        assert r == rest;
      }
    }
  }

  /** What the as-written `next` does: the new position and entry, or a panic. */
  datatype NextStep = Moved(position: nat, entry: Option<string>) | Panic

  const UsizeMax: nat := 0xFFFF_FFFF_FFFF_FFFF

  /**
   * `next` exactly as written: `len() - 1` on usize wraps to usize::MAX for an
   * empty history (a release build; a debug build panics at the subtraction
   * itself), and the index that follows is then out of bounds.
   */
  function NextAsWritten(cmds: seq<string>, position: nat): NextStep {
    var limit := if |cmds| == 0 then UsizeMax else |cmds| - 1;
    if position < limit then
      if position + 1 < |cmds| then Moved(position + 1, Some(cmds[position + 1])) else Panic
    else Moved(|cmds|, None)
  }

  /** Down on an empty history panics. */
  lemma NextAsWrittenPanicsWhenEmpty()
    ensures NextAsWritten([], 0) == Panic
  {
  }

  /** On a non-empty history the as-written `next` is the one `History.Next` models. */
  lemma NextAsWrittenAgreesWhenNonEmpty(cmds: seq<string>, position: nat)
    requires 0 < |cmds| && position <= |cmds|
    ensures NextAsWritten(cmds, position) ==
      if position + 1 < |cmds| then Moved(position + 1, Some(cmds[position + 1])) else Moved(|cmds|, None)
  {
  }

  class History {
    var commands: seq<string>
    var position: nat

    /** 0 <= position <= |commands|; |commands| means "no entry selected". */
    predicate Valid()
      reads this
    {
      position <= |commands|
    }

    /** `History::new`, given the lines of the history file. */
    constructor (loaded: seq<string>)
      ensures Valid() && commands == loaded && position == |loaded|
    {
      commands := loaded;
      position := |loaded|;
    }

    /**
     * `add`: whitespace-only input is ignored outright; otherwise the command is
     * appended unless it repeats the last entry, and the position is reset.
     */
    method Add(command: string)
      requires Valid()
      modifies this
      ensures Valid()
      ensures AllWhitespace(command) ==> commands == old(commands) && position == old(position)
      ensures !AllWhitespace(command) ==> commands == Appended(old(commands), command) && position == |commands|
    {
      TrimEmptyIff(command);
      if Trim(command) == [] {
        return;
      }
      if commands == [] || commands[|commands| - 1] != command {
        commands := commands + [command];
      }
      position := |commands|;
    }

    /** `previous`: steps back one entry and returns it; at the oldest entry, nothing. */
    method Previous() returns (r: Option<string>)
      requires Valid()
      modifies this
      ensures Valid() && commands == old(commands)
      ensures old(position) == 0 ==> r == None && position == 0
      ensures old(position) > 0 ==> position == old(position) - 1 && r == Some(commands[position])
    {
      if position > 0 {
        position := position - 1;
        r := Some(commands[position]);
      } else {
        r := None;
      }
    }

    /**
     * `next` with the bound written `position + 1 < len()`, which cannot
     * underflow: steps forward and returns that entry, or moves to the edge
     * (position = |commands|) and returns nothing.
     */
    method Next() returns (r: Option<string>)
      requires Valid()
      modifies this
      ensures Valid() && commands == old(commands)
      ensures old(position) + 1 < |commands| ==> position == old(position) + 1 && r == Some(commands[position])
      ensures old(position) + 1 >= |commands| ==> position == |commands| && r == None
    {
      if position + 1 < |commands| {
        position := position + 1;
        r := Some(commands[position]);
      } else {
        position := |commands|;
        r := None;
      }
    }

    /** `search`: the (index, command) pairs whose command contains `pattern`, in index order. */
    function Search(pattern: string): (r: seq<(nat, string)>)
      reads this
      ensures forall k :: 0 <= k < |r| ==> r[k].0 < |commands| && r[k].1 == commands[r[k].0] && Contains(r[k].1, pattern)
    {
      Matching(commands, pattern, 0)
    }

    /** Every entry containing `pattern` is found, once, and in history order. */
    lemma SearchFindsAll(pattern: string)
      ensures Increasing(Search(pattern))
      ensures forall i :: 0 <= i < |commands| && Contains(commands[i], pattern) ==> (i, commands[i]) in Search(pattern)
    {
      MatchingOrdered(commands, pattern, 0);
      assert Search(pattern) == Matching(commands, pattern, 0);
      forall i | 0 <= i < |commands| && Contains(commands[i], pattern)
        ensures (i, commands[i]) in Search(pattern)
      {
        MatchingComplete(commands, pattern, 0, i);
      }
    }
  }
}
