/**
 * The line editor of `src/input.rs` (the module the shell uses) and of its
 * uncompiled copy `src/editor/core.rs`, which differs in Tab completion and in
 * what Ctrl-C does. The buffer is a sequence of characters and the cursor a
 * character position; Rust's byte offsets appear only where the source uses
 * them, through `ByteLen`.
 */
module LineEdit {
  import opened Wrappers
  import opened Text
  import opened Completion
  import opened HistoryCursor

  // ---------------------------------------------------------------------
  // Key events and the arm of `read_line` that handles each
  // ---------------------------------------------------------------------

  datatype KeyCode = Enter | Backspace | Delete | Left | Right | Up | Down | Home | End | Tab
    | Char(c: char) | OtherKey

  /** The modifier sets the source's patterns distinguish; anything else is `OtherModifiers`. */
  datatype Modifiers = NoModifiers | ShiftOnly | ControlOnly | OtherModifiers

  datatype Event = Key(code: KeyCode, modifiers: Modifiers) | OtherEvent

  /** What `read_line` does with an event: one constructor per arm of its `match`. */
  datatype Action =
    | SubmitLine | RemoveBefore | RemoveAt | CursorLeft | CursorRight
    | HistoryBack | HistoryForward | CursorHome | CursorEnd | TabComplete
    | KillEnd | KillStart | KillWord | ClearScreen | CancelLine | EndOfFile
    | Bell | SwapChars | InsertChar(c: char) | Ignored

  /** The Ctrl-letter arms, checked before plain character input: none inserts, and other letters do nothing. */
  function ControlAction(c: char): (a: Action)
    ensures !a.InsertChar?
    ensures c !in "aekuwlcdyt" ==> a == Ignored
  {
    match c
    case 'a' => CursorHome
    case 'e' => CursorEnd
    case 'k' => KillEnd
    case 'u' => KillStart
    case 'w' => KillWord
    case 'l' => ClearScreen
    case 'c' => CancelLine
    case 'd' => EndOfFile
    case 'y' => Bell
    case 't' => SwapChars
    case _ => Ignored
  }

  /**
   * The arm that handles `ev`, in the order the arms are written: named keys
   * whatever the modifiers, then Ctrl-letters, then a character typed with no
   * modifier or Shift alone; everything else (including non-key events) is ignored.
   */
  function Classify(ev: Event): (a: Action)
    ensures a.InsertChar? ==> ev.Key? && ev.code == Char(a.c) && (ev.modifiers == NoModifiers || ev.modifiers == ShiftOnly)
    ensures ev.Key? && ev.code == Enter ==> a == SubmitLine
  {
    match ev
    case OtherEvent => Ignored
    case Key(code, m) =>
      match code
      case Enter => SubmitLine
      case Backspace => RemoveBefore
      case Delete => RemoveAt
      case Left => CursorLeft
      case Right => CursorRight
      case Up => HistoryBack
      case Down => HistoryForward
      case Home => CursorHome
      case End => CursorEnd
      case Tab => TabComplete
      case Char(c) =>
        if m == ControlOnly then ControlAction(c)
        else if m == NoModifiers || m == ShiftOnly then InsertChar(c)
        else Ignored
      case OtherKey => Ignored
  }

  /** A character is inserted exactly when it is typed bare or with Shift alone. */
  lemma ClassifyInsertIff(ev: Event, c: char)
    ensures Classify(ev) == InsertChar(c) <==> ev == Key(Char(c), NoModifiers) || ev == Key(Char(c), ShiftOnly)
  {
  }

  /** Ctrl with a letter that has no arm of its own does nothing; it is never typed into the buffer. */
  lemma ControlLetterNeverInserts(c: char)
    ensures !Classify(Key(Char(c), ControlOnly)).InsertChar?
    ensures c !in "aekuwlcdyt" ==> Classify(Key(Char(c), ControlOnly)) == Ignored
  {
  }

  // ---------------------------------------------------------------------
  // Byte offsets
  // ---------------------------------------------------------------------

  /**
   * `byte_index_at_char_pos`: the byte offset at which character `k` starts,
   * or the byte length of the whole text when there is no character `k`.
   */
  function ByteIndexAtCharPos(s: string, k: nat): (b: nat)
    ensures k < |s| ==> b == ByteLen(s[..k])
    ensures k >= |s| ==> b == ByteLen(s)
  {
    if s == [] || k == 0 then 0
    else
      var rest := ByteIndexAtCharPos(s[1..], k - 1);
      assert k < |s| ==> s[..k][1..] == s[1..][..k - 1];
      Utf8Len(s[0]) + rest
  }

  /** On ASCII text a character position is its own byte offset. */
  lemma {:induction false} ByteIndexAscii(s: string, k: nat)
    requires IsAscii(s)
    ensures ByteIndexAtCharPos(s, k) == Min(k, |s|)
  {
    if s != [] && k != 0 {
      assert IsAscii(s[1..]);
      ByteIndexAscii(s[1..], k - 1);
    }
  }

  /**
   * The character that starts at byte `b`, if `b` is a character boundary
   * inside the text. Rust's `String::remove(b)` panics exactly when this is None.
   */
  function CharStartingAt(s: string, b: nat): (r: Option<nat>)
    ensures r.Some? ==> r.value < |s| && ByteIndexAtCharPos(s, r.value) == b
    ensures r.None? ==> forall k :: 0 <= k < |s| ==> ByteIndexAtCharPos(s, k) != b
  {
    if s == [] then None
    else if b == 0 then Some(0)
    else if b < Utf8Len(s[0]) then None
    else
      match CharStartingAt(s[1..], b - Utf8Len(s[0]))
      case None => None
      case Some(k) => Some(k + 1)
  }

  /** On ASCII text every byte below the length starts a character: the one with the same index. */
  lemma {:induction false} CharStartingAtAscii(s: string, b: nat)
    requires IsAscii(s) && b < |s|
    ensures CharStartingAt(s, b) == Some(b)
  {
    if b != 0 {
      assert IsAscii(s[1..]);
      CharStartingAtAscii(s[1..], b - 1);
    }
  }

  // ---------------------------------------------------------------------
  // The editing operations, on values
  // ---------------------------------------------------------------------

  /** Buffer and cursor (a character position). */
  datatype EditState = EditState(buffer: string, cursor: nat) {
    predicate Valid() {
      cursor <= |buffer|
    }
  }

  /** Typing `c`: inserted at the cursor, which moves past it; everything else keeps its order. */
  function Inserted(e: EditState, c: char): (r: EditState)
    requires e.Valid()
    ensures r.Valid() && r.cursor == e.cursor + 1 && |r.buffer| == |e.buffer| + 1
    ensures r.buffer[e.cursor] == c
    ensures r.buffer[..e.cursor] == e.buffer[..e.cursor] && r.buffer[e.cursor + 1..] == e.buffer[e.cursor..]
  {
    EditState(e.buffer[..e.cursor] + [c] + e.buffer[e.cursor..], e.cursor + 1)
  }

  /** Backspace: removes the character before the cursor; nothing at position 0. */
  function Backspaced(e: EditState): (r: EditState)
    requires e.Valid()
    ensures r.Valid()
    ensures e.cursor == 0 ==> r == e
    ensures e.cursor > 0 ==>
      r.cursor == e.cursor - 1 && |r.buffer| == |e.buffer| - 1 &&
      r.buffer[..r.cursor] == e.buffer[..r.cursor] && r.buffer[r.cursor..] == e.buffer[e.cursor..]
  {
    if e.cursor > 0 then EditState(e.buffer[..e.cursor - 1] + e.buffer[e.cursor..], e.cursor - 1) else e
  }

  /** Delete: removes the character under the cursor; nothing at the end. */
  function Deleted(e: EditState): (r: EditState)
    requires e.Valid()
    ensures r.Valid() && r.cursor == e.cursor
    ensures e.cursor == |e.buffer| ==> r == e
    ensures e.cursor < |e.buffer| ==>
      |r.buffer| == |e.buffer| - 1 &&
      r.buffer[..e.cursor] == e.buffer[..e.cursor] && r.buffer[e.cursor..] == e.buffer[e.cursor + 1..]
  {
    if e.cursor < |e.buffer| then EditState(e.buffer[..e.cursor] + e.buffer[e.cursor + 1..], e.cursor) else e
  }

  /** Backspace right after typing a character takes the line back to what it was. */
  lemma BackspaceUndoesInsert(e: EditState, c: char)
    requires e.Valid()
    ensures Backspaced(Inserted(e, c)) == e
  {
    var r := Backspaced(Inserted(e, c));
    assert r.buffer == e.buffer[..e.cursor] + e.buffer[e.cursor..];
    assert e.buffer[..e.cursor] + e.buffer[e.cursor..] == e.buffer;
  }

  /** Re-typing the character Backspace removed restores the line. */
  lemma InsertUndoesBackspace(e: EditState)
    requires e.Valid() && e.cursor > 0
    ensures Inserted(Backspaced(e), e.buffer[e.cursor - 1]) == e
  {
    var r := Inserted(Backspaced(e), e.buffer[e.cursor - 1]);
    assert r.buffer == e.buffer[..e.cursor - 1] + [e.buffer[e.cursor - 1]] + e.buffer[e.cursor..];
    assert e.buffer[..e.cursor - 1] + [e.buffer[e.cursor - 1]] == e.buffer[..e.cursor];
    assert e.buffer[..e.cursor] + e.buffer[e.cursor..] == e.buffer;
  }

  /** Ctrl-K: keeps exactly the characters before the cursor. */
  function KilledToEnd(e: EditState): (r: EditState)
    requires e.Valid()
    ensures r.Valid() && r.cursor == e.cursor && r.buffer <= e.buffer && |r.buffer| == e.cursor
  {
    EditState(e.buffer[..e.cursor], e.cursor)
  }

  /** Ctrl-U: removes exactly the characters before the cursor; the cursor goes to 0. */
  function KilledToStart(e: EditState): (r: EditState)
    requires e.Valid()
    ensures r.Valid() && r.cursor == 0 && |r.buffer| == |e.buffer| - e.cursor
    ensures forall i :: 0 <= i < |r.buffer| ==> r.buffer[i] == e.buffer[e.cursor + i]
  {
    EditState(e.buffer[e.cursor..], 0)
  }

  /** What Ctrl-K keeps and what Ctrl-U keeps are the two halves of the line. */
  lemma KillsSplitLine(e: EditState)
    requires e.Valid()
    ensures KilledToEnd(e).buffer + KilledToStart(e).buffer == e.buffer
  {
    var k, u := KilledToEnd(e).buffer, KilledToStart(e).buffer;
    assert k + u == e.buffer[..e.cursor] + e.buffer[e.cursor..];
  }

  /** Start of the whitespace run that ends at position `k`. */
  function SpaceRunStart(s: string, k: nat): (j: nat)
    requires k <= |s|
    ensures j <= k && AllWhitespace(s[j..k]) && (j == 0 || !IsWhitespace(s[j - 1]))
  {
    if k > 0 && IsWhitespace(s[k - 1]) then
      var j := SpaceRunStart(s, k - 1);
      assert AllWhitespace(s[j..k]) by {
        forall i | 0 <= i < k - j ensures IsWhitespace(s[j..k][i]) {
          if i < k - 1 - j {
            assert s[j..k][i] == s[j..k - 1][i];
          }
        }
      }
      j
    else k
  }

  /** Start of the run of non-whitespace characters that ends at position `k`. */
  function WordRunStart(s: string, k: nat): (j: nat)
    requires k <= |s|
    ensures j <= k && NoWhitespace(s[j..k]) && (j == 0 || IsWhitespace(s[j - 1]))
  {
    if k > 0 && !IsWhitespace(s[k - 1]) then
      var j := WordRunStart(s, k - 1);
      assert NoWhitespace(s[j..k]) by {
        forall i | 0 <= i < k - j ensures !IsWhitespace(s[j..k][i]) {
          if i < k - 1 - j {
            assert s[j..k][i] == s[j..k - 1][i];
          }
        }
      }
      j
    else k
  }

  /**
   * Ctrl-W: skips the whitespace just before the cursor, then removes the word
   * before it. The skipped whitespace itself stays in the line, and so does
   * everything from the cursor on; the cursor moves to where the word began.
   */
  function WordDeleted(e: EditState): (r: EditState)
    requires e.Valid()
    ensures r.Valid() && r.cursor <= e.cursor
    ensures e.cursor == 0 ==> r == e
    ensures e.cursor > 0 ==>
      var wordEnd := SpaceRunStart(e.buffer, e.cursor);
      r.cursor <= wordEnd && r.buffer == e.buffer[..r.cursor] + e.buffer[wordEnd..] &&
      NoWhitespace(e.buffer[r.cursor..wordEnd]) && AllWhitespace(e.buffer[wordEnd..e.cursor]) &&
      (r.cursor == 0 || IsWhitespace(e.buffer[r.cursor - 1])) &&
      (wordEnd == 0 || !IsWhitespace(e.buffer[wordEnd - 1]))
  {
    if e.cursor == 0 then e
    else
      var wordEnd := SpaceRunStart(e.buffer, e.cursor);
      var wordStart := WordRunStart(e.buffer, wordEnd);
      EditState(e.buffer[..wordStart] + e.buffer[wordEnd..], wordStart)
  }

  /** Ctrl-W never touches the text from the cursor on. */
  lemma WordDeletedKeepsTail(e: EditState)
    requires e.Valid()
    ensures var r := WordDeleted(e);
      |r.buffer| - r.cursor >= |e.buffer| - e.cursor &&
      r.buffer[|r.buffer| - (|e.buffer| - e.cursor)..] == e.buffer[e.cursor..]
  {
    if e.cursor > 0 {
      var r := WordDeleted(e);
      var wordEnd := SpaceRunStart(e.buffer, e.cursor);
      assert e.buffer[wordEnd..] == e.buffer[wordEnd..e.cursor] + e.buffer[e.cursor..];
      assert r.buffer == (e.buffer[..r.cursor] + e.buffer[wordEnd..e.cursor]) + e.buffer[e.cursor..];
    }
  }

  /** Ctrl-T, corrected: with 0 < cursor < length, swaps the characters either side of the cursor and moves past them. */
  function Transposed(e: EditState): (r: EditState)
    requires e.Valid()
    ensures r.Valid() && |r.buffer| == |e.buffer| && multiset(r.buffer) == multiset(e.buffer)
    ensures !(0 < e.cursor < |e.buffer|) ==> r == e
    ensures 0 < e.cursor < |e.buffer| ==>
      r.cursor == e.cursor + 1 &&
      r.buffer[e.cursor - 1] == e.buffer[e.cursor] && r.buffer[e.cursor] == e.buffer[e.cursor - 1] &&
      forall i :: 0 <= i < |e.buffer| && i != e.cursor - 1 && i != e.cursor ==> r.buffer[i] == e.buffer[i]
  {
    if 0 < e.cursor < |e.buffer| then
      var k := e.cursor;
      var b := e.buffer[..k - 1] + [e.buffer[k], e.buffer[k - 1]] + e.buffer[k + 1..];
      assert e.buffer == e.buffer[..k - 1] + [e.buffer[k - 1], e.buffer[k]] + e.buffer[k + 1..];
      EditState(b, k + 1)
    else e
  }

  /**
   * Ctrl-T as written: the byte range `left_idx..right_idx` holds only the
   * left character, so it is replaced by right and left and the right one
   * stays behind it.
   */
  function TransposedAsWritten(e: EditState): EditState
    requires e.Valid()
  {
    if 0 < e.cursor < |e.buffer| then
      var k := e.cursor;
      EditState(e.buffer[..k - 1] + [e.buffer[k], e.buffer[k - 1]] + e.buffer[k..], k + 1)
    else e
  }

  /**
   * As written, Ctrl-T inside the line gives the swapped pair followed by the
   * untouched text from the cursor on, so the right character appears twice
   * and the line grows by one.
   */
  lemma TransposedAsWrittenDuplicates(e: EditState)
    requires e.Valid() && 0 < e.cursor < |e.buffer|
    ensures var r := TransposedAsWritten(e);
      r.buffer == Transposed(e).buffer[..e.cursor + 1] + e.buffer[e.cursor..] &&
      |r.buffer| == |e.buffer| + 1 &&
      multiset(r.buffer) == multiset(e.buffer) + multiset{e.buffer[e.cursor]}
  {
    var k := e.cursor;
    var b := e.buffer;
    var t := Transposed(e).buffer;
    assert t[..k + 1] == b[..k - 1] + [b[k], b[k - 1]] by {
      assert t == b[..k - 1] + [b[k], b[k - 1]] + b[k + 1..];
    }
    assert b == b[..k - 1] + [b[k - 1]] + b[k..];
    assert b[k..] == [b[k]] + b[k + 1..];
  }

  /** "ab" with the cursor at 1: as written Ctrl-T gives "bab", corrected it gives "ba". */
  lemma TransposedAsWrittenGrowsLine()
    ensures TransposedAsWritten(EditState("ab", 1)) == EditState("bab", 2)
    ensures Transposed(EditState("ab", 1)) == EditState("ba", 2)
  {
  }

  /** Up/Down with an entry: the line becomes the entry, the cursor its end. */
  function Recalled(entry: string): (r: EditState)
    ensures r.Valid() && r.buffer == entry && r.cursor == |r.buffer|
  {
    EditState(entry, |entry|)
  }

  // ---------------------------------------------------------------------
  // Backspace, Delete and Right as written: byte offsets mixed with character counts
  // ---------------------------------------------------------------------

  /** An edit that either produced a new state or panicked. */
  datatype Edit = Edited(state: EditState) | Panicked

  /**
   * Backspace as written: the cursor (a character count) is decremented and
   * then passed to `String::remove` as a byte offset.
   */
  function BackspaceAsWritten(e: EditState): Edit {
    if e.cursor > 0 then
      match CharStartingAt(e.buffer, e.cursor - 1)
      case None => Panicked
      case Some(k) => Edited(EditState(e.buffer[..k] + e.buffer[k + 1..], e.cursor - 1))
    else Edited(e)
  }

  /** Delete as written: the bound is the byte length and the cursor is used as a byte offset. */
  function DeleteAsWritten(e: EditState): Edit {
    if e.cursor < ByteLen(e.buffer) then
      match CharStartingAt(e.buffer, e.cursor)
      case None => Panicked
      case Some(k) => Edited(EditState(e.buffer[..k] + e.buffer[k + 1..], e.cursor))
    else Edited(e)
  }

  /** Right as written: the cursor may grow up to the byte length. */
  function RightAsWritten(e: EditState): EditState {
    if e.cursor < ByteLen(e.buffer) then EditState(e.buffer, e.cursor + 1) else e
  }

  /** On ASCII text Backspace as written does what `Backspaced` does. */
  lemma BackspaceAgreesOnAscii(e: EditState)
    requires e.Valid() && IsAscii(e.buffer)
    ensures BackspaceAsWritten(e) == Edited(Backspaced(e))
  {
    if e.cursor > 0 {
      CharStartingAtAscii(e.buffer, e.cursor - 1);
    }
  }

  /** On ASCII text Delete as written does what `Deleted` does. */
  lemma DeleteAgreesOnAscii(e: EditState)
    requires e.Valid() && IsAscii(e.buffer)
    ensures DeleteAsWritten(e) == Edited(Deleted(e))
  {
    AsciiByteLen(e.buffer);
    if e.cursor < |e.buffer| {
      CharStartingAtAscii(e.buffer, e.cursor);
    }
  }

  /** On ASCII text Right as written stops at the end of the line. */
  lemma RightAgreesOnAscii(e: EditState)
    requires e.Valid() && IsAscii(e.buffer)
    ensures RightAsWritten(e) == if e.cursor < |e.buffer| then EditState(e.buffer, e.cursor + 1) else e
  {
    AsciiByteLen(e.buffer);
  }

  /** With "éab" and the cursor at the end, Backspace removes the 'a' instead of the 'b'. */
  lemma BackspaceAsWrittenRemovesWrongChar()
    ensures BackspaceAsWritten(EditState("éab", 3)) == Edited(EditState("éb", 2))
    ensures Backspaced(EditState("éab", 3)) == EditState("éa", 2)
  {
    var s := "éab";
    assert CharStartingAt(s[1..], 0) == Some(0);
    assert CharStartingAt(s, 2) == Some(1);
    assert s[..1] + s[2..] == "éb";
    assert s[..2] + s[3..] == "éa";
  }

  /** With "éa" and the cursor at the end, Backspace hits the middle of 'é' and panics. */
  lemma BackspaceAsWrittenPanics()
    ensures BackspaceAsWritten(EditState("éa", 2)) == Panicked
  {
    assert CharStartingAt("éa", 1) == None;
  }

  /** With "éa" and the cursor after 'é', Delete hits the middle of 'é' and panics. */
  lemma DeleteAsWrittenPanics()
    ensures DeleteAsWritten(EditState("éa", 1)) == Panicked
  {
    assert ByteLen("éa") == 3;
    assert CharStartingAt("éa", 1) == None;
  }

  /** With "é" and the cursor at its end, Right moves the cursor past the end of the line. */
  lemma RightAsWrittenLeavesLine()
    ensures RightAsWritten(EditState("é", 1)).cursor == 2
    ensures !RightAsWritten(EditState("é", 1)).Valid()
  {
    assert ByteLen("é") == 2;
  }

  // ---------------------------------------------------------------------
  // `visual_length`: prompt width with ANSI escape sequences counted as zero
  // ---------------------------------------------------------------------

  const Esc: char := '\U{1B}'

  /** Characters of `s` that are shown: ESC opens a sequence and 'm' closes it. */
  function VisibleWidth(s: string, inEscape: bool): nat {
    if s == [] then 0
    else if s[0] == Esc then VisibleWidth(s[1..], true)
    else if inEscape then VisibleWidth(s[1..], s[0] != 'm')
    else 1 + VisibleWidth(s[1..], false)
  }

  /** The visible width never exceeds the character count, and equals it without ESC. */
  lemma {:induction false} VisibleWidthBounds(s: string, inEscape: bool)
    ensures VisibleWidth(s, inEscape) <= |s|
    ensures Esc !in s && !inEscape ==> VisibleWidth(s, inEscape) == |s|
  {
    if s != [] {
      VisibleWidthBounds(s[1..], true);
      VisibleWidthBounds(s[1..], false);
      VisibleWidthBounds(s[1..], s[0] != 'm');
    }
  }

  /** A colour sequence ESC ... 'm' adds nothing to the width of what follows. */
  lemma {:induction false} StyleSequenceIsZeroWidth(body: string, rest: string)
    requires 'm' !in body
    ensures VisibleWidth([Esc] + body + ['m'] + rest, false) == VisibleWidth(rest, false)
  {
    var s := [Esc] + body + ['m'] + rest;
    assert s[1..] == body + ['m'] + rest;
    InsideSequence(body, rest);
  }

  lemma {:induction false} InsideSequence(body: string, rest: string)
    requires 'm' !in body
    ensures VisibleWidth(body + ['m'] + rest, true) == VisibleWidth(rest, false)
  {
    var s := body + ['m'] + rest;
    if body == [] {
      assert s[0] == 'm' && s[1..] == rest;
    } else {
      assert s[0] == body[0] && s[1..] == body[1..] + ['m'] + rest;
      InsideSequence(body[1..], rest);
    }
  }

  /** `visual_length`, as the loop over the characters that it is. */
  method VisualLength(s: string) returns (length: nat)
    ensures length == VisibleWidth(s, false)
    ensures length <= |s|
    ensures Esc !in s ==> length == |s|
  {
    var inEscape := false;
    length := 0;
    var i := 0;
    while i < |s|
      invariant 0 <= i <= |s|
      invariant length + VisibleWidth(s[i..], inEscape) == VisibleWidth(s, false)
    {
      assert s[i..][1..] == s[i + 1..];
      var c := s[i];
      if c == Esc {
        inEscape := true;
      } else if inEscape {
        if c == 'm' {
          inEscape := false;
        }
      } else {
        length := length + 1;
      }
      i := i + 1;
    }
    assert s[i..] == [];
    VisibleWidthBounds(s, false);
  }

  // ---------------------------------------------------------------------
  // Rebuilding a path token after completion
  // ---------------------------------------------------------------------

  /** How `handle_tab_completion` rebuilds a path token from its `dir` and the completed name. */
  function RebuildAsWritten(dir: string, name: string): string {
    if dir == "." then name else dir + "/" + name
  }

  /** The token up to and including its last '/', followed by the completed name. */
  function Rebuild(token: string, name: string): (r: string)
    requires '/' in token
    ensures var p := SplitDirPrefix(token).value.prefix;
      p <= name ==> token <= r && |r| - |token| == |name| - |p|
  {
    var i := LastIndexOf(token, '/').value;
    var p := SplitDirPrefix(token).value.prefix;
    assert token == token[..i + 1] + p;
    token[..i + 1] + name
  }

  /** A completed path always still begins with what was typed. */
  lemma RebuildKeepsTyped(token: string, name: string)
    requires '/' in token && SplitDirPrefix(token).value.prefix <= name
    ensures token <= Rebuild(token, name)
  {
  }

  /** Completing "/us" to the directory "usr/" yields "//usr/" as written, "/usr/" when rebuilt from the token. */
  lemma RebuildAsWrittenDoublesSlash()
    ensures SplitDirPrefix("/us") == Some(DirPrefix("/", "us")) && RebuildAsWritten("/", "usr/") == "//usr/"
    ensures Rebuild("/us", "usr/") == "/usr/"
  {
    assert LastIndexOf("/us", '/') == Some(0);
  }

  /** Completing "./ru" to "run.sh" loses the "./" as written, and keeps it when rebuilt from the token. */
  lemma RebuildAsWrittenDropsDot()
    ensures SplitDirPrefix("./ru") == Some(DirPrefix(".", "ru")) && RebuildAsWritten(".", "run.sh") == "run.sh"
    ensures Rebuild("./ru", "run.sh") == "./run.sh"
  {
    assert "./ru"[..3] == "./r" && "./r"[..2] == "./";
    assert LastIndexOf("./ru", '/') == Some(1);
    assert "./ru"[..1] == "." && "./ru"[2..] == "ru";
  }

  /** Everywhere else (the last '/' is not the first character and dir is not ".") the two agree. */
  lemma RebuildAgrees(token: string, name: string)
    requires '/' in token
    requires LastIndexOf(token, '/').value > 0 && SplitDirPrefix(token).value.dir != "."
    ensures RebuildAsWritten(SplitDirPrefix(token).value.dir, name) == Rebuild(token, name)
  {
    var i := LastIndexOf(token, '/').value;
    assert token[..i + 1] == token[..i] + "/";
  }

  // ---------------------------------------------------------------------
  // Tab completion, on values
  // ---------------------------------------------------------------------

  /** The part of a token the matches must start with: after its last '/' for a path, else all of it. */
  function TabPrefix(token: string): string {
    if '/' in token then SplitDirPrefix(token).value.prefix else token
  }

  /** What a chosen name becomes in the line: a path keeps everything up to its last '/'. */
  function Placed(token: string, name: string): string {
    if '/' in token then Rebuild(token, name) else name
  }

  /**
   * The matches Tab looks up for `token`, which starts at character `start`: a
   * path against its directory, the first word of the line against PATH, any
   * other word against ".". None when the directory cannot be read.
   */
  function TabMatches(fs: FileSystem, token: string, start: nat): (r: Option<seq<string>>)
    ensures r.Some? ==> forall m :: m in r.value ==> TabPrefix(token) <= m
  {
    if '/' in token then
      var DirPrefix(dir, prefix) := SplitDirPrefix(token).value;
      DirMatchesHavePrefix(fs, dir, prefix);
      DirMatches(fs, dir, prefix)
    else if start == 0 then
      PathMatchesHavePrefix(fs, token);
      Some(PathMatches(fs, token))
    else
      DirMatchesHavePrefix(fs, ".", token);
      DirMatches(fs, ".", token)
  }

  /**
   * The name Tab settles on among `matches` (all starting with `typed`): their
   * longest common prefix when it is longer than `typed`, else the sole match;
   * with several matches that share nothing more, none.
   */
  function TabChoice(matches: seq<string>, typed: string): (r: Option<string>)
    requires forall m :: m in matches ==> typed <= m
    ensures r.Some? ==> typed <= r.value && forall j :: 0 <= j < |matches| ==> r.value <= matches[j]
    ensures r.Some? ==> |r.value| > |typed| || matches == [r.value]
    ensures |matches| == 1 ==> r == Some(matches[0])
    ensures r.Some? ==> r.value == CommonPrefixOf(matches)
    ensures r.None? <==> matches == [] || (|matches| > 1 && CommonPrefixOf(matches) == typed)
  {
    if matches == [] then None
    else
      var common := CommonPrefixOf(matches);
      assert forall j :: 0 <= j < |matches| ==> typed <= matches[j] by {
        forall j | 0 <= j < |matches| ensures typed <= matches[j] {
          assert matches[j] in matches;
        }
      }
      CommonPrefixExtends(common, matches, typed);
      ByteLenPrefix(typed, common);
      if ByteLen(common) > ByteLen(typed) then Some(common)
      else if |matches| == 1 then Some(matches[0])
      else None
  }

  /**
   * Tab in `src/editor/core.rs`, as a function of the line: the token runs from
   * just after the last whitespace before the cursor up to the cursor. An empty
   * token changes nothing; a directory that cannot be read is an I/O error;
   * otherwise the name `TabChoice` settles on, if any, is placed into the token.
   */
  function TabCompletion(e: EditState, fs: FileSystem): (o: TabOutcome)
    requires e.Valid()
  {
    var start := WordRunStart(e.buffer, e.cursor);
    var token := e.buffer[start..e.cursor];
    if token == [] then Unchanged
    else
      match TabMatches(fs, token, start)
      case None => ReadFailed
      case Some(matches) =>
        match TabChoice(matches, TabPrefix(token))
        case None => Unchanged
        case Some(name) => Completed(Placed(token, name))
  }

  /** The line after Tab: a completion replaces the token and the cursor follows it; otherwise nothing changes. */
  function AfterTab(e: EditState, o: TabOutcome): (r: EditState)
    requires e.Valid()
    ensures r.Valid()
  {
    if o.Completed? then
      var start := WordRunStart(e.buffer, e.cursor);
      EditState(e.buffer[..start] + o.text + e.buffer[e.cursor..], start + |o.text|)
    else e
  }

  /** The listing step of `handle_tab_completion`, by the kind of token. */
  method LookUpMatches(fs: FileSystem, token: string, start: nat) returns (r: Option<seq<string>>)
    ensures r == TabMatches(fs, token, start)
  {
    if '/' in token {
      var DirPrefix(dir, prefix) := SplitDirPrefix(token).value;
      r := ListDirMatches(fs, dir, prefix);
    } else if start == 0 {
      var commands := ListPathCommands(fs, token);
      r := Some(commands);
    } else {
      r := ListDirMatches(fs, ".", token);
    }
  }

  /** The choosing step of `handle_tab_completion`: `common_prefix`, then the two tests on it. */
  method Choose(matches: seq<string>, typed: string) returns (r: Option<string>)
    requires forall m :: m in matches ==> typed <= m
    ensures r == TabChoice(matches, typed)
  {
    if matches == [] {
      return None;
    }
    var common := CommonPrefix(matches);
    if ByteLen(common) > ByteLen(typed) {
      r := Some(common);
    } else if |matches| == 1 {
      r := Some(matches[0]);
    } else {
      r := None;
    }
  }

  /**
   * What Tab promises: an empty token leaves the line alone; an unreadable
   * directory, and only that, fails; a completion keeps what was typed and
   * extends it to a name every match starts with, one that is longer than the
   * typed part or is the sole match.
   */
  lemma TabCompletionMeaning(e: EditState, fs: FileSystem)
    requires e.Valid()
    ensures var start := WordRunStart(e.buffer, e.cursor);
      var token := e.buffer[start..e.cursor];
      var o := TabCompletion(e, fs);
      (token == [] ==> o == Unchanged) &&
      (o == ReadFailed <==> token != [] && TabMatches(fs, token, start).None?) &&
      (o.Completed? ==>
        token <= o.text &&
        exists name :: o.text == Placed(token, name) && TabPrefix(token) <= name &&
          (|name| > |TabPrefix(token)| || TabMatches(fs, token, start) == Some([name])) &&
          forall m :: m in TabMatches(fs, token, start).value ==> name <= m)
  {
    var start := WordRunStart(e.buffer, e.cursor);
    var token := e.buffer[start..e.cursor];
    var o := TabCompletion(e, fs);
    if o.Completed? {
      var matches := TabMatches(fs, token, start).value;
      var name := TabChoice(matches, TabPrefix(token)).value;
      assert o.text == Placed(token, name);
      forall m | m in matches ensures name <= m {
        var j :| 0 <= j < |matches| && matches[j] == m;
      }
    }
  }

  /**
   * When Tab changes nothing and what it puts in: the line stays as it is
   * exactly for an empty token, no match, or several matches that share nothing
   * beyond the typed part; otherwise the token becomes the matches' longest
   * common prefix, placed after the token's directory for a path.
   */
  lemma TabCompletionDecides(e: EditState, fs: FileSystem)
    requires e.Valid()
    ensures var start := WordRunStart(e.buffer, e.cursor);
      var token := e.buffer[start..e.cursor];
      var o := TabCompletion(e, fs);
      var found := TabMatches(fs, token, start);
      (o == Unchanged <==>
        token == [] ||
        (found.Some? && (found.value == [] || (|found.value| > 1 && CommonPrefixOf(found.value) == TabPrefix(token))))) &&
      (o.Completed? ==> found.Some? && o.text == Placed(token, CommonPrefixOf(found.value)))
  {
    var start := WordRunStart(e.buffer, e.cursor);
    var token := e.buffer[start..e.cursor];
    if token != [] && TabMatches(fs, token, start).Some? {
      var matches := TabMatches(fs, token, start).value;
      var choice := TabChoice(matches, TabPrefix(token));
      assert TabCompletion(e, fs) == if choice.None? then Unchanged else Completed(Placed(token, choice.value));
    }
  }

  /** Placing a token's own completable part back gives the token. */
  lemma PlacedPrefixIsToken(token: string)
    ensures Placed(token, TabPrefix(token)) == token
  {
    if '/' in token {
      var i := LastIndexOf(token, '/').value;
      assert token == token[..i + 1] + SplitDirPrefix(token).value.prefix;
    }
  }

  /** A token that already is its sole match, after any directory part, leaves the line as it was. */
  lemma TabSoleMatchIsToken(e: EditState, fs: FileSystem)
    requires e.Valid()
    requires var start := WordRunStart(e.buffer, e.cursor);
      var token := e.buffer[start..e.cursor];
      start < e.cursor && TabMatches(fs, token, start) == Some([TabPrefix(token)])
    ensures AfterTab(e, TabCompletion(e, fs)) == e
  {
    var start := WordRunStart(e.buffer, e.cursor);
    var token := e.buffer[start..e.cursor];
    TabSoleMatch(e, fs, TabPrefix(token));
    PlacedPrefixIsToken(token);
    var o := TabCompletion(e, fs);
    assert o == Completed(token);
    ThreeSlices(e.buffer, start, e.cursor);
  }

  /** Cutting a string at two positions and gluing the pieces back gives the string. */
  lemma ThreeSlices(s: string, i: nat, j: nat)
    requires i <= j <= |s|
    ensures s[..i] + s[i..j] + s[j..] == s
  {
    assert s[..i] + s[i..j] == s[..j];
  }

  /** A sole match is always taken, whether or not it is longer than what was typed. */
  lemma TabSoleMatch(e: EditState, fs: FileSystem, m: string)
    requires e.Valid()
    requires var start := WordRunStart(e.buffer, e.cursor);
      start < e.cursor && TabMatches(fs, e.buffer[start..e.cursor], start) == Some([m])
    ensures var start := WordRunStart(e.buffer, e.cursor);
      TabCompletion(e, fs) == Completed(Placed(e.buffer[start..e.cursor], m))
  {
  }

  /** Several matches that share nothing beyond what was typed leave the line alone. */
  lemma TabAmbiguous(e: EditState, fs: FileSystem, matches: seq<string>)
    requires e.Valid()
    requires var start := WordRunStart(e.buffer, e.cursor);
      start < e.cursor && TabMatches(fs, e.buffer[start..e.cursor], start) == Some(matches) &&
      |matches| > 1 && IsLongestCommonPrefix(TabPrefix(e.buffer[start..e.cursor]), matches)
    ensures TabCompletion(e, fs) == Unchanged
  {
    var start := WordRunStart(e.buffer, e.cursor);
    LongestCommonPrefixUnique(TabPrefix(e.buffer[start..e.cursor]), CommonPrefixOf(matches), matches);
  }

  /**
   * The token start as `handle_tab_completion` computes it: `rfind` gives the
   * byte offset where the last whitespace character before the cursor starts,
   * and the token starts one byte later. Slicing the buffer there panics unless
   * that byte is a character boundary, that is unless the whitespace character
   * takes one byte; None stands for the panic, Some for the character position.
   */
  function TabTokenStartAsWritten(s: string, cursor: nat): Option<nat>
    requires cursor <= |s|
  {
    var j := WordRunStart(s, cursor);
    if j == 0 then Some(0)
    else
      var b := ByteLen(s[..j - 1]) + 1;
      if b == ByteLen(s[..j]) then Some(j) else None
  }

  /** Where the whitespace before the token is a one-byte character, the as-written start is `WordRunStart`. */
  lemma TabTokenStartAgrees(s: string, cursor: nat)
    requires cursor <= |s|
    requires var j := WordRunStart(s, cursor); j == 0 || s[j - 1] < '\U{80}'
    ensures TabTokenStartAsWritten(s, cursor) == Some(WordRunStart(s, cursor))
  {
    var j := WordRunStart(s, cursor);
    if j > 0 {
      assert s[..j] == s[..j - 1] + [s[j - 1]];
      ByteLenAppend(s[..j - 1], [s[j - 1]]);
    }
  }

  /** "ls\u{A0}fo" with the cursor at the end: the as-written start falls inside U+00A0 and panics. */
  lemma TabTokenStartAsWrittenPanics()
    ensures WordRunStart("ls\U{A0}fo", 5) == 3
    ensures TabTokenStartAsWritten("ls\U{A0}fo", 5) == None
  {
    var s := "ls\U{A0}fo";
    assert IsWhitespace(s[2]) && !IsWhitespace(s[3]) && !IsWhitespace(s[4]);
    assert WordRunStart(s, 5) == 3;
    assert s[..2] == "ls" && s[..3] == "ls\U{A0}";
    assert ByteLen("ls") == 2;
    assert ByteLen("ls\U{A0}") == 4;
  }

  // ---------------------------------------------------------------------
  // The editor
  // ---------------------------------------------------------------------

  /** `src/input.rs` is what the shell runs; `src/editor/core.rs` is the copy with Tab completion. */
  datatype Edition = Live | EditorCopy

  datatype TabOutcome = Unchanged | Completed(text: string) | ReadFailed

  datatype KeyOutcome = Continue | Submit | Cancel | Quit | Failed

  /** What `read_line` ends with: a line, the Ctrl-D exit, an I/O error, or no more events. */
  datatype LineResult = Line(text: string) | Exit | IoError | OutOfInput

  /** The characters of a run of typing events. */
  function Typed(events: seq<Event>): (r: string)
    requires forall i :: 0 <= i < |events| ==> Classify(events[i]).InsertChar?
    ensures |r| == |events|
    ensures forall i :: 0 <= i < |events| ==> r[i] == Classify(events[i]).c
  {
    if events == [] then [] else Typed(events[..|events| - 1]) + [Classify(events[|events| - 1]).c]
  }

  /** Each of the first `n` events types a character. */
  predicate AllTyped(events: seq<Event>, n: nat) {
    n <= |events| && forall i :: 0 <= i < n ==> Classify(events[i]).InsertChar?
  }

  /** The first `n` events type characters and event `n` is Enter. */
  predicate TypesThenSubmits(events: seq<Event>, n: nat) {
    n < |events| && AllTyped(events, n) && Classify(events[n]) == SubmitLine
  }

  /** One more typing event appends its character. */
  lemma TypedStep(events: seq<Event>, i: nat)
    requires AllTyped(events, i + 1)
    ensures AllTyped(events, i)
    ensures Typed(events[..i + 1]) == Typed(events[..i]) + [Classify(events[i]).c]
  {
    assert events[..i + 1][..i] == events[..i];
  }

  /** Scanning from the front, the first Enter of a typing run is reached at its own index. */
  lemma FirstSubmit(events: seq<Event>, i: nat, n: nat)
    requires TypesThenSubmits(events, n) && i <= n
    ensures Classify(events[i]) == SubmitLine ==> i == n
    ensures i < n ==> Classify(events[i]).InsertChar?
  {
  }

  // ---------------------------------------------------------------------
  // One key, and `read_line`, on values
  // ---------------------------------------------------------------------

  /** What keys can change: the line, the editor's history index and the history position. */
  datatype EditorState = EditorState(edit: EditState, historyIndex: Option<nat>, position: nat)

  /** Each pass of `read_line`'s outer loop starts from an empty line and no history index. */
  function Restarted(s: EditorState): EditorState {
    EditorState(EditState([], 0), None, s.position)
  }

  /**
   * One key on values: its outcome and the state after it, given the history
   * list `commands` (which keys never change) and the file system for Tab.
   */
  function KeyStep(a: Action, s: EditorState, commands: seq<string>, fs: FileSystem, edition: Edition): (r: (KeyOutcome, EditorState))
    requires s.edit.Valid() && s.position <= |commands|
    ensures r.1.edit.Valid() && r.1.position <= |commands|
    ensures r.0 == Submit <==> a == SubmitLine
    ensures r.0 == Cancel <==> a == CancelLine
    ensures r.0 == Quit <==> a == EndOfFile && s.edit.buffer == []
    ensures r.0 == Failed <==> a == TabComplete && edition == EditorCopy && TabCompletion(s.edit, fs) == ReadFailed
    ensures r.0 != Continue ==> r.1.position == s.position && r.1.historyIndex == s.historyIndex
    ensures a != HistoryBack && a != HistoryForward ==> r.1.position == s.position && r.1.historyIndex == s.historyIndex
  {
    var e := s.edit;
    match a
    case SubmitLine => (Submit, s)
    case RemoveBefore => (Continue, s.(edit := Backspaced(e)))
    case RemoveAt => (Continue, s.(edit := Deleted(e)))
    case CursorLeft => (Continue, s.(edit := EditState(e.buffer, if e.cursor > 0 then e.cursor - 1 else 0)))
    case CursorRight => (Continue, s.(edit := EditState(e.buffer, if e.cursor < |e.buffer| then e.cursor + 1 else e.cursor)))
    case HistoryBack =>
      if s.position > 0 then (Continue, s.(edit := Recalled(commands[s.position - 1]), position := s.position - 1))
      else (Continue, s)
    case HistoryForward =>
      if s.position + 1 < |commands| then (Continue, s.(edit := Recalled(commands[s.position + 1]), position := s.position + 1))
      else (Continue, EditorState(EditState([], 0), None, |commands|))
    case CursorHome => (Continue, s.(edit := EditState(e.buffer, 0)))
    case CursorEnd => (Continue, s.(edit := EditState(e.buffer, |e.buffer|)))
    case TabComplete =>
      if edition == EditorCopy then
        var o := TabCompletion(e, fs);
        if o == ReadFailed then (Failed, s) else (Continue, s.(edit := AfterTab(e, o)))
      else (Continue, s)
    case KillEnd => (Continue, s.(edit := KilledToEnd(e)))
    case KillStart => (Continue, s.(edit := KilledToStart(e)))
    case KillWord => (Continue, s.(edit := WordDeleted(e)))
    case ClearScreen => (Continue, s)
    case CancelLine => (Cancel, s.(edit := EditState([], 0)))
    case EndOfFile => (if e.buffer == [] then Quit else Continue, s)
    case Bell => (Continue, s)
    case SwapChars => (Continue, s.(edit := Transposed(e)))
    case InsertChar(c) => (Continue, s.(edit := Inserted(e, c)))
    case Ignored => (Continue, s)
  }

  /** Enter, Ctrl-D and a live-edition Tab leave the line alone, Ctrl-C empties it, a character is inserted. */
  lemma KeyStepLine(a: Action, s: EditorState, commands: seq<string>, fs: FileSystem, edition: Edition)
    requires s.edit.Valid() && s.position <= |commands|
    ensures var e := KeyStep(a, s, commands, fs, edition).1.edit;
      (a == SubmitLine || a == EndOfFile || (a == TabComplete && edition == Live) ==> e == s.edit) &&
      (a == CancelLine ==> e == EditState([], 0)) &&
      (a.InsertChar? ==> e == Inserted(s.edit, a.c))
  {
  }

  /**
   * The arms that move the cursor or recall history: the cursor moves by one
   * within the line or to one end, keeping the text; Up and Down step the
   * history position and load that entry with the cursor at its end, and Down
   * past the newest entry clears the line; Ctrl-L, the bell and unbound keys
   * change nothing.
   */
  lemma KeyStepMoves(a: Action, s: EditorState, commands: seq<string>, fs: FileSystem, edition: Edition)
    requires s.edit.Valid() && s.position <= |commands|
    ensures var t := KeyStep(a, s, commands, fs, edition).1;
      var b := s.edit.buffer;
      var c := s.edit.cursor;
      (a == CursorLeft ==> t.edit.buffer == b && t.edit.cursor == (if c == 0 then 0 else c - 1)) &&
      (a == CursorRight ==> t.edit.buffer == b && t.edit.cursor == (if c == |b| then c else c + 1)) &&
      (a == CursorHome ==> t.edit.buffer == b && t.edit.cursor == 0) &&
      (a == CursorEnd ==> t.edit.buffer == b && t.edit.cursor == |b|) &&
      (a == HistoryBack && s.position > 0 ==>
        t.position == s.position - 1 && t.edit.buffer == commands[t.position] && t.edit.cursor == |t.edit.buffer|) &&
      (a == HistoryBack && s.position == 0 ==> t == s) &&
      (a == HistoryForward && s.position + 1 < |commands| ==>
        t.position == s.position + 1 && t.edit.buffer == commands[t.position] && t.edit.cursor == |t.edit.buffer|) &&
      (a == HistoryForward && s.position + 1 >= |commands| ==>
        t.position == |commands| && t.edit == EditState([], 0) && t.historyIndex.None?) &&
      (a == ClearScreen || a == Bell || a == Ignored ==> t == s)
  {
  }

  /**
   * The arms that edit: each gives the state its own function describes, and
   * Tab in the copy, when the directory can be read, gives the completed line.
   */
  lemma KeyStepEdits(a: Action, s: EditorState, commands: seq<string>, fs: FileSystem, edition: Edition)
    requires s.edit.Valid() && s.position <= |commands|
    ensures var t := KeyStep(a, s, commands, fs, edition).1.edit;
      var e := s.edit;
      (a == RemoveBefore ==> t == Backspaced(e)) &&
      (a == RemoveAt ==> t == Deleted(e)) &&
      (a == KillEnd ==> t == KilledToEnd(e)) &&
      (a == KillStart ==> t == KilledToStart(e)) &&
      (a == KillWord ==> t == WordDeleted(e)) &&
      (a == SwapChars ==> t == Transposed(e)) &&
      (a == TabComplete && edition == EditorCopy && TabCompletion(e, fs) != ReadFailed ==>
        t == AfterTab(e, TabCompletion(e, fs)))
  {
  }

  /** How `read_line` ends: the result, how many events it consumed, and the state it leaves. */
  datatype LineRun = LineRun(result: LineResult, used: nat, final: EditorState)

  /**
   * `read_line` on values, from event `i` and state `s`. Enter returns the line;
   * Ctrl-C returns the empty line in the live edition and starts a new pass in
   * the copy; Ctrl-D on an empty line exits; a Tab whose directory cannot be
   * read is an I/O error; running out of events is `OutOfInput`.
   */
  function RunLine(events: seq<Event>, i: nat, s: EditorState, commands: seq<string>, fs: FileSystem, edition: Edition): (r: LineRun)
    requires i <= |events| && s.edit.Valid() && s.position <= |commands|
    ensures i <= r.used <= |events| && r.final.edit.Valid() && r.final.position <= |commands|
    ensures r.result.Line? ==> r.result.text == r.final.edit.buffer && r.used > i
    ensures r.result == Exit ==> r.final.edit.buffer == [] && r.used > i
    ensures r.result == IoError ==> edition == EditorCopy && r.used > i
    ensures r.result == OutOfInput ==> r.used == |events|
    decreases |events| - i
  {
    if i == |events| then LineRun(OutOfInput, |events|, s)
    else
      var (k, t) := KeyStep(Classify(events[i]), s, commands, fs, edition);
      match k
      case Submit => LineRun(Line(t.edit.buffer), i + 1, t)
      case Cancel =>
        if edition == Live then LineRun(Line(t.edit.buffer), i + 1, t)
        else RunLine(events, i + 1, Restarted(t), commands, fs, edition)
      case Quit => LineRun(Exit, i + 1, t)
      case Failed => LineRun(IoError, i + 1, t)
      case Continue => RunLine(events, i + 1, t, commands, fs, edition)
  }

  /** Typing characters and then Enter returns exactly the typed characters, having consumed up to the Enter. */
  lemma {:induction false} RunLineTyped(events: seq<Event>, i: nat, n: nat, s: EditorState, commands: seq<string>, fs: FileSystem, edition: Edition)
    requires TypesThenSubmits(events, n) && i <= n
    requires s.edit == EditState(Typed(events[..i]), i) && s.position <= |commands|
    ensures var r := RunLine(events, i, s, commands, fs, edition);
      r.result == Line(Typed(events[..n])) && r.used == n + 1
    decreases n - i
  {
    FirstSubmit(events, i, n);
    if i < n {
      TypedStep(events, i);
      var t := KeyStep(Classify(events[i]), s, commands, fs, edition).1;
      assert t.edit == EditState(Typed(events[..i + 1]), i + 1);
      RunLineTyped(events, i + 1, n, t, commands, fs, edition);
    }
  }

  /** In the live edition a Ctrl-C as the first key returns the empty line at once. */
  lemma RunLineLiveCancel(events: seq<Event>, s: EditorState, commands: seq<string>, fs: FileSystem)
    requires events != [] && Classify(events[0]) == CancelLine && s.edit.Valid() && s.position <= |commands|
    ensures var r := RunLine(events, 0, s, commands, fs, Live);
      r.result == Line([]) && r.used == 1
  {
  }

  /** One key of `RunLine`: the run from event `i` is the key's own end, or the run from event `i + 1`. */
  lemma RunLineStep(events: seq<Event>, i: nat, s: EditorState, commands: seq<string>, fs: FileSystem, edition: Edition,
                    k: KeyOutcome, t: EditorState)
    requires i < |events| && s.edit.Valid() && s.position <= |commands|
    requires (k, t) == KeyStep(Classify(events[i]), s, commands, fs, edition)
    ensures t.edit.Valid() && t.position <= |commands|
    ensures var r := RunLine(events, i, s, commands, fs, edition);
      (k == Submit ==> r == LineRun(Line(t.edit.buffer), i + 1, t)) &&
      (k == Cancel && edition == Live ==> r == LineRun(Line(t.edit.buffer), i + 1, t)) &&
      (k == Cancel && edition == EditorCopy ==> r == RunLine(events, i + 1, Restarted(t), commands, fs, edition)) &&
      (k == Quit ==> r == LineRun(Exit, i + 1, t)) &&
      (k == Failed ==> r == LineRun(IoError, i + 1, t)) &&
      (k == Continue ==> r == RunLine(events, i + 1, t, commands, fs, edition))
  {
  }

  /** What a whole run from a fresh start promises for typing followed by Enter, and for a live Ctrl-C first. */
  lemma RunLineFromStart(events: seq<Event>, s: EditorState, commands: seq<string>, fs: FileSystem, edition: Edition)
    requires s.edit == EditState([], 0) && s.position <= |commands|
    ensures var r := RunLine(events, 0, s, commands, fs, edition);
      (forall n: nat :: TypesThenSubmits(events, n) ==> r.result == Line(Typed(events[..n])) && r.used == n + 1) &&
      (edition == Live && events != [] && Classify(events[0]) == CancelLine ==> r.result == Line([]) && r.used == 1)
  {
    forall n: nat | TypesThenSubmits(events, n)
      ensures RunLine(events, 0, s, commands, fs, edition).result == Line(Typed(events[..n]))
      ensures RunLine(events, 0, s, commands, fs, edition).used == n + 1
    {
      assert events[..0] == [];
      RunLineTyped(events, 0, n, s, commands, fs, edition);
    }
    if edition == Live && events != [] && Classify(events[0]) == CancelLine {
      RunLineLiveCancel(events, s, commands, fs);
    }
  }

  /** In the copy, Ctrl-C discards the line and reads on as if the pass had just begun. */
  lemma RunLineCopyCancel(events: seq<Event>, i: nat, s: EditorState, commands: seq<string>, fs: FileSystem)
    requires i < |events| && Classify(events[i]) == CancelLine && s.edit.Valid() && s.position <= |commands|
    ensures RunLine(events, i, s, commands, fs, EditorCopy) == RunLine(events, i + 1, Restarted(s), commands, fs, EditorCopy)
  {
  }

  class LineEditor {
    var buffer: string
    var cursor: nat
    var historyIndex: Option<nat>

    predicate Valid()
      reads this
    {
      cursor <= |buffer|
    }

    function State(): EditState
      reads this
    {
      EditState(buffer, cursor)
    }

    /** The editor's state together with the position of `history`. */
    function Snapshot(history: History): EditorState
      reads this, history
    {
      EditorState(State(), historyIndex, history.position)
    }

    /** `LineEditor::new`: empty buffer, cursor 0, no history index. */
    constructor ()
      ensures Valid() && buffer == [] && cursor == 0 && historyIndex == None
    {
      buffer := [];
      cursor := 0;
      historyIndex := None;
    }

    /** The start of `read_line`: whatever the previous line left behind is discarded. */
    method Reset()
      modifies this
      ensures Valid() && buffer == [] && cursor == 0 && historyIndex == None
    {
      buffer := [];
      cursor := 0;
      historyIndex := None;
    }

    method InsertChar(c: char)
      requires Valid()
      modifies this
      ensures Valid() && State() == Inserted(old(State()), c) && historyIndex == old(historyIndex)
    {
      buffer := buffer[..cursor] + [c] + buffer[cursor..];
      cursor := cursor + 1;
    }

    method DeleteBefore()
      requires Valid()
      modifies this
      ensures Valid() && State() == Backspaced(old(State())) && historyIndex == old(historyIndex)
    {
      if cursor > 0 {
        cursor := cursor - 1;
        buffer := buffer[..cursor] + buffer[cursor + 1..];
      }
    }

    method DeleteAt()
      requires Valid()
      modifies this
      ensures Valid() && State() == Deleted(old(State())) && historyIndex == old(historyIndex)
    {
      if cursor < |buffer| {
        buffer := buffer[..cursor] + buffer[cursor + 1..];
      }
    }

    method MoveLeft()
      requires Valid()
      modifies this
      ensures Valid() && buffer == old(buffer) && historyIndex == old(historyIndex)
      ensures cursor == if old(cursor) > 0 then old(cursor) - 1 else 0
    {
      if cursor > 0 {
        cursor := cursor - 1;
      }
    }

    /** Right, bounded by the character count (see `RightAsWritten` for the byte-length bound). */
    method MoveRight()
      requires Valid()
      modifies this
      ensures Valid() && buffer == old(buffer) && historyIndex == old(historyIndex)
      ensures cursor == if old(cursor) < |buffer| then old(cursor) + 1 else old(cursor)
    {
      if cursor < |buffer| {
        cursor := cursor + 1;
      }
    }

    /** Home and Ctrl-A. */
    method MoveHome()
      requires Valid()
      modifies this
      ensures Valid() && buffer == old(buffer) && cursor == 0 && historyIndex == old(historyIndex)
    {
      cursor := 0;
    }

    /** End and Ctrl-E: the cursor goes to the character count. */
    method MoveEnd()
      requires Valid()
      modifies this
      ensures Valid() && buffer == old(buffer) && cursor == |buffer| && historyIndex == old(historyIndex)
    {
      cursor := |buffer|;
    }

    /** Ctrl-K: truncation at the byte offset of the cursor keeps the characters before it. */
    method KillToEnd()
      requires Valid()
      modifies this
      ensures Valid() && State() == KilledToEnd(old(State())) && historyIndex == old(historyIndex)
    {
      buffer := buffer[..cursor];
    }

    /** Ctrl-U: draining up to the byte offset of the cursor removes the characters before it. */
    method KillToStart()
      requires Valid()
      modifies this
      ensures Valid() && State() == KilledToStart(old(State())) && historyIndex == old(historyIndex)
    {
      buffer := buffer[cursor..];
      cursor := 0;
    }

    /** Ctrl-W, with the two backward scans of the source. */
    method DeleteWordBefore()
      requires Valid()
      modifies this
      ensures Valid() && State() == WordDeleted(old(State())) && historyIndex == old(historyIndex)
    {
      if cursor > 0 {
        var wordEnd: nat := cursor;
        while wordEnd > 0
          invariant wordEnd <= cursor
          invariant SpaceRunStart(buffer, wordEnd) == SpaceRunStart(buffer, cursor)
        {
          if !IsWhitespace(buffer[wordEnd - 1]) {
            break;
          }
          wordEnd := wordEnd - 1;
        }
        var wordStart: nat := wordEnd;
        while wordStart > 0
          invariant wordStart <= wordEnd
          invariant WordRunStart(buffer, wordStart) == WordRunStart(buffer, wordEnd)
        {
          if IsWhitespace(buffer[wordStart - 1]) {
            break;
          }
          wordStart := wordStart - 1;
        }
        buffer := buffer[..wordStart] + buffer[wordEnd..];
        cursor := wordStart;
      }
    }

    /** Ctrl-T, corrected (see `TransposedAsWritten` for the source's edit). */
    method Transpose()
      requires Valid()
      modifies this
      ensures Valid() && State() == Transposed(old(State())) && historyIndex == old(historyIndex)
    {
      if cursor > 0 && cursor < |buffer| {
        var left, right := buffer[cursor - 1], buffer[cursor];
        buffer := buffer[..cursor - 1] + [right, left] + buffer[cursor + 1..];
        cursor := cursor + 1;
      }
    }

    /** Up: the previous history entry, if any, replaces the line. */
    method RecallPrevious(history: History)
      requires Valid() && history.Valid()
      modifies this, history
      ensures Valid() && history.Valid() && history.commands == old(history.commands)
      ensures historyIndex == old(historyIndex)
      ensures old(history.position) == 0 ==> State() == old(State()) && history.position == 0
      ensures old(history.position) > 0 ==>
        history.position == old(history.position) - 1 && State() == Recalled(history.commands[history.position])
    {
      var entry := history.Previous();
      if entry.Some? {
        buffer := entry.value;
        cursor := |buffer|;
      }
    }

    /** Down: the next history entry replaces the line; past the newest, the line is cleared. */
    method RecallNext(history: History)
      requires Valid() && history.Valid()
      modifies this, history
      ensures Valid() && history.Valid() && history.commands == old(history.commands)
      ensures old(history.position) + 1 < |history.commands| ==>
        history.position == old(history.position) + 1 &&
        State() == Recalled(history.commands[history.position]) && historyIndex == old(historyIndex)
      ensures old(history.position) + 1 >= |history.commands| ==>
        history.position == |history.commands| && buffer == [] && cursor == 0 && historyIndex == None
    {
      var entry := history.Next();
      if entry.Some? {
        buffer := entry.value;
        cursor := |buffer|;
      } else {
        buffer := [];
        cursor := 0;
        historyIndex := None;
      }
    }

    /** Replaces `buffer[start..cursor]` with `text` and puts the cursor after it. */
    method Splice(start: nat, text: string)
      requires Valid() && start <= cursor
      modifies this
      ensures Valid() && historyIndex == old(historyIndex)
      ensures buffer == old(buffer)[..start] + text + old(buffer)[old(cursor)..] && cursor == start + |text|
    {
      buffer := buffer[..start] + text + buffer[cursor..];
      cursor := start + |text|;
    }

    /**
     * Tab in `src/editor/core.rs`: the token runs from just after the last
     * whitespace before the cursor up to the cursor. A token with '/' is
     * completed against its directory, the first word of the line against the
     * executables on PATH, any other word against the current directory. A
     * longer common prefix of the matches, or else a sole match, replaces the
     * token; otherwise nothing changes. A directory that cannot be read is an
     * I/O error, which ends `read_line`.
     */
    method Complete(fs: FileSystem) returns (o: TabOutcome)
      requires Valid()
      modifies this
      ensures o == TabCompletion(old(State()), fs) && State() == AfterTab(old(State()), o)
      ensures Valid() && historyIndex == old(historyIndex)
      ensures !o.Completed? ==> buffer == old(buffer) && cursor == old(cursor)
      ensures WordRunStart(old(buffer), old(cursor)) == old(cursor) ==> o == Unchanged
      ensures o.Completed? ==>
        var start := WordRunStart(old(buffer), old(cursor));
        old(buffer)[start..old(cursor)] <= o.text &&
        buffer == old(buffer)[..start] + o.text + old(buffer)[old(cursor)..] && cursor == start + |o.text|
    {
      ghost var before := State();
      TabCompletionMeaning(before, fs);
      var start := WordRunStart(buffer, cursor);
      var token := buffer[start..cursor];
      if token == [] {
        return Unchanged;
      }
      var listed := LookUpMatches(fs, token, start);
      if listed.None? {
        return ReadFailed;
      }
      var choice := Choose(listed.value, TabPrefix(token));
      if choice.None? {
        return Unchanged;
      }
      var text := Placed(token, choice.value);
      Splice(start, text);
      o := Completed(text);
    }

    /**
     * One key, handled by the arm `Classify` picks: outcome and new state are
     * those of `KeyStep`, whose contract, `KeyStepLine`, `KeyStepMoves` and
     * `KeyStepEdits` say what each arm promises. Ctrl-C clears the line;
     * `ReadLine` decides what follows.
     */
    method Apply(a: Action, history: History, fs: FileSystem, edition: Edition) returns (k: KeyOutcome)
      requires Valid() && history.Valid()
      modifies this, history
      ensures (k, Snapshot(history)) == KeyStep(a, old(Snapshot(history)), old(history.commands), fs, edition)
      ensures Valid() && history.Valid() && history.commands == old(history.commands)
    {
      if a == HistoryBack || a == HistoryForward {
        k := Continue;
        if a == HistoryBack {
          RecallPrevious(history);
        } else {
          RecallNext(history);
        }
      } else {
        k := ApplyToLine(a, history, fs, edition);
      }
    }

    /** The arms of `Apply` that leave the history alone. */
    method ApplyToLine(a: Action, history: History, fs: FileSystem, edition: Edition) returns (k: KeyOutcome)
      requires Valid() && history.Valid()
      requires a != HistoryBack && a != HistoryForward
      modifies this
      ensures (k, Snapshot(history)) == KeyStep(a, old(Snapshot(history)), history.commands, fs, edition)
      ensures Valid()
    {
      k := Continue;
      match a
      case SubmitLine => k := Submit;
      case TabComplete =>
        if edition == EditorCopy {
          var t := Complete(fs);
          if t == ReadFailed {
            k := Failed;
          }
        }
      case CancelLine =>
        buffer := [];
        cursor := 0;
        k := Cancel;
      case EndOfFile =>
        if buffer == [] {
          k := Quit;
        }
      case RemoveBefore | RemoveAt | CursorLeft | CursorRight | CursorHome | CursorEnd | KillEnd | KillStart | KillWord
        | ClearScreen | Bell | SwapChars | InsertChar(_) | Ignored =>
        Edit(a, history, fs, edition);
    }

    /** The arms of `Apply` that only edit the line or move the cursor. */
    method Edit(a: Action, history: History, fs: FileSystem, edition: Edition)
      requires Valid() && history.Valid()
      requires !(a.HistoryBack? || a.HistoryForward? || a.SubmitLine? || a.TabComplete? || a.CancelLine? || a.EndOfFile?)
      modifies this
      ensures (Continue, Snapshot(history)) == KeyStep(a, old(Snapshot(history)), history.commands, fs, edition)
      ensures Valid()
    {
      match a
      case RemoveBefore => DeleteBefore();
      case RemoveAt => DeleteAt();
      case CursorLeft => MoveLeft();
      case CursorRight => MoveRight();
      case CursorHome => MoveHome();
      case CursorEnd => MoveEnd();
      case KillEnd => KillToEnd();
      case KillStart => KillToStart();
      case KillWord => DeleteWordBefore();
      case ClearScreen =>
      case Bell =>
      case SwapChars => Transpose();
      case InsertChar(c) => InsertChar(c);
      case Ignored =>
    }

    /**
     * `read_line` over the events the terminal delivers. Returns the result and
     * how many events it consumed. Enter returns the line; Ctrl-C returns the
     * empty line in the live edition and starts over in the copy; Ctrl-D on an
     * empty line exits.
     */
    method ReadLine(events: seq<Event>, history: History, fs: FileSystem, edition: Edition)
      returns (r: LineResult, used: nat)
      requires history.Valid()
      modifies this, history
      ensures LineRun(r, used, Snapshot(history)) ==
        RunLine(events, 0, Restarted(old(Snapshot(history))), old(history.commands), fs, edition)
      ensures Valid() && history.Valid() && history.commands == old(history.commands) && used <= |events|
      ensures r.Line? ==> r.text == buffer && used > 0
      ensures r == Exit ==> buffer == []
      ensures r == IoError ==> edition == EditorCopy
      ensures r == OutOfInput ==> used == |events|
      ensures forall n: nat :: TypesThenSubmits(events, n) ==> r == Line(Typed(events[..n])) && used == n + 1
      ensures edition == Live && events != [] && Classify(events[0]) == CancelLine ==> r == Line([]) && used == 1
    {
      Reset();
      ghost var start := Snapshot(history);
      r, used := ReadEvents(events, history, fs, edition);
      ghost var run := RunLine(events, 0, start, history.commands, fs, edition);
      assert r == run.result && used == run.used && buffer == run.final.edit.buffer;
      RunLineFromStart(events, start, history.commands, fs, edition);
    }

    /** The event loop of `read_line`, from the current line: it computes `RunLine`. */
    method ReadEvents(events: seq<Event>, history: History, fs: FileSystem, edition: Edition)
      returns (r: LineResult, used: nat)
      requires Valid() && history.Valid()
      modifies this, history
      ensures LineRun(r, used, Snapshot(history)) == RunLine(events, 0, old(Snapshot(history)), old(history.commands), fs, edition)
      ensures Valid() && history.Valid() && history.commands == old(history.commands)
    {
      ghost var commands := history.commands;
      ghost var run := RunLine(events, 0, Snapshot(history), commands, fs, edition);
      r, used := OutOfInput, |events|;
      var i := 0;
      var reading := true;
      while reading && i < |events|
        invariant i <= |events| && Valid() && history.Valid() && history.commands == commands
        invariant reading ==> RunLine(events, i, Snapshot(history), commands, fs, edition) == run
        invariant reading ==> r == OutOfInput && used == |events|
        invariant !reading ==> LineRun(r, used, Snapshot(history)) == run
      {
        ghost var s := Snapshot(history);
        var k := Apply(Classify(events[i]), history, fs, edition);
        RunLineStep(events, i, s, commands, fs, edition, k, Snapshot(history));
        if k == Submit {
          r, used, reading := Line(buffer), i + 1, false;
        } else if k == Cancel && edition == Live {
          r, used, reading := Line(buffer), i + 1, false;
        } else if k == Cancel {
          Reset();
        } else if k == Quit {
          r, used, reading := Exit, i + 1, false;
        } else if k == Failed {
          r, used, reading := IoError, i + 1, false;
        }
        i := i + 1;
      }
    }
  }
}
