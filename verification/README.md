# rshell, modelled in Dafny

This project models the core of rshell, a small interactive Unix shell
written in Rust. It covers:

- the line editor: key handling on a character buffer and a cursor, history
  recall, and Tab completion in the editor copy;
- the completion helpers: splitting a path, listing directory entries and
  PATH executables, and the longest common prefix;
- the command history, with its cursor and search;
- `Command::parse`, and the value `execute` returns;
- the quote-aware tokenizer, and the way `ParsedCommand::parse` pairs
  redirection operators with their targets;
- `parse_pipeline`;
- `$NAME` expansion;
- the background job table;
- the top level of the shell: joining continued lines, what `run` does with
  a line, and what `fg` and `bg` do to the job table.

The model has one module per source file:

| module | models |
|---|---|
| `LineEdit` | `src/input.rs` and `src/editor/core.rs` |
| `Completion` | `src/editor/completion.rs` |
| `HistoryCursor` | `src/history.rs` |
| `Commands` | `src/command.rs` |
| `Redirects` | `src/redirects.rs` |
| `Pipes` | `src/pipes.rs` |
| `Variables` | `src/variables.rs` |
| `Jobs` | `src/jobs.rs` |
| `ShellLoop` | `src/shell.rs` |

Three modules support the others:

- `Text` has Rust's string operations (`trim`, `split_whitespace`,
  `split`, `contains`) and UTF-8 byte lengths;
- `Ordering` has the string order and `sort`/`dedup`;
- `Wrappers` has `Option`.

## Representation

Objects whose fields the source updates in place are classes, and their
methods state the whole new state:

- `LineEditor`;
- `History`;
- `JobManager`;
- `Shell`.

Loops in the source are methods with loop invariants. Each is proved equal
to a specification function, and the properties are proved about that
function:

- `tokenize_with_redirects`;
- the loop of `parse`;
- `expand_variables`;
- `update_jobs`;
- `visual_length`;
- `common_prefix`;
- the directory listings;
- the backslash count;
- `read_input_with_continuation`;
- Ctrl-W's two scans;
- `read_line`, equal to `RunLine`, its fold over the terminal events.

Some inputs from outside the program become parameters:

- **The environment** is a map from names to values.
- **The file system** is a map from directory paths to their entries,
  together with the value of PATH.
- **Terminal events** are a sequence.
- **Lines from the editor** are a sequence. Running out of lines stands for
  a read error.
- **Process polling** is a function from a child handle to its poll result.

Some behaviours of the code are easy to misread:

- A line continued by a backslash is added with its backslash cut off. It
  is preceded by a space whenever something has been gathered before it
  (`src/shell.rs:54-60`), for instance after another backslash line or after
  a line with an open quote. Any other line that follows is joined with a
  newline (`src/shell.rs:66-71`), so the line after a backslash line comes
  after a newline.
- Ctrl-W keeps the whitespace between the word and the cursor. It drains
  only the word (`src/input.rs:228-262`).
- Tab does nothing in `src/input.rs`, the module the shell runs
  (`src/input.rs:175-183`, `406-408`). Completion is modelled for the
  copy, `src/editor/core.rs`.
- Ctrl-C returns an empty line in `src/input.rs` (`275-285`). In
  `src/editor/core.rs` it restarts the line (`226-236`).

## Model

| member | source | states |
|---|---|---|
| Commands.ParseU32 | src/command.rs:96 | `str::parse::<u32>`: a result is below 2^32, and the text starts with a digit or with a '+' that is not alone |
| Commands.DecimalValue | src/command.rs:96 | the decimal rendering of a number reads back as that number |
| Commands.ParseU32Decimal | src/command.rs:96 | `parse::<u32>` accepts exactly the numbers below 2^32, with or without a leading '+' |
| Commands.First | src/command.rs:54 | `args.first()` is present exactly when there are arguments, and is then the first one |
| Commands.JobArgument | src/command.rs:95-102 | the job id of `fg`/`bg` is a u32, and 1 without arguments |
| Commands.Dispatch | src/command.rs:50-108 | a word that is not a built-in gives an external command with the background flag; only built-ins come from built-in words; the result is None exactly for `cat`/`mkdir`/`rm`/`touch` without an operand |
| Commands.Parse | src/command.rs:32-109 | blank input and a lone '&' give None; an external command's background flag is set exactly when the trimmed line ends in '&' |
| Commands.ParseSplitsOnWhitespace | src/command.rs:45-53 | without a trailing '&', the command comes from the whitespace-separated words |
| Commands.DispatchInBackground | src/command.rs:103-107 | the background flag reaches external commands only; built-ins ignore it |
| Commands.ParseBackgroundSuffix | src/command.rs:38-43 | appending " &" to a line that parses sets the background flag and changes nothing else |
| Commands.TwoWordLine | src/command.rs:45-53 | two words separated by a space give the first word's command with the second as its argument |
| Commands.OneWordLine | src/command.rs:45-53 | one word gives its command with no arguments |
| Commands.DispatchFg | src/command.rs:95-98 | `fg` takes its job id from its arguments |
| Commands.ParseFgAlone | src/command.rs:95-98 | `fg` alone means job 1 |
| Commands.ParseFgWord | src/command.rs:95-98 | `fg w` uses what the u32 parse makes of `w` |
| Commands.ParseFgNumber | src/command.rs:95-98 | `fg n` means job n for every u32 n |
| Commands.ParseFgJunk | src/command.rs:95-98 | `fg` followed by a word that is not a u32 means job 1 |
| Commands.ParseNeedsOperand | src/command.rs:60-91 | `cat`, `mkdir`, `rm` and `touch` give None without an operand, and with one operand the command that targets it |
| Commands.KeepsRunning | src/command.rs:111-267 | `execute` returns false exactly for `exit`; that flag is its whole value, and `ShellLoop.RunningAfter` says the loop stops exactly then |
| Completion.LastIndexOf | src/editor/completion.rs:9 | `rfind`: None exactly when the character is absent, otherwise its last occurrence |
| Completion.SplitDirPrefix | src/editor/completion.rs:8-20 | None exactly when there is no '/'; the prefix has no '/'; a single leading '/' gives dir "/"; otherwise dir + "/" + prefix is the path |
| Completion.DirCandidates | src/editor/completion.rs:25-34 | every candidate starts with the prefix; every entry starting with the prefix is listed, a directory with '/' appended; nothing else is listed |
| Completion.ListDirMatches | src/editor/completion.rs:22-37 | an unreadable directory is an error; otherwise the result is sorted and a permutation of the candidates |
| Completion.ExecCandidates | src/editor/completion.rs:44-59 | a directory contributes exactly its executable entries that start with the prefix |
| Completion.PathCandidates | src/editor/completion.rs:41-63 | a name is a candidate exactly when some readable PATH directory contributes it |
| Completion.ListPathCommands | src/editor/completion.rs:39-67 | the result is strictly sorted, holds exactly the PATH candidates, and every name starts with the prefix |
| Completion.SortDedupKeeps | src/editor/completion.rs:64-65 | `sort` then `dedup` keeps every value exactly once, in order |
| Completion.PathCandidatesHavePrefix | src/editor/completion.rs:46 | every PATH candidate starts with the prefix |
| Completion.SharedLen | src/editor/completion.rs:77-81 | the zip and `take_while` count is the length of the longest shared prefix of two strings |
| Completion.CommonPrefix | src/editor/completion.rs:69-85 | empty for no strings, the string itself for one, and in general the longest common prefix |
| Completion.CommonPrefixExtends | src/editor/completion.rs:69-85 | any prefix shared by all the strings is a prefix of the result |
| Ordering.LexLeTotal | src/editor/completion.rs:35 | the string order compares any two strings |
| Ordering.LexLeAntisymmetric | src/editor/completion.rs:35 | strings ordered both ways are equal |
| Ordering.LexLeTransitive | src/editor/completion.rs:35 | the string order is transitive |
| Ordering.Sort | src/editor/completion.rs:35 | `sort` yields a sorted permutation |
| Ordering.SortedUnique | src/editor/completion.rs:35 | two sorted permutations of the same values are equal, so the sort's result does not depend on the algorithm |
| Ordering.Dedup | src/editor/completion.rs:65 | `dedup` keeps the same values and the first element |
| Ordering.DedupSorted | src/editor/completion.rs:64-65 | after `sort`, `dedup` leaves a strictly sorted list |
| HistoryCursor.Appended | src/history.rs:46-50 | the command ends the list, the old list is a prefix, and at most one entry is added |
| HistoryCursor.AddKeepsNoAdjacentDuplicates | src/history.rs:46-50 | `add` never creates two adjacent equal entries |
| HistoryCursor.Matching | src/history.rs:91-97 | every listed pair is an index with its command, and the command contains the pattern |
| HistoryCursor.MatchingOrdered | src/history.rs:91-97 | the matches come in strictly increasing index order |
| HistoryCursor.MatchingComplete | src/history.rs:91-97 | every command containing the pattern is listed |
| HistoryCursor.NextAsWrittenPanicsWhenEmpty | src/history.rs:74-82 | as written, Down on an empty history panics |
| HistoryCursor.NextAsWrittenAgreesWhenNonEmpty | src/history.rs:74-82 | on a non-empty history the as-written `next` is the corrected one |
| HistoryCursor.History.constructor | src/history.rs:13-23 | the history starts with the loaded lines, positioned past the last |
| HistoryCursor.History.Add | src/history.rs:41-53 | blank input changes nothing; otherwise the command is appended unless it repeats the last, and the position is reset to the end |
| HistoryCursor.History.Previous | src/history.rs:65-72 | at the oldest entry, nothing; otherwise the position steps back and that entry is returned |
| HistoryCursor.History.Next | src/history.rs:74-82 | the position steps forward and that entry is returned, or it moves to the end and nothing is returned |
| HistoryCursor.History.Search | src/history.rs:91-97 | every result is an entry with its index, containing the pattern |
| HistoryCursor.History.SearchFindsAll | src/history.rs:91-97 | every entry containing the pattern is found, in history order |
| Jobs.Surviving | src/jobs.rs:79-102 | exactly the jobs that have not finished are kept, unchanged |
| Jobs.HasLeast | src/jobs.rs:73-77 | a non-empty set of ids has a least element |
| Jobs.Ascending | src/jobs.rs:73-77 | the ids in strictly increasing order, each exactly once |
| Jobs.ListedSorted | src/jobs.rs:73-77 | listing by ascending ids is ordered by id and holds exactly the stored jobs |
| Jobs.WithoutFinished | src/jobs.rs:79-102 | removing exactly the finished ids leaves the surviving jobs |
| Jobs.JobManager.constructor | src/jobs.rs:28-34 | no jobs, ids start at 1, no foreground process |
| Jobs.JobManager.SetForegroundPid | src/jobs.rs:36-38 | the foreground pid is set, and nothing else changes |
| Jobs.JobManager.GetForegroundPid | src/jobs.rs:40-42 | the foreground pid last set |
| Jobs.JobManager.AddJob | src/jobs.rs:44-59 | the job gets the next id, which was unused, and is stored as Running with its process; the next id moves on by one; nothing else changes |
| Jobs.JobManager.GetJob | src/jobs.rs:61-63 | the job stored under the id, exactly when there is one |
| Jobs.JobManager.RemoveJob | src/jobs.rs:69-71 | returns the job stored under the id and removes exactly that entry |
| Jobs.JobManager.ListJobs | src/jobs.rs:73-77 | one entry per stored job |
| Jobs.JobManager.ListJobsSorted | src/jobs.rs:73-77 | the listing holds exactly the stored jobs, in strictly increasing id order |
| Jobs.JobManager.UpdateJobs | src/jobs.rs:79-102 | the table becomes the surviving jobs; the next id and the foreground pid are unchanged |
| Jobs.JobManager.FindJobByPid | src/jobs.rs:104-108 | a stored job with that pid, and None exactly when no job has it |
| Pipes.ParsePipeline | src/pipes.rs:6-14 | one stage per '|' plus one |
| Pipes.PipelineStages | src/pipes.rs:6-14 | stage k holds the words of the k-th piece; the pieces rebuild the line; every word is non-empty and has no whitespace or '\|' |
| Pipes.BlankSegmentEmptyStage | src/pipes.rs:9-12 | a blank piece, such as the one between the bars of "a \|\| b", is an empty stage |
| Pipes.NoBarOneStage | src/pipes.rs:6-14 | without '\|' the pipeline is the one stage of the line's words |
| Variables.NameEnd | src/variables.rs:10-17 | the name after '$' is the maximal run of name characters |
| Variables.NameEndUnique | src/variables.rs:10-17 | any maximal run of name characters is the one `NameEnd` finds |
| Variables.ExpandVariables | src/variables.rs:3-36 | the loop computes the expansion, with a lone '$' becoming '>' |
| Variables.ReadName | src/variables.rs:10-17 | the inner loop reads exactly the maximal name |
| Variables.NoDollarUnchanged | src/variables.rs:30-32 | text without '$' comes through unchanged |
| Variables.NothingSetUnchanged | src/variables.rs:19-29 | in the corrected expansion, with nothing set, unset names keep their '$' and a lone '$' stays, so the text is unchanged from any position |
| Variables.NothingSetNamedUnchanged | src/variables.rs:8-29 | as written, with nothing set, a text in which every '$' is followed by a name character is unchanged |
| Variables.ExpandNothingSet | src/variables.rs:19-29 | the corrected expansion with nothing set is the identity on the whole line (`NothingSetUnchanged` from the start) |
| Variables.LoneDollarAsWritten | src/variables.rs:27-29 | as written, "a $ b" becomes "a > b"; the corrected expansion keeps it |
| Variables.SetVariableReplaced | src/variables.rs:43-46 | with TEST=value, "echo $TEST" becomes "echo value" |
| Variables.ExpandPrefix | src/variables.rs:30-32 | a stretch without '$' is copied ahead of the expansion of the rest |
| Redirects.OperatorOf | src/redirects.rs:30-84 | the operator whose text the token spells, and None when it spells none |
| Redirects.OperatorTextRoundTrip | src/redirects.rs:30-84 | every operator's text reads back as that operator |
| Redirects.OperatorHasAngle | src/redirects.rs:180-221 | every operator's text contains '<' or '>' |
| Redirects.OperatorHasNoSpace | src/redirects.rs:180-221 | no operator's text contains a space |
| Redirects.Texts | src/redirects.rs:158-231 | the token texts, one per token |
| Redirects.Flush | src/redirects.rs:175-178 | an empty word is not pushed |
| Redirects.TokenizeWithRedirects | src/redirects.rs:158-231 | the loop returns the texts of the tokens the lexer defines |
| Redirects.LexNoEmptyTokens | src/redirects.rs:158-231 | the tokenizer never emits an empty token |
| Redirects.TokensNonEmpty | src/redirects.rs:158-231 | `tokenize_with_redirects` never returns an empty string |
| Redirects.UnspacedKeeps | src/redirects.rs:174-179 | removing spaces keeps a stretch without spaces whole |
| Redirects.OperatorAt | src/redirects.rs:180-221 | an operator found at a position is spelled by the text there |
| Redirects.LexQuoteFreeSpells | src/redirects.rs:158-231 | without quotes, the tokens spell the input with its spaces removed |
| Redirects.LexQuoteFreePlain | src/redirects.rs:158-231 | without quotes, no word token contains a space, '<' or '>' |
| Redirects.TokensQuoteFree | src/redirects.rs:158-231 | a line without quotes tokenizes into its space-free text, and none of its words reads as an operator |
| Redirects.Gather | src/redirects.rs:28-90 | every token is used once: as a word, or as an operator or its target, except a dangling operator |
| Redirects.GatherAppend | src/redirects.rs:28-90 | gathering splits after a prefix that leaves no operator dangling |
| Redirects.DanglingOperatorDropped | src/redirects.rs:35-38 | an operator with nothing after it adds nothing |
| Redirects.GatherRedirect | src/redirects.rs:31-84 | an operator and the token after it give one redirect to that token's text |
| Redirects.GatherWords | src/redirects.rs:85-88 | without operators, every token is a command word |
| Redirects.Assemble | src/redirects.rs:92-103 | the program is the first word or "", the arguments are the rest, and the redirects are kept in order |
| Redirects.ParseTokens | src/redirects.rs:28-103 | the loop of `parse` gathers and assembles the reclassified tokens |
| Redirects.Parse | src/redirects.rs:23-104 | `ParsedCommand::parse` is the as-written parse of the line |
| Redirects.RetagPlain | src/redirects.rs:30 | reclassifying plain words by their text gives back the tokenizer's tokens |
| Redirects.ParsedAgreesWithoutQuotes | src/redirects.rs:23-104 | without quotes, the as-written parse equals the one that keeps the tokenizer's classification |
| Redirects.ErrOutSplitsWord | src/redirects.rs:200-213 | "a2>f" tokenizes as a, 2>, f |
| Redirects.InAndAppendSplitWords | src/redirects.rs:180-199 | "c<i>>o" tokenizes as c, <, i, >>, o |
| Redirects.QuotesGroupWords | src/redirects.rs:167-173 | quotes are dropped and keep a space inside one word |
| Redirects.TabDoesNotSeparate | src/redirects.rs:174-179 | only the space character separates words; a tab stays inside the word |
| Redirects.QuotedOperatorTokens | src/redirects.rs:167-173 | `e ">" f` tokenizes into three words |
| Redirects.QuotedOperatorIsRedirected | src/redirects.rs:29-48 | as written, a quoted ">" redirects output to f; the corrected parse passes ">" and "f" as arguments |
| LineEdit.Classify | src/input.rs:71-348 | a character is inserted only when typed bare or with Shift alone; Enter always submits |
| LineEdit.ClassifyInsertIff | src/input.rs:330-345 | a character is inserted exactly when typed bare or with Shift alone |
| LineEdit.ControlLetterNeverInserts | src/input.rs:186-345 | Ctrl with a letter never inserts it, and a letter without its own arm does nothing |
| LineEdit.ByteIndexAtCharPos | src/input.rs:414-420 | the byte offset of character k, or the byte length when there is no character k |
| LineEdit.ByteIndexAscii | src/input.rs:414-420 | on ASCII text, a character position is its own byte offset |
| LineEdit.CharStartingAt | src/input.rs:83-103 | the character whose first byte is at a given offset, and None exactly when no character starts there |
| LineEdit.CharStartingAtAscii | src/input.rs:83-103 | on ASCII text, every byte below the length starts the character with the same index |
| LineEdit.Inserted | src/input.rs:330-345 | typing inserts the character at the cursor and moves past it; everything else keeps its place |
| LineEdit.Backspaced | src/input.rs:83-92 | Backspace removes the character before the cursor, and does nothing at position 0 |
| LineEdit.Deleted | src/input.rs:95-103 | Delete removes the character under the cursor, and does nothing at the end |
| LineEdit.BackspaceUndoesInsert | src/input.rs:83-92 | Backspace right after typing restores the line |
| LineEdit.InsertUndoesBackspace | src/input.rs:330-345 | re-typing the character Backspace removed restores the line |
| LineEdit.KilledToEnd | src/input.rs:206-213 | Ctrl-K keeps exactly the characters before the cursor |
| LineEdit.KilledToStart | src/input.rs:216-225 | Ctrl-U removes exactly the characters before the cursor and moves the cursor to 0 |
| LineEdit.KillsSplitLine | src/input.rs:206-225 | what Ctrl-K keeps and what Ctrl-U keeps are the two halves of the line |
| LineEdit.SpaceRunStart | src/input.rs:234-243 | the start of the maximal whitespace run ending at the cursor |
| LineEdit.WordRunStart | src/input.rs:246-253 | the start of the maximal non-whitespace run ending at a position |
| LineEdit.WordDeleted | src/input.rs:228-262 | Ctrl-W removes exactly the word before the skipped whitespace, keeps that whitespace and the rest, and moves the cursor to the word's start |
| LineEdit.WordDeletedKeepsTail | src/input.rs:228-262 | Ctrl-W never touches the text from the cursor on |
| LineEdit.Transposed | src/input.rs:310-325 | the corrected Ctrl-T: swaps the two characters either side of the cursor and moves past them, only when the cursor is inside the line; it keeps the length and the multiset of characters |
| LineEdit.TransposedAsWritten | src/input.rs:316-324 | definition of Ctrl-T as written, the left character replaced by right and left; properties in the rows for TransposedAsWrittenDuplicates and TransposedAsWrittenGrowsLine |
| LineEdit.TransposedAsWrittenDuplicates | src/input.rs:316-324 | as written, Ctrl-T inside the line gives the swapped pair followed by the text from the cursor on, so the line grows by one and the right character appears once more |
| LineEdit.TransposedAsWrittenGrowsLine | src/input.rs:316-324 | "ab" with the cursor at 1 becomes "bab" as written and "ba" corrected |
| LineEdit.Recalled | src/input.rs:128-154 | a recalled entry becomes the line, with the cursor at its end |
| LineEdit.BackspaceAgreesOnAscii | src/input.rs:83-92 | on ASCII text, the as-written Backspace is the corrected one |
| LineEdit.DeleteAgreesOnAscii | src/input.rs:95-103 | on ASCII text, the as-written Delete is the corrected one |
| LineEdit.RightAgreesOnAscii | src/input.rs:117-125 | on ASCII text, the as-written Right stops at the end of the line |
| LineEdit.BackspaceAsWrittenRemovesWrongChar | src/input.rs:83-92 | with "éab" and the cursor at the end, as-written Backspace removes 'a'; the corrected one removes 'b' |
| LineEdit.BackspaceAsWrittenPanics | src/input.rs:83-92 | with "éa" and the cursor at the end, as-written Backspace panics |
| LineEdit.DeleteAsWrittenPanics | src/input.rs:95-103 | with "éa" and the cursor after 'é', as-written Delete panics |
| LineEdit.RightAsWrittenLeavesLine | src/input.rs:117-125 | with "é", as-written Right moves the cursor past the end of the line |
| LineEdit.VisibleWidthBounds | src/input.rs:385-403 | the visible width is at most the character count, and equals it without ESC |
| LineEdit.StyleSequenceIsZeroWidth | src/input.rs:385-403 | a colour sequence from ESC to 'm' adds no width |
| LineEdit.VisualLength | src/input.rs:385-403 | the loop computes the visible width, which is at most the character count and equals it without ESC |
| LineEdit.Rebuild | src/editor/core.rs:363-402 | a completed path extends the typed token by what the name adds to the prefix |
| LineEdit.RebuildKeepsTyped | src/editor/core.rs:363-402 | a completed path still begins with what was typed |
| LineEdit.RebuildAsWrittenDoublesSlash | src/editor/core.rs:378-382 | as written, completing "/us" to "usr/" gives "//usr/"; rebuilding from the token gives "/usr/" |
| LineEdit.RebuildAsWrittenDropsDot | src/editor/core.rs:391-395 | as written, completing "./ru" to "run.sh" drops the "./"; rebuilding from the token keeps it |
| LineEdit.RebuildAgrees | src/editor/core.rs:378-395 | when the last '/' is not the first character and the directory is not ".", the as-written and rebuilt paths agree |
| LineEdit.Typed | src/input.rs:330-345 | a run of typing events gives its characters, in order |
| LineEdit.FirstSubmit | src/input.rs:74-80 | in a run of typing ended by Enter, the first Enter is at the end of the run |
| LineEdit.LineEditor.constructor | src/input.rs:50-56 | empty buffer, cursor 0, no history index |
| LineEdit.LineEditor.Reset | src/input.rs:58-61 | `read_line` starts from an empty buffer |
| LineEdit.LineEditor.InsertChar | src/input.rs:330-345 | the state becomes `Inserted` |
| LineEdit.LineEditor.DeleteBefore | src/input.rs:83-92 | the state becomes `Backspaced` |
| LineEdit.LineEditor.DeleteAt | src/input.rs:95-103 | the state becomes `Deleted` |
| LineEdit.LineEditor.MoveLeft | src/input.rs:106-114 | the cursor moves back one, stopping at 0; the buffer is unchanged |
| LineEdit.LineEditor.MoveRight | src/input.rs:117-125 | the cursor moves forward one, stopping at the end; the buffer is unchanged |
| LineEdit.LineEditor.MoveHome | src/input.rs:157-163 | the cursor goes to 0 |
| LineEdit.LineEditor.MoveEnd | src/input.rs:166-172 | the cursor goes to the end of the line |
| LineEdit.LineEditor.KillToEnd | src/input.rs:206-213 | the state becomes `KilledToEnd` |
| LineEdit.LineEditor.KillToStart | src/input.rs:216-225 | the state becomes `KilledToStart` |
| LineEdit.LineEditor.DeleteWordBefore | src/input.rs:228-262 | the two backward scans give `WordDeleted` |
| LineEdit.LineEditor.Transpose | src/input.rs:310-325 | the state becomes the corrected `Transposed` |
| LineEdit.LineEditor.RecallPrevious | src/input.rs:128-137 | with an older entry, the cursor steps back and the line becomes that entry; otherwise nothing changes |
| LineEdit.LineEditor.RecallNext | src/input.rs:140-154 | with a newer entry, the line becomes it; past the newest, the line is cleared and the history index reset |
| LineEdit.LineEditor.Splice | src/editor/core.rs:378-431 | the text before the cursor from `start` is replaced, and the cursor goes after the new text |
| LineEdit.LineEditor.Complete | src/editor/core.rs:350-462 | the outcome is `TabCompletion` of the line and the new line is `AfterTab`: an empty token changes nothing, an unreadable directory is an error, otherwise the common prefix or the sole match replaces the token and the cursor goes after it |
| LineEdit.LineEditor.Apply | src/input.rs:71-348 | the outcome and the new line, history index and history position are those `KeyStep` gives for the key; the history list is unchanged |
| LineEdit.LineEditor.ApplyToLine | src/input.rs:74-348 | for every key other than Up and Down, the outcome and new line are those of `KeyStep`, and the history is not touched |
| LineEdit.LineEditor.Edit | src/input.rs:83-345 | the keys that only edit the line or move the cursor continue reading, with the line `KeyStep` gives |
| LineEdit.LineEditor.ReadEvents | src/input.rs:70-349 | the event loop computes `RunLine` from the current line |
| LineEdit.LineEditor.ReadLine | src/input.rs:58-353 | the result, the events used and the final state are those `RunLine` gives from an empty line; typing a line and pressing Enter returns exactly the typed text; Ctrl-C first returns the empty line in the live edition; Ctrl-D exits only on an empty line |
| LineEdit.ControlAction | src/input.rs:186-327 | no Ctrl-letter inserts a character, and a letter without its own arm does nothing |
| LineEdit.KeyStep | src/input.rs:71-348 | Enter submits, Ctrl-C cancels, Ctrl-D quits exactly on an empty line, and a failure comes exactly from an unreadable directory on Tab in the copy; only Up and Down move in the history; with the corrected Backspace, Delete and Right arms, the cursor stays within the line |
| LineEdit.KeyStepLine | src/input.rs:71-348 | Enter, Ctrl-D and a live-edition Tab keep the line; Ctrl-C empties it; a character is inserted at the cursor |
| LineEdit.KeyStepMoves | src/input.rs:106-172 | Left and Right move by one within the line, Home and End go to the ends, keeping the text; Up and Down load the neighbouring entry with the cursor at its end, and Down past the newest clears the line |
| LineEdit.KeyStepEdits | src/input.rs:83-327 | Backspace, Delete, Ctrl-K, Ctrl-U, Ctrl-W and Ctrl-T give the states their functions describe; Tab in the copy gives the completed line |
| LineEdit.RunLine | src/input.rs:58-353 | a returned line is the final buffer; an exit leaves an empty buffer; an I/O error comes only from the copy; running out uses every event |
| LineEdit.RunLineStep | src/input.rs:70-349 | each key's outcome decides whether `read_line` returns, restarts or goes on |
| LineEdit.RunLineTyped | src/input.rs:330-345 | typing then Enter returns the typed text after one event per character and one for Enter |
| LineEdit.RunLineLiveCancel | src/input.rs:275-285 | in the live edition, Ctrl-C as the first key returns the empty line |
| LineEdit.RunLineCopyCancel | src/editor/core.rs:226-236 | in the copy, Ctrl-C starts a new pass from an empty line |
| LineEdit.RunLineFromStart | src/input.rs:58-353 | from an empty line, typing then Enter returns the typed text, and a first Ctrl-C in the live edition returns the empty line |
| LineEdit.TabMatches | src/editor/core.rs:363-459 | every match starts with the part of the token being completed |
| LineEdit.TabChoice | src/editor/core.rs:376-457 | the choice is the matches' longest common prefix, extends what was typed and is shared by all matches; it is longer than what was typed or the sole match; nothing is chosen exactly when there is no match or the matches share nothing more |
| LineEdit.AfterTab | src/editor/core.rs:376-455 | the line after Tab is valid |
| LineEdit.LookUpMatches | src/editor/core.rs:363-459 | the directory listing or PATH search computes `TabMatches` |
| LineEdit.Choose | src/editor/core.rs:376-457 | the common-prefix comparison computes `TabChoice` |
| LineEdit.TabCompletionMeaning | src/editor/core.rs:350-462 | an empty token is unchanged; an error exactly when the directory cannot be read; a completion replaces the token by a name that extends the typed part and is shared by every match |
| LineEdit.TabCompletionDecides | src/editor/core.rs:359-457 | for the corrected Tab: the line stays as it is exactly for an empty token, no match, or several matches sharing nothing beyond the typed part; otherwise the token becomes the matches' longest common prefix, after the directory for a path |
| LineEdit.TabSoleMatch | src/editor/core.rs:389-455 | for the corrected Tab: a single match always replaces the token, placed after the typed directory part |
| LineEdit.TabAmbiguous | src/editor/core.rs:376-457 | several matches sharing nothing beyond what was typed leave the line unchanged |
| LineEdit.TabTokenStartAgrees | src/editor/core.rs:351-357 | when the whitespace before the token is ASCII, the source's byte offset is the token's start |
| LineEdit.TabTokenStartAsWrittenPanics | src/editor/core.rs:351-357 | with "ls\u{A0}fo" and Tab at the end, the byte offset falls inside the no-break space, so the slice panics |
| Completion.DirMatches | src/editor/completion.rs:22-37 | a listing exists exactly when the directory can be read |
| Completion.DirMatchesHavePrefix | src/editor/completion.rs:25-34 | every listed entry starts with the prefix |
| Completion.PathDirs | src/editor/completion.rs:41-42 | no directories when PATH is unset; otherwise pieces without ':' that joined by ':' give PATH back |
| Completion.PathMatchesHavePrefix | src/editor/completion.rs:46 | every PATH command listed starts with the prefix |
| Completion.CommonPrefixOf | src/editor/completion.rs:69-85 | the longest common prefix, and empty for no strings |
| Completion.CommonPrefixBound | src/editor/completion.rs:69-85 | a common prefix is no longer than the longest one |
| Completion.LongestCommonPrefixUnique | src/editor/completion.rs:69-85 | there is only one longest common prefix |
| Ordering.LexLeReflexive | src/editor/completion.rs:35 | every string is ordered before itself |
| Redirects.RetagAll | src/redirects.rs:30 | reclassifying keeps every token text and the number of tokens |
| Redirects.RetagText | src/redirects.rs:30-84 | a text reads as an operator exactly when it spells one, and keeps its text |
| Redirects.LexInsideQuotes | src/redirects.rs:167-222 | inside quotes, every character other than the closing quote joins the word |
| Redirects.QuotedStretch | src/redirects.rs:167-173 | a quoted stretch joins the current word without its quotes, and the tokenizer goes on after the closing quote |
| Redirects.UnclosedQuote | src/redirects.rs:167-228 | with no closing quote, the rest of the line is one word |
| Redirects.BothSplitsWord | src/redirects.rs:214-221 | "c&>o&" tokenizes as c, &>, o& |
| Text.Trim | src/command.rs:33 | `trim` leaves text that starts and ends with a character that is not whitespace |
| Text.ByteLenPrefix | src/input.rs:414-420 | a prefix has no more bytes than the whole, and as many only when it is the whole |
| Redirects.Lex | src/redirects.rs:158-231 | definition of the character loop, arm by arm; properties in the rows for TokenizeWithRedirects, LexNoEmptyTokens, LexQuoteFreeSpells, LexQuoteFreePlain, LexInsideQuotes, QuotedStretch and UnclosedQuote |
| Redirects.Tokens | src/redirects.rs:158-231 | definition: `Lex` from the start of the line outside quotes; properties in the rows for TokensNonEmpty and TokensQuoteFree |
| Redirects.Retag | src/redirects.rs:30-84 | definition: an operator when the text spells one, otherwise a word; properties in the rows for RetagText and RetagPlain |
| Redirects.ParsedAsWritten | src/redirects.rs:23-104 | definition of `parse`: the token texts reclassified, gathered and assembled; properties in the rows for Parse, ParseTokens and QuotedOperatorIsRedirected |
| Redirects.Parsed | src/redirects.rs:23-104 | definition of the corrected `parse`, which keeps the tokenizer's classification; properties in the rows for ParsedAgreesWithoutQuotes and QuotedOperatorIsRedirected |
| Variables.ExpandAsWritten | src/variables.rs:3-36 | definition of `expand_variables`, with a lone '$' becoming '>'; properties in the rows for ExpandVariables, NoDollarUnchanged, NothingSetNamedUnchanged, ExpandPrefix and LoneDollarAsWritten |
| Variables.Expand | src/variables.rs:3-36 | definition of the corrected expansion, which keeps a lone '$'; properties in the rows for NothingSetUnchanged, ExpandNothingSet and LoneDollarAsWritten |
| ShellLoop.ReadInput | src/shell.rs:33-85 | definition: `Gather` from the first line; properties in the rows for ReadInputWithContinuation, OneLineInput, BackslashThenLine, BackslashLinesJoinWithSpace and OpenQuoteThenLine |
| Completion.Executable | src/editor/completion.rs:49-53 | definition: the metadata can be read and some execute bit is set; properties in the row for ExecCandidates |
| Completion.PathMatches | src/editor/completion.rs:39-67 | definition: the PATH candidates sorted and deduplicated; properties in the rows for ListPathCommands and PathMatchesHavePrefix |
| Ordering.LexLe | src/editor/completion.rs:35 | definition of the string order `sort` uses; properties in the rows for LexLeTotal, LexLeReflexive, LexLeAntisymmetric and LexLeTransitive |
| HistoryCursor.NextAsWritten | src/history.rs:74-82 | definition of `next` as written; properties in the rows for NextAsWrittenPanicsWhenEmpty and NextAsWrittenAgreesWhenNonEmpty |
| LineEdit.BackspaceAsWritten | src/input.rs:83-92 | definition of Backspace as written; properties in the rows for BackspaceAgreesOnAscii, BackspaceAsWrittenRemovesWrongChar and BackspaceAsWrittenPanics |
| LineEdit.DeleteAsWritten | src/input.rs:95-103 | definition of Delete as written; properties in the rows for DeleteAgreesOnAscii and DeleteAsWrittenPanics |
| LineEdit.RightAsWritten | src/input.rs:117-125 | definition of Right as written; properties in the rows for RightAgreesOnAscii and RightAsWrittenLeavesLine |
| LineEdit.RebuildAsWritten | src/editor/core.rs:378-395 | definition of the path rebuild as written; properties in the rows for RebuildAsWrittenDoublesSlash, RebuildAsWrittenDropsDot and RebuildAgrees |
| LineEdit.TabTokenStartAsWritten | src/editor/core.rs:351-357 | definition of the token start as written; properties in the rows for TabTokenStartAgrees and TabTokenStartAsWrittenPanics |
| LineEdit.VisibleWidth | src/input.rs:385-403 | definition of the visible width; properties in the rows for VisibleWidthBounds, StyleSequenceIsZeroWidth and VisualLength |
| LineEdit.TabCompletion | src/editor/core.rs:350-462 | definition of the corrected `handle_tab_completion` on values, with the corrected token start and rebuild; properties in the rows for TabCompletionMeaning, TabCompletionDecides, TabSoleMatch, TabSoleMatchIsToken and TabAmbiguous |
| LineEdit.TabPrefix | src/editor/core.rs:363-459 | definition: the part after the last '/' for a path, otherwise the whole token; properties in the rows for TabMatches and TabCompletionMeaning |
| LineEdit.Placed | src/editor/core.rs:376-455 | definition: a path keeps everything up to its last '/', other tokens are replaced; properties in the rows for Rebuild, RebuildKeepsTyped and TabCompletionDecides |
| LineEdit.TabSoleMatchIsToken | src/editor/core.rs:389-399 | for the corrected Tab: a token that already is its sole match, after any directory part, leaves the line as it was |
| ShellLoop.TrailingBackslashes | src/shell.rs:46-51 | the length of the maximal run of backslashes at the end |
| ShellLoop.TrailingBackslashesUnique | src/shell.rs:46-51 | any maximal trailing run of backslashes is the counted one |
| ShellLoop.CountTrailingBackslashes | src/shell.rs:46-51 | the backward loop counts the trailing backslashes |
| ShellLoop.HasTrailingBackslash | src/shell.rs:43-52 | true exactly when the line, without trailing whitespace, ends in an odd number of backslashes |
| ShellLoop.ContinuedLineEndsInBackslash | src/shell.rs:43-56 | a continued line ends in a backslash that is not escaped by another |
| ShellLoop.Piece | src/shell.rs:54-60 | what a continued line adds, followed by the backslash, is the line without trailing whitespace |
| ShellLoop.EscapedBackslashEndsLine | src/shell.rs:43-52 | one trailing backslash continues the line; two do not |
| ShellLoop.Gather | src/shell.rs:39-82 | a completed input ends at a line that is not continued and does not need more |
| ShellLoop.ReadInputWithContinuation | src/shell.rs:33-85 | the loop gathers the input that `Gather` defines |
| ShellLoop.OneLineInput | src/shell.rs:66-81 | a line that is not continued in either way is the whole input |
| ShellLoop.BackslashThenLine | src/shell.rs:54-71 | after a backslash line, the next line is joined with a newline |
| ShellLoop.BackslashLinesJoinWithSpace | src/shell.rs:54-60 | two backslash lines in a row are joined with a space |
| ShellLoop.OpenQuoteThenLine | src/shell.rs:66-78 | a line that needs more keeps reading, and the lines are joined with a newline |
| ShellLoop.Stripped | src/shell.rs:103-112 | None exactly for a blank line; the flag says whether the trimmed line ended in '&'; without it the line is the trimmed input |
| ShellLoop.StrippedIsTrimmed | src/shell.rs:103-112 | the line `run` works on has no whitespace at either end |
| ShellLoop.Classify | src/shell.rs:116-148 | a line holding '\|' is a pipeline with the '&' flag and one stage per bar; any other line is what `Command::parse` makes of it |
| ShellLoop.ClassifyCorrected | src/shell.rs:134-148 | the same decision, except that a single external command keeps the '&' that was cut off |
| ShellLoop.Decide | src/shell.rs:101-149 | a blank line is skipped; a pipeline runs in the background exactly when the line ended in '&' |
| ShellLoop.DecideCorrected | src/shell.rs:101-149 | a blank line is skipped; an external command from a line ending in '&' runs in the background |
| ShellLoop.DecideSingle | src/shell.rs:134-148 | a line that parses as a single command runs as that command |
| ShellLoop.AmpersandIgnoredAsWritten | src/shell.rs:108-136 | as written, " &" after a single command changes nothing |
| ShellLoop.AmpersandHonouredCorrected | src/shell.rs:108-136 | corrected, " &" after a single command puts it in the background |
| ShellLoop.SleepInForegroundAsWritten | src/shell.rs:108-136 | as written, "sleep 5 &" runs `sleep 5` in the foreground; corrected, in the background |
| ShellLoop.Recorded | src/shell.rs:114 | a blank line is not recorded; otherwise at most the stripped line is appended |
| ShellLoop.JobCommand | src/command.rs:236 | a job's command text starts with the program and a space |
| ShellLoop.TableAfter | src/shell.rs:137-148 | `fg` takes its job out; `bg` and pipelines leave the table as it was |
| ShellLoop.TableAfterKeepsJobs | src/shell.rs:137-148 | only `fg` drops a job; only the job added under the next id is new; no other job changes |
| ShellLoop.RunningAfter | src/shell.rs:142-145 | `exit` stops the shell; a running shell stops for nothing else |
| ShellLoop.StripLine | src/shell.rs:103-112 | the trimming at the top of the loop computes `Stripped` |
| ShellLoop.StrippedNone | src/shell.rs:104-106 | a blank line is skipped and not recorded |
| ShellLoop.StrippedSome | src/shell.rs:108-149 | any other line is classified and recorded as it is after stripping |
| ShellLoop.Shell.constructor | src/shell.rs:18-30 | the history holds the loaded lines, the job table is empty, and the shell is running |
| ShellLoop.Shell.ForegroundJob | src/shell.rs:175-193 | returns the job and removes it; an unknown id leaves the table as it was |
| ShellLoop.Shell.BackgroundJob | src/shell.rs:195-201 | only looks the job up; the table does not change |
| ShellLoop.Shell.Perform | src/shell.rs:137-148 | the running flag and the job table become `RunningAfter` and `TableAfter` of the command |
| ShellLoop.Shell.Handle | src/shell.rs:114-149 | the line is recorded in the history, classified, and the running flag and job table follow the action |
| ShellLoop.Shell.HandleInput | src/shell.rs:102-149 | the decision, the history and the job table follow the stripped input |
| ShellLoop.Shell.Step | src/shell.rs:97-149 | finished jobs are dropped first, then the input is handled |
| Text.TrimStart | src/command.rs:33 | `trim_start` drops exactly the leading whitespace run |
| Text.TrimEnd | src/shell.rs:43 | `trim_end` drops exactly the trailing whitespace run |
| Text.TrimEmptyIff | src/command.rs:33-36 | a trimmed line is empty exactly when the line is blank |
| Text.SplitWhitespace | src/command.rs:45 | `split_whitespace` yields non-empty words without whitespace |
| Text.SplitWhitespaceKeepsText | src/command.rs:45 | the words, glued together, are the text with its whitespace removed |
| Text.SplitWhitespaceEmptyIff | src/command.rs:45-48 | there are no words exactly when the text is blank |
| Text.SplitWhitespaceTrim | src/pipes.rs:9-10 | trimming before `split_whitespace` does not change the words |
| Text.TrimIdempotent | src/command.rs:33 | trimming an already trimmed line changes nothing |
| Text.Split | src/pipes.rs:8 | `split(c)` gives one piece more than there are separators, none containing the separator |
| Text.JoinSplit | src/pipes.rs:8 | joining the pieces with the separator rebuilds the text |
| Text.ContainsAt | src/history.rs:95 | `contains` means the pattern occurs at some offset |
| Text.ByteLen | src/input.rs:414-420 | a string has at least as many bytes as characters |
| Text.AsciiByteLen | src/input.rs:414-420 | ASCII text has as many bytes as characters |

## Left out

- Terminal I/O is left out: raw mode, redraw, cursor positioning, Ctrl-L's screen clear, and `show_completions`. The state the keys change is modelled.
- The effects `execute` has on the system are left out: changing directory, printing, and file operations. Its return value is modelled, and so is the job a spawned background program adds (`TableAfter`).
- `run_pipeline` and `ParsedCommand::execute` spawn processes and wire up pipes, so they are left out.
- `src/prompt.rs`, `src/heredoc.rs`, `src/signal_handler.rs` and `src/editor/raw_mode.rs` are not part of this model.
- `Command::needs_line_continuation` is not defined in `src/command.rs`. It is a parameter of `ReadInputWithContinuation`.
- Loading the history file and appending to it are left out. The constructor takes the loaded lines.
- `list` and `list_jobs` only print, so their output is not modelled.
- The background pipeline thread is not modelled. `Classify` records only that the pipeline runs in the background.
- `_get_job_mut` returns a mutable reference that no caller uses, so it is not modelled.
- A read error from the editor is modelled as running out of lines.
- Ctrl-D on an empty line exits the process. The model returns `Exit` instead.
- Variables.IsNameChar: Rust's `is_alphanumeric` accepts every Unicode letter and digit; the model accepts ASCII letters and digits and '_'.
- Jobs.JobManager.AddJob: `next_id` is a u32 and its overflow is not modelled; ids are unbounded.
- Jobs.JobManager.UpdateJobs: the source sets a finished job's status to Done and drops its process just before removing the job. The model removes the job directly, since nothing can observe the assignments.
- Jobs.JobManager.FindJobByPid: the map's iteration order is unspecified, so the model returns some job with the pid, and not a particular one.
- LineEdit.LineEditor.ReadLine: events come from a finite sequence; when it runs out, the result is `OutOfInput`. It also folds the corrected arms of `KeyStep` (see the `LineEdit.KeyStep` line), so it does not reproduce the source's wrong removal, duplicated character on Ctrl-T, cursor overrun or panics on multibyte text or an empty history.
- LineEdit.LineEditor.Apply: it handles a key as `KeyStep` does, with the corrected Backspace, Delete, Right, Down, Ctrl-T and Tab arms; the source's arms are `BackspaceAsWritten`, `DeleteAsWritten`, `RightAsWritten`, `HistoryCursor.NextAsWritten`, `TransposedAsWritten`, `TabTokenStartAsWritten` and `RebuildAsWritten` (see Findings).
- LineEdit.LineEditor.ApplyToLine: it equals `KeyStep` for every key but Up and Down, so it has the corrected arms named on the `LineEdit.LineEditor.Apply` line other than Down.
- LineEdit.LineEditor.Edit: its Backspace, Delete, Right and Ctrl-T arms are the corrected ones; the source's are `BackspaceAsWritten`, `DeleteAsWritten`, `RightAsWritten` and `TransposedAsWritten` (see Findings).
- LineEdit.LineEditor.ReadEvents: it folds `KeyStep`, so it has the corrected arms named on the `LineEdit.KeyStep` line.
- LineEdit.Transposed: it swaps the two characters and keeps the length and multiset; the source's Ctrl-T leaves the right character in place as well, so its line grows by one (`TransposedAsWritten`, see Findings).
- LineEdit.LineEditor.Transpose: the state becomes the corrected `Transposed`; the source's edit is `TransposedAsWritten` (see Findings).
- LineEdit.TabCompletion: it is the corrected Tab, with the token starting after the whole whitespace character and a path rebuilt from the typed token; the source's are `TabTokenStartAsWritten` and `RebuildAsWritten` (see Findings and the `LineEdit.LineEditor.Complete` line).
- LineEdit.TabCompletionDecides: it places the choice with the corrected `Placed`; as written a path under "/" gets a doubled '/' and one under "." loses its "./" (`RebuildAsWritten`, see Findings).
- LineEdit.TabSoleMatch: the sole match is placed with the corrected `Placed`, where the source uses `RebuildAsWritten` (see Findings).
- LineEdit.TabSoleMatchIsToken: it holds of the corrected Tab only; as written "/vmlinuz" becomes "//vmlinuz" and "./run.sh" becomes "run.sh" (`RebuildAsWrittenDoublesSlash`, `RebuildAsWrittenDropsDot`).
- LineEdit.KeyStep: its Backspace, Delete, Right, Down, Ctrl-T and Tab arms are the corrected ones; with "éab" and the cursor at the end the source's Backspace removes 'a', its Right can take the cursor past the end of "é", its Ctrl-T turns "ab" at 1 into "bab", and its Down panics on an empty history (see Findings). That the cursor stays within the line holds of the corrected arms only.
- LineEdit.KeyStepMoves: Right stops at the character count and Down past the newest entry uses the corrected `next`; the source's arms are `RightAsWritten` and `HistoryCursor.NextAsWritten`.
- LineEdit.KeyStepEdits: Backspace, Delete, Ctrl-T and Tab give the corrected states; the source's arms are `BackspaceAsWritten`, `DeleteAsWritten`, `TransposedAsWritten`, `TabTokenStartAsWritten` and `RebuildAsWritten`.
- LineEdit.RunLine: it folds `KeyStep`, so it inherits the corrected arms named on the `LineEdit.KeyStep` line.
- LineEdit.LineEditor.DeleteBefore: it removes the character before the cursor, the corrected behaviour; the source's byte-offset removal is `BackspaceAsWritten` (see Findings).
- LineEdit.LineEditor.DeleteAt: it removes the character under the cursor, the corrected behaviour; the source's byte-offset removal is `DeleteAsWritten` (see Findings).
- LineEdit.LineEditor.MoveRight: it stops at the character count, the corrected behaviour; the source's byte-length bound is `RightAsWritten` (see Findings).
- LineEdit.LineEditor.RecallNext: it uses the corrected `next`, which does nothing harmful on an empty history; the source's is `HistoryCursor.NextAsWritten` (see Findings).
- LineEdit.LineEditor.Complete: the token starts after the whitespace character, where the source takes a byte offset that panics after multibyte whitespace (`TabTokenStartAsWritten`), and a path is rebuilt from the typed token, where the source rebuilds it from the directory (`RebuildAsWritten`); see Findings.
- ShellLoop.Shell.HandleInput: it inherits the corrected decision of `Handle`, in which a single external command keeps a trailing '&'.
- ShellLoop.Shell.Step: it inherits the corrected decision of `Handle`, in which a single external command keeps a trailing '&'.
- Completion.ExecCandidates: only the `#[cfg(unix)]` branch is modelled; on other systems every name with the prefix is kept (`src/editor/completion.rs:55-58`).
- Completion.ListPathCommands: only the `#[cfg(unix)]` branch is modelled, as for `ExecCandidates`.
- ShellLoop.Shell.Handle: it uses the corrected decision, in which a single external command keeps a trailing '&'. The as-written decision is `ShellLoop.Decide`.

## Findings

| source | as written | input that shows it | evidently intended | confidence | as-written member | corrected member |
|---|---|---|---|---|---|---|
| src/history.rs:74-82 | `position < len() - 1` underflows on an empty history, and the index that follows is out of bounds | Down with no history entries | compare with `position + 1 < len()`, and return None on an empty history | not executed | HistoryCursor.NextAsWrittenPanicsWhenEmpty | HistoryCursor.History.Next |
| src/input.rs:83-92 | Backspace uses a character count as a byte offset for `String::remove` | "éab" with the cursor at the end removes 'a'; "éa" panics | remove the character before the cursor | not executed | LineEdit.BackspaceAsWrittenRemovesWrongChar | LineEdit.Backspaced |
| src/input.rs:95-103 | Delete bounds the cursor by the byte length and uses it as a byte offset | "éa" with the cursor after 'é' panics | remove the character under the cursor | not executed | LineEdit.DeleteAsWrittenPanics | LineEdit.Deleted |
| src/input.rs:117-125 | Right lets the cursor grow up to the byte length | "é" with the cursor at 1 moves to 2, past the line | stop at the character count | not executed | LineEdit.RightAsWrittenLeavesLine | LineEdit.LineEditor.MoveRight |
| src/editor/core.rs:378-395 | the completed path is rebuilt from `dir`, so "/" doubles and "." is dropped | "/us" completing "usr/" gives "//usr/"; "./ru" completing "run.sh" gives "run.sh" | keep the typed text up to the last '/' | not executed | LineEdit.RebuildAsWrittenDoublesSlash | LineEdit.RebuildKeepsTyped |
| src/variables.rs:27-29 | a '$' with no name after it becomes '>' | "a $ b" becomes "a > b" | keep the '$' | not executed | Variables.LoneDollarAsWritten | Variables.ExpandNothingSet |
| src/redirects.rs:29-48 | `parse` classifies tokens by their text alone, so a quoted ">" is a redirect | `e ">" f` sends the output of `e` to f | quoted text stays an argument | not executed | Redirects.QuotedOperatorIsRedirected | Redirects.ParsedAgreesWithoutQuotes |
| src/editor/core.rs:351-357 | the token's start is one byte past the byte offset of the whitespace before it, and that offset is then used to slice the line | "ls\u{A0}fo" with Tab at the end: the start falls inside the two-byte no-break space, so the slice panics | start the token after the whole whitespace character | not executed | LineEdit.TabTokenStartAsWrittenPanics | LineEdit.TabCompletionMeaning |
| src/input.rs:316-324 | Ctrl-T replaces the byte range of the left character alone by right and left, so the right character is not removed | "ab" with the cursor at 1 becomes "bab" | swap the two characters | not executed | LineEdit.TransposedAsWrittenGrowsLine | LineEdit.Transposed |
| src/shell.rs:108-136 | `run` cuts a single trailing '&' off before `Command::parse`, so a single command followed by one '&' never runs in the background | "sleep 5 &" runs in the foreground | hand the '&' to `Command::parse`, which sets the background flag | not executed | ShellLoop.SleepInForegroundAsWritten | ShellLoop.AmpersandHonouredCorrected |
