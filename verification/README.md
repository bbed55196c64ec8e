# Todo CLI task store, modelled in Dafny

A model of the core of a single-user console task tracker written in Rust.
The tracker keeps an ordered list of tasks (a description and a completion
flag) in memory and mirrors it to one flat text file, one task per line in
the form `<description>::completed<true|false>`. Tasks are addressed by
their position in the list.

The model has five modules:

- `Results` (`results.dfy`): `Option` and `Result`.
- `Text` (`text.dfy`): the Rust string operations the store relies on:
  `char::is_whitespace` (the Unicode White_Space set), `trim().is_empty()`,
  the leftmost-occurrence search behind `str::split`, `BufRead::lines`, the
  `writeln!` line terminator, `split_whitespace`, `join` and `to_lowercase`.
- `Tasks` (`tasks.dfy`): `Task`, the one-line encoding written by `save` and
  the decoding done by `load`, and the round-trip theorem.
- `TodoStore` (`todo_store.dfy`): `TodoList` with `load`, `save`, `add`,
  `list`, `complete` and `delete`. The file system is a map from path to
  contents. Opening a path that is not in the map fails, both for reading
  and for writing, since `save` opens with `write` and `truncate` but not
  `create`.
- `Cli` (`cli.dfy`): the pure part of `main`: splitting an input line into
  a command name and an optional argument, and choosing the command.

Main results:

- `Tasks.RoundTrip`: reading back a saved list gives the same tasks in the
  same order exactly when no description contains a line feed or the
  literal `::completed`. The two directions are proved separately. If every
  description is clean, the decoded list equals the original. If one is
  not, every decoded description is clean (`Tasks.Decode`), so the decoded
  list cannot equal the original.
- `TodoStore.CompleteKeepsMirror` and `TodoStore.DeleteKeepsMirror`: while
  the file mirrors the list, `complete` and `delete` on an existing index
  always succeed, and the file still mirrors the list afterwards.
- `TodoStore.AddThenSaveMirrors`: `add` followed by `save` keeps that
  mirror exactly when the new description is clean.
- `Cli.AddedDescriptionHasNoLineFeed`: a description typed with `todo add`
  never contains a line feed. Through the console, only the delimiter can
  break the file.

Behaviour of the code worth knowing:

- A non-blank line without the delimiter makes `load` panic (`unwrap`). It
  is not an I/O error. The model returns `BadLine(line)` for it.
- In the code, an error from `complete` or `delete` leaves `main` through
  `?` and ends the program. It does not print a message and continue. The
  loop itself is not modelled, but `Complete` and `Delete` report
  `TaskNotFound` as the code does.
- `complete` and `delete` change the in-memory list before saving. If the
  save fails, the change is kept and the error is returned. `Complete`,
  `Delete` and `Persist` keep it too.
- `load` appends the file's tasks to whatever the list already holds. `main`
  only calls it on a fresh, empty list.

## Model

| member | source | states |
|---|---|---|
| Text.FindFirst | src/lib.rs:45-47 | the cut `split("::completed")` makes is the leftmost occurrence of the delimiter: it occurs there, nowhere earlier, and there is no cut exactly when the line does not contain it |
| Text.Lines | src/lib.rs:40-41 | the lines `lines()` yields contain no line feed, and an empty file yields no lines |
| Text.LinesOfJoined | src/lib.rs:40-57 | lines written with `writeln!` and read back with `lines()` come back unchanged, as long as none contains a line feed or ends in a carriage return |
| Text.LinesOfCRLF | src/lib.rs:39-40 | a line ended by CR LF is read without the carriage return or the line feed, and reading goes on with the rest of the file |
| Text.LinesOfUnterminated | src/lib.rs:39-40 | a last line with no line feed after it is read as it stands, a trailing carriage return included |
| Text.SplitWhitespace | src/lib.rs:114 | `split_whitespace` yields non-empty words without whitespace, and yields none exactly when the line is blank |
| Text.SplitJoin | src/lib.rs:118 | joining words with single spaces and splitting again gives back the words |
| Text.ToLower | src/lib.rs:118 | lower-casing keeps the length and maps each character on its own |
| Text.ToLowerToken | src/lib.rs:118 | a lower-cased word is still a word |
| Tasks.EncodeLines | src/lib.rs:55-56 | `save` writes one line per task, in list order, each being the task's own encoding |
| Tasks.FlagSegmentTrue | src/lib.rs:47-48 | the flag is read as true exactly when the text after the first delimiter is `true`, or `true` followed directly by another delimiter |
| Tasks.DecodeLine | src/lib.rs:45-48 | a line is accepted exactly when it contains the delimiter. The description is the text before its first occurrence and never contains it, and the flag follows the rule above. A line without the delimiter is the error |
| Tasks.DecodeLines | src/lib.rs:39-48 | the load succeeds exactly when every non-blank line has the delimiter. A failure names the first such line, where the source panics. A success yields one task per non-blank line, in file order, each the task that line reads as; the descriptions are free of the delimiter, and also of line feeds when the lines are |
| Tasks.Decode | src/lib.rs:37-50 | every task read from a file has a description without a line feed or the delimiter |
| Tasks.DelimiterNoOverlap | src/lib.rs:45 | two occurrences of `::completed` in one line are at least its length apart |
| Tasks.FirstDelimiterAfterDescription | src/lib.rs:45-56 | in an encoded line whose description lacks the delimiter, the first delimiter is the one written after the description |
| Tasks.DecodeEncodeLine | src/lib.rs:45-56 | one encoded line decodes to its task exactly when the description lacks the delimiter |
| Tasks.EncodeLineIsPlain | src/lib.rs:42-56 | an encoded line is never blank and never ends in a carriage return, and it has no line feed when its description has none |
| Tasks.DecodeEncodedLines | src/lib.rs:45-56 | the lines of clean tasks decode back to those tasks |
| Tasks.RoundTrip | src/lib.rs:37-58 | loading what `save` wrote gives back exactly the saved tasks, in order, if and only if no description contains a line feed or `::completed` |
| Tasks.ReloadIsStable | src/lib.rs:37-58 | saving a loaded list and loading again gives the same tasks |
| Tasks.BlankLineIgnored | src/lib.rs:42-44 | inserting a blank line anywhere among the lines does not change what is loaded |
| TodoStore.Load | src/lib.rs:36-51 | loading succeeds exactly when the file exists and none of its lines is bad. Otherwise it fails with file-not-found when the file is missing, or names a non-blank line of the file without the delimiter. A success keeps the path and the tasks already held and appends exactly the tasks the file reads as. Loading into a fresh list leaves it mirrored by the file |
| TodoStore.Save | src/lib.rs:53-59 | saving succeeds exactly when the file exists (it is opened for truncation, never created). The file is then rewritten to exactly the encoded tasks, and no other file is touched. The saved file reloads to the list when the descriptions are clean |
| TodoStore.Add | src/lib.rs:61-63 | one task `(description, false)` is appended at the end. The earlier tasks and the path are unchanged |
| TodoStore.List | src/lib.rs:65-69 | one entry per task, in order, entry i numbered i+1 and carrying task i's flag and description |
| TodoStore.Persist | src/lib.rs:72-76 | after an in-memory change, a successful save rewrites the whole file from the changed list. A failed save keeps the change in memory and leaves the disk as it was |
| TodoStore.Complete | src/lib.rs:71-80 | an index past the end (including any index on an empty list) gives TaskNotFound and changes nothing, and TaskNotFound is reported for nothing else. Otherwise only task `index` changes, its flag set and its description kept. The save then succeeds exactly when the file exists, and its only failure is file-not-found |
| TodoStore.Delete | src/lib.rs:82-91 | an index past the end gives TaskNotFound and changes nothing. Otherwise exactly task `index` is removed: the tasks before it stay in place, the ones after move down by one, and the multiset of tasks loses just that task. TaskNotFound is reported only for an index past the end. The save then succeeds exactly when the file exists, and its only failure is file-not-found |
| TodoStore.CompleteKeepsMirror | src/lib.rs:71-80 | while the file mirrors the list, `complete` succeeds exactly on an existing index, and the file mirrors the list afterwards |
| TodoStore.DeleteKeepsMirror | src/lib.rs:82-91 | while the file mirrors the list, `delete` succeeds exactly on an existing index, and the file mirrors the list afterwards |
| TodoStore.AddThenSaveMirrors | src/lib.rs:130-134 | `todo add` (add, then save) on a mirrored store always saves, and the file still mirrors the list if and only if the new description has no line feed and no `::completed` |
| Cli.SplitCommandAsWritten | src/lib.rs:116-127 | the split as written fails exactly when the line has no words, and gives an argument exactly when there are more than two words |
| Cli.SplitCommand | src/lib.rs:116-127 | the corrected split gives an argument exactly when there are more than two words, and an empty command name when there are none |
| Cli.AsWrittenPanicsOnBlankLine | src/lib.rs:114-123 | the split as written panics exactly on an empty or all-whitespace input line |
| Cli.BlankLineIsInvalid | src/lib.rs:116-171 | with the corrected split, a blank line is an invalid command, and every other line parses as in the source |
| Cli.CommandNameWords | src/lib.rs:118-121 | the command name, split again, gives the first one or two words lower-cased |
| Cli.ParseKeepsWords | src/lib.rs:114-121 | re-splitting the command name gives the first one or two words lower-cased, and re-splitting the argument gives the remaining words |
| Cli.AddedDescriptionHasNoLineFeed | src/lib.rs:114-132 | a description entered with `todo add` contains no line feed |

## Left out

- Real file I/O (`File::open`, `OpenOptions`, `BufReader`, `writeln!`) is
  replaced by a map from path to file contents. The only I/O failure
  modelled is a file that does not exist. Permission errors, a full disk, a
  write that fails half-way, and invalid UTF-8 met by `lines()` are not
  modelled.
- Console output is a side effect only and is not modelled: the
  `[x]`/`[ ]` rendering of `display`, the confirmation and error messages,
  and the banner. `TodoStore.List` produces the numbered entries the
  display prints.
- The interactive loop in `main` and reading stdin are not modelled. This
  includes the final save on `quit` and the way errors end the program.
  `Cli` models only the split of one line and the choice of command
  (`Cli.Classify`).
- Parsing the index with `usize::parse` and the `index - 1` conversion are
  not modelled. A typed `0` underflows there. The store operations take the
  0-based index as a natural number.
- End of input also reaches the panic at `src/lib.rs:123`: `read_line`
  then leaves the line empty on every call. The right outcome there is to
  stop, which belongs to the loop in `main` and is not modelled. The
  corrected split only covers a blank line typed by the user.
- Text.ToLower: maps only the ASCII letters A-Z. Rust's `to_lowercase`
  applies full Unicode case mapping, which is not modelled.
- TodoStore.Load: the source panics on a line without the delimiter, which
  ends the process. The model returns a `BadLine` error instead.
- `TodoList::new` and `Task::new` are plain constructors (`TodoStore.New`
  and the `Task` datatype) and carry no contract.

## Findings

| source | as written | input that shows it | evidently intended | confidence | as-written member | corrected member |
|---|---|---|---|---|---|---|
| src/lib.rs:123 | `args[0]` is read even when the input line has no words | an empty or all-whitespace line, such as just pressing Enter | treat it like any other unknown input: print "Invalid command." and keep running | high; not executed | Cli.AsWrittenPanicsOnBlankLine | Cli.BlankLineIsInvalid |
