# superhist core in Dafny

superhist keeps a shell history under a storage root. It has four parts,
all in `superhist/src/main.rs`:

- The current segment `db.json` holds one JSON-encoded `Event` per line, in append order.
- `add` appends events to the current segment. It trims each command text and drops commands that trim to nothing.
- `archive` moves the current segment into a compressed file under `archive/`, with its lines reversed.
- `fc` lists the history as a numbered list, deduplicated by command text, newest first, each command marked with its exit status. In fetch mode it prints the raw text of one numbered entry.

This project models that core as pure functions:

| module | file | models |
|---|---|---|
| `Wrappers` | `wrappers.dfy` | `Option` and `Result` |
| `Events` | `events.dfy` | `Payload`, `Event`, the error kinds, and `str::trim` over Unicode White_Space |
| `Lines` | `lines.dfy` | `BufRead::lines` (split at `\n`, strip one `\r`) and the writing of lines each followed by `\n` |
| `EventLog` | `store.dfy` | the storage root as a `Store`, plus `add` and `archive` |
| `QueryEngine` | `query.dfy` | the `fc` fold (`filter_func`, `print_func`, the exit map, the seen-text set, the number `nr`), an independent description `Expected` of its output, and the proof that they agree |
| `History` | `history.dfy` | `fc` over a storage root: the order the stream is read in, decoding that stops at the first bad line, what archiving does to a query, and two findings |
| `Cli` | `cli.dfy` | the payload validation of the `add` subcommand in `sub_main` |
| `Import` | `import.dfy` | the backslash-continuation joining of `import` |

How the model is set up:

- **Store.** A `Store` is the current segment's text (`None` when `db.json` is absent) plus a map from archive file name to that archive's decompressed text.
- **Codecs.** The JSON encoder and decoder are parameters (`encode`, `decode`). The serde round trip belongs to that library.
- **Archive names.** The archive file name is a parameter, because the tool builds it from the clock and the host name. `fc` receives the archive names already sorted.

## Model

| member | source | states |
|---|---|---|
| Events.Trim | superhist/src/main.rs:236-238 | the trimmed text has no white space at either end, and it is empty exactly when the whole text is white space |
| Events.TrimKeepsSlice | superhist/src/main.rs:237 | the trimmed text is one contiguous piece of the original, and everything cut off on either side is white space |
| Events.TrimIdempotent | superhist/src/main.rs:237 | trimming an already trimmed text changes nothing |
| Lines.SplitLines | superhist/src/main.rs:156-160 | no line read back contains a newline, and a non-empty file yields at least one line |
| Lines.SplitJoin | superhist/src/main.rs:162-165 | lines without newlines (and not ending in `\r`), written each followed by `\n`, read back as exactly the same lines |
| Lines.SplitAppend | superhist/src/main.rs:244-256 | appending text to a file that ends in a newline gives the old lines followed by the new ones |
| EventLog.Normalize | superhist/src/main.rs:234-253 | the batch that gets written is never longer than the input, and every command in it has non-empty trimmed text |
| EventLog.NormalizeKeepsOrder | superhist/src/main.rs:234-253 | the written events are the input events at strictly increasing positions, with command texts trimmed; a position is kept exactly when the event is not a command whose text trims to nothing |
| EventLog.Add | superhist/src/main.rs:243-257 | the current segment exists afterwards, the old text is a prefix of the new one, and the archives are untouched |
| EventLog.AddAppendsRecords | superhist/src/main.rs:244-257 | when the segment holds whole clean lines, the lines afterwards are the old lines followed by one encoded record per surviving event, in order, and the segment stays well formed |
| EventLog.Archive | superhist/src/main.rs:146-175 | the archive file is created (line 152) before the current segment is opened (line 156). So the archives gain exactly the new name, every other archive is unchanged, and an existing archive of that name is replaced: by the reversed segment when there is one, and otherwise by an archive with no records, the call then failing with an I/O error. The current segment is absent afterwards |
| EventLog.ArchiveChecked | superhist/src/main.rs:146-175 | the corrected `archive` (see Findings): without a current segment it fails with an I/O error and leaves the root exactly as it was; otherwise it is `archive` |
| EventLog.ArchiveReverses | superhist/src/main.rs:155-167 | the archive text (`ArchiveText`) holds the current segment's lines in reverse order, each followed by `\n` |
| Cli.MakePayload | superhist/src/main.rs:410-424 | a payload comes out exactly for the three flag combinations (text and directory; exit code alone; `-s` alone); every other combination is `InvalidParams` |
| Cli.MakePayloadExactlyFlagsFor | superhist/src/main.rs:410-424 | the flags build a payload exactly when they are that payload's one combination, so payload and flags determine each other |
| Cli.AddFromFlags | superhist/src/main.rs:405-426 | with invalid flags the subcommand fails with `InvalidParams` and adds nothing; otherwise it adds the one event the flags describe |
| Import.JoinContinuationsRoundTrip | superhist/src/main.rs:186-206 | splitting the joined entries back at their newlines, and giving each piece its backslash back, recovers the input lines. The only lines lost are a trailing run of lines that end in a backslash |
| Import.JoinPlainLines | superhist/src/main.rs:190-206 | (`JoinStep`, `JoinContinuations`) lines that do not end in a backslash become entries one for one, unchanged, and no entry is left open |
| Import.JoinContinuedPair | superhist/src/main.rs:192-203 | a line ending in a backslash and the line after it make one entry: the first line without its backslash, a newline, then the second line |
| Import.OpenEntryDropped | superhist/src/main.rs:192-206 | a last line ending in a backslash adds no entry: an entry still open at the end of input is never pushed |
| QueryEngine.Escape | superhist/src/main.rs:321 | the displayed text contains no newline and is no shorter than the original |
| QueryEngine.EscapeNewline | superhist/src/main.rs:321 | a newline is displayed as the two characters `\` and `n` |
| QueryEngine.EscapeReplaces | superhist/src/main.rs:321 | the text up to the first newline is displayed as it is, that newline as `\` `n`, and the rest is escaped the same way. With `EscapeKeepsPlainText` this determines the displayed text of every command |
| QueryEngine.EscapeKeepsPlainText | superhist/src/main.rs:321 | a text without newlines is displayed unchanged |
| QueryEngine.FilterCases | superhist/src/main.rs:266-283 | `filter_func` (`Filter`) passes exactly the commands whose directory is the one asked for, or all commands when none is asked for. An exit-code event records its code and time under its (terminal, idx) slot; no other event touches the exit map |
| QueryEngine.PrintCases | superhist/src/main.rs:288-332 | `print_func` (`Print`) does nothing for a text it handled before. A new text is remembered and advances the number. Display mode adds one line with the current number, the slot's marker and the escaped text. Fetch mode adds the raw text only when the current number is the one asked for. The exit map is never touched |
| QueryEngine.StepCases | superhist/src/main.rs:266-331 | a start event changes nothing. An exit code records itself under its (terminal, idx) slot and prints nothing. A command filtered out, or whose text was already handled, changes nothing. A new passing command adds its text to the seen set and advances the number by exactly one |
| QueryEngine.Scan | superhist/src/main.rs:263-348 | the number is always the start number plus the count of texts handled. In fetch mode at most one line comes out, and only for a number actually reached |
| QueryEngine.Fc | superhist/src/main.rs:262-348 | the fold's output equals the independent description. Display mode gives one line per first passing command in stream order, numbered from the start number. Fetch mode gives the raw text of the passing command with the requested number, or nothing |
| QueryEngine.ListedOncePerText | superhist/src/main.rs:286-291 | the display lines come one per first occurrence, in stream order, with consecutive numbers, and no two of them share a text |
| QueryEngine.EveryPassingTextListed | superhist/src/main.rs:266-291 | every command that passes the filter has its text listed, by an occurrence at or before it in the stream |
| QueryEngine.FetchAgreesWithDisplay | superhist/src/main.rs:292-296 | fetch mode emits a line exactly when the number is one display mode shows; that display line carries the same number, and its shown text is the fetched raw text with newlines escaped |
| QueryEngine.ExitsBelowLastWins | superhist/src/main.rs:275-277 | a slot has a recorded exit exactly when some exit-code event for it was read, and the recorded exit is the one read last |
| QueryEngine.ListedMarker | superhist/src/main.rs:309-320 | a listed command's marker (`MarkerFor`) is unknown exactly when no exit code for its slot came before it in the stream. Otherwise it is success exactly when the last such code is zero |
| QueryEngine.LsTwiceListedOnce | superhist/src/main.rs:262-348 | `ls` run in /home and then in /tmp is listed once, numbered 1, for the newer run, with an unknown exit status |
| History.DecodePrefix | superhist/src/main.rs:343-348 | every line before the first malformed one is decoded, in order; the malformed line is reported as a JSON error and never skipped |
| History.RunLines | superhist/src/main.rs:338-348 | the run fails exactly when some line does not decode, and then with the decoding error `CsvError` (serde_json's error, lines 344, 368, 376). What is printed is the description over the events decoded before that line |
| History.Query | superhist/src/main.rs:334-383 | the corrected query: an absent `db.json` reads as empty, and what the tool does is `QueryAsWritten`. It reads the current segment newest-first, then the archives from the highest name down. It fails exactly when a line does not decode, and then with `CsvError` |
| History.StreamReadOrder | superhist/src/main.rs:335-383 | (`StreamLines`) without archives `fc` reads only the current segment, newest line first. The archive with the highest name is read next, forward, ahead of the archives below it |
| History.QueryAsWritten | superhist/src/main.rs:334-335 | with the current segment absent, `fc` fails with an I/O error before printing anything; otherwise it is `Query` |
| History.BelowIrreflexive | superhist/src/main.rs:359 | no archive name is below itself |
| History.ArchiveKeepsStream | superhist/src/main.rs:158-171 | archiving under a name above all existing ones leaves the stream of record lines that `fc` reads unchanged |
| History.ArchiveKeepsQuery | superhist/src/main.rs:158-171 | archiving under a name above all existing ones leaves the query's output and error unchanged |
| History.AddedComesFirst | superhist/src/main.rs:244-256 | after `add`, the stream starts with the new records, newest first, followed by the stream as it was |
| History.ArchiveTwiceEmptiesArchive | superhist/src/main.rs:150-171 | archiving a root that lists `ls` twice under the same name empties the archive the first call wrote, and the second call fails with an I/O error. Afterwards the corrected query lists nothing; the tool's own `fc` fails with an I/O error, because `db.json` is absent |
| History.ArchiveCheckedTwiceKeepsQuery | superhist/src/main.rs:150-171 | with the corrected `archive`, a second call under the same name changes nothing, and the query after both calls answers as before either |
| History.QueryAsWrittenFailsAfterArchive | superhist/src/main.rs:169-171 | after archiving a root that lists `ls`, the tool's `fc` fails with an I/O error, while the corrected query still lists `ls` |

## Left out

- File locking (`lock`, lines 136-143) is left out: it is operating-system concurrency plumbing, and the model is sequential.
- xz compression, buffered readers and writers: an archive is modelled by its decompressed text.
- The serde JSON encoding and decoding are function parameters.
- EventLog.AddAppendsRecords: requires an encoder whose output has no newline and does not end in a carriage return. serde's compact output never has either, because control characters inside strings are escaped.
- The archive file name built from the clock and the host name (lines 127-133) is a parameter of `Archive`.
- Creating the `archive/` directory, and listing and sorting it (lines 147, 353-359): the query takes the sorted list of names, and `Lists` states what that list must satisfy.
- Files in `archive/` that do not end in `.xz` are read as plain text (lines 373-380). The model does not distinguish the two cases, because an archive is already its decompressed text.
- Date formatting, terminal colours and the six-column padding of display mode are left out; the marker is an enum and the line a datatype.
- The regular expressions of `import` (lines 183, 210-224) and the unused one at line 101 are left out; only the continuation joining is modelled.
- Reading the history file in `import` skips lines that fail to read (line 191). The model's input is the lines that were read.
- Command-line parsing, `main`'s error printing and its exit code are left out.
- `backlink.py` is not part of this model.
- Text that is not valid UTF-8 makes `lines()` fail. Strings here are sequences of characters, so that failure is not modelled.
- I/O errors other than a missing `db.json` (full disk, permissions, a failing write) are not modelled.
- QueryEngine.Scan: the tool's `nr` is a `u64` that starts at the `-s` value (lines 59, 263) and is incremented at line 328. It overflows once the start number plus the number of distinct texts passes u64::MAX; with `-s` at u64::MAX one command is enough. A debug build then panics and a release build wraps to 0. The model's `nr` is an unbounded `nat`, so its numbers keep growing.
- QueryEngine.Fc: display mode converts each listed command's timestamp with `NaiveDateTime::from_timestamp(timestamp as i64, 0)` (line 302), which panics when chrono cannot represent the time. That happens for values above about 8.2·10^12 seconds, and for most values at or above 2^63, which the cast makes negative. `add -x` accepts any u64 (lines 66, 407), so such a command can be stored. The model lists that command instead of stopping. Fetch mode formats no date and is not affected.
- `add`, `archive` and `fc` are pure functions, so repeating a query against an unchanged root gives the same answer by construction.
- Fetch mode writes the stored text unchanged, newlines and backslashes included (lines 322-323).

## Findings

| source | as written | input that shows it | evidently intended | confidence | as-written member | corrected member |
|---|---|---|---|---|---|---|
| superhist/src/main.rs:169-171 with 335 | `archive` removes `db.json`, and `fc` opens `db.json` unconditionally, so every `fc` after an `archive` fails with an I/O error until the next `add` recreates the file | a root whose current segment holds one `ls` record and has no archives; `archive` under name `a`; then `fc -s 1` | a query after archiving prints what it printed before, reading an absent current segment as empty | medium, not executed | History.QueryAsWrittenFailsAfterArchive | History.ArchiveKeepsQuery |
| superhist/src/main.rs:150-171 with 127-133 | `archive` creates (and so truncates) the archive file before it opens `db.json`. The file name has a resolution of one second | a root whose current segment holds one `ls` record; `archive` twice within one second, both under name `a`, with no `add` between | a failed `archive` leaves the root unchanged, so the first archive keeps its records | medium, not executed | History.ArchiveTwiceEmptiesArchive | EventLog.ArchiveChecked |
