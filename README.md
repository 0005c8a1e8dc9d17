# dirhist — a verified model of the directory-history reader

`dirhist` is the reader behind a zsh plugin that records every command
together with the directory it ran in. Each record in the history file looks like
`<marker>:<timestamp>[:<duration>];<directory>;<command>`, and records are
separated by NUL bytes. Given a directory and a command prefix, the reader
answers with the distinct commands that start with the prefix. Commands run
in that directory come first. After that come the ones run elsewhere, each
where it first occurs in the file. It prints either those commands, joined by
NUL and newline, or only their positions.

This Dafny project models the core of `src/main.rs` and proves what it
promises:

- `Text` holds the pieces of Rust's standard library the core relies on:
  - `split` and `splitn(3, …)` on one separator;
  - `trim`, over the Unicode White_Space set;
  - `starts_with`;
  - `u64::from_str`: an optional `+`, at least one ASCII digit, and a value
    below 2^64;
  - the decimal form `{}` prints.
- `Record` models `HistoryEntry` and `HistoryEntry::from_str`. Each place
  where the parser panics is an explicit `ParseError`, in the order the
  parser reaches them.
- `Seqs` models `Iterator::filter` on finite sequences.
- `Query` models the query pipeline on values:
  - the directory partition of `read_all_by_dir`;
  - the stages of `read_all_with`;
  - first-wins deduplication, with the seen-set loop of `read_commands_with`
    as a method proved against its specification.
- `Store` models the `HistoryFile` class:
  - a byte buffer that is loaded from the file only while it is empty;
  - NUL splitting, skipping of blank records, and parsing in file order;
  - the four query methods.
  The file's bytes are a parameter of each read.
- `Render` models the two outputs of `main`: the index listing and the
  NUL-joined command list.

Panics become values. An `IoError` stands for a failed `open` or
`read_to_end`. A `MalformedRecord(record, reason)` stands for the first
non-blank record whose parse panics. `main` drains the lazy iterators
completely, so such a record ends the whole query whatever the directory and
prefix are.

Three behaviours of the code a reader might not expect:

- An empty history file leaves the buffer empty. Every later read then opens
  the file again, so "read at most once" holds only for non-empty files
  (`ReadTwice`).
- `read_all_by_dir("")` still partitions, on the empty directory. Only
  `read_all_with` skips the directory stage when `dir` is empty.
- Every parse failure panics. A meta field without `:` panics on the index
  `items[1]` (src/main.rs:111) rather than at an `assert!` or `expect`, and
  the model reports it as `MissingTimestamp`.

## Model

| member | source | states |
|---|---|---|
| Text.Trim | src/main.rs:38 | `str::trim`; its contract is carried by `TrimSpec`, `TrimCuts`, `TrimTrimmed` and `TrimEmpty` |
| Text.ParseU64 | src/main.rs:111 | `u64::from_str`; its contract is carried by `ParseU64Canonical` and `ParseU64Padded`, which together characterise the accepted strings |
| Text.StartsWith | src/main.rs:55 | `str::starts_with`; used by `Query.ReadAllWithMembers` and `Query.CommandsWithAnswers` |
| Text.Split | src/main.rs:36 | `split` always yields at least one piece, even for an empty input |
| Text.JoinSplit | src/main.rs:36 | gluing the pieces of `split` back with the separator gives the input: no byte is lost |
| Text.SplitPiecesFree | src/main.rs:36 | no piece of `split` contains the separator |
| Text.SplitNoSep | src/main.rs:109 | a text without the separator splits into itself alone |
| Text.SplitConcat | src/main.rs:36 | a separator between two texts cuts the split into the splits of each side |
| Text.SplitExtendLast | src/main.rs:36 | text without a separator appended to the input extends only the last piece |
| Text.SplitJoin | src/main.rs:109 | splitting undoes joining with the separator when no piece holds it |
| Text.JoinTail | src/main.rs:106 | joining a tail first and then the whole equals joining all at once (the rest piece of `splitn`) |
| Text.SplitN | src/main.rs:106 | `splitn(n, sep)` yields between 1 and n pieces |
| Text.SplitNShape | src/main.rs:106 | `splitn` yields at most n pieces; they join back to the input; all but the last are free of the separator, and so is the last when fewer than n came out |
| Text.SplitN3Pieces | src/main.rs:106 | three pieces of `splitn(3, sep)` are the text before the first separator, between the first two, and everything after the second, with the input their join |
| Text.SplitN3 | src/main.rs:106 | `a;b;c`, with no separator in a or b, splits into exactly a, b and c, and c keeps any further separator |
| Text.LeadingWhitespaceStops | src/main.rs:111 | the leading-whitespace count covers only whitespace and stops at a non-whitespace character |
| Text.TrailingWhitespaceStops | src/main.rs:111 | the trailing-whitespace count covers only whitespace and stops at a non-whitespace character |
| Text.TrimSpec | src/main.rs:111 | `trim` removes exactly the whitespace around a text whose ends are not whitespace |
| Text.TrimCuts | src/main.rs:111 | the result of `trim` is a slice of its input with only whitespace on either side |
| Text.TrimTrimmed | src/main.rs:111 | neither end of a trimmed text is whitespace |
| Text.TrimEmpty | src/main.rs:38 | `s.trim().is_empty()` holds exactly when s is all whitespace (both directions) |
| Text.Decimal | src/main.rs:153 | `{}` of an unsigned number is a non-empty string of digits, with no leading zero unless the number is 0 |
| Text.DecimalValue | src/main.rs:153 | the digits printed for n denote n |
| Text.DecimalRoundTrip | src/main.rs:111 | every u64 value printed by `{}` parses back as itself with `u64::from_str` |
| Text.LeadingZerosValue | src/main.rs:111 | zeros in front of a digit string do not change the number it denotes |
| Text.DecimalUnique | src/main.rs:153 | a digit string without a leading zero is exactly what `{}` prints for its value: the rendering is the only such spelling |
| Text.DigitsCanonical | src/main.rs:111 | every digit string is some zeros followed by what `{}` prints for its value |
| Text.ParseU64Canonical | src/main.rs:111 | whatever `u64::from_str` accepts is an optional `+`, then zeros, then exactly what `{}` prints for the parsed value |
| Text.ParseU64Padded | src/main.rs:111 | conversely, every value below 2^64 is accepted back from what `{}` prints, with or without `+` and behind any number of zeros |
| Record.ParseMeta | src/main.rs:107-118 | the meta field of `from_str`; its contract is carried by `MetaWithoutTimestamp`, `MetaTwoSubfields`, `MetaThreeSubfields` and `MetaTooManySubfields`, which cover every field |
| Record.Parse | src/main.rs:105-125 | `HistoryEntry::from_str`; its contract is carried by `ParseFields`, `ParseWithoutCommand`, `ParseWithoutDirectory` (every record by its number of `;`), `ParsedShape` and `FormatRoundTrip` |
| Record.MetaWithoutTimestamp | src/main.rs:108-111 | a meta field without `:` has no `items[1]`: `MissingTimestamp` |
| Record.MetaTwoSubfields | src/main.rs:111-116 | `marker:ts` gives the trimmed timestamp parsed, with duration 0; an unparsable timestamp gives `BadTimestamp` |
| Record.MetaThreeSubfields | src/main.rs:111-113 | `marker:ts:dur` gives both trimmed numbers parsed; an unparsable timestamp gives `BadTimestamp` before the duration is looked at, and an unparsable duration gives `BadDuration` |
| Record.MetaTooManySubfields | src/main.rs:109-110 | four or more `:`-subfields fail the `len() <= 3` assertion whatever they contain |
| Record.ParseFields | src/main.rs:105-124 | `meta;dir;cmd` parses to the meta numbers, the directory verbatim and the whole remainder as the command, or to the meta field's error |
| Record.ParseWithoutCommand | src/main.rs:119-123 | a record with one `;` fails with `MissingCommand` once its meta field parses, and with the meta field's error otherwise |
| Record.ParseWithoutDirectory | src/main.rs:119-122 | a record without `;` fails with `MissingDirectory` once its meta field parses, and with the meta field's error otherwise |
| Record.ParsedShape | src/main.rs:105-124 | whatever parses is a meta field without `;` that parses to the entry's numbers, then `;`, the directory (without `;`), `;` and the command: nothing is trimmed or lost |
| Record.FormatRoundTrip | src/main.rs:105-125 | a record written with both numbers, any marker free of `:` and `;`, and a directory without `;` parses back to the same entry |
| Record.ExampleMetaNoDuration | src/main.rs:112-116 | the meta field `: 1` gives timestamp 1 and duration 0 |
| Record.ExampleNoDuration | src/main.rs:105-124 | `: 1;/a;ls` parses to timestamp 1, duration 0, directory `/a`, command `ls` |
| Record.ExampleFourSubfields | src/main.rs:109-110 | `: 1:2:3;/a;ls` is rejected with `TooManyMetaFields` |
| Seqs.Filter | src/main.rs:38 | `Iterator::filter` as used at src/main.rs:38, 55 and 57: its contract is carried by `FilterMembers` (exactly the passing elements), `FilterAppend` (order kept over a concatenation), `FilterKeepsAll` (identity when all pass) and `FilterSplits` (a predicate and its complement give a permutation) |
| Seqs.FilterMembers | src/main.rs:55 | `filter` keeps exactly the elements that satisfy the predicate |
| Seqs.FilterAppend | src/main.rs:57 | filtering a concatenation filters each part, keeping their order |
| Seqs.FilterKeepsAll | src/main.rs:55 | a filter every element passes changes nothing |
| Seqs.FilterSplits | src/main.rs:47-48 | a predicate and its complement split the input between them: together they are a permutation of it |
| Query.Partition | src/main.rs:47-48 | the one-pass `partition`; its contract is carried by `PartitionMatching` and `PartitionOthers` |
| Query.ByDirectory | src/main.rs:42-50 | `read_all_by_dir`; its contract is carried by `ByDirectoryIsStablePartition`, `ByDirectoryPermutes` and `ByDirectoryPutsDirectoryFirst` |
| Query.PartitionMatching | src/main.rs:47-48 | the first vector of `partition` receives exactly the entries in `dir`, in order |
| Query.PartitionOthers | src/main.rs:47-48 | the second vector of `partition` receives exactly the entries elsewhere, in order |
| Query.ByDirectoryIsStablePartition | src/main.rs:42-50 | `read_all_by_dir` is the entries in `dir` in file order, then all others in file order |
| Query.ByDirectoryPermutes | src/main.rs:47-49 | `read_all_by_dir` returns a permutation of the entries: nothing is lost or duplicated |
| Query.ByDirectoryPutsDirectoryFirst | src/main.rs:47-49 | every entry in `dir` comes before every entry elsewhere |
| Query.ReadAllWith | src/main.rs:52-60 | `read_all_with`; its contract is carried by `ReadAllWithSelects`, `ReadAllWithMembers` and `ReadAllWithNothing` |
| Query.ReadAllWithSelects | src/main.rs:52-60 | `read_all_with` returns each entry whose command starts with the prefix, as often as it occurs; without a directory, in file order; with one, those in `dir` first and then the others |
| Query.FilterCommute | src/main.rs:55-57 | the prefix filter and the directory filters can be applied in either order |
| Query.ReadAllWithNothing | src/main.rs:54-55 | with an empty directory and prefix, `read_all_with` returns every entry in file order |
| Query.ReadAllWithMembers | src/main.rs:52-60 | an entry is returned exactly when it is in the file and its command starts with the prefix |
| Query.Distinct | src/main.rs:62-74 | the deduplicated commands are exactly the commands of the input |
| Query.FirstIndex | src/main.rs:66-70 | the position where a command first occurs: it is there and not before |
| Query.DistinctHasNoDuplicates | src/main.rs:66-70 | no command is yielded twice |
| Query.DistinctKeepsFirstOccurrenceOrder | src/main.rs:64-72 | a command yielded earlier first occurs earlier in the input |
| Query.DistinctOrder | src/main.rs:64-72 | one command precedes another in the output exactly when it first occurs earlier in the input (both directions) |
| Query.DistinctOfDistinct | src/main.rs:64-72 | input with no repeated command passes through unchanged |
| Query.DistinctIdempotent | src/main.rs:64-72 | deduplicating twice equals deduplicating once |
| Query.UniqueCommands | src/main.rs:63-73 | the seen-set loop yields the first-wins deduplication of the commands |
| Query.CommandsMembers | src/main.rs:64-70 | a command is among the commands exactly when some entry has it |
| Query.CommandsWith | src/main.rs:62-74 | `read_commands_with`; its contract is carried by `CommandsWithAnswers` and `CommandsWithDirectoryFirst`, with `DistinctOrder` for the order |
| Query.CommandsWithAnswers | src/main.rs:62-74 | `read_commands_with` has no duplicates and contains c exactly when c starts with the prefix and some entry in the file has command c |
| Query.CommandsAppend | src/main.rs:49 | the commands of a chain are the commands of each part, in order |
| Query.DistinctFrontFirst | src/main.rs:64-72 | a command occurring in the front part of the input is yielded before every command occurring only in the back part |
| Query.RunHereIsInFront | src/main.rs:47-57 | a matching command run in `dir` comes from the directory's own entries |
| Query.NeverRunHereNotInFront | src/main.rs:47-57 | a command never run in `dir` does not come from the directory's own entries |
| Query.CommandsWithDirectoryFirst | src/main.rs:47-73 | after deduplication, a command run in `dir` is still listed before every command never run there |
| Query.ExampleByDirectory | src/main.rs:47-49 | entries in `/a`, `/b`, `/a` are reordered to the two `/a` entries, then the `/b` entry |
| Query.ExampleCommandsDistinct | src/main.rs:64-72 | three different commands pass deduplication unchanged |
| Query.ExampleStream | src/main.rs:57 | with an empty prefix the example query keeps the partition whole |
| Query.ExampleDirectoryFirst | src/main.rs:62-74 | for `/a` the example answers `ls`, `ls -l`, `cd x` |
| Query.ExamplePrefix | src/main.rs:54-55 | with no directory and prefix `ls`, the example answers `ls`, `ls -l` |
| Query.ExampleDuplicate | src/main.rs:66-70 | a command run twice is answered once |
| Store.Records | src/main.rs:36 | the NUL split of the buffer; its contract is carried by `RecordsCoverBuffer` |
| Store.ParseRecords | src/main.rs:37-39 | skipping blank records and parsing the rest; its contract is carried by `BlankRecordSkipped`, `ParseRecordsSucceeds`, `ParseRecordsEntries` and `ParseRecordsFailure` |
| Store.Entries | src/main.rs:35-39 | the body of `read_all` once the buffer is loaded; its contract is carried by the `ParseRecords*` lemmas and by `EmptyFileHasNoEntries`, `TrailingNulIgnored` and `DoubledNulIgnored` |
| Store.RecordsCoverBuffer | src/main.rs:36 | the records are the buffer cut at every NUL: none holds a NUL, and joined with NUL they are the buffer |
| Store.DecodedNulFree | src/main.rs:36-37 | since every record is cut at a NUL byte and lossy decoding makes NUL only from NUL, no decoded record holds a NUL |
| Store.CommandWithin | src/main.rs:39 | a parsed command is the tail of its record, so it holds no character the record lacks |
| Store.EntriesNulFree | src/main.rs:35-39 | no command of a successfully read history file holds a NUL |
| Store.CommandsWithNulFree | src/main.rs:62-74 | no command a successful `read_commands_with` answers holds a NUL |
| Store.PrintedCommandsReadBack | src/main.rs:149-161 | the printed answer of a successful query ends in a newline and, cut at its NULs, gives back the commands the query returned |
| Store.Decoded | src/main.rs:37 | one text per record |
| Store.IsBlank | src/main.rs:38 | `s.trim().is_empty()`: `TrimEmpty` proves it holds exactly when the text is all whitespace, and `BlankRecordSkipped` that a blank record is dropped without changing the outcome |
| Store.BlankRecordSkipped | src/main.rs:38 | a blank record yields nothing and does not change the outcome for the records around it |
| Store.ParseRecordsSucceeds | src/main.rs:38-39 | reading succeeds exactly when every non-blank record parses (both directions) |
| Store.ParseRecordsEntries | src/main.rs:35-39 | on success there is one entry per non-blank record, in file order, each that record parsed |
| Store.ParseRecordsPassesOn | src/main.rs:38-39 | a leading record that is blank or parses leaves the failure, if any, to the records after it |
| Store.ParseRecordsPrefixOk | src/main.rs:38-39 | a leading record that is blank or parses keeps a successful run of records successful |
| Store.ParseRecordsFailure | src/main.rs:39 | a failure names the first non-blank record that does not parse, with its reason; every record before it is blank or parses |
| Store.EmptyRecordBlank | src/main.rs:37-38 | the empty record decodes to the empty text, which is blank |
| Store.EmptyFileHasNoEntries | src/main.rs:35-39 | an empty history file yields no entries and no error |
| Store.TrailingNulIgnored | src/main.rs:36-38 | a NUL after the last record changes nothing: the empty record after it is skipped |
| Store.DoubledNulIgnored | src/main.rs:36-38 | two NULs in a row read like one: the empty record between them is skipped |
| Store.HistoryFile.constructor | src/main.rs:18-23 | a new history file has the given path, an empty buffer and no reads yet |
| Store.HistoryFile.ReadAll | src/main.rs:29-40 | the file is read only while the buffer is empty; a failed read is `IoError`; otherwise the entries of the buffer |
| Store.HistoryFile.ReadAllByDir | src/main.rs:42-50 | the same load, then the directory partition of the entries |
| Store.HistoryFile.ReadAllWith | src/main.rs:52-60 | the same load, then the directory stage for a non-empty `dir` and the prefix filter |
| Store.HistoryFile.ReadCommandsWith | src/main.rs:62-74 | the same load, then the distinct commands of `read_all_with`, each where it first occurs; no command returned holds a NUL |
| Store.ReadTwice | src/main.rs:29-33 | a non-empty file is read once and a second read answers the same; an empty file yields no entries, and an empty or unreadable file is read again |
| Render.IndexListing | src/main.rs:150-158 | the text of the index branch; its contract is carried by `PrintIndices`, `IndexListingLines` and `IndexLinesReadBack` |
| Render.CommandList | src/main.rs:159-161 | the text of the list branch; its contract is carried by `CommandListShape` |
| Render.PrintIndices | src/main.rs:150-158 | the index branch prints `0` to `k-1`, one per line, or `NONE` when k is 0 |
| Render.IndexLinesSplit | src/main.rs:151-155 | line i of the index output is the numeral i, with nothing after the last newline |
| Render.IndexListingLines | src/main.rs:150-158 | with results, line i is the numeral i; without, the output is the single line `NONE` |
| Render.IndexLinesReadBack | src/main.rs:152-153 | each line of the index output parses back as its own position |
| Render.JoinedPieces | src/main.rs:160 | cutting a NUL-newline join at the NULs gives the first item and then each further item behind a newline |
| Render.CommandListShape | src/main.rs:159-161 | the list output is a lone newline for no commands; otherwise it ends in a newline and cutting it at the NULs gives back every command |
| Render.ExampleIndices | src/main.rs:150-158 | no results print `NONE`; two print `0` and `1` |

## Left out

- File access: `File::open` and `read_to_end` are replaced by the parameter `disk`, where `None` stands for a failed open or read. If `read_to_end` fails after filling part of the buffer, the source keeps those bytes. The model keeps none.
- Store.Decoded: `String::from_utf8_lossy` is the parameter `decode`. The reads require only `LossyUtf8(decode)`: ASCII bytes, the empty record included, decode to the characters with the same codes. It also requires that only a NUL byte decodes to a NUL character. Beyond that, on any record holding a byte of 128 or more, `decode` is unconstrained. The model does not say how valid multi-byte UTF-8 decodes or what replaces malformed sequences.
- `HistoryFile::default` (src/main.rs:77-91) is left out. It resolves the path from `ZSH_DIRHIST_FILE` or `HOME` and panics when neither is set. Environment variables are outside the model.
- `HistoryFile::path` (src/main.rs:25-27) is a getter. The model keeps `path` as a constant field instead.
- `Args` and command-line parsing with `clap` (src/main.rs:128-146) are left out. Directory, prefix and output mode are plain parameters.
- `DEFAULT_DIRHIST_SIZE` is not used by the core, so it is left out.
- Output to stdout: `Render` builds the printed text as a value.
- Laziness: partial output printed before a malformed record panics is not modelled. The model's query fails as a whole.
- The internals of `HashSet` are out of scope. The seen set is a Dafny `set`.
- Store.ReadTwice: the read count is a ghost counter the source does not have. It only makes the memoisation visible.
