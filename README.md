# sl-chatmerge in Dafny

A model of the reconciliation engine of `sl-chatmerge.py`, the tool that keeps
Second Life chat-log folders on several machines in step. For every relative
`*.txt` path found in a readable directory, the tool does four things:

1. It reads the copies from all readable directories and concatenates them.
2. It normalises the combined text into one canonical log:
   - line endings become LF;
   - multi-line entries are reassembled;
   - timestamps are rewritten into 24-hour form;
   - entries are sorted by their full text;
   - adjacent duplicates are dropped.
3. It writes the result to every writable directory that lacks it or holds a different text.
4. It skips a path when every directory already holds a copy of the same size.

The model covers these parts of the program:

- `sort_chat_log`;
- `should_exclude_file` and the filter chain of `discover_files`;
- `merge_and_sync_file`, over an abstract file system;
- `validate_config`;
- `main`'s check that a readable and a writable directory exist.

Modules, in dependency order:

| module | file | contents |
|---|---|---|
| `Wrappers` | `wrappers.dfy` | `Option` and `Result` |
| `Text` | `text.dfy` | Python string operations: ASCII `lower()`, `in`, `startswith`, `endswith`, `split`, `join`, `''.join`, with their round-trip lemmas |
| `Order` | `order.dfy` | The byte order of `sort_key`. It is lexicographic order on code points, which UTF-8 preserves. `sorted()` appears as an insertion sort; uniqueness of sorted permutations makes the algorithm irrelevant. Also the duplicate removal. |
| `Timestamp` | `timestamp.dfy` | A scanner for the timestamp pattern, with soundness and completeness against the text it renders. Also the 24-hour rewrite (`int`, `str`, `zfill(2)`, AM/PM). |
| `ChatLog` | `chatlog.dfy` | `sort_chat_log`: specification functions, plus the method `SortChatLog` whose loops are proved equal to them |
| `ChatLogFacts` | `chatlog_facts.dfy` | What the normaliser promises: entry reassembly, the error condition, the output's shape, sorted and duplicate-free output, and idempotence |
| `Config` | `config.dfy` | `validate_config` and the start-up access check |
| `Selection` | `selection.dfy` | The exclusion lists, `should_exclude_file` and `discover_files` |
| `Sync` | `sync.dfy` | `merge_and_sync_file` as a method on a `FileSystem` object, proved against the functions `Decide`, `AfterFiles` and `AfterDirs`, plus lemmas about them |

The file system has two fields:

- `files`, a map from (directory index, relative path) to text;
- `dirs`, the set of (directory index, relative sub-directory) that exist.

Other modelling choices:

- The directory index stands for the configured path.
- A file's size is the UTF-8 length of its text.
- The recursive `*.txt` listing of each directory is an input list.

Where the program's written design and its code disagree, the model follows the code:

- The sort key is the whole entry's bytes, not a 21-byte prefix (sl-chatmerge.py:322-328).
- Copies are concatenated with no separator (sl-chatmerge.py:428). A copy that does not end in a line break therefore has its last line run into the next copy's first line. `Sync.CombinedLines` states this; the order of the copies can then matter.
- A malformed timestamp stops the whole program (sl-chatmerge.py:430-437). It does not just skip the file.
- Normalising a second time does not always give the same text. Input of only line breaks flips between `""` and `"\n"` (`ChatLogFacts.BlankNotIdempotent`). An entry whose hour converts to 100 or more is rewritten into a line the pattern no longer matches, and the second pass rejects it when it is the least entry (`ChatLogFacts.LargeHourFirst`, proved for a log of that one entry). Such an hour on a later entry does no harm (`ChatLogFacts.LargeHourLater`).
- The design treats the copies as an unordered set of versions. In the code the order of the copies matters only when a copy does not end in LF or starts with a line that is not a timestamp (`ChatLogFacts.CopiesOrder`, for any number of copies).
- `search_history.txt` is not excluded, although the test suite expects it to be (tests/test_chatmerge.py:52). See Findings.

## Model

| member | source | states |
|---|---|---|
| Text.JoinSplit | sl-chatmerge.py:236 | Joining the pieces of `split(sep)` with `sep` gives the text back |
| Text.SplitJoin | sl-chatmerge.py:273-274 | Splitting a join of pieces that contain no separator gives back exactly those pieces (the entry's lines, via `split('\n')`) |
| Text.SplitConcat | sl-chatmerge.py:428 | The pieces of `a + b` are those of `a` and `b`, with the last piece of `a` fused to the first of `b` |
| Order.LexTotal | sl-chatmerge.py:322-328 | Any two entries are comparable under the byte order of `sort_key` |
| Order.LexTransitive | sl-chatmerge.py:322-328 | The byte order is transitive |
| Order.LexAntisymmetric | sl-chatmerge.py:322-328 | Entries that order both ways are equal, so the key decides every tie |
| Order.Sort | sl-chatmerge.py:328 | `sorted()` returns a sorted permutation of its input |
| Order.SortedUnique | sl-chatmerge.py:328 | Two sorted permutations of the same entries are equal, so any correct sort gives `sorted()`'s result |
| Order.SortPermutation | sl-chatmerge.py:328 | The sorted list depends only on the multiset of entries, not their input order |
| Order.SortSorted | sl-chatmerge.py:328 | Sorting an already sorted list changes nothing |
| Order.DedupShape | sl-chatmerge.py:331-336 | Duplicate removal keeps the same set of entries and the last entry, and leaves no two equal neighbours |
| Order.DedupSortedStrict | sl-chatmerge.py:328-336 | After sorting, removing adjacent duplicates leaves a strictly increasing list, with no duplicates at all |
| Order.DedupStrict | sl-chatmerge.py:331-336 | A strictly increasing list loses nothing to duplicate removal |
| Timestamp.ParseSound | sl-chatmerge.py:268 | Every match is a stamp with fields of the widths the pattern requires; the line starts with its rendering, and the match ends just past it |
| Timestamp.ParseComplete | sl-chatmerge.py:268 | Every well-formed stamp is matched at the start of any line it opens, with its own groups and end |
| Timestamp.DecimalRoundTrip | sl-chatmerge.py:287-288 | `int(str(n)) == n`; `str(n)` has one digit iff n < 10 and at most two iff n < 100 |
| Timestamp.Padded | sl-chatmerge.py:302-303 | `str(n).zfill(2)` is the digits of n, at least two long, exactly two iff n < 100 |
| Timestamp.ClockHour | sl-chatmerge.py:291-299 | For hours 1..12, AM maps h to h mod 12, PM maps it to h mod 12 + 12, and no meridiem keeps h |
| Timestamp.HourNotRangeChecked | sl-chatmerge.py:287-299 | The conversion does not range-check: 99 PM gives hour 111, and 0 AM and 0 PM give 0 and 12 |
| Timestamp.CanonicalFields | sl-chatmerge.py:286-309 | The rewrite keeps date and seconds and drops the meridiem. The hour holds the converted value and the minute the same value, in two digits. The result is well-formed exactly when the converted hour is below 100. |
| Timestamp.CanonicalIdempotent | sl-chatmerge.py:286-309 | Rewriting a rewritten stamp (hour below 100) changes nothing |
| Timestamp.WideHourRejected | sl-chatmerge.py:243-270 | A stamp whose hour has three or more digits is never matched, since the pattern allows at most two |
| Timestamp.RenderOneLine | sl-chatmerge.py:306-309 | A rendered stamp contains no line break and ends with `]` |
| ChatLog.JoinEntries | sl-chatmerge.py:248-263 | The reassembly loop computes the left fold `Entries` of its lines |
| ChatLog.NormalizeEach | sl-chatmerge.py:271-317 | The validation loop computes `NormalizeAll`, stopping at the first malformed entry |
| ChatLog.DropAdjacentDuplicates | sl-chatmerge.py:331-336 | The duplicate-removal loop computes `Dedup` |
| ChatLog.SortChatLog | sl-chatmerge.py:216-343 | The method computes `SortedLog`: the whole normaliser, including `"\n"` for an empty text and the error result |
| ChatLogFacts.LineEndings | sl-chatmerge.py:231 | After normalisation no CR remains; the text is empty iff the input was, and a text without CR is unchanged |
| ChatLogFacts.LineEndingsAppend | sl-chatmerge.py:231 | Line endings of a concatenation normalise piecewise unless the first part ends in CR |
| ChatLogFacts.GroupShape | sl-chatmerge.py:248-263 | Reassembly keeps every non-empty line, in order. No entry is empty. Every entry but the first starts with an opener, and no continuation line is one. |
| ChatLogFacts.GroupUnique | sl-chatmerge.py:248-263 | The reassembly is the only grouping of the non-empty lines with that shape |
| ChatLogFacts.LogGroups | sl-chatmerge.py:231-263 | The entries of a text are shaped, hold exactly its non-empty lines, and contain no LF or CR inside a line |
| ChatLogFacts.NormalizeOpener | sl-chatmerge.py:276-314 | An entry opened by a timestamp is rewritten into the canonical stamp followed by the rest of the entry after the match |
| ChatLogFacts.NormalizePlain | sl-chatmerge.py:276-317 | An entry whose first line does not start with `[` is kept as it is |
| ChatLogFacts.NormalizeAllShape | sl-chatmerge.py:271-317 | Normalising all entries succeeds iff each entry does; the results are then the entries' results, in order |
| ChatLogFacts.NormalizeAllFirstError | sl-chatmerge.py:276-283 | When all earlier entries succeed, the first failing entry's error is the one raised |
| ChatLogFacts.MalformedIff | sl-chatmerge.py:236-283 | The normaliser fails iff the first non-empty line starts with `[` but is not a timestamp; the error carries that line cut to 80 characters |
| ChatLogFacts.LogTidy | sl-chatmerge.py:271-317 | Every normalised entry consists of non-empty lines without CR or LF, and no continuation line is an opener |
| ChatLogFacts.OutputEntries | sl-chatmerge.py:319-343 | The output is the strictly increasing list of the distinct normalised entries, joined by LF with one final LF ("" for none) |
| ChatLogFacts.OutputFraming | sl-chatmerge.py:231-343 | The output has no CR. It is `"\n"` for an empty input. Otherwise it is empty or ends in LF, with no empty line before the end. |
| ChatLogFacts.OnlyLineBreaks | sl-chatmerge.py:231-343 | A non-empty input of only CR and LF produces the empty text |
| ChatLogFacts.ReassembleOutput | sl-chatmerge.py:248-343 | Settled entries joined by LF with a final LF are reassembled into exactly those entries. Settled means that each entry is tidy and kept by step 3, and each entry after the first is opened by a timestamp. |
| ChatLogFacts.OutputFixed | sl-chatmerge.py:216-343 | A strictly increasing list of settled entries, joined as the normaliser writes them, is a fixed point of the normaliser |
| ChatLogFacts.SurvivorsFixed | sl-chatmerge.py:248-343 | Output entries that are all canonical timestamp entries, except possibly one whose first line does not start with `[`, are a fixed point of the normaliser. Sorting can place that one entry only first or last; last, it is reassembled into the entry before it. |
| ChatLogFacts.Idempotent | sl-chatmerge.py:216-343 | Applied to its own output, the normaliser returns that output unchanged. This holds for every input that normalises, is not blank, and whose converted hours stay below 100. |
| ChatLogFacts.BlankNotIdempotent | sl-chatmerge.py:236-343 | The empty text normalises to `"\n"`, and `"\n"` normalises to the empty text |
| ChatLogFacts.EntriesAppend | sl-chatmerge.py:248-263 | When the first text ends in LF and the second starts with a timestamp, the entries of their concatenation are those of each, in order |
| ChatLogFacts.NormalizeAllAppend | sl-chatmerge.py:271-317 | Normalising the entries of two lists together gives the results for each, concatenated |
| ChatLogFacts.CopyOrder | sl-chatmerge.py:408-437 | Two copies that each end in LF and start with a timestamp (or are blank) merge to the same result in either order |
| ChatLogFacts.ConcatNormalized | sl-chatmerge.py:408-437 | The joined text of such copies is empty or ends in LF, and its normalised entries are each copy's normalised entries, one copy after another |
| ChatLogFacts.FlatMapPermutation | sl-chatmerge.py:408-428 | Reordering the copies reorders their entries and nothing more: the multiset of entries depends only on the multiset of copies |
| ChatLogFacts.CopiesOrder | sl-chatmerge.py:408-437 | Any number of such copies merge to the same result in any order, for every rearrangement of the readable directories |
| ChatLogFacts.LargeHourFirst | sl-chatmerge.py:243-309 | A lone entry whose hour converts to 100 or more is rewritten with a three-digit hour, and normalising that output is an error |
| ChatLogFacts.LargeHourLater | sl-chatmerge.py:243-336 | After a smaller entry, such a line is read back as that entry's continuation, and the output is a fixed point |
| ChatLogFacts.LargeHourExample | sl-chatmerge.py:286-309 | 99 PM is a well-formed stamp, and it is rewritten with the hour 111 |
| Config.ModeRoundTrip | sl-chatmerge.py:101 | Only `r`, `w` and `rw` are modes, and each mode reads back as its text |
| Config.ModeAccess | sl-chatmerge.py:176-179 | Every mode allows reading or writing, and only `rw` allows both |
| Config.EntryErrorIff | sl-chatmerge.py:96-107 | An entry passes the checks iff it has a path and a valid mode; any error reports the entry's index |
| Config.ValidateConfig | sl-chatmerge.py:82-109 | An empty list is an error. The list is returned unchanged iff every entry is valid. Otherwise the error is that of the first invalid entry, with the checks in the code's order. |
| Config.CheckAccessIff | sl-chatmerge.py:549-563 | Start-up passes iff some directory is readable and some writable. With none a readable one, all are `w`; with none a writable one, all are `r`. An `rw` directory always passes. |
| Selection.InExcludedDirectoryIff | sl-chatmerge.py:39-42 | A path is in an excluded directory iff, lowered, it starts with `logs/` or `user_settings/` |
| Selection.EndsWithAnyIff | sl-chatmerge.py:151-155 | The name loop returns true iff the lowered path ends with `/` plus some listed name, lowered |
| Selection.ShouldExcludeFileIff | sl-chatmerge.py:137-157 | `should_exclude_file` is true iff the lowered path contains `conflicted copy` somewhere or ends with `/` + a listed name |
| Selection.KeepIgnoresCase | sl-chatmerge.py:146-204 | The filter chain keeps a path iff it keeps the path lowered |
| Selection.DiscoverFiles | sl-chatmerge.py:174-206 | The nested loops compute `Discovered`: the union of each readable directory's listing, filtered |
| Selection.DiscoveredIff | sl-chatmerge.py:176-206 | A path is discovered iff it passes the three tests and some readable directory lists it; write-only directories are never scanned |
| Selection.DiscoveredAppend | sl-chatmerge.py:176-206 | Scanning two groups of directories yields the union of what each yields |
| Selection.FiltersUnion | sl-chatmerge.py:202-204 | Several filters select the union of what each selects alone |
| Selection.FiltersNarrow | sl-chatmerge.py:202-204 | Giving filters never adds a path |
| Selection.SearchHistoryKept | sl-chatmerge.py:28-36 | As written, no path ending in `/search_history.txt` is excluded by name |
| Selection.SearchHistoryTestPath | sl-chatmerge.py:32-33 | As written, `should_exclude_file("logs/search_history.txt")` is false |
| Selection.SearchHistoryDiscovered | sl-chatmerge.py:28-206 | As written, a search-history file outside `logs/` and `user_settings/` passes the filter chain with no filters given |
| Selection.IntendedExcludesBoth | sl-chatmerge.py:28-36 | With the comma restored, every path ending in `/search_history.txt` or `/render_mute_settings.txt` is excluded, whatever its case |
| Sync.SameSizeEverywhere | sl-chatmerge.py:386-406 | The size loop returns exactly `SizeSkip` |
| Sync.SizeSkipIff | sl-chatmerge.py:386-406 | The skip holds iff there is a directory, every directory (of any mode) has the file, and all copies have one size |
| Sync.ReadCopies | sl-chatmerge.py:408-421 | The read loop collects the readable copies in configuration order; `readable_found` holds iff one exists |
| Sync.MergeAndSyncFile | sl-chatmerge.py:364-480 | The outcome is `Decide` of the state before the call; files and directories become `AfterFiles` and `AfterDirs`. A file system whose files all sit in existing directories stays so. |
| Sync.WriteCopies | sl-chatmerge.py:438-480 | The write loop reports `Steps`. A live run writes `Written` and creates `Created`; a dry run changes nothing. |
| Sync.StepsAre | sl-chatmerge.py:439-469 | There is one report per writable directory, in increasing order. Each names its directory and the parent check. Its action is Add when the copy is missing, Update when it differs, Unchanged otherwise. |
| Sync.DecideCases | sl-chatmerge.py:377-425 | Each early return holds exactly when its condition does: excluded directory, same size everywhere, or no readable copy |
| Sync.AbortedIff | sl-chatmerge.py:428-437 | A call aborts iff the combined copies' first non-empty line starts with `[` and is no timestamp; the error carries that line cut to 80 characters |
| Sync.LiveRunConverges | sl-chatmerge.py:439-476 | After a live sync, every writable directory holds the merged text. Only those copies are added or changed; every other file keeps its text. |
| Sync.DryRunChangesNothing | sl-chatmerge.py:448-476 | A dry run changes neither files nor directories |
| Sync.SyncKeepsConsistent | sl-chatmerge.py:446-476 | A run keeps every file inside an existing directory |
| Sync.SecondRunSkips | sl-chatmerge.py:386-476 | When all directories are writable, the run after a live sync skips the file on size |
| Sync.CombinedLines | sl-chatmerge.py:428 | The lines of two concatenated copies are those of each, with the first copy's last line run into the second's first. A first copy ending in LF keeps them apart. |

## Left out

- Command-line parsing, logging, the verbose and dry-run messages, and exit codes. A `sys.exit(1)` is modelled as an error result (`ConfigError`, `StartupError`, `Outcome.Aborted`).
- `expand_path` and `check_directory_exists`. The model starts from the list of existing directories and their modes (`Config.Modes`).
- `main`'s loop over the discovered files. Each file is one call of `Sync.MergeAndSyncFile`, so the model does not capture that an abort stops the files after it.
- The directory walk `rglob("*.txt")` and `relative_to`. Each directory's listing of relative paths with forward slashes is an input (`Selection.Listing`).
- `read_file_content`'s Latin-1 fallback. Files are texts; decoding and encoding are not modelled.
- The newline translation of `read_text` and `write_text` in text mode (sl-chatmerge.py:357). Reading turns CRLF and CR into LF. A file's text in the model is the text after that translation. A CRLF copy whose translated text equals the merged text therefore counts as unchanged (sl-chatmerge.py:462-464), and the model shows it so.
- `stat().st_size` is taken to be the UTF-8 length of the file's text (`Sync.Utf8Size`).
- `str.lower()` folds only ASCII letters, and `\d` matches only ASCII digits. Python's Unicode case folding and Unicode digits are not modelled.
- `mkdir(parents=True)` records only the immediate parent directory. Intermediate directories it also creates are not modelled.
- The same directory configured twice is not modelled: each configured index is its own directory.
- Timestamp.HourNotRangeChecked: the model keeps the program's missing range check. An hour that converts to 100 or more (such as 99 PM) is rewritten to three digits, and that line no longer matches the pattern.
- ChatLogFacts.Idempotent: the requires are these:
  - The input must contain a non-empty line. Blank input is not idempotent: `"\n"` normalises to `""`, and `""` normalises to `"\n"` (`ChatLogFacts.BlankNotIdempotent`).
  - The first non-empty line must be a timestamp or must not start with `[`. Otherwise the first pass is an error (`ChatLogFacts.MalformedIff`).
  - Every timestamp's converted hour must be below 100. This condition is sufficient but not necessary. An hour that converts to 100 or more (99 PM gives 111) is written in three digits, and the pattern no longer matches that line (`Timestamp.WideHourRejected`). The second pass fails when that entry is the least one (`ChatLogFacts.LargeHourFirst`, proved for one line). After a smaller entry, the line is read back as a continuation of that entry and the same text is written (`ChatLogFacts.LargeHourLater`, proved for two lines). The general statement, that only the least entry's hour matters, is not proved.
- ChatLogFacts.CopyOrder, ChatLogFacts.CopiesOrder: order independence is proved for copies that end in LF and start with a timestamp. A copy without a final LF runs into the next one (`Sync.CombinedLines`). A copy whose first line is no timestamp joins the entry in front of it. Either way the order can then change the result.
- Sync.DryRunChangesNothing, Sync.MergeAndSyncFile, Sync.WriteCopies: dry-run reporting of intended actions appears only as the returned `Steps`.
- Selection.IntendedExcludesBoth: the corrected list is used by passing `Selection.IntendedExcludedFiles` as the `names` parameter of `Selection.DiscoverFiles`. The program's own list, `Selection.ExcludedFiles`, is the as-written one.

## Findings

| source | as written | input that shows it | evidently intended | confidence | as-written member | corrected member |
|---|---|---|---|---|---|---|
| sl-chatmerge.py:32-33 | The comma after `"render_mute_settings.txt"` is missing. Python joins the two literals into the single name `render_mute_settings.txtsearch_history.txt`, so neither system file is excluded. | `should_exclude_file("logs/search_history.txt")` returns false; tests/test_chatmerge.py:52 expects true | Seven separate names; `search_history.txt` and `render_mute_settings.txt` are each excluded | high (not executed) | Selection.SearchHistoryKept | Selection.IntendedExcludesBoth |
