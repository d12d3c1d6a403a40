# listmycmds, modelled in Dafny

`listmycmds` prints the commands found in "my" directories of `PATH`: the `PATH`
entries that start with `$HOME`, plus the `PATH` entries named in the
colon-separated variable `MYCMDSPATH`. The file names it finds are filtered by
shell-style patterns and printed in one or two columns sized to the terminal.

This project models the logic of `listmycmds.py` and proves properties of it:

- `resolver.dfy` (module `Resolver`). This is directory resolution: `dirs_starting_with_HOME`,
  `dirs_from_MYCMDSPATH`, the in-place `combine_new_with_master_list`, and the two
  combine calls that build the directory list. The environment is passed in as
  `Option<string>` values, where `None` means the variable is not set. The Python list that
  the combine appends to is the class `StrList`. The combine method appends to
  that object and returns it, and its effect is specified by the function
  `Combined`.
- `printer.dfy` (module `Printer`). This is `ColumnPrinter`, a class with the row buffer
  `entriesInRow`. Standard output is the field `lines`: each element is the text of one
  line, and the newline after it is implied. `Step` specifies a single `print` call.
  `Feed` and `Session` are what a series of calls does, and `Chunks` is the reference
  those calls are proved against.
- `glob.dfy` (module `Glob`). This is `fnmatch.fnmatch` as it behaves on a POSIX system:
  `*`, `?`, `[...]` and `[!...]` with ranges. A `[` that is never closed is a literal.
- `listmycmds.dfy` (module `ListMyCmds`). This holds `print_if_pattern_match`, the default
  pattern list, and the setup of the printer.
- `strings.dfy` and `wrappers.dfy` hold `str.split`, `str.startswith`, substring search, and `Option`.

## What the code does where one might expect otherwise

The model follows the code:

- `MYCMDSPATH` has no exclusion entries. An entry that begins with `-` is compared
  verbatim, like any other entry. The directory of the running interpreter is not
  excluded either. A directory is kept if it starts with `$HOME` or appears in `MYCMDSPATH`,
  and nothing else is tested.
- Every entry of an emitted row is padded to the column width, and that includes the last one.
  With two columns of width 10, feeding `ab`, `cdefgh` and `ij` and then flushing writes
  `"ab        cdefgh    "` and `"ij        "`. The lemmas `Printer.TwoColumnExampleRows`
  and `Printer.TwoColumnExampleText` prove this.
- A pattern is wrapped as `*p*` only when it contains no `*`. A pattern that contains
  only `?` or `[` is still wrapped.
- `HOME` set to the empty string makes every `PATH` entry HOME-rooted.
  `str.startswith("")` is true for every string.
- There is no option to list the directories or the environment.

## Model

| member | source | states |
|---|---|---|
| `Strings.Split` | listmycmds.py:30 | `str.split(':')`, used on `PATH` here and on `MYCMDSPATH` at line 42, gives at least one piece, and no piece contains the separator. `JoinSplit` and `SplitJoin` prove that it is the exact inverse of joining with `:`. |
| `Strings.JoinSplit` | listmycmds.py:30 | Joining the pieces of `s.split(':')` with `:` gives `s` back. |
| `Strings.SplitJoin` | listmycmds.py:42 | Splitting a join of separator-free pieces gives the pieces back. Together with `JoinSplit`, this makes `Split` the exact inverse of joining. |
| `Resolver.Filter` | listmycmds.py:30 | A list comprehension keeps exactly the elements that pass the test, each as often as it occurs, in their original order (as a subsequence). |
| `Resolver.FilterKeepsOrder` | listmycmds.py:30 | Of two elements that a list comprehension keeps, the one that first occurs earlier in the result also first occurs earlier in the input. |
| `Resolver.DirsStartingWithHome` | listmycmds.py:22-32 | The result is exactly the `PATH` entries that start with `HOME`, in `PATH` order, with their repetitions. Its elements first occur in the same order as in `PATH`. It is `[]` when `PATH` or `HOME` is unset. |
| `Resolver.DirsFromMyCmdsPath` | listmycmds.py:34-44 | The result is exactly the `PATH` entries equal to some `:`-separated `MYCMDSPATH` entry, in `PATH` order, with their repetitions. Its elements first occur in the same order as in `PATH`. It is `[]` when either variable is unset. |
| `Resolver.Combined` | listmycmds.py:55-58 | The contents that the loop leaves in `master`. It has no contract of its own. Its meaning is given by `CombinedPrefix`, `CombinedContents`, `CombinedAppendsFresh`, `CombinedFirstOccurrenceOrder`, `CombinedNothingNew` and `CombinedIdempotent`, and `CombineNewWithMasterList` is proved to compute it. |
| `Resolver.CombinedPrefix` | listmycmds.py:55-58 | The old contents of `master` are an unchanged prefix of the result. |
| `Resolver.CombinedContents` | listmycmds.py:47-59 | An element is in the result exactly when it is in `master` or in `new`. |
| `Resolver.CombinedAppendsFresh` | listmycmds.py:56-58 | The appended elements are pairwise distinct, and none of them was already in `master`. |
| `Resolver.CombinedNoDuplicates` | listmycmds.py:56-58 | If `master` has no duplicates, the combined list has none. |
| `Resolver.CombinedFirstOccurrenceOrder` | listmycmds.py:56-58 | The appended elements come from `new`, in the order of their first occurrence there. |
| `Resolver.CombinedKeepsOrder` | listmycmds.py:56-58 | If `new` lists its elements in the order of their first occurrence in some list `s`, the appended elements come from `s` and keep that order. |
| `Resolver.CombinedNothingNew` | listmycmds.py:56-58 | If every element of `new` is already in `master`, combining leaves `master` as it is. |
| `Resolver.CombinedIdempotent` | listmycmds.py:56-58 | Combining the same `new` a second time changes nothing. |
| `Resolver.StrList.Append` | listmycmds.py:58 | `list.append(x)` adds `x` at the end. |
| `Resolver.CombineNewWithMasterList` | listmycmds.py:47-59 | The returned list is the `master` object itself. Its contents become `Combined(old contents, new)`. |
| `Resolver.ResolveDirs` | listmycmds.py:133-134 | The two combine calls produce a fresh list whose contents are `ResolvedDirs(PATH, HOME, MYCMDSPATH)`. |
| `Resolver.ResolvedDirsExactly` | listmycmds.py:133-134 | The resolved list has no duplicates. It holds a directory exactly when that directory is a `PATH` entry and either starts with `HOME` or is listed in `MYCMDSPATH`. It is empty when `PATH` is unset. |
| `Resolver.ResolvedDirsSplit` | listmycmds.py:133-134 | The list built by the first combine is a prefix of the resolved list. A resolved directory is HOME-rooted exactly when it lies within that prefix. |
| `Resolver.ResolvedDirsHomeFirst` | listmycmds.py:133-134 | Every HOME-rooted directory in the resolved list comes before every directory that is only in `MYCMDSPATH`. |
| `Resolver.ResolvedDirsPathOrder` | listmycmds.py:133-134 | Every resolved directory is a `PATH` entry. Two resolved directories that are both HOME-rooted, or both not, appear in the order of their first occurrence in `PATH`. |
| `Glob.Fnmatch` | listmycmds.py:101 | `fnmatch.fnmatch(name, pattern)`: the pattern is cut into tokens by `Tokenize` and matched by `Match`. It has no contract of its own. Its meaning is given by `StarMatchesAll`, `LeadingStar`, `SubstringPattern`, `LiteralPattern`, `LiteralsExact` and `TokenizeNoMeta`. |
| `Glob.TokenizeNoMeta` | listmycmds.py:101 | A run of characters without `*`, `?` or `[` becomes one literal token per character, whatever follows it. |
| `Glob.LiteralsExact` | listmycmds.py:101 | A sequence of literal tokens matches exactly the string it spells. |
| `Glob.StarMatchesAll` | listmycmds.py:101 | The pattern `*` matches every name. |
| `Glob.LeadingStar` | listmycmds.py:101 | A leading `*` followed by the rest of a pattern matches a name exactly when the rest matches some suffix of it. |
| `Glob.SubstringPattern` | listmycmds.py:100-101 | For `p` without `*`, `?` or `[`, `*p*` matches a name exactly when `p` occurs in it. |
| `Glob.LiteralPattern` | listmycmds.py:101 | A pattern without metacharacters matches only itself. |
| `ListMyCmds.Wrapped` | listmycmds.py:100 | The pattern handed to `fnmatch` always contains `*`, and a pattern that already contains `*` is passed unchanged. |
| `ListMyCmds.WrappedContains` | listmycmds.py:100 | The pattern given occurs in the pattern handed to `fnmatch`. |
| `ListMyCmds.WrappedIsSubstring` | listmycmds.py:100-101 | For a pattern with no glob metacharacter, the rewritten pattern selects exactly the file names that contain it. |
| `ListMyCmds.EffectivePatterns` | listmycmds.py:119-120 | With no patterns, the pattern list is `["*"]`. Patterns that are given are used unchanged, and the list is never empty. |
| `ListMyCmds.NoPatternsSelectAll` | listmycmds.py:119-120 | Without patterns, every file name is selected. |
| `ListMyCmds.PrintIfPatternMatch` | listmycmds.py:98-103 | The printer receives `print(fname)` once if some pattern, rewritten to `*p*` when it has no `*`, matches `fname`. Otherwise the printer is unchanged. The printer invariant is kept. |
| `ListMyCmds.NewPrinter` | listmycmds.py:122-131 | The printer has 1 column when one column is requested or the output is not a terminal, and 2 columns otherwise. Its width is `COLUMNS` (or 80) floor-divided by the column count. |
| `Printer.Pad` | listmycmds.py:73 | `'{0:N}'.format(e)` starts with `e`, continues with spaces only, and is `max(len(e), N)` characters long. It never truncates. |
| `Printer.FormatRowAppend` | listmycmds.py:89-90 | Writing one more entry extends the line by that entry, padded. |
| `Printer.RowLength` | listmycmds.py:89-90 | When no entry is wider than the column, a row is `width` characters per entry. |
| `Printer.RowColumns` | listmycmds.py:89-90 | When no entry is wider than the column, entry `k` occupies the `width` characters after the first `k * width`, so the columns line up. |
| `Printer.RowText` | listmycmds.py:88-93 | The loop writes each buffered entry padded to the column width. It reports that something was printed exactly when the row is non-empty. |
| `Printer.Step` | listmycmds.py:83-95 | The emitted row followed by the new buffer equals the old buffer plus the entry. A row is emitted exactly when the buffer, with the entry added, is non-empty and either full or flushed. If the buffer was shorter than the column count, it stays shorter, and no row exceeds the column count. |
| `Printer.ChunksShape` | listmycmds.py:83-95 | The reference layout `Chunks` holds the entries in order, in non-empty rows of exactly `cols` entries. Only the last row may be shorter. |
| `Printer.ChunksFirstRow` | listmycmds.py:87 | A full first row is cut off whole. |
| `Printer.Feed` | listmycmds.py:83-95 | The rows written and the buffer left after a series of `print` calls without flush. It has no contract of its own. `FeedChunks` relates it to the reference layout `Chunks`. |
| `Printer.Session` | listmycmds.py:140-142 | The rows written by a fresh printer that is fed entries and then flushed. It has no contract of its own. `SessionIsChunks` proves that it equals `Chunks`. |
| `Printer.FeedChunks` | listmycmds.py:83-95 | Feeding entries one `print` at a time leaves the buffer shorter than a row. The rows written plus what is still buffered are the `Chunks` layout of everything given. |
| `Printer.FeedChunksFullRow` | listmycmds.py:87-95 | The step in which an entry fills the row, as part of `FeedChunks`. |
| `Printer.FeedChunksPartialRow` | listmycmds.py:83-84 | The step in which an entry leaves the row unfilled, as part of `FeedChunks`. |
| `Printer.SessionIsChunks` | listmycmds.py:142 | A fresh printer that is fed entries and then flushed writes exactly the `Chunks` rows. Feeding nothing writes nothing, not even a newline. |
| `Printer.TwoColumnExampleRows` | listmycmds.py:83-95 | With two columns, feeding `ab`, `cdefgh` and `ij` and then flushing writes the rows `[ab, cdefgh]` and `[ij]`. |
| `Printer.TwoColumnExampleText` | listmycmds.py:89-93 | At width 10 those rows read `"ab        cdefgh    "` and `"ij        "`, so the last entry of each row is padded too. |
| `Printer.StepKeepsConsistent` | listmycmds.py:83-95 | Every `print` call keeps the printer invariant. The buffer stays shorter than the column count, and every written line is a non-empty, padded row. The rows written followed by the buffer are exactly the entries fed in, in order. |
| `Printer.EmitKeepsConsistent` | listmycmds.py:89-95 | Writing out a non-empty buffer appends its row and its line, and keeps the invariant. |
| `Printer.ColumnPrinter.constructor` | listmycmds.py:67-73 | `cols_in_row = col_num`, and `col_width` is the floor of `full_width / col_num`: `col_width * col_num <= full_width < (col_width + 1) * col_num`. The printer starts empty. |
| `Printer.ColumnPrinter.Print` | listmycmds.py:76-95 | The new buffer and the lines written are those of `Step`. `print(None)` without flush changes nothing, and a flush of an empty buffer writes nothing. The invariant of `StepKeepsConsistent` is kept. |

## Left out

- The directory scan (listmycmds.py:135-140) with `os.listdir`, `os.path.isfile` and `os.access(..., X_OK)` is not modelled. It is file-system I/O. A missing directory in `dirs` makes `os.listdir` raise, and this is not modelled either.
- The `argh` decorators and `argh.dispatch_command` (listmycmds.py:106-117, 145-146) are not modelled. They belong to a command-line framework that is not part of this model.
- `sys.stdout.isatty()` and the parsing of `COLUMNS` with `int()` are not modelled. `NewPrinter` takes both as inputs: a boolean, and `None` for an unset or unparsable value.
- `EffectivePatterns` is a pure function. Python appends `'*'` to the caller's empty list in place, and that mutation of the argument is not modelled.
- `fnmatch` calls `os.path.normcase` on both arguments. On POSIX this changes nothing, so matching is case-sensitive. The case folding and separator rewriting that Windows does are not modelled. `fnmatch`'s cache of compiled patterns is not modelled either.
- Bracket classes follow the reading of Python 3.7 and later: a reversed range matches nothing, and `-` at either end is literal. Older versions raise an error on a reversed range instead.
- `Printer.Pad` pads nothing for a width of zero or less. Python raises `ValueError` on a negative width, which comes from a negative `COLUMNS`, and before 3.10 also on width 0.
- `Printer.ColumnPrinter.constructor` requires `col_num >= 1`. Python raises `ZeroDivisionError` for 0 and accepts negative counts, but its only caller passes 1 or 2.
- Standard output is modelled as a list of lines. Python writes each entry as soon as the row is complete, with the newline after the last one, and the text of that stream is the same.
- setup.py holds only packaging metadata.
