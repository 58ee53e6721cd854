# GenAI LOC Tracker — model of the line counter, exclusion filter and CSV logger

The GenAI LOC Tracker is a VS Code extension. It watches document edits,
counts the lines each edit adds, and appends one CSV record per qualifying
edit to a log file. This project models the extension's pure logic in Dafny
and proves properties of it:

- `AddedLines` models `countAddedLines` (src/utils.ts). Each change in a
  document-change event contributes the number of `'\n'` characters it
  inserts minus the number of lines its replaced range spans, floored at
  zero. The contributions are summed.
- `Exclusion` models `isExcludedFile` (src/utils.ts). The path's backslashes
  become slashes, the file name is taken after the last slash, and the file
  is excluded when some pattern matches the path or the file name. The glob
  engine (`minimatch`) is a function parameter (`Matcher`), not a model.
- `Logger` models `Logger.logAddition` (src/logger.ts) minus the file write.
  It covers comma sanitising, `N/A` for missing values, the time-difference
  column, the stored `lastTimingSinceLastInsert`, and the header's column
  order. The logger's one mutable field is threaded through explicitly: a
  call maps `(LoggerState, Addition)` to `Logged(entry, next)`. `LogAll`
  chains calls over a sequence of additions.
- `Text` (count, replace-all, join, split), `Decimal` (integer printing and
  parsing) and `Wrappers` (`Option`) are shared helpers.

The source label and the `ThresholdValues` record come from a detector module
that is not part of this model. Here the source is an opaque string and
`ThresholdValues` is an input record with four optional fields.

Three details of the code are worth stating plainly:

- The exclusion filter only replaces `\` with `/` (src/utils.ts:34). It does
  no case folding.
- The time-difference column is the difference between two consecutive
  `actualTimingSinceLastInsert` values (src/logger.ts:53-54). It is not the
  gap between two timestamps.
- Only `filePath` and `source` are sanitised (src/logger.ts:36-37). A comma
  in the timestamp, the user name or the reason adds CSV fields
  (`Logger.FieldCountIff`).

## Model

| member | source | states |
|---|---|---|
| `AddedLines.NewlineCount` | src/utils.ts:13 | The newline count of the inserted text is at most its length, and it is 0 exactly when the text has no `'\n'`. |
| `AddedLines.RangeLineCount` | src/utils.ts:16 | The line span is how far the end line lies past the start line: 0 exactly for a single-line range, and non-negative exactly when the end does not precede the start. |
| `AddedLines.Contribution` | src/utils.ts:13-24 | A change contributes nothing exactly when its inserted newlines do not exceed its line span; otherwise it contributes newlines minus span. |
| `AddedLines.CountAddedLines` | src/utils.ts:8-28 | The loop's result is never negative and equals the sum of the per-change contributions `max(0, newlines - (end.line - start.line))`, which is 0 for an empty change list. |
| `AddedLines.TotalAddedAppend` | src/utils.ts:11-25 | The total over two concatenated change lists is the sum of their totals. |
| `AddedLines.TotalZeroIff` | src/utils.ts:19-24 | The total is 0 if and only if every change's newline count is at most its line span. |
| `AddedLines.AppendNeverDecreases` | src/utils.ts:22-24 | Appending a change never lowers the total. A change that does not add lines leaves the total unchanged. |
| `AddedLines.NoCancellation` | src/utils.ts:22-24 | Combining two change lists never loses the lines either list adds. A list that adds nothing leaves the other list's total unchanged. |
| `AddedLines.TotalAddedOrderIndependent` | src/utils.ts:11-25 | Two change lists that are permutations of each other have the same total. |
| `AddedLines.OnlyLineFeedCounts` | src/utils.ts:13 | Inserting a lone `'\r'` adds no newline, and a `"\r\n"` pair adds exactly one. |
| `AddedLines.NewlineCountIsMultiplicity` | src/utils.ts:13 | The newline count is the number of `'\n'` characters in the inserted text. |
| `Exclusion.NormalizePath` | src/utils.ts:34 | The normalised path has the input's length and no backslash. Each `'\'` becomes `'/'` and every other character is unchanged. |
| `Exclusion.NormalizePathIdempotent` | src/utils.ts:34 | Normalising twice is the same as normalising once. |
| `Exclusion.Basename` | src/utils.ts:35 | The file name contains no `'/'` and is no longer than the path. |
| `Exclusion.BasenameIsLastSegment` | src/utils.ts:35 | The file name is a suffix of the path. When it is shorter than the path, a `'/'` comes right before it, so it is what follows the last slash. |
| `Exclusion.BasenameOfPath` | src/utils.ts:35 | The file name of `dir + "/" + name` is `name` when `name` has no slash. |
| `Exclusion.BasenameWithoutSlash` | src/utils.ts:35 | A path without a slash is its own file name. |
| `Exclusion.BasenameIsLastPiece` | src/utils.ts:35 | The file name is the last piece of the path split on `'/'`. |
| `Exclusion.PatternExcludes` | src/utils.ts:34-42 | A pattern excludes a file exactly when it matches the normalised path or the last `'/'`-separated piece of that path. |
| `Exclusion.IsExcludedFile` | src/utils.ts:33-48 | Returns true if and only if some pattern matches the normalised path or its file name. With no patterns it returns false. |
| `Exclusion.SeparatorInsensitive` | src/utils.ts:34-41 | A path and its normalised form are excluded by the same patterns. |
| `Logger.CsvLine` | src/logger.ts:66-67 | A record ends in `'\n'`. Its commas are the separators between fields plus the commas inside the fields. |
| `Logger.CsvLineRoundTrip` | src/logger.ts:66-67 | A record whose fields hold no comma and no line break is exactly one line ending in `'\n'`. Split on commas, it gives back its fields in order. |
| `Logger.HeaderColumnsPlain` | src/logger.ts:89-90 | No header column name contains a comma or a line break. |
| `Logger.HeaderLineColumns` | src/logger.ts:89-90 | The header is one line ending in `'\n'`, and it splits on commas into exactly the ten column names in order. |
| `Logger.Sanitize` | src/logger.ts:36-37 | The sanitised path or source has no comma and keeps the input's length. Commas become `_` and every other character is unchanged. |
| `Logger.SanitizeFixesCommaFree` | src/logger.ts:36-37 | A comma-free value is not changed, so sanitising twice is the same as sanitising once. |
| `Logger.RenderNumber` | src/logger.ts:41-49 | An actual-value column is `N/A` exactly when the field is undefined. A defined value parses back to itself, so a defined 0 is written as `0`. The column never holds a comma or a line break. |
| `Logger.RenderReason` | src/logger.ts:64 | An undefined reason is written as `N/A`. A defined reason is written as given. |
| `Logger.TimeDifference` | src/logger.ts:52-56 | A difference exists exactly when both the current and the stored timing are defined, and then it is current minus stored. |
| `Logger.NextState` | src/logger.ts:58-61 | The stored timing becomes the current timing when that is defined. Otherwise the state is unchanged. |
| `Logger.EntryFields` | src/logger.ts:36-67 | An entry has one field per header column. `Logger.FieldsAreColumnValues` states that field k is the value of column k. |
| `Logger.FieldsAreColumnValues` | src/logger.ts:36-67 | Each field of an entry, in order, equals the value of the header column at the same position, looked up by column name. |
| `Logger.LogAddition` | src/logger.ts:27-67 | The entry ends in `'\n'`. The next state holds the current timing when it is defined and is the old state otherwise. |
| `Logger.EntryFieldsCommaFree` | src/logger.ts:36-67 | If timestamp, user and reason are comma-free, every one of the ten fields is comma-free. Path and source are sanitised, and the numbers and `N/A` never hold a comma. |
| `Logger.EntryMatchesHeader` | src/logger.ts:66-67 | If timestamp, user and reason are comma-free, the entry (without its `'\n'`) splits into one field per header column. Each field holds that column's value, looked up by column name. |
| `Logger.FieldCountIff` | src/logger.ts:66-67 | The entry has exactly ten comma-separated fields if and only if timestamp, user and rendered reason are comma-free. |
| `Logger.EntryIsOneLine` | src/logger.ts:66-67 | If no written field contains a line break, the entry contains exactly one `'\n'`, the terminating one. |
| `Logger.LogAdditionTo` | src/logger.ts:58-73 | The next state is the same whether or not the append succeeds. A successful write appends the entry. A failed write appends nothing and shows `Failed to log LOC: <error>`. |
| `Logger.LogAll` | src/logger.ts:27-74 | A run over n additions writes n entries, and a run over no additions leaves the state as it was. |
| `Logger.StoredTimingIsLatest` | src/logger.ts:58-61 | After a sequence of calls, the stored timing is the timing of the last addition that carried one. If no addition carried one, the stored timing is the starting value. |
| `Logger.LogAllEntry` | src/logger.ts:52-67 | In a sequence of calls, the i-th entry is the one `logAddition` builds from the state left by the first i calls. |
| `Logger.DifferenceSincePrevious` | src/logger.ts:52-61 | In a sequence of calls, the time difference written for an addition with a timing is its timing minus the timing of the latest earlier addition that carried one. |
| `Logger.WrittenDifferenceSincePrevious` | src/logger.ts:52-67 | In a sequence of calls, with comma-free timestamp, user and reason, the i-th entry reads back as ten fields. Its time-difference field is the decimal text of its timing minus the timing of the latest earlier addition that carried one. |
| `Logger.FirstTimingHasNoDifference` | src/logger.ts:52-56 | For a fresh logger, the first addition with a timing, and every addition before it, gets `N/A` as its time difference. |
| `Decimal.IntToString` | src/logger.ts:55 | A rendered integer is non-empty, starts with `-` exactly when the integer is negative, and is otherwise made of digits. |
| `Decimal.IntToStringRoundTrip` | src/logger.ts:55 | Rendering an integer in decimal and parsing it back gives the integer, so distinct values render differently. |
| `Decimal.IntToStringPlain` | src/logger.ts:66-67 | A rendered integer contains no comma and no line break, so it is always one CSV field. |

## Left out

- File-system effects are not modelled: `appendFileSync`, `existsSync`, `mkdirSync`, `writeFileSync` and the error pop-ups (src/logger.ts:69-73, 79-95). The append's outcome is the parameter of `Logger.LogAdditionTo`. Whether the header gets written depends on the file system, so only its content is modelled.
- `Logger.HeaderLineColumns`: the header line is defined as the record (`Logger.CsvLine`) of the source's ten column names: joined with commas, plus `'\n'`. This is the same string as the literal at src/logger.ts:89-90, but the model does not compare against that literal character by character.
- The constructor's choice of log path from configuration (src/logger.ts:10-22) is configuration I/O.
- src/extension.ts is not modelled: activation, event wiring, `os.userInfo()`, `Date`, and the enabled / excluded / `addedLines > 0` gate, which calls into the detector.
- The detector module (`detectSource`, `getThresholdValues`) is not part of this model. Its source is not available. The source label is an opaque string, and `ThresholdValues` is an input record.
- Glob matching (`minimatch`) is an uninterpreted `Matcher` parameter.
- `Exclusion.Basename`: the file name is everything after the last `'/'`. Node's `path.basename` instead drops trailing slashes (`"a/b/"` gives `"b"`); here that path gives `""`.
- JavaScript numbers are modelled as unbounded integers. Floating point, `NaN`, fractional timings and exponent notation in `toString()` are not modelled. Template interpolation and `toString()` are a plain signed decimal printer (`Decimal.IntToString`).
- `null` threshold values are not modelled: every `ThresholdValues` field is `None` (`undefined`) or a number or string. The checks at src/logger.ts:41, 44, 47, 53, 59 and 64 test only `!== undefined`, so a `null` field gets through. A `null` number would be written as the text `null` rather than `N/A`. A `null` timing would give a time difference of `null - previous`, that is `-previous`. Line 60 would then set the stored timing back to `null`. `Logger.StoredTimingIsLatest` and `Logger.DifferenceSincePrevious` hold only for additions without `null` fields. The `ThresholdValues` type is declared in the detector module, which is not part of this model, so whether it admits `null` is not known here.
- `Logger.RenderReason`: a defined reason that is literally `N/A` is written like an undefined one, so that column is not an if-and-only-if. The source behaves the same way.
