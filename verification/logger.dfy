/**
 * The CSV entry builder of `Logger.logAddition` (src/logger.ts) with the one
 * piece of state the logger keeps between calls, the previous
 * `actualTimingSinceLastInsert`. The state is threaded in and out explicitly:
 * a call maps (state, addition) to (entry, next state).
 */
module Logger {
  import opened Wrappers
  import opened Text
  import opened Decimal
  import opened Runs

  /** The optional detector measurements passed along with an addition (`ThresholdValues`). */
  datatype ThresholdValues = ThresholdValues(
    actualLinesAdded: Option<int>,
    actualCharsAdded: Option<int>,
    actualTimingSinceLastInsert: Option<int>,
    reason: Option<string>)

  /** The arguments of one `logAddition` call. */
  datatype Addition = Addition(
    timestamp: string,
    userId: string,
    filePath: string,
    linesAdded: int,
    source: string,
    thresholds: ThresholdValues)

  /** The logger's field `lastTimingSinceLastInsert`; `None` stands for `null`. */
  datatype LoggerState = LoggerState(lastTimingSinceLastInsert: Option<int>)

  /** A freshly constructed logger has no previous timing. */
  const InitialState := LoggerState(None)

  /** The entry of one call together with the state the call leaves behind. */
  datatype Logged = Logged(entry: string, next: LoggerState)

  /** The marker written for a value that is not available. */
  const NotAvailable := "N/A"

  /** The header's columns, in order. */
  const HeaderColumns: seq<string> := [
    "timestamp", "user_id", "file_path", "lines_added", "source",
    "actual_lines_added", "actual_chars_added", "actual_timing_since_last_insert",
    "time_difference_since_previous", "reason"]

  /** One CSV record: the fields joined with commas, ended by a line break. */
  function CsvLine(fields: seq<string>): (r: string)
    requires |fields| >= 1
    ensures |r| >= 1 && r[|r| - 1] == '\n'
    ensures Count(r, ',') == |fields| - 1 + CountIn(fields, ',')
  {
    CountJoin(fields, ',');
    CountAppend(Join(fields, ','), "\n", ',');
    Join(fields, ',') + "\n"
  }

  /**
   * A record of plain fields is exactly one line, and splitting it (without its
   * line break) on commas gives back the fields.
   */
  lemma CsvLineRoundTrip(fields: seq<string>)
    requires |fields| >= 1
    requires forall k :: 0 <= k < |fields| ==> ',' !in fields[k] && '\n' !in fields[k]
    ensures var line := CsvLine(fields);
      line[|line| - 1] == '\n' && Count(line, '\n') == 1 &&
      Split(line[..|line| - 1], ',') == fields
  {
    var body := Join(fields, ',');
    assert CsvLine(fields)[..|CsvLine(fields)| - 1] == body;
    SplitJoin(fields, ',');
    NoNewlineInJoin(fields);
    CountZeroIff(body, '\n');
    CountAppend(body, "\n", '\n');
  }

  /** The header line written when the log file is created: the columns, comma-separated. */
  function HeaderLine(): string
  {
    CsvLine(HeaderColumns)
  }

  /** A value that stays one CSV field on one line. */
  predicate Plain(value: string) {
    ',' !in value && '\n' !in value
  }

  // Each column name is a plain CSV field (one small lemma per name).
  lemma Column0Plain() ensures Plain(HeaderColumns[0]) { }
  lemma Column1Plain() ensures Plain(HeaderColumns[1]) { }
  lemma Column2Plain() ensures Plain(HeaderColumns[2]) { }
  lemma Column3Plain() ensures Plain(HeaderColumns[3]) { }
  lemma Column4Plain() ensures Plain(HeaderColumns[4]) { }
  lemma Column5Plain() ensures Plain(HeaderColumns[5]) { }
  lemma Column6Plain() ensures Plain(HeaderColumns[6]) { }
  lemma Column7Plain() ensures Plain(HeaderColumns[7]) { }
  lemma Column8Plain() ensures Plain(HeaderColumns[8]) { }
  lemma Column9Plain() ensures Plain(HeaderColumns[9]) { }

  /** No column name contains a comma or a line break. */
  lemma HeaderColumnsPlain()
    ensures forall k :: 0 <= k < |HeaderColumns| ==> ',' !in HeaderColumns[k] && '\n' !in HeaderColumns[k]
  {
    Column0Plain(); Column1Plain(); Column2Plain(); Column3Plain(); Column4Plain();
    Column5Plain(); Column6Plain(); Column7Plain(); Column8Plain(); Column9Plain();
    assert forall k :: 0 <= k < |HeaderColumns| ==> Plain(HeaderColumns[k]);
  }

  /** The header line is one line and reads back as exactly the ten columns. */
  lemma HeaderLineColumns()
    ensures |HeaderColumns| == 10
    ensures Count(HeaderLine(), '\n') == 1 && HeaderLine()[|HeaderLine()| - 1] == '\n'
    ensures Split(HeaderLine()[..|HeaderLine()| - 1], ',') == HeaderColumns
  {
    HeaderColumnsPlain();
    CsvLineRoundTrip(HeaderColumns);
  }

  /** A path or source with its commas replaced by `_`, so that it stays one CSV field. */
  function Sanitize(s: string): (r: string)
    ensures ',' !in r
    ensures |r| == |s|
    ensures forall i :: 0 <= i < |s| && s[i] != ',' ==> r[i] == s[i]
    ensures forall i :: 0 <= i < |s| && s[i] == ',' ==> r[i] == '_'
  {
    Replace(s, ',', '_')
  }

  /** Sanitising leaves a comma-free value as it is, so sanitising twice is sanitising once. */
  lemma SanitizeFixesCommaFree(s: string)
    ensures ',' !in s ==> Sanitize(s) == s
    ensures Sanitize(Sanitize(s)) == Sanitize(s)
  {
    if ',' !in s {
      ReplaceAbsent(s, ',', '_');
    }
    ReplaceIdempotent(s, ',', '_');
  }

  /** An optional number as written to the log: its decimal form, or `N/A` when undefined. */
  function RenderNumber(value: Option<int>): (r: string)
    ensures r == NotAvailable <==> value.None?
    ensures value.Some? ==> ParseInt(r) == Some(value.value)
    ensures value == Some(0) ==> r == "0"
    ensures ',' !in r && '\n' !in r
  {
    match value
    case None => NotAvailable
    case Some(n) =>
      IntToStringRoundTrip(n);
      IntToStringPlain(n);
      IntToString(n)
  }

  /** The reason column: the reason itself, or `N/A` when undefined. */
  function RenderReason(reason: Option<string>): (r: string)
    ensures reason.None? ==> r == NotAvailable
    ensures reason.Some? ==> r == reason.value
  {
    reason.ValueOr(NotAvailable)
  }

  /** The time-difference value: current minus previous timing, when both are known. */
  function TimeDifference(current: Option<int>, previous: Option<int>): (d: Option<int>)
    ensures d.Some? <==> current.Some? && previous.Some?
    ensures d.Some? ==> d.value + previous.value == current.value
  {
    if current.Some? && previous.Some? then Some(current.value - previous.value) else None
  }

  /** The stored timing after a call: the current timing when defined, else the old one. */
  function NextState(state: LoggerState, current: Option<int>): (s: LoggerState)
    ensures current.Some? ==> s.lastTimingSinceLastInsert == current
    ensures current.None? ==> s == state
  {
    if current.Some? then LoggerState(current) else state
  }

  /** The ten field values of an entry, in the order they are written. */
  function EntryFields(state: LoggerState, a: Addition): (r: seq<string>)
    ensures |r| == |HeaderColumns|
  {
    var t := a.thresholds;
    [ a.timestamp,
      a.userId,
      Sanitize(a.filePath),
      IntToString(a.linesAdded),
      Sanitize(a.source),
      RenderNumber(t.actualLinesAdded),
      RenderNumber(t.actualCharsAdded),
      RenderNumber(t.actualTimingSinceLastInsert),
      RenderNumber(TimeDifference(t.actualTimingSinceLastInsert, state.lastTimingSinceLastInsert)),
      RenderReason(t.reason) ]
  }

  /** `logAddition` without the file append: the CSV entry and the updated state. */
  function LogAddition(state: LoggerState, a: Addition): (r: Logged)
    ensures |r.entry| >= 1 && r.entry[|r.entry| - 1] == '\n'
    ensures a.thresholds.actualTimingSinceLastInsert.Some? ==>
      r.next.lastTimingSinceLastInsert == a.thresholds.actualTimingSinceLastInsert
    ensures a.thresholds.actualTimingSinceLastInsert.None? ==> r.next == state
  {
    Logged(CsvLine(EntryFields(state, a)), NextState(state, a.thresholds.actualTimingSinceLastInsert))
  }

  /** The entry without its line terminator. */
  function EntryBody(entry: string): string
    requires |entry| >= 1
  {
    entry[..|entry| - 1]
  }

  /**
   * Reference definition of each column's value, looked up by the header's
   * column name (the empty string for a name that is not a column).
   */
  function ColumnValue(column: string, state: LoggerState, a: Addition): string
  {
    var t := a.thresholds;
    if column == "timestamp" then a.timestamp
    else if column == "user_id" then a.userId
    else if column == "file_path" then Sanitize(a.filePath)
    else if column == "lines_added" then IntToString(a.linesAdded)
    else if column == "source" then Sanitize(a.source)
    else if column == "actual_lines_added" then RenderNumber(t.actualLinesAdded)
    else if column == "actual_chars_added" then RenderNumber(t.actualCharsAdded)
    else if column == "actual_timing_since_last_insert" then RenderNumber(t.actualTimingSinceLastInsert)
    else if column == "time_difference_since_previous" then
      RenderNumber(TimeDifference(t.actualTimingSinceLastInsert, state.lastTimingSinceLastInsert))
    else if column == "reason" then RenderReason(t.reason)
    else ""
  }

  /** The fields that are written unsanitised are comma-free. */
  predicate UnsanitisedFieldsCommaFree(a: Addition)
  {
    ',' !in a.timestamp && ',' !in a.userId && ',' !in RenderReason(a.thresholds.reason)
  }

  /** Every field except timestamp, user and reason is comma-free by construction. */
  lemma OtherFieldsCommaFree(state: LoggerState, a: Addition)
    ensures forall k :: 2 <= k < 9 ==> ',' !in EntryFields(state, a)[k]
  {
    IntToStringPlain(a.linesAdded);
  }

  /**
   * With comma-free timestamp, user and reason, reading the entry back as CSV
   * gives one field per header column, each holding that column's value.
   */
  lemma EntryMatchesHeader(state: LoggerState, a: Addition)
    requires UnsanitisedFieldsCommaFree(a)
    ensures var fields := Split(EntryBody(LogAddition(state, a).entry), ',');
      |fields| == |HeaderColumns| &&
      forall k :: 0 <= k < |fields| ==> fields[k] == ColumnValue(HeaderColumns[k], state, a)
  {
    var fs := EntryFields(state, a);
    var entry := LogAddition(state, a).entry;
    assert EntryBody(entry) == Join(fs, ',');
    EntryFieldsCommaFree(state, a);
    SplitJoin(fs, ',');
    FieldsAreColumnValues(state, a);
  }

  /** The entry's fields, in order, are the values of the header's columns. */
  lemma FieldsAreColumnValues(state: LoggerState, a: Addition)
    ensures forall k :: 0 <= k < |HeaderColumns| ==> EntryFields(state, a)[k] == ColumnValue(HeaderColumns[k], state, a)
  {
  }

  /** With comma-free timestamp, user and reason, no field contains a comma. */
  lemma EntryFieldsCommaFree(state: LoggerState, a: Addition)
    requires UnsanitisedFieldsCommaFree(a)
    ensures forall k :: 0 <= k < |EntryFields(state, a)| ==> ',' !in EntryFields(state, a)[k]
  {
    OtherFieldsCommaFree(state, a);
    var fs := EntryFields(state, a);
    forall k | 0 <= k < |fs| ensures ',' !in fs[k] {
      if k < 2 || k == 9 {
      }
    }
  }

  /**
   * The entry has exactly as many fields as the header has columns if and only
   * if timestamp, user and reason are comma-free; each comma in them adds a field.
   */
  lemma FieldCountIff(state: LoggerState, a: Addition)
    ensures |Split(EntryBody(LogAddition(state, a).entry), ',')| == |HeaderColumns|
      <==> UnsanitisedFieldsCommaFree(a)
  {
    var fs := EntryFields(state, a);
    var body := EntryBody(LogAddition(state, a).entry);
    assert body == Join(fs, ',');
    SplitLength(body, ',');
    CountJoin(fs, ',');
    CountInZero(fs, ',');
    OtherFieldsCommaFree(state, a);
    if UnsanitisedFieldsCommaFree(a) {
      forall k | 0 <= k < |fs| ensures ',' !in fs[k] {
        if k < 2 || k == 9 {
        }
      }
    } else {
      assert ',' in fs[0] || ',' in fs[1] || ',' in fs[9];
    }
  }

  /**
   * When no written field contains a line break, the entry's only line break
   * is the terminating one, so every call appends exactly one CSV record.
   */
  lemma EntryIsOneLine(state: LoggerState, a: Addition)
    requires '\n' !in a.timestamp && '\n' !in a.userId
    requires '\n' !in a.filePath && '\n' !in a.source
    requires '\n' !in RenderReason(a.thresholds.reason)
    ensures Count(LogAddition(state, a).entry, '\n') == 1
  {
    var fs := EntryFields(state, a);
    var body := Join(fs, ',');
    IntToStringPlain(a.linesAdded);
    forall k | 0 <= k < |fs| ensures '\n' !in fs[k] {
      if k == 2 || k == 4 {
        var s := if k == 2 then a.filePath else a.source;
        forall i | 0 <= i < |s| ensures Sanitize(s)[i] != '\n' {
        }
      }
    }
    NoNewlineInJoin(fs);
    CountZeroIff(body, '\n');
    CountAppend(body, "\n", '\n');
  }

  /** Joining newline-free fields with commas gives a newline-free line. */
  lemma {:induction false} NoNewlineInJoin(fs: seq<string>)
    requires |fs| >= 1
    requires forall k :: 0 <= k < |fs| ==> '\n' !in fs[k]
    ensures '\n' !in Join(fs, ',')
  {
    if |fs| > 1 {
      NoNewlineInJoin(fs[1..]);
    }
  }

  /** How an attempt to append an entry to the log file turned out. */
  datatype WriteOutcome = Written | WriteFailed(error: string)

  /** The effects of one call: what was appended, the error shown to the user, the next state. */
  datatype LogStep = LogStep(appended: Option<string>, errorMessage: Option<string>, next: LoggerState)

  /**
   * `logAddition` including its append attempt, whose outcome is a parameter.
   * The stored timing is updated before the append, so it advances whether or
   * not the write succeeds; a failure is reported, never propagated.
   */
  function LogAdditionTo(state: LoggerState, a: Addition, outcome: WriteOutcome): (r: LogStep)
    ensures r.next == LogAddition(state, a).next
    ensures outcome.Written? ==> r.appended == Some(LogAddition(state, a).entry) && r.errorMessage.None?
    ensures outcome.WriteFailed? ==> r.appended.None? && r.errorMessage == Some("Failed to log LOC: " + outcome.error)
  {
    var logged := LogAddition(state, a);
    match outcome
    case Written => LogStep(Some(logged.entry), None, logged.next)
    case WriteFailed(error) => LogStep(None, Some("Failed to log LOC: " + error), logged.next)
  }

  /** The timing an addition carries, `actualTimingSinceLastInsert`. */
  function Timing(a: Addition): Option<int> {
    a.thresholds.actualTimingSinceLastInsert
  }

  /** The addition carries a timing, so the call stores it. */
  predicate HasTiming(a: Addition) {
    Timing(a).Some?
  }

  /** The state a call with a timing leaves behind. */
  function StateFor(a: Addition): LoggerState {
    LoggerState(Timing(a))
  }

  /** One call as a step: the entry written and the state left behind. */
  function Step(state: LoggerState, a: Addition): (string, LoggerState) {
    var logged := LogAddition(state, a);
    (logged.entry, logged.next)
  }

  /** Calling `logAddition` once per element of `adds`, in order, starting from `state`. */
  function LogAll(state: LoggerState, adds: seq<Addition>): (r: Run<LoggerState, string>)
    ensures |r.outputs| == |adds|
    ensures |adds| == 0 ==> r.final == state
  {
    Steps(Step, state, adds)
  }

  /** No addition in `adds` carries a timing. */
  predicate NoTiming(adds: seq<Addition>) {
    forall k :: 0 <= k < |adds| ==> Timing(adds[k]).None?
  }

  /** `adds[j]` is the last addition in `adds` that carries a timing. */
  predicate LatestTiming(adds: seq<Addition>, j: int) {
    0 <= j < |adds| && Timing(adds[j]).Some? && NoTiming(adds[j + 1..])
  }

  /**
   * After a run, the logger holds the timing of the last addition that carried
   * one, and still holds its starting value when none did.
   */
  lemma StoredTimingIsLatest(state: LoggerState, adds: seq<Addition>)
    ensures NoTiming(adds) ==> LogAll(state, adds).final == state
    ensures forall j :: LatestTiming(adds, j) ==> LogAll(state, adds).final.lastTimingSinceLastInsert == Timing(adds[j])
  {
    assert SetsOrKeeps(Step, HasTiming, StateFor) by {
      forall s, a ensures Step(s, a).1 == if HasTiming(a) then StateFor(a) else s {
      }
    }
    StepsFinalLatest(Step, state, adds, HasTiming, StateFor);
    assert NoTiming(adds) ==> NoneSets(adds, HasTiming);
    forall j | LatestTiming(adds, j) ensures LastSetter(adds, HasTiming, j) {
    }
  }

  /** The `i`-th entry of a run is the entry logged from the state the first `i` calls leave. */
  lemma LogAllEntry(state: LoggerState, adds: seq<Addition>, i: nat)
    requires i < |adds|
    ensures LogAll(state, adds).outputs[i] == LogAddition(LogAll(state, adds[..i]).final, adds[i]).entry
  {
    StepsOutput(Step, state, adds, i);
  }

  /** The time-difference value written for the `i`-th addition of a run. */
  function DifferenceAt(state: LoggerState, adds: seq<Addition>, i: nat): Option<int>
    requires i < |adds|
  {
    TimeDifference(Timing(adds[i]), LogAll(state, adds[..i]).final.lastTimingSinceLastInsert)
  }

  /**
   * The time difference written for an addition with a timing is that timing
   * minus the timing of the latest earlier addition that carried one.
   */
  lemma DifferenceSincePrevious(state: LoggerState, adds: seq<Addition>, i: nat, j: nat)
    requires i < |adds|
    requires Timing(adds[i]).Some?
    requires LatestTiming(adds[..i], j)
    ensures DifferenceAt(state, adds, i) == Some(Timing(adds[i]).value - Timing(adds[j]).value)
  {
    StoredTimingIsLatest(state, adds[..i]);
    assert adds[..i][j] == adds[j];
  }

  /**
   * What is written: with comma-free timestamp, user and reason, the `i`-th
   * entry of a run reads back as ten fields, and its time-difference field is
   * the decimal text of the timing minus the latest earlier timing.
   */
  lemma WrittenDifferenceSincePrevious(state: LoggerState, adds: seq<Addition>, i: nat, j: nat)
    requires i < |adds|
    requires Timing(adds[i]).Some?
    requires LatestTiming(adds[..i], j)
    requires UnsanitisedFieldsCommaFree(adds[i])
    ensures var entry := LogAll(state, adds).outputs[i];
      |entry| >= 1 &&
      var fields := Split(EntryBody(entry), ',');
      |fields| == |HeaderColumns| &&
      fields[8] == IntToString(Timing(adds[i]).value - Timing(adds[j]).value)
  {
    var before := LogAll(state, adds[..i]).final;
    LogAllEntry(state, adds, i);
    EntryMatchesHeader(before, adds[i]);
    DifferenceSincePrevious(state, adds, i, j);
    FieldsAreColumnValues(before, adds[i]);
    assert EntryFields(before, adds[i])[8] == RenderNumber(DifferenceAt(state, adds, i));
  }

  /**
   * For a fresh logger, the first addition that carries a timing (and every
   * addition before it) is logged with `N/A` as its time difference.
   */
  lemma FirstTimingHasNoDifference(adds: seq<Addition>, i: nat)
    requires i < |adds|
    requires NoTiming(adds[..i])
    ensures DifferenceAt(InitialState, adds, i).None?
    ensures ColumnValue("time_difference_since_previous", LogAll(InitialState, adds[..i]).final, adds[i]) == NotAvailable
  {
    StoredTimingIsLatest(InitialState, adds[..i]);
  }
}
