/**
 * Helpers the pipeline jobs share: batching, state lists, the date parser
 * of the lookback window, the selection of records a stage still has to
 * process, and the service-failure test.  The current date is a parameter.
 */
module JobUtils {
  import opened Py
  import opened Order
  import opened Dates
  import Infos

  // ---------------------------------------------------------------- chunked

  /** `chunked(items, chunk_size)`: consecutive slices of `max(1, chunk_size)` items. */
  function Chunked<T>(items: seq<T>, chunkSize: int): (r: seq<seq<T>>)
  {
    ChunksOf(items, if chunkSize < 1 then 1 else chunkSize)
  }

  function ChunksOf<T>(items: seq<T>, size: nat): (r: seq<seq<T>>)
    requires size >= 1
    decreases |items|
  {
    if items == [] then []
    else if |items| <= size then [items]
    else [items[..size]] + ChunksOf(items[size..], size)
  }

  function Flatten<T>(xs: seq<seq<T>>): seq<T>
  {
    if xs == [] then [] else xs[0] + Flatten(xs[1..])
  }

  /**
   * The chunks put back together are the input; every chunk holds between
   * one and `size` items, and all but the last hold exactly `size`.
   */
  lemma {:induction false} ChunksOfShape<T>(items: seq<T>, size: nat)
    requires size >= 1
    ensures Flatten(ChunksOf(items, size)) == items
    ensures forall i :: 0 <= i < |ChunksOf(items, size)| ==> 1 <= |ChunksOf(items, size)[i]| <= size
    ensures forall i :: 0 <= i < |ChunksOf(items, size)| - 1 ==> |ChunksOf(items, size)[i]| == size
    decreases |items|
  {
    var r := ChunksOf(items, size);
    if items == [] {
    } else if |items| <= size {
      assert Flatten(r) == items + Flatten(r[1..]);
    } else {
      var rest := ChunksOf(items[size..], size);
      ChunksOfShape(items[size..], size);
      assert r == [items[..size]] + rest;
      assert r[1..] == rest;
      assert items == items[..size] + items[size..];
      assert forall i :: 1 <= i < |r| ==> r[i] == rest[i - 1];
    }
  }

  /** `chunked` uses a chunk size of at least one. */
  lemma ChunkedShape<T>(items: seq<T>, chunkSize: int)
    ensures Flatten(Chunked(items, chunkSize)) == items
    ensures var size := if chunkSize < 1 then 1 else chunkSize;
      forall i :: 0 <= i < |Chunked(items, chunkSize)| ==>
        1 <= |Chunked(items, chunkSize)[i]| <= size
        && (i < |Chunked(items, chunkSize)| - 1 ==> |Chunked(items, chunkSize)[i]| == size)
  {
    ChunksOfShape(items, if chunkSize < 1 then 1 else chunkSize);
  }

  // ------------------------------------------------------------ state lists

  /** `parse_state_list`: the stripped non-blank values, as a set; None gives the empty set. */
  function ParseStateList(values: Option<seq<string>>): (r: set<string>)
    ensures values.None? ==> r == {}
  {
    if values.None? then {}
    else set v | v in values.value && Strip(v) != [] :: Strip(v)
  }

  /** Every listed state is stripped and non-blank, and every non-blank value is listed. */
  lemma ParseStateListMembers(values: seq<string>, s: string)
    ensures s in ParseStateList(Some(values)) ==> s != [] && Strip(s) == s
    ensures forall v :: v in values && Strip(v) != [] ==> Strip(v) in ParseStateList(Some(values))
  {
    if s in ParseStateList(Some(values)) {
      var v :| v in values && Strip(v) != [] && Strip(v) == s;
      StripSetIdempotent(v, Whitespace);
    }
  }

  // ------------------------------------------------------------------ dates

  /** The text is a `YYYY-MM-DD` prefix shape: `-` at positions 4 and 7. */
  predicate IsoShaped(text: string)
  {
    |text| >= 10 && text[4] == '-' && text[7] == '-'
  }

  /** `_parse_date`. */
  function ParseDate(value: Value): (r: Option<Date>)
    ensures r.Some? ==> ValidDate(r.value)
    ensures NormalizeText(value) == [] ==> r.None?
  {
    var text := NormalizeText(value);
    if text == [] then None
    else if IsoShaped(text) then FromIsoFormat(text[..10])
    else
      match StrptimeDmy(text, '-')
      case Some(d) => Some(d)
      case None => StrptimeDmy(text, '/')
  }

  /** An ISO-shaped text is read by its first ten characters and nothing else. */
  lemma ParseDateIsoOnly(value: Value)
    requires IsoShaped(NormalizeText(value))
    ensures ParseDate(value) == FromIsoFormat(NormalizeText(value)[..10])
  {
  }

  /** A date written as `isoformat()` (or an ISO date-time starting with it) reads back as that date. */
  lemma ParseDateOfIso(d: Date, suffix: string)
    requires ValidDate(d)
    requires suffix == [] || suffix[|suffix| - 1] !in Whitespace
    ensures ParseDate(Str(IsoFormat(d) + suffix)) == Some(d)
  {
    var text := IsoFormat(d) + suffix;
    var iso := IsoFormat(d);
    assert text[..10] == iso;
    assert iso[..4] == Pad4(d.year) && iso[8..] == Pad2(d.day);
    assert text[0] == Pad4(d.year)[0];
    NotSpace(text[0]);
    if suffix == [] {
      assert text[|text| - 1] == Pad2(d.day)[1];
      NotSpace(text[|text| - 1]);
    }
    NormalizeClean(text);
    FromIsoFormatOfIsoFormat(d);
  }

  // --------------------------------------------------------------- lookback

  /** The field `k` of the record parses to a date whose ordinal is at least `cutoff`. */
  predicate RecentAt(record: Row, k: Key, cutoff: int)
  {
    var d := ParseDate(Get(record, k));
    d.Some? && Ordinal(d.value) >= cutoff
  }

  /**
   * `is_record_within_lookback(record, lookback_days)` on `today`: the
   * date `lookback_days` before today is compared through its ordinal.
   * A cutoff before 0001-01-01 is the OverflowError of the date subtraction.
   */
  function WithinLookback(record: Row, lookbackDays: int, today: Date): (r: Result<bool>)
    requires ValidDate(today)
    ensures lookbackDays <= 0 ==> r == Ok(true)
    ensures r.Err? <==> lookbackDays > 0 && Ordinal(today) - lookbackDays < 1
  {
    var days := if lookbackDays < 0 then 0 else lookbackDays;
    if days == 0 then Ok(true)
    else
      var cutoff := Ordinal(today) - days;
      if cutoff < 1 then Err(OverflowError)
      else
        var recent := RecentAt(record, KLastSeenCrawlDate, cutoff)
          || RecentAt(record, KFirstSeenCrawlDate, cutoff)
          || RecentAt(record, KGrDate, cutoff);
        Ok(recent)
  }

  /** The field `k` of the record parses to a date on or after `cutoff`. */
  predicate OnOrAfter(record: Row, k: Key, cutoff: Date)
  {
    var d := ParseDate(Get(record, k));
    d.Some? && DateLe(cutoff, d.value)
  }

  lemma RecentAtAsDate(record: Row, k: Key, cutoff: Date)
    requires ValidDate(cutoff)
    ensures RecentAt(record, k, Ordinal(cutoff)) <==> OnOrAfter(record, k, cutoff)
  {
    var d := ParseDate(Get(record, k));
    if d.Some? {
      OrdinalOrder(cutoff, d.value);
    }
  }

  /**
   * With a window of `days > 0` ending at `cutoff`, a record is recent iff
   * its last-seen, first-seen or GR date is on or after the cutoff date.
   */
  lemma WithinLookbackAsDates(record: Row, days: int, today: Date, cutoff: Date)
    requires ValidDate(today) && ValidDate(cutoff) && days > 0
    requires Ordinal(cutoff) == Ordinal(today) - days
    ensures WithinLookback(record, days, today) == Ok(
      OnOrAfter(record, KLastSeenCrawlDate, cutoff) || OnOrAfter(record, KFirstSeenCrawlDate, cutoff)
      || OnOrAfter(record, KGrDate, cutoff))
  {
    RecentAtAsDate(record, KLastSeenCrawlDate, cutoff);
    RecentAtAsDate(record, KFirstSeenCrawlDate, cutoff);
    RecentAtAsDate(record, KGrDate, cutoff);
  }

  // -------------------------------------------------------- stage selection

  /** `StageRecord`. */
  datatype StageRecord = StageRecord(uniqueCode: string, record: Row)

  /** `str(record.get("unique_code", "")).strip()`. */
  function CodeOf(record: Row): string
  {
    Strip(PyStr(GetOr(record, KUniqueCode, Str(""))))
  }

  /** `attempt_counts.get(stage, 0)`, or 0 when the counts are not an object. */
  function StageAttemptsValue(record: Row, stage: string): Value
  {
    var attempts := GetOr(record, KAttemptCounts, Dict(map[]));
    if attempts.Dict? then GetOr(attempts.fields, Infos.StageSlot(stage), Int(0)) else Int(0)
  }

  /** Only an int (or bool) count can exhaust the stage's attempts. */
  predicate Exhausted(record: Row, stage: string, maxAttempts: int)
  {
    var v := StageAttemptsValue(record, stage);
    IsPyInt(v) && IntOf(v) >= maxAttempts
  }

  /** The code filter passes the code: an empty or absent filter passes every code. */
  predicate InFilter(codes: set<string>, code: string)
  {
    codes == {} || code in codes
  }

  /** What the loop does with one record: skip it, take an entry, or stop with an error. */
  datatype Verdict<T> = Skip | Take(item: T) | Fail(error: Error)

  /** The entries a loop over `xs` collects, or the error of the first record that fails. */
  function Collect<R, T>(xs: seq<R>, judge: R -> Verdict<T>): Result<seq<T>>
    decreases |xs|
  {
    if xs == [] then Ok([])
    else
      match Collect(xs[..|xs| - 1], judge)
      case Err(e) => Err(e)
      case Ok(taken) =>
        match judge(xs[|xs| - 1])
        case Skip => Ok(taken)
        case Take(x) => Ok(taken + [x])
        case Fail(e) => Err(e)
  }

  /** `x` is taken from some record of `xs`. */
  ghost predicate TakenFrom<R, T>(xs: seq<R>, judge: R -> Verdict<T>, x: T)
  {
    exists i :: 0 <= i < |xs| && judge(xs[i]) == Take(x)
  }

  /** When no record fails, exactly the taken entries are collected. */
  lemma {:induction false} CollectMembers<R, T>(xs: seq<R>, judge: R -> Verdict<T>, x: T)
    requires forall i :: 0 <= i < |xs| ==> !judge(xs[i]).Fail?
    ensures Collect(xs, judge).Ok?
    ensures x in Collect(xs, judge).value <==> TakenFrom(xs, judge, x)
    decreases |xs|
  {
    if xs != [] {
      var init := xs[..|xs| - 1];
      assert forall i :: 0 <= i < |init| ==> init[i] == xs[i];
      CollectMembers(init, judge, x);
      if TakenFrom(init, judge, x) {
        var i :| 0 <= i < |init| && judge(init[i]) == Take(x);
        assert judge(xs[i]) == Take(x);
      }
      if TakenFrom(xs, judge, x) {
        var i :| 0 <= i < |xs| && judge(xs[i]) == Take(x);
        if i < |init| {
          assert judge(init[i]) == Take(x);
        }
      }
    }
  }

  /** When some record fails, the loop stops with an error. */
  lemma {:induction false} CollectFails<R, T>(xs: seq<R>, judge: R -> Verdict<T>, j: int)
    requires 0 <= j < |xs| && judge(xs[j]).Fail?
    ensures Collect(xs, judge).Err?
    decreases |xs|
  {
    if j < |xs| - 1 {
      var init := xs[..|xs| - 1];
      assert init[j] == xs[j];
      CollectFails(init, judge, j);
    }
  }

  /** Once a prefix has failed, the whole loop fails the same way. */
  lemma {:induction false} CollectStopped<R, T>(xs: seq<R>, i: int, judge: R -> Verdict<T>)
    requires 0 <= i < |xs| && Collect(xs[..i + 1], judge).Err?
    ensures Collect(xs, judge) == Collect(xs[..i + 1], judge)
    decreases |xs|
  {
    if i + 1 == |xs| {
      assert xs[..i + 1] == xs;
    } else {
      var init := xs[..|xs| - 1];
      assert init[..i + 1] == xs[..i + 1];
      CollectStopped(init, i, judge);
    }
  }

  /** One turn of the loop of `filter_stage_records`. */
  function Judge(record: Row, stage: string, codes: set<string>, maxAttempts: int,
                 lookbackDays: int, today: Date): Verdict<StageRecord>
    requires ValidDate(today)
  {
    var code := CodeOf(record);
    if code == [] || !InFilter(codes, code) then Skip
    else
      match WithinLookback(record, lookbackDays, today)
      case Err(e) => Fail(e)
      case Ok(recent) =>
        if !recent || Exhausted(record, stage, maxAttempts) then Skip
        else Take(StageRecord(code, record))
  }

  /**
   * A record yields an entry iff its stripped code is non-blank and passes
   * the filter, one of its dates is in the window and its attempts at the
   * stage are not used up; the entry pairs that code with the record.  It
   * fails iff it passes the code checks and the window reaches before the
   * first representable date.
   */
  lemma JudgeCases(record: Row, stage: string, codes: set<string>, maxAttempts: int,
                   lookbackDays: int, today: Date, x: StageRecord)
    requires ValidDate(today)
    ensures Judge(record, stage, codes, maxAttempts, lookbackDays, today) == Take(x) <==>
      x == StageRecord(CodeOf(record), record) && CodeOf(record) != [] && InFilter(codes, CodeOf(record))
      && WithinLookback(record, lookbackDays, today) == Ok(true) && !Exhausted(record, stage, maxAttempts)
    ensures Judge(record, stage, codes, maxAttempts, lookbackDays, today).Fail? <==>
      CodeOf(record) != [] && InFilter(codes, CodeOf(record))
      && lookbackDays > 0 && Ordinal(today) - lookbackDays < 1
    ensures Judge(record, stage, codes, maxAttempts, lookbackDays, today).Fail? ==>
      Judge(record, stage, codes, maxAttempts, lookbackDays, today).error == OverflowError
  {
  }

  /** The records the loop selects, in store order, or the error it stops with. */
  function Selection(records: seq<Row>, stage: string, codes: set<string>, maxAttempts: int,
                     lookbackDays: int, today: Date): Result<seq<StageRecord>>
    requires ValidDate(today)
  {
    Collect(records, r => Judge(r, stage, codes, maxAttempts, lookbackDays, today))
  }

  /**
   * Without an overflowing window the selection succeeds and holds exactly
   * the entries of the records `JudgeCases` describes.
   */
  lemma SelectionMembers(records: seq<Row>, stage: string, codes: set<string>, maxAttempts: int,
                         lookbackDays: int, today: Date, x: StageRecord)
    requires ValidDate(today) && (lookbackDays <= 0 || Ordinal(today) - lookbackDays >= 1)
    ensures Selection(records, stage, codes, maxAttempts, lookbackDays, today).Ok?
    ensures x in Selection(records, stage, codes, maxAttempts, lookbackDays, today).value <==>
      exists i :: 0 <= i < |records| &&
        Judge(records[i], stage, codes, maxAttempts, lookbackDays, today) == Take(x)
  {
    var judge := r => Judge(r, stage, codes, maxAttempts, lookbackDays, today);
    forall i | 0 <= i < |records|
      ensures !judge(records[i]).Fail?
    {
      JudgeCases(records[i], stage, codes, maxAttempts, lookbackDays, today, x);
    }
    CollectMembers(records, judge, x);
  }

  /** An overflowing window is an error as soon as one record passes the code checks. */
  lemma SelectionOverflow(records: seq<Row>, stage: string, codes: set<string>,
                          maxAttempts: int, lookbackDays: int, today: Date, j: int)
    requires ValidDate(today) && lookbackDays > 0 && Ordinal(today) - lookbackDays < 1
    requires 0 <= j < |records| && CodeOf(records[j]) != [] && InFilter(codes, CodeOf(records[j]))
    ensures Selection(records, stage, codes, maxAttempts, lookbackDays, today).Err?
  {
    var judge := r => Judge(r, stage, codes, maxAttempts, lookbackDays, today);
    JudgeCases(records[j], stage, codes, maxAttempts, lookbackDays, today, StageRecord([], map[]));
    CollectFails(records, judge, j);
  }

  function StageRecordKey(x: StageRecord): seq<int>
  {
    StrKey(x.uniqueCode)
  }

  /**
   * `filter_stage_records`, over the records `iter_records` yields.
   * `allowed_states` is accepted and, as written, not consulted: the
   * result depends on the other arguments only.
   */
  method FilterStageRecords(records: seq<Row>, allowedStates: set<string>, stage: string,
                            codeFilter: Option<set<string>>, maxAttempts: int, lookbackDays: int, today: Date)
    returns (r: Result<seq<StageRecord>>)
    requires ValidDate(today)
    ensures var codes := if codeFilter.Some? then codeFilter.value else {};
      match Selection(records, stage, codes, maxAttempts, lookbackDays, today)
      case Err(e) => r == Err(e)
      case Ok(selected) => r == Ok(SortBy(selected, StageRecordKey))
  {
    var codes := if codeFilter.Some? then codeFilter.value else {};
    var selection := CollectLoop(records, rec => Judge(rec, stage, codes, maxAttempts, lookbackDays, today));
    match selection
    case Err(e) =>
      r := Err(e);
    case Ok(selected) =>
      r := Ok(SortBy(selected, StageRecordKey));
  }

  /** The loop of `filter_stage_records`: judge each record in turn, stopping at the first error. */
  method CollectLoop<R, T>(xs: seq<R>, judge: R -> Verdict<T>) returns (r: Result<seq<T>>)
    ensures r == Collect(xs, judge)
  {
    var taken: seq<T> := [];
    var i := 0;
    while i < |xs|
      invariant 0 <= i <= |xs|
      invariant Collect(xs[..i], judge) == Ok(taken)
    {
      assert xs[..i + 1][..i] == xs[..i];
      match judge(xs[i]) {
        case Fail(e) =>
          CollectStopped(xs, i, judge);
          return Err(e);
        case Take(x) =>
          taken := taken + [x];
        case Skip =>
      }
      i := i + 1;
    }
    assert xs[..i] == xs;
    r := Ok(taken);
  }

  /** The result is sorted by code and holds the selected records, each once per occurrence. */
  lemma FilterResultSorted(selected: seq<StageRecord>)
    ensures SortedBy(SortBy(selected, StageRecordKey), StageRecordKey)
    ensures multiset(SortBy(selected, StageRecordKey)) == multiset(selected)
  {
    SortByCorrect(selected, StageRecordKey);
  }

  // -------------------------------------------------------- service failure

  /** `detect_service_failure(status_code, exception)`; `raised` is `exception is not None`. */
  predicate DetectServiceFailure(statusCode: Option<int>, raised: bool)
  {
    raised || (statusCode.Some? && (statusCode.value == 429 || statusCode.value >= 500))
  }

  /** Client errors other than 429, successes and redirects are not service failures. */
  lemma ServiceFailureClasses(status: int)
    ensures !DetectServiceFailure(None, false)
    ensures DetectServiceFailure(Some(status), true)
    ensures status < 500 && status != 429 ==> !DetectServiceFailure(Some(status), false)
    ensures status >= 500 || status == 429 ==> DetectServiceFailure(Some(status), false)
  {
  }
}
