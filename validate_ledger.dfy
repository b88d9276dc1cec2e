/**
 * The ledger validator: it reads every `<partition>.jsonl` file of a ledger
 * directory and reports, per line, what is wrong with the record on it.
 * Each check appends issues to one list; the run also counts records and
 * states and remembers where each `unique_code` first occurred, so a second
 * occurrence anywhere in the ledger is an error.
 *
 * File contents come in already split into lines, JSON decoding is the
 * parameter `decode` and `datetime.fromisoformat` is the parameter `fromIso`.
 */
module ValidateLedger {
  import opened Py
  import opened Dates
  import opened Order
  import opened Codes
  import opened LedgerEngine
  import opened Infos

  // ------------------------------------------------------------ issues

  datatype Severity = ErrorLevel | WarningLevel

  /** The issue codes, each the camel-case spelling of the source's code string. */
  datatype Code =
    | LedgerFilesMissing
    | InvalidPartitionFilename
    | JsonDecodeError
    | RecordNotObject
    | RecordMissingRequiredFields
    | UniqueCodeInvalid
    | DuplicateUniqueCode
    | SourceUrlEmpty
    | UnknownPartitionHasValidGrDate
    | PartitionRecordMissingValidGrDate
    | PartitionYearMismatch
    | AttemptCountsNotObject
    | AttemptCountsMissingKeys
    | AttemptCountsInvalidType
    | AttemptCountsOutOfRange
    | DownloadNotObject
    | WaybackNotObject
    | ArchiveNotObject
    | DownloadMissingKeys
    | WaybackMissingKeys
    | ArchiveMissingKeys
    | DownloadStatusInvalid
    | WaybackStatusInvalid
    | ArchiveStatusInvalid
    | LfsPathInvalidType
    | LfsPathEmptyString
    | StateInvalid
    | StateFetchedDownloadStatus
    | StateFetchedArchiveSuccess
    | StateDownloadSuccessMismatch
    | StateDownloadSuccessArchiveSuccess
    | StateDownloadFailedMismatch
    | StateDownloadFailedArchiveSuccess
    | StateWaybackUploadedMismatch
    | StateWaybackUploadedArchiveSuccess
    | StateWaybackFailedMismatch
    | StateWaybackFailedArchiveSuccess
    | StateArchiveWithWaybackArchiveStatus
    | StateArchiveWithWaybackMissingUrl
    | StateArchiveWithoutWaybackArchiveStatus
    | StateArchiveWithoutWaybackHasUrl
    | StateArchiveWithoutDocumentArchiveStatus
    | StateArchiveWithoutDocumentDownloadSuccess
    | FirstSeenCrawlDateInvalid
    | LastSeenCrawlDateInvalid
    | CrawlDateOrderInvalid
    | FirstSeenRunTypeInvalid
    | CreatedAtInvalid
    | UpdatedAtInvalid
    | CreatedAfterUpdated

  /** The file and 1-based line an issue is about (line 0 for the file itself). */
  datatype Place = Place(file: string, lineNo: nat)

  /** An `Issue` without its message text. */
  datatype Issue = Issue(severity: Severity, code: Code, place: Place)

  predicate NoErrors(issues: seq<Issue>)
  {
    forall i :: 0 <= i < |issues| ==> issues[i].severity != ErrorLevel
  }

  predicate NoWarnings(issues: seq<Issue>)
  {
    forall i :: 0 <= i < |issues| ==> issues[i].severity != WarningLevel
  }

  predicate AllErrors(issues: seq<Issue>)
  {
    forall i :: 0 <= i < |issues| ==> issues[i].severity == ErrorLevel
  }

  /** An error issue when `c` holds, else nothing. */
  function ErrorIf(c: bool, code: Code, at: Place): (r: seq<Issue>)
    ensures NoErrors(r) <==> !c
    ensures AllErrors(r) && |r| <= 1
  {
    var r := if c then [Issue(ErrorLevel, code, at)] else [];
    assert c ==> r[0].severity == ErrorLevel;
    r
  }

  /** A warning issue when `c` holds, else nothing. */
  function WarningIf(c: bool, code: Code, at: Place): (r: seq<Issue>)
    ensures NoErrors(r) && |r| <= 1
  {
    if c then [Issue(WarningLevel, code, at)] else []
  }

  lemma NoErrorsAppend(a: seq<Issue>, b: seq<Issue>)
    ensures NoErrors(a + b) <==> NoErrors(a) && NoErrors(b)
  {
    if NoErrors(a) && NoErrors(b) {
      forall i | 0 <= i < |a + b| ensures (a + b)[i].severity != ErrorLevel {
        if i >= |a| { assert (a + b)[i] == b[i - |a|]; }
      }
    }
    if NoErrors(a + b) {
      forall i | 0 <= i < |b| ensures b[i].severity != ErrorLevel {
        assert (a + b)[|a| + i] == b[i];
      }
      forall i | 0 <= i < |a| ensures a[i].severity != ErrorLevel {
        assert (a + b)[i] == a[i];
      }
    }
  }

  /** The error-freedom of a warning-or-error pair. */
  lemma NoErrorsPair(a: seq<Issue>, b: seq<Issue>, p: bool, q: bool)
    requires NoErrors(a) <==> p
    requires NoErrors(b) <==> q
    ensures NoErrors(a + b) <==> p && q
  {
    NoErrorsAppend(a, b);
  }

  /** A value `in` on a set of strings needs hashing, which lists and dicts refuse. */
  predicate Unhashable(v: Value)
  {
    v.List? || v.Dict?
  }

  /** `isinstance(v, str) and v.strip()`. */
  predicate NonBlankStr(v: Value)
  {
    v.Str? && Strip(v.s) != ""
  }

  // ------------------------------------------------------------ timestamps

  /** A parsed `datetime`: its instant, and whether it carries a UTC offset. */
  datatype Stamp = Stamp(instant: int, aware: bool)

  /** A trailing `Z` is rewritten as `+00:00` before parsing. */
  function ZuluToOffset(text: string): (r: string)
    ensures !EndsWith(text, "Z") ==> r == text
    ensures EndsWith(text, "Z") ==> r == text[..|text| - 1] + "+00:00"
  {
    if EndsWith(text, "Z") then text[..|text| - 1] + "+00:00" else text
  }

  /** `parse_iso_timestamp`: only a non-blank string is parsed. */
  function ParseIsoTimestamp(v: Value, fromIso: string -> Option<Stamp>): (r: Option<Stamp>)
    ensures r.Some? ==> NonBlankStr(v) && r == fromIso(ZuluToOffset(Strip(v.s)))
    ensures NonBlankStr(v) ==> r == fromIso(ZuluToOffset(Strip(v.s)))
  {
    if NonBlankStr(v) then fromIso(ZuluToOffset(Strip(v.s))) else None
  }

  // --------------------------------------------------- per-record checks

  /**
   * `validate_partition_against_gr_date`: the record is accepted exactly when
   * `partition_for_gr_date` would place it in this partition.
   */
  function PartitionIssues(key: string, grDate: Value, at: Place): (r: seq<Issue>)
    ensures r == [] <==> PartitionForGrDate(grDate) == key
    ensures |r| <= 1 && AllErrors(r)
    ensures key == "unknown" && r != [] ==> r[0].code == UnknownPartitionHasValidGrDate
  {
    var parsed := ParseIsoDate(grDate);
    if key == "unknown" then ErrorIf(parsed.Some?, UnknownPartitionHasValidGrDate, at)
    else if parsed.None? then ErrorIf(true, PartitionRecordMissingValidGrDate, at)
    else ErrorIf(IntToStr(parsed.value.year) != key, PartitionYearMismatch, at)
  }

  /** A row `partition_for_gr_date` placed is valid in the partition it was placed in, and in no other. */
  lemma PartitionOfPlacedRow(row: Row, key: string, at: Place)
    ensures PartitionIssues(PartitionForGrDate(Get(row, KGrDate)), Get(row, KGrDate), at) == []
    ensures key != PartitionForGrDate(Get(row, KGrDate)) ==> |PartitionIssues(key, Get(row, KGrDate), at)| == 1
  {
  }

  /** The check of one counter: an int (a bool passes) in [0, 2]. */
  function CounterIssues(v: Value, at: Place): (r: seq<Issue>)
    ensures r == [] <==> AttemptInRange(v)
  {
    if !IsPyInt(v) then ErrorIf(true, AttemptCountsInvalidType, at)
    else ErrorIf(IntOf(v) < 0 || IntOf(v) > 2, AttemptCountsOutOfRange, at)
  }

  predicate HasAttemptKeys(m: Row)
  {
    KDownload in m && KWayback in m && KArchive in m
  }

  /**
   * `validate_attempt_counts`: one error for a non-object; otherwise one for
   * missing keys and one per counter that is not an int in [0, 2] (a missing
   * counter reads as None and is not an int). The counters are checked in
   * the order download, wayback, archive.
   */
  function AttemptIssues(attempts: Value, at: Place): (r: seq<Issue>)
    ensures r == [] <==>
      attempts.Dict? && HasAttemptKeys(attempts.fields) && forall s :: StageCounter(s) ==> AttemptInRange(Get(attempts.fields, s))
    ensures !attempts.Dict? ==> r == [Issue(ErrorLevel, AttemptCountsNotObject, at)]
    ensures AllErrors(r) && |r| <= 4
  {
    if !attempts.Dict? then ErrorIf(true, AttemptCountsNotObject, at)
    else
      var m := attempts.fields;
      ErrorIf(!HasAttemptKeys(m), AttemptCountsMissingKeys, at)
        + CounterIssues(Get(m, KDownload), at) + CounterIssues(Get(m, KWayback), at) + CounterIssues(Get(m, KArchive), at)
  }

  /** Counters the validator accepts are counters the ledger engine's own check accepts. */
  lemma AttemptsAcceptedByEngine(row: Row, at: Place)
    requires AttemptIssues(Get(row, KAttemptCounts), at) == []
    ensures ValidateAttemptCounts(row) == None
  {
    var m := Get(row, KAttemptCounts).fields;
    assert AttemptInRange(Get(m, KDownload)) && AttemptInRange(Get(m, KWayback)) && AttemptInRange(Get(m, KArchive));
  }

  /** The converse fails: the engine reads a missing counter as 0, the validator reports it. */
  lemma EngineAcceptsMissingCounters(at: Place)
    ensures ValidateAttemptCounts(map[KAttemptCounts := Dict(map[])]) == None
    ensures |AttemptIssues(Dict(map[]), at)| == 4
  {
  }

  predicate HasDownloadFields(m: Row)
  {
    KPath in m && KStatus in m && KHash in m && KSize in m && KError in m
  }

  predicate HasWaybackFields(m: Row)
  {
    KUrl in m && KContentUrl in m && KArchiveTime in m && KArchiveSha1 in m && KArchiveLength in m
    && KArchiveMimetype in m && KArchiveStatusCode in m && KStatus in m && KError in m
  }

  predicate HasArchiveFields(m: Row)
  {
    KIdentifier in m && KUrl in m && KStatus in m && KError in m
  }

  /** `ALLOWED_DOWNLOAD_STATUS`. */
  predicate DownloadStatusName(s: string)
  {
    s == "not_attempted" || s == "attempted" || s == "success" || s == "failed"
  }

  /** `ALLOWED_WAYBACK_STATUS` and `ALLOWED_ARCHIVE_STATUS`, which are the same set. */
  predicate StageStatusName(s: string)
  {
    s == "not_attempted" || s == "success" || s == "failed"
  }

  /** `v not in names`, which raises `TypeError` for an unhashable `v`. */
  function NotIn(v: Value, names: string -> bool): (r: Result<bool>)
    ensures r.Err? <==> Unhashable(v)
    ensures r.Err? ==> r.error == TypeError
    ensures r.Ok? ==> (r.value <==> !(v.Str? && names(v.s)))
  {
    if Unhashable(v) then Err(TypeError) else Ok(!(v.Str? && names(v.s)))
  }

  /** The status of a stage object held in `record`, `record[stage].get("status")`. */
  function StatusOf(record: Row, stage: Key): Value
  {
    Get(FieldsOf(Get(record, stage)), KStatus)
  }

  /** All three stage objects exist and carry a status of their allowed sets. */
  predicate StageObjectsValid(record: Row)
  {
    && Get(record, KDownload).Dict? && Get(record, KWayback).Dict? && Get(record, KArchive).Dict?
    && StatusOf(record, KDownload).Str? && DownloadStatusName(StatusOf(record, KDownload).s)
    && StatusOf(record, KWayback).Str? && StageStatusName(StatusOf(record, KWayback).s)
    && StatusOf(record, KArchive).Str? && StageStatusName(StatusOf(record, KArchive).s)
  }

  /**
   * `validate_stage_objects`: an error per stage that is not an object and
   * nothing more if one is not; otherwise a warning per object missing one
   * of its expected keys and an error per status outside its allowed set.
   */
  function StageObjectIssues(record: Row, at: Place): (r: Result<seq<Issue>>)
  {
    var d, w, a := Get(record, KDownload), Get(record, KWayback), Get(record, KArchive);
    if !d.Dict? || !w.Dict? || !a.Dict? then
      Ok(ErrorIf(!d.Dict?, DownloadNotObject, at) + ErrorIf(!w.Dict?, WaybackNotObject, at)
         + ErrorIf(!a.Dict?, ArchiveNotObject, at))
    else
      var missing := WarningIf(!HasDownloadFields(d.fields), DownloadMissingKeys, at)
        + WarningIf(!HasWaybackFields(w.fields), WaybackMissingKeys, at)
        + WarningIf(!HasArchiveFields(a.fields), ArchiveMissingKeys, at);
      var dn, wn, an := NotIn(Get(d.fields, KStatus), DownloadStatusName), NotIn(Get(w.fields, KStatus), StageStatusName),
        NotIn(Get(a.fields, KStatus), StageStatusName);
      if dn.Err? then Err(dn.error)
      else if wn.Err? then Err(wn.error)
      else if an.Err? then Err(an.error)
      else Ok(missing + ErrorIf(dn.value, DownloadStatusInvalid, at) + ErrorIf(wn.value, WaybackStatusInvalid, at)
              + ErrorIf(an.value, ArchiveStatusInvalid, at))
  }

  /** The stage checks raise only on an unhashable status, and report an error exactly when the objects are not valid. */
  lemma StageObjectIssuesProps(record: Row, at: Place)
    ensures var r := StageObjectIssues(record, at);
      && (r.Err? <==>
            Get(record, KDownload).Dict? && Get(record, KWayback).Dict? && Get(record, KArchive).Dict?
            && (Unhashable(StatusOf(record, KDownload)) || Unhashable(StatusOf(record, KWayback))
                || Unhashable(StatusOf(record, KArchive))))
      && (r.Ok? ==> (NoErrors(r.value) <==> StageObjectsValid(record)))
      && (r.Ok? ==> (r.value == [] <==>
            StageObjectsValid(record) && HasDownloadFields(Get(record, KDownload).fields)
            && HasWaybackFields(Get(record, KWayback).fields) && HasArchiveFields(Get(record, KArchive).fields)))
  {
    var r := StageObjectIssues(record, at);
    var d, w, a := Get(record, KDownload), Get(record, KWayback), Get(record, KArchive);
    if !d.Dict? || !w.Dict? || !a.Dict? {
      var e1, e2, e3 := ErrorIf(!d.Dict?, DownloadNotObject, at), ErrorIf(!w.Dict?, WaybackNotObject, at),
        ErrorIf(!a.Dict?, ArchiveNotObject, at);
      NoErrorsPair(e1, e2, d.Dict?, w.Dict?);
      NoErrorsPair(e1 + e2, e3, d.Dict? && w.Dict?, a.Dict?);
    } else if r.Ok? {
      var w1, w2, w3 := WarningIf(!HasDownloadFields(d.fields), DownloadMissingKeys, at),
        WarningIf(!HasWaybackFields(w.fields), WaybackMissingKeys, at), WarningIf(!HasArchiveFields(a.fields), ArchiveMissingKeys, at);
      var dn, wn, an := NotIn(Get(d.fields, KStatus), DownloadStatusName), NotIn(Get(w.fields, KStatus), StageStatusName),
        NotIn(Get(a.fields, KStatus), StageStatusName);
      var e1, e2, e3 := ErrorIf(dn.value, DownloadStatusInvalid, at), ErrorIf(wn.value, WaybackStatusInvalid, at),
        ErrorIf(an.value, ArchiveStatusInvalid, at);
      NoErrorsPair(w1, w2, true, true);
      NoErrorsPair(w1 + w2, w3, true, true);
      NoErrorsPair(w1 + w2 + w3, e1, true, !dn.value);
      NoErrorsPair(w1 + w2 + w3 + e1, e2, !dn.value, !wn.value);
      NoErrorsPair(w1 + w2 + w3 + e1 + e2, e3, !dn.value && !wn.value, !an.value);
    }
  }

  /** `validate_lfs_path`: None, or a non-blank string. */
  function LfsIssues(record: Row, at: Place): (r: seq<Issue>)
    ensures r == [] <==> LfsValid(record)
    ensures NoErrors(r) <==> LfsValid(record)
    ensures |r| <= 1 && AllErrors(r)
  {
    var v := Get(record, KLfsPath);
    if v.Null? then []
    else if !v.Str? then ErrorIf(true, LfsPathInvalidType, at)
    else ErrorIf(Strip(v.s) == "", LfsPathEmptyString, at)
  }

  /** Every `lfs_path` the merged read model shows passes the check. */
  lemma MergedLfsPathValid(hf: Row, record: Row, at: Place)
    requires Get(record, KLfsPath) == LfsView(hf)
    ensures LfsIssues(record, at) == []
  {
  }

  // ------------------------------------------------------- state checks

  /** The stage and status a state needs, if any. */
  function Requirement(s: State): Option<(Key, string)>
  {
    match s
    case Fetched => None
    case DownloadSuccess => Some((KDownload, "success"))
    case DownloadFailed => Some((KDownload, "failed"))
    case WaybackUploaded => Some((KWayback, "success"))
    case WaybackUploadFailed => Some((KWayback, "failed"))
    case _ => Some((KArchive, "success"))
  }

  /** The states before an archive upload. */
  predicate PreArchive(s: State)
  {
    s == Fetched || s == DownloadSuccess || s == DownloadFailed || s == WaybackUploaded || s == WaybackUploadFailed
  }

  /** What a state demands of the stage objects, as the error checks of the state table read. */
  predicate Meets(s: State, record: Row)
  {
    && (Requirement(s).Some? ==> StatusOf(record, Requirement(s).value.0) == Str(Requirement(s).value.1))
    && (PreArchive(s) ==> StatusOf(record, KArchive) != Str("success"))
    && (s == ArchivedWithWaybackUrl ==> NonBlankStr(Get(FieldsOf(Get(record, KWayback)), KUrl)))
  }

  /** `download_status in {"not_attempted", "attempted"}` for a FETCHED record. */
  predicate FetchedDownloadName(s: string)
  {
    s == "not_attempted" || s == "attempted"
  }

  /** The issues of a valid state, with the stage objects' fields read through `FieldsOf`. */
  function StateTable(s: State, record: Row, at: Place): (r: Result<seq<Issue>>)
  {
    var ds, ws, ars := StatusOf(record, KDownload), StatusOf(record, KWayback), StatusOf(record, KArchive);
    var url := Get(FieldsOf(Get(record, KWayback)), KUrl);
    var archived := ars == Str("success");
    match s
    case Fetched =>
      var odd := NotIn(ds, FetchedDownloadName);
      if odd.Err? then Err(odd.error)
      else Ok(WarningIf(odd.value, StateFetchedDownloadStatus, at) + ErrorIf(archived, StateFetchedArchiveSuccess, at))
    case DownloadSuccess =>
      Ok(ErrorIf(ds != Str("success"), StateDownloadSuccessMismatch, at)
         + ErrorIf(archived, StateDownloadSuccessArchiveSuccess, at))
    case DownloadFailed =>
      Ok(ErrorIf(ds != Str("failed"), StateDownloadFailedMismatch, at)
         + ErrorIf(archived, StateDownloadFailedArchiveSuccess, at))
    case WaybackUploaded =>
      Ok(ErrorIf(ws != Str("success"), StateWaybackUploadedMismatch, at)
         + ErrorIf(archived, StateWaybackUploadedArchiveSuccess, at))
    case WaybackUploadFailed =>
      Ok(ErrorIf(ws != Str("failed"), StateWaybackFailedMismatch, at)
         + ErrorIf(archived, StateWaybackFailedArchiveSuccess, at))
    case ArchivedWithWaybackUrl =>
      Ok(ErrorIf(!archived, StateArchiveWithWaybackArchiveStatus, at)
         + ErrorIf(!NonBlankStr(url), StateArchiveWithWaybackMissingUrl, at))
    case ArchivedWithoutWaybackUrl =>
      Ok(ErrorIf(!archived, StateArchiveWithoutWaybackArchiveStatus, at)
         + WarningIf(NonBlankStr(url), StateArchiveWithoutWaybackHasUrl, at))
    case ArchivedWithoutDocument =>
      Ok(ErrorIf(!archived, StateArchiveWithoutDocumentArchiveStatus, at)
         + WarningIf(ds == Str("success"), StateArchiveWithoutDocumentDownloadSuccess, at))
  }

  /** The state table raises only for a FETCHED record with an unhashable download status, and errs exactly when `Meets` fails. */
  lemma StateTableProps(s: State, record: Row, at: Place)
    ensures var r := StateTable(s, record, at);
      && (r.Err? <==> s == Fetched && Unhashable(StatusOf(record, KDownload)))
      && (r.Ok? ==> (NoErrors(r.value) <==> Meets(s, record)))
  {
    var ds, ws, ars := StatusOf(record, KDownload), StatusOf(record, KWayback), StatusOf(record, KArchive);
    var url := Get(FieldsOf(Get(record, KWayback)), KUrl);
    var archived := ars == Str("success");
    match s
    case Fetched =>
      var odd := NotIn(ds, FetchedDownloadName);
      if odd.Ok? {
        NoErrorsPair(WarningIf(odd.value, StateFetchedDownloadStatus, at), ErrorIf(archived, StateFetchedArchiveSuccess, at),
                     true, !archived);
      }
    case DownloadSuccess =>
      NoErrorsPair(ErrorIf(ds != Str("success"), StateDownloadSuccessMismatch, at),
                   ErrorIf(archived, StateDownloadSuccessArchiveSuccess, at), ds == Str("success"), !archived);
    case DownloadFailed =>
      NoErrorsPair(ErrorIf(ds != Str("failed"), StateDownloadFailedMismatch, at),
                   ErrorIf(archived, StateDownloadFailedArchiveSuccess, at), ds == Str("failed"), !archived);
    case WaybackUploaded =>
      NoErrorsPair(ErrorIf(ws != Str("success"), StateWaybackUploadedMismatch, at),
                   ErrorIf(archived, StateWaybackUploadedArchiveSuccess, at), ws == Str("success"), !archived);
    case WaybackUploadFailed =>
      NoErrorsPair(ErrorIf(ws != Str("failed"), StateWaybackFailedMismatch, at),
                   ErrorIf(archived, StateWaybackFailedArchiveSuccess, at), ws == Str("failed"), !archived);
    case ArchivedWithWaybackUrl =>
      NoErrorsPair(ErrorIf(!archived, StateArchiveWithWaybackArchiveStatus, at),
                   ErrorIf(!NonBlankStr(url), StateArchiveWithWaybackMissingUrl, at), archived, NonBlankStr(url));
    case ArchivedWithoutWaybackUrl =>
      NoErrorsPair(ErrorIf(!archived, StateArchiveWithoutWaybackArchiveStatus, at),
                   WarningIf(NonBlankStr(url), StateArchiveWithoutWaybackHasUrl, at), archived, true);
    case ArchivedWithoutDocument =>
      NoErrorsPair(ErrorIf(!archived, StateArchiveWithoutDocumentArchiveStatus, at),
                   WarningIf(ds == Str("success"), StateArchiveWithoutDocumentDownloadSuccess, at), archived, true);
  }

  /**
   * `validate_state_consistency`, corrected: a state outside the allowed set
   * is one error and ends the check; a stage object that is not a dict reads
   * as an empty one.
   */
  function StateIssues(record: Row, at: Place): (r: Result<seq<Issue>>)
    ensures Unhashable(Get(record, KState)) ==> r == Err(TypeError)
    ensures !Unhashable(Get(record, KState)) && !(Get(record, KState).Str? && ParseState(Get(record, KState).s).Some?)
      ==> r == Ok([Issue(ErrorLevel, StateInvalid, at)])
  {
    var state := Get(record, KState);
    if Unhashable(state) then Err(TypeError)
    else if !state.Str? || ParseState(state.s).None? then Ok(ErrorIf(true, StateInvalid, at))
    else StateTable(ParseState(state.s).value, record, at)
  }

  /** The state check raises only on an unhashable state or a FETCHED record's unhashable download status. */
  lemma StateIssuesProps(record: Row, at: Place)
    ensures var r := StateIssues(record, at);
      var state := Get(record, KState);
      && (r.Err? ==> r.error == TypeError)
      && (r.Ok? ==> (NoErrors(r.value) <==> StateValid(record)))
  {
    var state := Get(record, KState);
    if !Unhashable(state) && state.Str? && ParseState(state.s).Some? {
      StateTableProps(ParseState(state.s).value, record, at);
    }
  }

  /**
   * `validate_state_consistency` as written: `record.get("download", {})`
   * and its siblings are called `.get` on, which raises `AttributeError`
   * when the record holds a value that is not a dict there.
   */
  function StateIssuesAsWritten(record: Row, at: Place): (r: Result<seq<Issue>>)
    ensures (forall k :: StageCounter(k) ==> GetOr(record, k, Dict(map[])).Dict?) ==> r == StateIssues(record, at)
  {
    var state := Get(record, KState);
    if Unhashable(state) then Err(TypeError)
    else if !state.Str? || ParseState(state.s).None? then Ok(ErrorIf(true, StateInvalid, at))
    else if !GetOr(record, KDownload, Dict(map[])).Dict? || !GetOr(record, KWayback, Dict(map[])).Dict?
            || !GetOr(record, KArchive, Dict(map[])).Dict? then Err(AttributeError)
    else StateTable(ParseState(state.s).value, record, at)
  }

  /**
   * A FETCHED record whose `download` is null: the stage check reports it as
   * an error to be listed, and the state check as written then raises, which
   * ends the whole run; the corrected check lists the issue and goes on.
   */
  lemma NullDownloadRaises(at: Place)
    ensures var record := map[KState := Str("FETCHED"), KDownload := Null, KWayback := Dict(map[]), KArchive := Dict(map[])];
      && StageObjectIssues(record, at) == Ok([Issue(ErrorLevel, DownloadNotObject, at)])
      && StateIssuesAsWritten(record, at) == Err(AttributeError)
      && StateIssues(record, at).Ok?
  {
    var record := map[KState := Str("FETCHED"), KDownload := Null, KWayback := Dict(map[]), KArchive := Dict(map[])];
    assert Get(record, KState) == Str("FETCHED");
    assert Get(record, KDownload) == Null && Get(record, KWayback).Dict? && Get(record, KArchive).Dict?;
    assert ErrorIf(true, DownloadNotObject, at) + ErrorIf(false, WaybackNotObject, at) + ErrorIf(false, ArchiveNotObject, at)
      == [Issue(ErrorLevel, DownloadNotObject, at)];
    assert ParseState("FETCHED") == Some(Fetched);
  }

  // ------------------------------------------------------- date checks

  predicate RunTypeName(v: Value)
  {
    v == Str("daily") || v == Str("monthly")
  }

  /** Everything `validate_dates_and_timestamps` reports as an error is absent. */
  predicate DatesValid(record: Row, fromIso: string -> Option<Stamp>)
  {
    var first, last := ParseIsoDate(Get(record, KFirstSeenCrawlDate)), ParseIsoDate(Get(record, KLastSeenCrawlDate));
    && first.Some? && last.Some? && DateLe(first.value, last.value)
    && RunTypeName(Get(record, KFirstSeenRunType))
    && ParseIsoTimestamp(Get(record, KCreatedAtUtc), fromIso).Some?
    && ParseIsoTimestamp(Get(record, KUpdatedAtUtc), fromIso).Some?
  }

  /**
   * `validate_dates_and_timestamps`: errors for unparsable or out-of-order
   * crawl dates, a run type other than daily or monthly, and unparsable
   * timestamps; a warning when `created_at_utc` is after `updated_at_utc`.
   * The run-type membership test raises on an unhashable value, and comparing
   * a naive with an aware timestamp raises.
   */
  function DateIssues(record: Row, at: Place, fromIso: string -> Option<Stamp>): (r: Result<seq<Issue>>)
  {
    var first, last := ParseIsoDate(Get(record, KFirstSeenCrawlDate)), ParseIsoDate(Get(record, KLastSeenCrawlDate));
    var crawl := ErrorIf(first.None?, FirstSeenCrawlDateInvalid, at) + ErrorIf(last.None?, LastSeenCrawlDateInvalid, at)
      + ErrorIf(first.Some? && last.Some? && !DateLe(first.value, last.value), CrawlDateOrderInvalid, at);
    var runType := Get(record, KFirstSeenRunType);
    if Unhashable(runType) then Err(TypeError)
    else
      var created := ParseIsoTimestamp(Get(record, KCreatedAtUtc), fromIso);
      var updated := ParseIsoTimestamp(Get(record, KUpdatedAtUtc), fromIso);
      if created.Some? && updated.Some? && created.value.aware != updated.value.aware then Err(TypeError)
      else
        Ok(crawl + ErrorIf(!RunTypeName(runType), FirstSeenRunTypeInvalid, at)
           + ErrorIf(created.None?, CreatedAtInvalid, at) + ErrorIf(updated.None?, UpdatedAtInvalid, at)
           + WarningIf(created.Some? && updated.Some? && created.value.instant > updated.value.instant, CreatedAfterUpdated, at))
  }

  /** The date checks raise exactly on an unhashable run type or mixed timestamps, and err exactly when the dates are not valid. */
  lemma DateIssuesProps(record: Row, at: Place, fromIso: string -> Option<Stamp>)
    ensures var r := DateIssues(record, at, fromIso);
      var created := ParseIsoTimestamp(Get(record, KCreatedAtUtc), fromIso);
      var updated := ParseIsoTimestamp(Get(record, KUpdatedAtUtc), fromIso);
      && (r.Err? <==> Unhashable(Get(record, KFirstSeenRunType))
                      || (created.Some? && updated.Some? && created.value.aware != updated.value.aware))
      && (r.Err? ==> r.error == TypeError)
      && (r.Ok? ==> (NoErrors(r.value) <==> DatesValid(record, fromIso)))
  {
    var r := DateIssues(record, at, fromIso);
    if r.Ok? {
      var first, last := ParseIsoDate(Get(record, KFirstSeenCrawlDate)), ParseIsoDate(Get(record, KLastSeenCrawlDate));
      var created := ParseIsoTimestamp(Get(record, KCreatedAtUtc), fromIso);
      var updated := ParseIsoTimestamp(Get(record, KUpdatedAtUtc), fromIso);
      var e1, e2 := ErrorIf(first.None?, FirstSeenCrawlDateInvalid, at), ErrorIf(last.None?, LastSeenCrawlDateInvalid, at);
      var e3 := ErrorIf(first.Some? && last.Some? && !DateLe(first.value, last.value), CrawlDateOrderInvalid, at);
      var e4 := ErrorIf(!RunTypeName(Get(record, KFirstSeenRunType)), FirstSeenRunTypeInvalid, at);
      var e5, e6 := ErrorIf(created.None?, CreatedAtInvalid, at), ErrorIf(updated.None?, UpdatedAtInvalid, at);
      var w := WarningIf(created.Some? && updated.Some? && created.value.instant > updated.value.instant, CreatedAfterUpdated, at);
      NoErrorsPair(e1, e2, first.Some?, last.Some?);
      var ok3 := first.Some? && last.Some? && DateLe(first.value, last.value);
      NoErrorsPair(e1 + e2, e3, first.Some? && last.Some?, !(first.Some? && last.Some? && !DateLe(first.value, last.value)));
      NoErrorsPair(e1 + e2 + e3, e4, ok3, RunTypeName(Get(record, KFirstSeenRunType)));
      NoErrorsPair(e1 + e2 + e3 + e4, e5, ok3 && RunTypeName(Get(record, KFirstSeenRunType)), created.Some?);
      NoErrorsPair(e1 + e2 + e3 + e4 + e5, e6, ok3 && RunTypeName(Get(record, KFirstSeenRunType)) && created.Some?,
                   updated.Some?);
      NoErrorsPair(e1 + e2 + e3 + e4 + e5 + e6, w, DatesValid(record, fromIso), true);
    }
  }

  /**
   * A record stamped the way the ledger engine stamps one (ISO crawl dates
   * in order, a normalised run type, parsable timestamps of one kind) has
   * no date issue that is an error.
   */
  lemma StampedDatesValid(record: Row, at: Place, fromIso: string -> Option<Stamp>, first: Date, last: Date,
                          runType: Option<string>)
    requires ValidDate(first) && ValidDate(last) && DateLe(first, last)
    requires Get(record, KFirstSeenCrawlDate) == Str(IsoFormat(first))
    requires Get(record, KLastSeenCrawlDate) == Str(IsoFormat(last))
    requires Get(record, KFirstSeenRunType) == Str(NormalizeRunType(runType))
    requires ParseIsoTimestamp(Get(record, KCreatedAtUtc), fromIso).Some?
    requires ParseIsoTimestamp(Get(record, KUpdatedAtUtc), fromIso).Some?
    requires ParseIsoTimestamp(Get(record, KCreatedAtUtc), fromIso).value.aware
             == ParseIsoTimestamp(Get(record, KUpdatedAtUtc), fromIso).value.aware
    ensures DateIssues(record, at, fromIso).Ok? && NoErrors(DateIssues(record, at, fromIso).value)
  {
    ParseIsoDateOfIsoFormat(first);
    ParseIsoDateOfIsoFormat(last);
    DateIssuesProps(record, at, fromIso);
  }

  // ----------------------------------------------------------- one line

  /** `REQUIRED_TOP_LEVEL_FIELDS` are all present. */
  predicate HasRequiredFields(m: Row)
  {
    && KUniqueCode in m && KTitle in m && KDepartmentName in m && KDepartmentCode in m && KGrDate in m
    && KSourceUrl in m && KLfsPath in m && KState in m && KAttemptCounts in m && KDownload in m && KWayback in m
    && KArchive in m && KFirstSeenCrawlDate in m && KLastSeenCrawlDate in m && KFirstSeenRunType in m
    && KCreatedAtUtc in m && KUpdatedAtUtc in m
  }

  /** What the run accumulates: the issues, `state_counts`, `duplicate_tracker` and `total_records`. */
  datatype Scan = Scan(issues: seq<Issue>, stateCounts: map<string, nat>, firstSeen: map<string, Place>, total: nat)

  /** `state_counts[state] += 1`. */
  function Bump(counts: map<string, nat>, s: string): (r: map<string, nat>)
    ensures r.Keys == counts.Keys + {s}
    ensures r[s] == (if s in counts then counts[s] else 0) + 1
    ensures forall t :: t in counts && t != s ==> r[t] == counts[t]
  {
    counts[s := (if s in counts then counts[s] else 0) + 1]
  }

  /**
   * The `unique_code` check: a blank or non-string code is an error; a code
   * seen before is a duplicate; a new one is remembered with its place.
   */
  function CodeCheck(code: Value, at: Place, firstSeen: map<string, Place>): (r: (seq<Issue>, map<string, Place>))
    ensures AllErrors(r.0) && |r.0| <= 1
    ensures r.0 == [] <==> NonBlankStr(code) && code.s !in firstSeen
    ensures NonBlankStr(code) && code.s in firstSeen ==> r.0 == [Issue(ErrorLevel, Code.DuplicateUniqueCode, at)]
    ensures r.1.Keys == firstSeen.Keys + (if NonBlankStr(code) then {code.s} else {})
    ensures forall k :: k in firstSeen ==> r.1[k] == firstSeen[k]
    ensures NonBlankStr(code) && code.s !in firstSeen ==> r.1[code.s] == at
  {
    if !NonBlankStr(code) then (ErrorIf(true, UniqueCodeInvalid, at), firstSeen)
    else if code.s in firstSeen then (ErrorIf(true, Code.DuplicateUniqueCode, at), firstSeen)
    else ([], firstSeen[code.s := at])
  }

  /** The issues `FrontIssues` leaves out: the stage objects, `lfs_path`, the state and the dates. */
  function RecordIssues(key: string, rec: Row, at: Place, firstSeen: map<string, Place>, fromIso: string -> Option<Stamp>)
    : (r: Result<seq<Issue>>)
  {
    var stages := StageObjectIssues(rec, at);
    var state := StateIssues(rec, at);
    var dates := DateIssues(rec, at, fromIso);
    if stages.Err? then Err(stages.error)
    else if state.Err? then Err(state.error)
    else if dates.Err? then Err(dates.error)
    else Ok(FrontIssues(key, rec, at, firstSeen) + stages.value + LfsIssues(rec, at) + state.value + dates.value)
  }

  /** The checks of a decoded record that holds every required field, in the order the loop runs them. */
  function CheckRecord(key: string, rec: Row, at: Place, st: Scan, fromIso: string -> Option<Stamp>): (r: Result<Scan>)
  {
    match RecordIssues(key, rec, at, st.firstSeen, fromIso)
    case Err(e) => Err(e)
    case Ok(added) =>
      var counts := if Get(rec, KState).Str? then Bump(st.stateCounts, Get(rec, KState).s) else st.stateCounts;
      Ok(Scan(st.issues + added, counts, CodeCheck(Get(rec, KUniqueCode), at, st.firstSeen).1, st.total))
  }

  /** One line of a partition file. */
  function CheckLine(key: string, at: Place, line: string, st: Scan, decode: string -> Option<Value>,
                     fromIso: string -> Option<Stamp>): (r: Result<Scan>)
  {
    var text := Strip(line);
    if text == "" then Ok(st)
    else
      var counted := st.(total := st.total + 1);
      match decode(text)
      case None => Ok(counted.(issues := counted.issues + ErrorIf(true, JsonDecodeError, at)))
      case Some(v) =>
        if !v.Dict? then Ok(counted.(issues := counted.issues + ErrorIf(true, RecordNotObject, at)))
        else if !HasRequiredFields(v.fields) then
          Ok(counted.(issues := counted.issues + ErrorIf(true, RecordMissingRequiredFields, at)))
        else CheckRecord(key, v.fields, at, counted, fromIso)
  }

  /** A later scan state keeps what an earlier one holds: its issues as a prefix, first places and counts. */
  ghost predicate Extends(a: Scan, b: Scan)
  {
    && a.issues <= b.issues && a.total <= b.total
    && (forall k :: k in a.firstSeen ==> k in b.firstSeen && b.firstSeen[k] == a.firstSeen[k])
    && (forall k :: k in a.stateCounts ==> k in b.stateCounts && a.stateCounts[k] <= b.stateCounts[k])
  }

  lemma ExtendsTrans(a: Scan, b: Scan, c: Scan)
    requires Extends(a, b) && Extends(b, c)
    ensures Extends(a, c)
  {
  }

  /**
   * One line: a blank line changes nothing and is not counted; any other is
   * counted once, and its issues follow the earlier ones.
   */
  lemma CheckLineExtends(key: string, at: Place, line: string, st: Scan, decode: string -> Option<Value>,
                         fromIso: string -> Option<Stamp>)
    ensures var r := CheckLine(key, at, line, st, decode, fromIso);
      && (Strip(line) == "" ==> r == Ok(st))
      && (r.Ok? ==> Extends(st, r.value) && r.value.total == st.total + (if Strip(line) == "" then 0 else 1))
  {
  }

  /**
   * A line that does not decode to an object holding every required field
   * gets exactly one error and no further check.
   */
  lemma CheckLineSkips(key: string, at: Place, line: string, st: Scan, decode: string -> Option<Value>,
                       fromIso: string -> Option<Stamp>)
    requires Strip(line) != ""
    requires var v := decode(Strip(line)); v.None? || !v.value.Dict? || !HasRequiredFields(v.value.fields)
    ensures var r := CheckLine(key, at, line, st, decode, fromIso);
      && r.Ok? && |r.value.issues| == |st.issues| + 1 && r.value.issues[|st.issues|].severity == ErrorLevel
      && r.value.firstSeen == st.firstSeen && r.value.stateCounts == st.stateCounts
  {
  }

  /** A record whose code was seen earlier in the run gets a duplicate error, and the earlier place is kept. */
  lemma DuplicateReported(key: string, rec: Row, at: Place, st: Scan, fromIso: string -> Option<Stamp>)
    requires NonBlankStr(Get(rec, KUniqueCode)) && Get(rec, KUniqueCode).s in st.firstSeen
    ensures var r := CheckRecord(key, rec, at, st, fromIso);
      r.Ok? ==> r.value.issues[|st.issues|] == Issue(ErrorLevel, Code.DuplicateUniqueCode, at)
                && r.value.firstSeen == st.firstSeen
  {
    var r := CheckRecord(key, rec, at, st, fromIso);
    if r.Ok? {
      var codeIssues := CodeCheck(Get(rec, KUniqueCode), at, st.firstSeen).0;
      var added := RecordIssues(key, rec, at, st.firstSeen, fromIso).value;
      assert added[0] == codeIssues[0];
      assert r.value.issues[|st.issues|] == added[0];
    }
  }

  /** The first four checks report no error: a new non-blank code, the right partition, valid counters. */
  ghost predicate FrontValid(key: string, rec: Row, firstSeen: map<string, Place>)
  {
    var code, attempts := Get(rec, KUniqueCode), Get(rec, KAttemptCounts);
    && NonBlankStr(code) && code.s !in firstSeen
    && PartitionForGrDate(Get(rec, KGrDate)) == key
    && attempts.Dict? && HasAttemptKeys(attempts.fields)
    && (forall s :: StageCounter(s) ==> AttemptInRange(Get(attempts.fields, s)))
  }

  predicate LfsValid(rec: Row)
  {
    Get(rec, KLfsPath).Null? || NonBlankStr(Get(rec, KLfsPath))
  }

  /** A known state whose stage objects meet its requirements. */
  ghost predicate StateValid(rec: Row)
  {
    var state := Get(rec, KState);
    state.Str? && ParseState(state.s).Some? && Meets(ParseState(state.s).value, rec)
  }

  /** Everything the record checks report as an error is absent, and the code is new to the run. */
  ghost predicate RecordValid(key: string, rec: Row, firstSeen: map<string, Place>, fromIso: string -> Option<Stamp>)
  {
    FrontValid(key, rec, firstSeen) && StageObjectsValid(rec) && LfsValid(rec) && StateValid(rec) && DatesValid(rec, fromIso)
  }

  /** The issues the record checks add before the stage objects'. */
  function FrontIssues(key: string, rec: Row, at: Place, firstSeen: map<string, Place>): seq<Issue>
  {
    CodeCheck(Get(rec, KUniqueCode), at, firstSeen).0 + WarningIf(!NonBlankStr(Get(rec, KSourceUrl)), SourceUrlEmpty, at)
      + PartitionIssues(key, Get(rec, KGrDate), at) + AttemptIssues(Get(rec, KAttemptCounts), at)
  }

  lemma FrontIssuesErrors(key: string, rec: Row, at: Place, firstSeen: map<string, Place>)
    ensures NoErrors(FrontIssues(key, rec, at, firstSeen)) <==> FrontValid(key, rec, firstSeen)
  {
    var code, attempts := Get(rec, KUniqueCode), Get(rec, KAttemptCounts);
    var c := CodeCheck(code, at, firstSeen).0;
    var w := WarningIf(!NonBlankStr(Get(rec, KSourceUrl)), SourceUrlEmpty, at);
    var p := PartitionIssues(key, Get(rec, KGrDate), at);
    var a := AttemptIssues(attempts, at);
    var okA := attempts.Dict? && HasAttemptKeys(attempts.fields)
      && (forall s :: StageCounter(s) ==> AttemptInRange(Get(attempts.fields, s)));
    var okC := NonBlankStr(code) && code.s !in firstSeen;
    var okP := PartitionForGrDate(Get(rec, KGrDate)) == key;
    assert NoErrors(c) <==> okC by {
      if c != [] { assert c[0].severity == ErrorLevel; }
    }
    assert NoErrors(p) <==> okP by {
      if p != [] { assert p[0].severity == ErrorLevel; }
    }
    assert NoErrors(a) <==> okA by {
      if a != [] { assert a[0].severity == ErrorLevel; }
    }
    NoErrorsPair(c, w, okC, true);
    NoErrorsPair(c + w, p, okC, okP);
    NoErrorsPair(c + w + p, a, okC && okP, okA);
  }

  /** Five parts are free of errors exactly when each is. */
  lemma NoErrorsFive(a: seq<Issue>, b: seq<Issue>, c: seq<Issue>, d: seq<Issue>, e: seq<Issue>,
                     pa: bool, pb: bool, pc: bool, pd: bool, pe: bool)
    requires (NoErrors(a) <==> pa) && (NoErrors(b) <==> pb) && (NoErrors(c) <==> pc)
    requires (NoErrors(d) <==> pd) && (NoErrors(e) <==> pe)
    ensures NoErrors(a + b + c + d + e) <==> pa && pb && pc && pd && pe
  {
    NoErrorsPair(a, b, pa, pb);
    NoErrorsPair(a + b, c, pa && pb, pc);
    NoErrorsPair(a + b + c, d, pa && pb && pc, pd);
    NoErrorsPair(a + b + c + d, e, pa && pb && pc && pd, pe);
  }

  /**
   * A record the checks get through without raising adds no error exactly
   * when it is valid: every error the checks can report is reported.
   */
  lemma RecordIssuesErrors(key: string, rec: Row, at: Place, firstSeen: map<string, Place>,
                           fromIso: string -> Option<Stamp>)
    ensures var r := RecordIssues(key, rec, at, firstSeen, fromIso);
      r.Ok? ==> (NoErrors(r.value) <==> RecordValid(key, rec, firstSeen, fromIso))
  {
    if RecordIssues(key, rec, at, firstSeen, fromIso).Ok? {
      FrontIssuesErrors(key, rec, at, firstSeen);
      StageObjectIssuesProps(rec, at);
      StateIssuesProps(rec, at);
      DateIssuesProps(rec, at, fromIso);
      NoErrorsFive(FrontIssues(key, rec, at, firstSeen), StageObjectIssues(rec, at).value, LfsIssues(rec, at),
                   StateIssues(rec, at).value, DateIssues(rec, at, fromIso).value,
                   FrontValid(key, rec, firstSeen), StageObjectsValid(rec), LfsValid(rec), StateValid(rec),
                   DatesValid(rec, fromIso));
    }
  }

  // ------------------------------------------------------------ the run

  /** The lines of one partition file, `enumerate(handle, start=1)`, as a fold over its first lines. */
  function ScanLines(key: string, file: string, lines: seq<string>, st: Scan, decode: string -> Option<Value>,
                     fromIso: string -> Option<Stamp>): (r: Result<Scan>)
    decreases |lines|
  {
    if lines == [] then Ok(st)
    else
      match ScanLines(key, file, lines[..|lines| - 1], st, decode, fromIso)
      case Err(e) => Err(e)
      case Ok(before) => CheckLine(key, Place(file, |lines|), lines[|lines| - 1], before, decode, fromIso)
  }

  /** The number of lines that are not blank. */
  function NonBlankCount(lines: seq<string>): nat
  {
    if lines == [] then 0
    else NonBlankCount(lines[..|lines| - 1]) + (if Strip(lines[|lines| - 1]) == "" then 0 else 1)
  }

  /** A file's scan keeps what came before it and counts exactly its non-blank lines. */
  lemma {:induction false} ScanLinesExtends(key: string, file: string, lines: seq<string>, st: Scan,
                                            decode: string -> Option<Value>, fromIso: string -> Option<Stamp>)
    ensures var r := ScanLines(key, file, lines, st, decode, fromIso);
      r.Ok? ==> Extends(st, r.value) && r.value.total == st.total + NonBlankCount(lines)
    decreases |lines|
  {
    if lines != [] {
      var init := lines[..|lines| - 1];
      ScanLinesExtends(key, file, init, st, decode, fromIso);
      var before := ScanLines(key, file, init, st, decode, fromIso);
      if before.Ok? {
        CheckLineExtends(key, Place(file, |lines|), lines[|lines| - 1], before.value, decode, fromIso);
        var r := ScanLines(key, file, lines, st, decode, fromIso);
        if r.Ok? {
          ExtendsTrans(st, before.value, r.value);
        }
      }
    }
  }

  /** A partition file's stem names `"unknown"` or a four-digit year. */
  predicate ValidPartitionKey(stem: string)
  {
    stem == "unknown" || (|stem| == 4 && IsDigitText(stem))
  }

  /** One `*.jsonl` file: wrongly named, one error at line 0; else its lines. */
  function ScanFile(name: string, lines: seq<string>, st: Scan, decode: string -> Option<Value>,
                    fromIso: string -> Option<Stamp>): (r: Result<Scan>)
  {
    var key := StemOfName(name);
    if !ValidPartitionKey(key) then Ok(st.(issues := st.issues + ErrorIf(true, InvalidPartitionFilename, Place(name, 0))))
    else ScanLines(key, name, lines, st, decode, fromIso)
  }

  /** The files `names` of `files`, in order, sharing one scan state. */
  function ScanFiles(files: map<string, seq<string>>, names: seq<string>, st: Scan, decode: string -> Option<Value>,
                     fromIso: string -> Option<Stamp>): (r: Result<Scan>)
    requires forall n :: n in names ==> n in files
    decreases |names|
  {
    if names == [] then Ok(st)
    else
      match ScanFiles(files, names[..|names| - 1], st, decode, fromIso)
      case Err(e) => Err(e)
      case Ok(before) => ScanFile(names[|names| - 1], files[names[|names| - 1]], before, decode, fromIso)
  }

  /** A ledger directory: its path, and each file's name with its lines. */
  datatype LedgerDir = LedgerDir(path: string, files: map<string, seq<string>>)

  /** `sorted(ledger_dir.glob("*.jsonl"))`: the names ending in `.jsonl`, in code-point order. */
  function JsonlNames(files: map<string, seq<string>>): (r: seq<string>)
    ensures forall n :: n in r <==> n in files && EndsWith(n, ".jsonl")
    ensures SortedBy(r, StrKey)
    ensures forall i, j :: 0 <= i < j < |r| ==> r[i] != r[j]
  {
    var names := set n | n in files && EndsWith(n, ".jsonl");
    StrKeyInjective(names);
    SortedSet(names, StrKey)
  }

  /** The empty scan the run starts from. */
  function Start(): Scan
  {
    Scan([], map[], map[], 0)
  }

  /** `validate_ledger`: one error when there is no partition file, else the scan of every file in order. */
  function Validate(dir: LedgerDir, decode: string -> Option<Value>, fromIso: string -> Option<Stamp>): (r: Result<Scan>)
  {
    var names := JsonlNames(dir.files);
    if names == [] then Ok(Scan(ErrorIf(true, LedgerFilesMissing, Place(dir.path, 0)), map[], map[], 0))
    else ScanFiles(dir.files, names, Start(), decode, fromIso)
  }

  /** The loop over one file's lines. */
  method ValidateFile(name: string, lines: seq<string>, st: Scan, decode: string -> Option<Value>,
                      fromIso: string -> Option<Stamp>) returns (r: Result<Scan>)
    ensures r == ScanFile(name, lines, st, decode, fromIso)
  {
    var key := StemOfName(name);
    if !ValidPartitionKey(key) {
      return Ok(st.(issues := st.issues + ErrorIf(true, InvalidPartitionFilename, Place(name, 0))));
    }
    var cur := st;
    for i := 0 to |lines|
      invariant ScanLines(key, name, lines[..i], st, decode, fromIso) == Ok(cur)
    {
      assert lines[..i + 1][..i] == lines[..i];
      var next := CheckLine(key, Place(name, i + 1), lines[i], cur, decode, fromIso);
      if next.Err? {
        assert ScanLines(key, name, lines[..i + 1], st, decode, fromIso) == next;
        ErrorPersists(key, name, lines, i + 1, st, decode, fromIso);
        return next;
      }
      cur := next.value;
    }
    assert lines[..|lines|] == lines;
    return Ok(cur);
  }

  /** Once a line raises, the scan of every longer prefix raises the same. */
  lemma {:induction false} ErrorPersists(key: string, file: string, lines: seq<string>, k: nat, st: Scan,
                                         decode: string -> Option<Value>, fromIso: string -> Option<Stamp>)
    requires k <= |lines| && ScanLines(key, file, lines[..k], st, decode, fromIso).Err?
    ensures ScanLines(key, file, lines, st, decode, fromIso) == ScanLines(key, file, lines[..k], st, decode, fromIso)
    decreases |lines| - k
  {
    if k < |lines| {
      assert lines[..k + 1][..k] == lines[..k];
      ErrorPersists(key, file, lines, k + 1, st, decode, fromIso);
    } else {
      assert lines[..k] == lines;
    }
  }

  /** Once a file raises, the scan of every longer list of files raises the same. */
  lemma {:induction false} FileErrorPersists(files: map<string, seq<string>>, names: seq<string>, k: nat, st: Scan,
                                             decode: string -> Option<Value>, fromIso: string -> Option<Stamp>)
    requires forall n :: n in names ==> n in files
    requires k <= |names| && ScanFiles(files, names[..k], st, decode, fromIso).Err?
    ensures ScanFiles(files, names, st, decode, fromIso) == ScanFiles(files, names[..k], st, decode, fromIso)
    decreases |names| - k
  {
    if k < |names| {
      assert names[..k + 1][..k] == names[..k];
      FileErrorPersists(files, names, k + 1, st, decode, fromIso);
    } else {
      assert names[..k] == names;
    }
  }

  lemma ScanFilesStep(files: map<string, seq<string>>, names: seq<string>, i: nat, st: Scan, cur: Scan,
                      next: Result<Scan>, decode: string -> Option<Value>, fromIso: string -> Option<Stamp>)
    requires forall n :: n in names ==> n in files
    requires i < |names| && ScanFiles(files, names[..i], st, decode, fromIso) == Ok(cur)
    requires next == ScanFile(names[i], files[names[i]], cur, decode, fromIso)
    ensures ScanFiles(files, names[..i + 1], st, decode, fromIso) == next
  {
    assert names[..i + 1][..i] == names[..i];
  }

  /** The loop of `validate_ledger` over the sorted partition files. */
  method ValidateLedgerDir(dir: LedgerDir, decode: string -> Option<Value>, fromIso: string -> Option<Stamp>)
    returns (r: Result<Scan>)
    ensures r == Validate(dir, decode, fromIso)
  {
    var names := JsonlNames(dir.files);
    if names == [] {
      return Ok(Scan(ErrorIf(true, LedgerFilesMissing, Place(dir.path, 0)), map[], map[], 0));
    }
    var cur := Start();
    for i := 0 to |names|
      invariant ScanFiles(dir.files, names[..i], Start(), decode, fromIso) == Ok(cur)
    {
      var next := ValidateFile(names[i], dir.files[names[i]], cur, decode, fromIso);
      ScanFilesStep(dir.files, names, i, Start(), cur, next, decode, fromIso);
      if next.Err? {
        FileErrorPersists(dir.files, names, i + 1, Start(), decode, fromIso);
        return next;
      }
      cur := next.value;
    }
    assert names[..|names|] == names;
    return Ok(cur);
  }

  /** The non-blank lines of the validly named files among `names`: the records the run checks. */
  function RecordLines(files: map<string, seq<string>>, names: seq<string>): nat
    requires forall n :: n in names ==> n in files
  {
    if names == [] then 0
    else
      var n := names[|names| - 1];
      RecordLines(files, names[..|names| - 1]) + (if ValidPartitionKey(StemOfName(n)) then NonBlankCount(files[n]) else 0)
  }

  /** The run keeps every earlier issue and first place, and `total_records` counts the checked lines. */
  lemma {:induction false} ScanFilesExtends(files: map<string, seq<string>>, names: seq<string>, st: Scan,
                                            decode: string -> Option<Value>, fromIso: string -> Option<Stamp>)
    requires forall n :: n in names ==> n in files
    ensures var r := ScanFiles(files, names, st, decode, fromIso);
      r.Ok? ==> Extends(st, r.value) && r.value.total == st.total + RecordLines(files, names)
    decreases |names|
  {
    if names != [] {
      var init, n := names[..|names| - 1], names[|names| - 1];
      ScanFilesExtends(files, init, st, decode, fromIso);
      var before := ScanFiles(files, init, st, decode, fromIso);
      if before.Ok? {
        if ValidPartitionKey(StemOfName(n)) {
          ScanLinesExtends(StemOfName(n), n, files[n], before.value, decode, fromIso);
        }
        var r := ScanFiles(files, names, st, decode, fromIso);
        if r.Ok? {
          ExtendsTrans(st, before.value, r.value);
        }
      }
    }
  }

  /** The number of issues of one severity. */
  function CountLevel(issues: seq<Issue>, level: Severity): nat
  {
    if issues == [] then 0
    else CountLevel(issues[..|issues| - 1], level) + (if issues[|issues| - 1].severity == level then 1 else 0)
  }

  lemma {:induction false} CountLevelZero(issues: seq<Issue>, level: Severity)
    ensures CountLevel(issues, level) == 0 <==> forall i :: 0 <= i < |issues| ==> issues[i].severity != level
  {
    if issues != [] {
      var init := issues[..|issues| - 1];
      CountLevelZero(init, level);
      assert forall i :: 0 <= i < |init| ==> init[i] == issues[i];
    }
  }

  /**
   * The exit code of `run_from_args` from `print_report`'s error and warning
   * counts: 1 on any error, else 2 when warnings fail the run, else 0.
   */
  function ExitCode(issues: seq<Issue>, failOnWarning: bool): (code: int)
    ensures code == 1 <==> !NoErrors(issues)
    ensures code == 2 <==> NoErrors(issues) && failOnWarning && !NoWarnings(issues)
    ensures code == 0 <==> NoErrors(issues) && (!failOnWarning || NoWarnings(issues))
  {
    CountLevelZero(issues, ErrorLevel);
    CountLevelZero(issues, WarningLevel);
    if CountLevel(issues, ErrorLevel) > 0 then 1
    else if failOnWarning && CountLevel(issues, WarningLevel) > 0 then 2
    else 0
  }

  /** A directory without a partition file fails the run whatever the warning setting. */
  lemma EmptyLedgerFails(dir: LedgerDir, decode: string -> Option<Value>, fromIso: string -> Option<Stamp>,
                         failOnWarning: bool)
    requires forall n :: n in dir.files ==> !EndsWith(n, ".jsonl")
    ensures var r := Validate(dir, decode, fromIso);
      r.Ok? && r.value.total == 0 && |r.value.issues| == 1 && ExitCode(r.value.issues, failOnWarning) == 1
  {
    assert JsonlNames(dir.files) == [];
    var issues := ErrorIf(true, LedgerFilesMissing, Place(dir.path, 0));
    assert !NoErrors(issues);
  }
}
