/**
 * The single-namespace record ledger: the lifecycle state machine, the
 * field-level update rules, and `LedgerStore`, whose partitions are keyed by
 * the year of `gr_date` and whose index maps a `unique_code` to its row.
 * The clock (`now`, `today`) and the filesystem probe that turns a download
 * path into a ledger path are parameters.
 */
module LedgerEngine {
  import opened Py
  import opened Dates
  import opened Order
  import opened Partitions

  // -------------------------------------------------------------- states

  datatype State =
    | Fetched
    | DownloadSuccess
    | DownloadFailed
    | WaybackUploaded
    | WaybackUploadFailed
    | ArchivedWithWaybackUrl
    | ArchivedWithoutWaybackUrl
    | ArchivedWithoutDocument

  function StateName(s: State): string
  {
    match s
    case Fetched => "FETCHED"
    case DownloadSuccess => "DOWNLOAD_SUCCESS"
    case DownloadFailed => "DOWNLOAD_FAILED"
    case WaybackUploaded => "WAYBACK_UPLOADED"
    case WaybackUploadFailed => "WAYBACK_UPLOAD_FAILED"
    case ArchivedWithWaybackUrl => "ARCHIVE_UPLOADED_WITH_WAYBACK_URL"
    case ArchivedWithoutWaybackUrl => "ARCHIVE_UPLOADED_WITHOUT_WAYBACK_URL"
    case ArchivedWithoutDocument => "ARCHIVE_UPLOADED_WITHOUT_DOCUMENT"
  }

  /** Membership in `ALLOWED_STATES`, as the state a name denotes. */
  function ParseState(name: string): (r: Option<State>)
    ensures r.Some? ==> StateName(r.value) == name
    ensures r.None? ==> forall s: State :: StateName(s) != name
  {
    if name == "FETCHED" then Some(Fetched)
    else if name == "DOWNLOAD_SUCCESS" then Some(DownloadSuccess)
    else if name == "DOWNLOAD_FAILED" then Some(DownloadFailed)
    else if name == "WAYBACK_UPLOADED" then Some(WaybackUploaded)
    else if name == "WAYBACK_UPLOAD_FAILED" then Some(WaybackUploadFailed)
    else if name == "ARCHIVE_UPLOADED_WITH_WAYBACK_URL" then Some(ArchivedWithWaybackUrl)
    else if name == "ARCHIVE_UPLOADED_WITHOUT_WAYBACK_URL" then Some(ArchivedWithoutWaybackUrl)
    else if name == "ARCHIVE_UPLOADED_WITHOUT_DOCUMENT" then Some(ArchivedWithoutDocument)
    else None
  }

  lemma ParseStateName(s: State)
    ensures ParseState(StateName(s)) == Some(s)
  {
  }

  /** `ALLOWED_TRANSITIONS`. */
  function Allowed(s: State): set<State>
  {
    match s
    case Fetched => {Fetched, DownloadSuccess, DownloadFailed}
    case DownloadSuccess =>
      {DownloadSuccess, WaybackUploaded, WaybackUploadFailed, ArchivedWithWaybackUrl, ArchivedWithoutWaybackUrl}
    case DownloadFailed => {DownloadFailed, ArchivedWithoutDocument}
    case WaybackUploaded => {WaybackUploaded, ArchivedWithWaybackUrl}
    case WaybackUploadFailed => {WaybackUploadFailed, ArchivedWithoutWaybackUrl}
    case ArchivedWithWaybackUrl => {ArchivedWithWaybackUrl}
    case ArchivedWithoutWaybackUrl => {ArchivedWithoutWaybackUrl}
    case ArchivedWithoutDocument =>
      {ArchivedWithoutDocument, DownloadSuccess, DownloadFailed, ArchivedWithWaybackUrl, ArchivedWithoutWaybackUrl}
  }

  /** Every state may stay where it is; the two archived-with-document states are final. */
  lemma AllowedShape()
    ensures forall s :: s in Allowed(s)
    ensures Allowed(ArchivedWithWaybackUrl) == {ArchivedWithWaybackUrl}
    ensures Allowed(ArchivedWithoutWaybackUrl) == {ArchivedWithoutWaybackUrl}
    ensures forall s :: s in Allowed(Fetched) <==> s in {Fetched, DownloadSuccess, DownloadFailed}
    ensures ArchivedWithoutDocument !in Allowed(Fetched) && ArchivedWithoutDocument !in Allowed(DownloadSuccess)
  {
  }

  /** `StateMachine.validate_state`: an unhashable value raises TypeError on the set lookup. */
  function ValidateState(v: Value): (r: Option<Error>)
    ensures r.None? <==> v.Str? && ParseState(v.s).Some?
    ensures r.Some? ==> r.value == (if v.List? || v.Dict? then TypeError else InvalidTransition)
  {
    if v.List? || v.Dict? then Some(TypeError)
    else if v.Str? && ParseState(v.s).Some? then None
    else Some(InvalidTransition)
  }

  /** `StateMachine.validate_transition`. */
  function ValidateTransition(current: Value, next: Value): (r: Option<Error>)
    ensures r.None? <==>
      current.Str? && next.Str? && ParseState(current.s).Some? && ParseState(next.s).Some?
      && ParseState(next.s).value in Allowed(ParseState(current.s).value)
    ensures r.Some? ==> r.value == TypeError || r.value == InvalidTransition
  {
    if ValidateState(current).Some? then ValidateState(current)
    else if ValidateState(next).Some? then ValidateState(next)
    else if ParseState(next.s).value !in Allowed(ParseState(current.s).value) then Some(InvalidTransition)
    else None
  }

  // -------------------------------------------------------------- stages

  datatype Stage = Download | Wayback | Archive

  function StageName(s: Stage): string
  {
    match s
    case Download => "download"
    case Wayback => "wayback"
    case Archive => "archive"
  }

  /** The row key under which a stage keeps its object and its attempt counter. */
  function StageKey(s: Stage): (k: Key)
    ensures StageCounter(k)
    ensures KeyName(k) == StageName(s)
  {
    match s
    case Download => KDownload
    case Wayback => KWayback
    case Archive => KArchive
  }

  /** Membership in `STAGE_NAMES`. */
  function ParseStage(name: string): (r: Option<Stage>)
    ensures r.Some? ==> StageName(r.value) == name
    ensures r.None? ==> forall s: Stage :: StageName(s) != name
  {
    if name == "download" then Some(Download)
    else if name == "wayback" then Some(Wayback)
    else if name == "archive" then Some(Archive)
    else None
  }

  /**
   * `StateMachine.next_state_for_stage`: the current state is validated
   * first, then the stage.  A download or wayback result decides the state
   * alone; a failed archive upload keeps the current state.
   */
  function NextStateForStage(current: Value, stage: string, success: bool, hasWaybackUrl: bool, hasDocument: bool)
    : (r: Result<State>)
    ensures ValidateState(current).Some? ==> r == Err(ValidateState(current).value)
    ensures ValidateState(current).None? && ParseStage(stage).None? ==> r == Err(InvalidTransition)
    ensures r.Ok? <==> ValidateState(current).None? && ParseStage(stage).Some?
    ensures r.Ok? && stage == "download" ==> r.value == (if success then DownloadSuccess else DownloadFailed)
    ensures r.Ok? && stage == "wayback" ==> r.value == (if success then WaybackUploaded else WaybackUploadFailed)
    ensures r.Ok? && stage == "archive" && !success ==> Some(r.value) == ParseState(current.s)
    ensures r.Ok? && stage == "archive" && success ==>
      r.value == (if !hasDocument then ArchivedWithoutDocument
                  else if hasWaybackUrl then ArchivedWithWaybackUrl else ArchivedWithoutWaybackUrl)
  {
    if ValidateState(current).Some? then Err(ValidateState(current).value)
    else
      match ParseStage(stage)
      case None => Err(InvalidTransition)
      case Some(Download) => Ok(if success then DownloadSuccess else DownloadFailed)
      case Some(Wayback) => Ok(if success then WaybackUploaded else WaybackUploadFailed)
      case Some(Archive) =>
        if !success then Ok(ParseState(current.s).value)
        else if !hasDocument then Ok(ArchivedWithoutDocument)
        else if hasWaybackUrl then Ok(ArchivedWithWaybackUrl)
        else Ok(ArchivedWithoutWaybackUrl)
  }

  /**
   * A successful archive upload without a document is computed from
   * `FETCHED` and `DOWNLOAD_SUCCESS`, yet the transition table forbids it.
   */
  lemma WithoutDocumentUnreachable(s: State)
    requires s == Fetched || s == DownloadSuccess
    ensures NextStateForStage(Str(StateName(s)), "archive", true, false, false) == Ok(ArchivedWithoutDocument)
    ensures ValidateTransition(Str(StateName(s)), Str(StateName(ArchivedWithoutDocument))) == Some(InvalidTransition)
  {
    ParseStateName(s);
    ParseStateName(ArchivedWithoutDocument);
  }

  // ----------------------------------------------------- dates and run types

  /** `parse_iso_date`: a non-blank string in `%Y-%m-%d` form. */
  function ParseIsoDate(v: Value): (r: Option<Date>)
    ensures r.Some? ==> v.Str? && ValidDate(r.value)
    ensures r.Some? ==> r == StrptimeYmd(Strip(v.s), '-')
  {
    if v.Str? && Strip(v.s) != "" then StrptimeYmd(Strip(v.s), '-') else None
  }

  /** `partition_for_gr_date`: the year as `str(year)`, else `"unknown"`. */
  function PartitionForGrDate(grDate: Value): (r: string)
    ensures r == "unknown" <==> ParseIsoDate(grDate).None?
    ensures ParseIsoDate(grDate).Some? ==> r == IntToStr(ParseIsoDate(grDate).value.year) && AllDigits(r)
  {
    match ParseIsoDate(grDate)
    case None => "unknown"
    case Some(d) => IntToStr(d.year)
  }

  /** `parse_iso_date(d.isoformat()) == d`. */
  lemma ParseIsoDateOfIsoFormat(d: Date)
    requires ValidDate(d)
    ensures ParseIsoDate(Str(IsoFormat(d))) == Some(d)
  {
    var t := IsoFormat(d);
    assert t[0] == Pad4(d.year)[0] && IsDigit(t[0]) && IsDigit(t[9]);
    NotSpace(t[0]);
    NotSpace(t[9]);
    StripSetOfClean(t, Whitespace);
    StrptimeYmdOfIsoFormat(d);
  }

  /** Every valid date's ISO spelling lands in its year's partition. */
  lemma PartitionOfIsoDate(d: Date)
    requires ValidDate(d)
    ensures PartitionForGrDate(Str(IsoFormat(d))) == IntToStr(d.year)
  {
    ParseIsoDateOfIsoFormat(d);
  }

  /** `normalize_run_type`. */
  function NormalizeRunType(runType: Option<string>): (r: string)
    ensures r == "daily" || r == "monthly"
    ensures runType == Some("monthly") <==> r == "monthly"
  {
    if runType == Some("daily") || runType == Some("monthly") then runType.value else "daily"
  }

  /**
   * `normalize_crawl_date`: an ISO-parsable text is re-spelled canonically,
   * anything else becomes today.  A `date` argument is represented by its
   * ISO text.
   */
  function NormalizeCrawlDate(crawlDate: Value, today: Date): (r: string)
    requires ValidDate(today)
    ensures ParseIsoDate(Str(r)).Some?
    ensures ParseIsoDate(crawlDate).Some? ==> r == IsoFormat(ParseIsoDate(crawlDate).value)
    ensures ParseIsoDate(crawlDate).None? ==> r == IsoFormat(today)
  {
    var d := if ParseIsoDate(crawlDate).Some? then ParseIsoDate(crawlDate).value else today;
    ParseIsoDateOfIsoFormat(d);
    IsoFormat(d)
  }

  // ------------------------------------------------------------ records

  /** The three keys of `attempt_counts`, which are also the stage objects' keys. */
  predicate StageCounter(k: Key)
  {
    k == KDownload || k == KWayback || k == KArchive
  }

  /** `IMMUTABLE_FIELDS`. */
  predicate Immutable(k: Key)
  {
    k == KUniqueCode || k == KCreatedAtUtc || k == KFirstSeenCrawlDate || k == KFirstSeenRunType
  }

  /** `MUTABLE_FIELDS`. */
  predicate Mutable(k: Key)
  {
    k == KTitle || k == KDepartmentName || k == KDepartmentCode || k == KGrDate || k == KSourceUrl || k == KLfsPath
    || k == KState || k == KAttemptCounts || k == KDownload || k == KWayback || k == KArchive || k == KPdfInfo
    || k == KLastSeenCrawlDate || k == KUpdatedAtUtc
  }

  function Zeroes(): Value
  {
    Dict(map[KDownload := Int(0), KWayback := Int(0), KArchive := Int(0)])
  }

  /** `default_record_template(unique_code)`, with the clock passed in. */
  function Template(code: string, now: string, today: Date): (r: Row)
    requires ValidDate(today)
    ensures Get(r, KUniqueCode) == Str(code) && Get(r, KState) == Str("FETCHED")
    ensures Get(r, KAttemptCounts) == Zeroes() && WellFormed(r)
  {
    TemplateRest(now, today)[KState := Str("FETCHED")][KAttemptCounts := Zeroes()][KUniqueCode := Str(code)]
  }

  /** The template's fields other than the code, the state and the counters. */
  function TemplateRest(now: string, today: Date): Row
    requires ValidDate(today)
  {
    map[
      KTitle := Str(""),
      KDepartmentName := Str(""),
      KDepartmentCode := Str("unknown"),
      KGrDate := Str(""),
      KSourceUrl := Str(""),
      KLfsPath := Null,
      KDownload := Dict(map[KPath := Str(""), KStatus := Str("not_attempted"), KHash := Str(""),
                             KSize := Null, KError := Str("")]),
      KWayback := Dict(map[KUrl := Str(""), KContentUrl := Str(""), KArchiveTime := Str(""),
                            KArchiveSha1 := Str(""), KArchiveLength := Null, KArchiveMimetype := Str(""),
                            KArchiveStatusCode := Str(""), KStatus := Str("not_attempted"), KError := Str("")]),
      KArchive := Dict(map[KIdentifier := Str(""), KUrl := Str(""), KStatus := Str("not_attempted"),
                            KError := Str("")]),
      KPdfInfo := Dict(map[
        KStatus := Str("not_attempted"), KError := Str(""), KPath := Str(""), KFileSize := Null,
        KPageCount := Null, KPagesWithImages := Int(0), KHasAnyPageImage := Bool(false),
        KFontCount := Int(0), KFonts := Dict(map[]), KUnresolvedWordCount := Int(0),
        KLanguage := Dict(map[KInferred := Str("unknown"), KScriptWordCounts := Dict(map[]),
                               KTotalWords := Int(0)])]),
      KFirstSeenCrawlDate := Str(IsoFormat(today)),
      KLastSeenCrawlDate := Str(IsoFormat(today)),
      KFirstSeenRunType := Str("daily"),
      KCreatedAtUtc := Str(now),
      KUpdatedAtUtc := Str(now)
    ]
  }

  /** The two rows hold the same keys and values outside `t`. */
  ghost predicate Agree(a: Row, b: Row, t: set<Key>)
  {
    forall k :: k !in t ==> (k in a <==> k in b) && Get(a, k) == Get(b, k)
  }

  lemma AgreeAt(a: Row, b: Row, t: set<Key>, k: Key)
    requires Agree(a, b, t)
    requires k !in t
    ensures SameAt(a, b, k)
  {
  }

  /** The two rows agree on key `k`. */
  predicate SameAt(a: Row, b: Row, k: Key)
  {
    (k in a <==> k in b) && Get(a, k) == Get(b, k)
  }

  /** An immutable field counts as unset when it is missing, None or "". */
  predicate Unset(v: Value)
  {
    v == Null || v == Str("")
  }

  /** An update that would change an already-set immutable field. */
  predicate Conflict(target: Row, incoming: Row, k: Key)
  {
    k in incoming && Immutable(k) && !Unset(Get(target, k)) && !PyEq(incoming[k], Get(target, k))
  }

  /** The loop over `IMMUTABLE_FIELDS` that raises on the first conflict. */
  predicate AnyConflict(target: Row, incoming: Row)
  {
    Conflict(target, incoming, KUniqueCode) || Conflict(target, incoming, KCreatedAtUtc)
    || Conflict(target, incoming, KFirstSeenCrawlDate) || Conflict(target, incoming, KFirstSeenRunType)
  }

  /** Whether `_apply_mutable_update` copies the incoming value of `k`. */
  predicate Takes(target: Row, incoming: Row, k: Key, isInsert: bool)
  {
    k in incoming
    && ((Immutable(k) && (isInsert || Unset(Get(target, k))))
        || (Mutable(k) && (incoming[k] != Null || k == KLfsPath)))
  }

  /**
   * `_apply_mutable_update`: an insert copies every immutable field; an
   * update fills an immutable field only while it is unset and fails on a
   * differing value; a mutable field is copied unless the value is None
   * (`lfs_path` is copied even then); every other key is ignored.
   */
  function ApplyMutableUpdate(target: Row, incoming: Row, isInsert: bool): (r: Result<Row>)
    ensures r.Err? <==> !isInsert && AnyConflict(target, incoming)
    ensures r.Err? ==> r.error == ImmutableFieldUpdate
  {
    if !isInsert && AnyConflict(target, incoming) then Err(ImmutableFieldUpdate)
    else
      Ok(map k | k in target.Keys + incoming.Keys && (k in target || Takes(target, incoming, k, isInsert))
               :: if Takes(target, incoming, k, isInsert) then incoming[k] else target[k])
  }

  /** The update is refused exactly when some incoming immutable field conflicts. */
  lemma AnyConflictExists(target: Row, incoming: Row)
    ensures AnyConflict(target, incoming) <==> exists k :: k in incoming && Conflict(target, incoming, k)
  {
    if exists k :: k in incoming && Conflict(target, incoming, k) {
      var k :| k in incoming && Conflict(target, incoming, k);
      assert k == KUniqueCode || k == KCreatedAtUtc || k == KFirstSeenCrawlDate || k == KFirstSeenRunType;
    }
  }

  /** What an accepted update leaves at key `k`: the incoming value when taken, else the old one. */
  lemma AppliedAt(target: Row, incoming: Row, isInsert: bool, k: Key)
    requires ApplyMutableUpdate(target, incoming, isInsert).Ok?
    ensures var r := ApplyMutableUpdate(target, incoming, isInsert).value;
      (k in r <==> k in target || Takes(target, incoming, k, isInsert))
      && Get(r, k) == (if Takes(target, incoming, k, isInsert) then incoming[k] else Get(target, k))
  {
  }

  /** An accepted update never changes an immutable field that was already set. */
  lemma ImmutableFieldsKept(target: Row, incoming: Row, k: Key)
    requires ApplyMutableUpdate(target, incoming, false).Ok?
    requires Immutable(k) && !Unset(Get(target, k))
    ensures Get(ApplyMutableUpdate(target, incoming, false).value, k) == Get(target, k)
  {
    AppliedAt(target, incoming, false, k);
  }

  /** Keys outside both field lists pass through untouched. */
  lemma OtherFieldsKept(target: Row, incoming: Row, isInsert: bool, k: Key)
    requires ApplyMutableUpdate(target, incoming, isInsert).Ok?
    requires !Immutable(k) && !Mutable(k)
    ensures Get(ApplyMutableUpdate(target, incoming, isInsert).value, k) == Get(target, k)
  {
    AppliedAt(target, incoming, isInsert, k);
  }

  /** The attempt counter of a stage, `attempts.get(stage, 0)`. */
  function AttemptOf(row: Row, k: Key): Value
  {
    GetOr(FieldsOf(Get(row, KAttemptCounts)), k, Int(0))
  }

  predicate AttemptInRange(v: Value)
  {
    IsPyInt(v) && 0 <= IntOf(v) <= 2
  }

  /** `_validate_attempt_counts`: an object whose three counters are ints in [0, 2]. */
  function ValidateAttemptCounts(row: Row): (r: Option<Error>)
    ensures r.None? <==> Get(row, KAttemptCounts).Dict? && forall s :: StageCounter(s) ==> AttemptInRange(AttemptOf(row, s))
    ensures r.Some? ==> r.value == LedgerError
  {
    if !Get(row, KAttemptCounts).Dict? then Some(LedgerError)
    else if AttemptInRange(AttemptOf(row, KDownload)) && AttemptInRange(AttemptOf(row, KWayback))
            && AttemptInRange(AttemptOf(row, KArchive)) then None
    else Some(LedgerError)
  }

  /** A counter that both rows hold as an int must not go down. */
  predicate NotDecreased(current: Row, updated: Row, s: Key)
  {
    var c, u := AttemptOf(current, s), AttemptOf(updated, s);
    IsPyInt(c) && IsPyInt(u) ==> IntOf(u) >= IntOf(c)
  }

  /** `_validate_attempt_counts_non_decreasing`; a missing or non-object side is not checked. */
  function ValidateNonDecreasing(current: Row, updated: Row): (r: Option<Error>)
    ensures r.None? <==>
      !GetOr(current, KAttemptCounts, Dict(map[])).Dict? || !GetOr(updated, KAttemptCounts, Dict(map[])).Dict?
      || forall s :: StageCounter(s) ==> NotDecreased(current, updated, s)
    ensures r.Some? ==> r.value == LedgerError
  {
    if !GetOr(current, KAttemptCounts, Dict(map[])).Dict? || !GetOr(updated, KAttemptCounts, Dict(map[])).Dict? then None
    else if NotDecreased(current, updated, KDownload) && NotDecreased(current, updated, KWayback)
            && NotDecreased(current, updated, KArchive) then None
    else Some(LedgerError)
  }

  /** `_validate_state`: a string naming a known state. */
  function ValidateRecordState(row: Row): (r: Option<Error>)
    ensures r.None? <==> Get(row, KState).Str? && ParseState(Get(row, KState).s).Some?
  {
    if !Get(row, KState).Str? then Some(LedgerError) else ValidateState(Get(row, KState))
  }

  /** A row the store accepts: counters in range and a known state. */
  predicate WellFormed(row: Row)
  {
    ValidateAttemptCounts(row).None? && ValidateRecordState(row).None?
  }

  /** The insert path's validation: counters in range, then a known state. */
  function Validated(row: Row): (r: Result<Row>)
    ensures r.Ok? <==> WellFormed(row)
    ensures r.Ok? ==> r.value == row
    ensures r.Err? ==> r.error == LedgerError || r.error == InvalidTransition
  {
    if ValidateAttemptCounts(row).Some? then Err(LedgerError)
    else if ValidateRecordState(row).Some? then Err(ValidateRecordState(row).value)
    else Ok(row)
  }

  const NewStamps: set<Key> :=
    {KFirstSeenRunType, KFirstSeenCrawlDate, KLastSeenCrawlDate, KCreatedAtUtc, KUpdatedAtUtc}

  /** What the insert path sets after applying the record. */
  function StampNew(applied: Row, runType: string, crawlText: string, now: string): (r: Row)
    ensures Get(r, KFirstSeenRunType) == Str(runType)
    ensures Get(r, KFirstSeenCrawlDate) == Str(crawlText) && Get(r, KLastSeenCrawlDate) == Str(crawlText)
    ensures Get(r, KCreatedAtUtc) == Str(now) && Get(r, KUpdatedAtUtc) == Str(now)
    ensures Agree(r, applied, NewStamps)
  {
    applied[KFirstSeenRunType := Str(runType)]
           [KFirstSeenCrawlDate := Str(crawlText)]
           [KLastSeenCrawlDate := Str(crawlText)]
           [KCreatedAtUtc := Str(now)][KUpdatedAtUtc := Str(now)]
  }

  /** Validation looks at the counters and the state only. */
  lemma WellFormedOn(a: Row, b: Row)
    requires SameAt(a, b, KAttemptCounts) && SameAt(a, b, KState)
    ensures WellFormed(a) <==> WellFormed(b)
  {
  }

  /**
   * The insert path from a template on: apply the record as an insert,
   * stamp the first-seen and last-seen fields and the clock, validate.
   */
  function InsertInto(t: Row, record: Row, runType: string, crawlText: string, now: string): (r: Result<Row>)
    ensures r.Ok? ==> Get(r.value, KUniqueCode) == (if KUniqueCode in record then record[KUniqueCode] else Get(t, KUniqueCode))
    ensures r.Ok? ==> WellFormed(r.value)
    ensures r.Ok? ==> Get(r.value, KFirstSeenRunType) == Str(runType)
    ensures r.Ok? ==> Get(r.value, KFirstSeenCrawlDate) == Str(crawlText)
    ensures r.Ok? ==> Get(r.value, KCreatedAtUtc) == Str(now) && Get(r.value, KUpdatedAtUtc) == Str(now)
    ensures KAttemptCounts !in record && KState !in record && WellFormed(t) ==> r.Ok?
  {
    var applied := ApplyMutableUpdate(t, record, true).value;
    AppliedAt(t, record, true, KUniqueCode);
    AppliedAt(t, record, true, KAttemptCounts);
    AppliedAt(t, record, true, KState);
    var row := StampNew(applied, runType, crawlText, now);
    assert KAttemptCounts !in record && KState !in record ==>
      SameAt(row, applied, KAttemptCounts) && SameAt(row, applied, KState)
      && SameAt(applied, t, KAttemptCounts) && SameAt(applied, t, KState);
    if KAttemptCounts !in record && KState !in record then
      WellFormedOn(row, t);
      Validated(row)
    else Validated(row)
  }

  /**
   * The row the insert path of `upsert` builds for a new code, AS WRITTEN:
   * the template carries the stripped code, but applying the incoming
   * record copies its raw `unique_code` over it.
   */
  function NewRecordAsWritten(code: string, record: Row, runType: string, crawlText: string, now: string, today: Date)
    : (r: Result<Row>)
    requires ValidDate(today)
    ensures r.Ok? ==> Get(r.value, KUniqueCode) == (if KUniqueCode in record then record[KUniqueCode] else Str(code))
    ensures r.Ok? ==> WellFormed(r.value)
    ensures r.Ok? ==> Get(r.value, KFirstSeenRunType) == Str(runType)
    ensures r.Ok? ==> Get(r.value, KFirstSeenCrawlDate) == Str(crawlText)
    ensures r.Ok? ==> Get(r.value, KCreatedAtUtc) == Str(now) && Get(r.value, KUpdatedAtUtc) == Str(now)
    ensures KAttemptCounts !in record && KState !in record ==> r.Ok?
  {
    InsertInto(Template(code, now, today), record, runType, crawlText, now)
  }

  /**
   * The insert path with the stripped code kept as the row's key: the
   * record is applied with its `unique_code` replaced by `code`.
   */
  function NewRecord(code: string, record: Row, runType: string, crawlText: string, now: string, today: Date)
    : (r: Result<Row>)
    requires ValidDate(today)
    ensures r.Ok? ==> Get(r.value, KUniqueCode) == Str(code) && WellFormed(r.value)
    ensures r.Ok? ==> Get(r.value, KFirstSeenRunType) == Str(runType)
    ensures r.Ok? ==> Get(r.value, KFirstSeenCrawlDate) == Str(crawlText)
    ensures r.Ok? ==> Get(r.value, KCreatedAtUtc) == Str(now) && Get(r.value, KUpdatedAtUtc) == Str(now)
    ensures KAttemptCounts !in record && KState !in record ==> r.Ok?
  {
    NewRecordAsWritten(code, record[KUniqueCode := Str(code)], runType, crawlText, now, today)
  }

  /**
   * The insert path as written, on a code with surrounding blanks: the
   * lookup uses the stripped code "1", but the row stores and is indexed
   * under the raw " 1 ".  `Find("1")` only returns a row whose code is "1",
   * so a second upsert of the same record misses it and inserts again.  The
   * corrected `NewRecord` stores the code it looked up.
   */
  lemma AsWrittenStoresPaddedCode(runType: string, crawlText: string, now: string, today: Date)
    requires ValidDate(today)
    ensures var record := map[KUniqueCode := Str(" 1 ")];
      var written := NewRecordAsWritten("1", record, runType, crawlText, now, today);
      var corrected := NewRecord("1", record, runType, crawlText, now, today);
      UpsertCode(record) == Ok("1")
      && written.Ok? && KeyOf(RawUniqueCode, written.value) == " 1 "
      && corrected.Ok? && KeyOf(RawUniqueCode, corrected.value) == "1"
  {
    var record := map[KUniqueCode := Str(" 1 ")];
    PaddedCodeStrips();
    assert KAttemptCounts !in record && KState !in record;
    var written := NewRecordAsWritten("1", record, runType, crawlText, now, today);
    assert Get(written.value, KUniqueCode) == Str(" 1 ");
    var corrected := NewRecord("1", record, runType, crawlText, now, today);
    assert Get(corrected.value, KUniqueCode) == Str("1");
  }

  lemma PaddedCodeStrips()
    ensures Strip(" 1 ") == "1"
  {
    var padded := " 1 ";
    assert padded[0] in Whitespace && padded[1..] == "1 " && "1 "[0] !in Whitespace;
    assert LStrip(padded, Whitespace) == "1 ";
    assert RStrip(padded, Whitespace) == " 1" by {
      assert padded[..2] == " 1" && " 1"[1] !in Whitespace;
    }
    assert " 1"[0] in Whitespace && " 1"[1..] == "1";
  }

  /** The state check of the update path: a changed state must be an allowed transition. */
  function CheckStateChange(current: Row, applied: Row): (r: Option<Error>)
    ensures r.None? <==> (Get(applied, KState) == Get(current, KState)
      || ValidateTransition(Str(PyStr(GetOr(current, KState, Str("FETCHED")))), Str(PyStr(Get(applied, KState)))).None?)
  {
    if Get(applied, KState) == Get(current, KState) then None
    else ValidateTransition(Str(PyStr(GetOr(current, KState, Str("FETCHED")))), Str(PyStr(Get(applied, KState))))
  }

  /** A monthly run moves `last_seen_crawl_date` forward to the crawl date, never back. */
  function AdvanceLastSeen(row: Row, runType: string, crawlText: string): (r: Row)
    ensures Agree(r, row, {KLastSeenCrawlDate})
    ensures runType != "monthly" ==> r == row
    ensures ParseIsoDate(Get(row, KLastSeenCrawlDate)).Some? ==>
      ParseIsoDate(Get(r, KLastSeenCrawlDate)).Some?
      && DateLe(ParseIsoDate(Get(row, KLastSeenCrawlDate)).value, ParseIsoDate(Get(r, KLastSeenCrawlDate)).value)
    ensures runType == "monthly" && ParseIsoDate(Str(crawlText)).Some? ==>
      ParseIsoDate(Get(r, KLastSeenCrawlDate)).Some?
      && DateLe(ParseIsoDate(Str(crawlText)).value, ParseIsoDate(Get(r, KLastSeenCrawlDate)).value)
  {
    var candidate := ParseIsoDate(Str(crawlText));
    var existing := ParseIsoDate(Get(row, KLastSeenCrawlDate));
    if runType == "monthly" && candidate.Some? && (existing.None? || !DateLe(candidate.value, existing.value)) then
      ParseIsoDateOfIsoFormat(candidate.value);
      row[KLastSeenCrawlDate := Str(IsoFormat(candidate.value))]
    else row
  }

  /**
   * The update path of `upsert` after the record is applied: check the
   * state change, advance `last_seen_crawl_date` on a monthly run, keep
   * counters from going down, stamp `updated_at_utc` and validate.
   */
  function AfterApply(current: Row, applied: Row, runType: string, crawlText: string, now: string): (r: Result<Row>)
    ensures r.Ok? ==> WellFormed(r.value) && Get(r.value, KUpdatedAtUtc) == Str(now)
    ensures r.Ok? ==> ValidateNonDecreasing(current, r.value).None?
    ensures r.Ok? ==> Agree(r.value, applied, {KLastSeenCrawlDate, KUpdatedAtUtc})
    ensures r.Ok? && Get(applied, KState) != Get(current, KState) ==>
      ValidateTransition(Str(PyStr(GetOr(current, KState, Str("FETCHED")))), Str(PyStr(Get(applied, KState)))).None?
    ensures r.Ok? && runType == "monthly" && ParseIsoDate(Str(crawlText)).Some? ==>
      ParseIsoDate(Get(r.value, KLastSeenCrawlDate)).Some?
      && DateLe(ParseIsoDate(Str(crawlText)).value, ParseIsoDate(Get(r.value, KLastSeenCrawlDate)).value)
    ensures r.Err? ==> r.error == LedgerError || r.error == InvalidTransition || r.error == TypeError
  {
    if CheckStateChange(current, applied).Some? then Err(CheckStateChange(current, applied).value)
    else
      var seen := AdvanceLastSeen(applied, runType, crawlText);
      if ValidateNonDecreasing(current, seen).Some? then Err(LedgerError)
      else
        var row := seen[KUpdatedAtUtc := Str(now)];
        assert SameAt(row, seen, KAttemptCounts);
        Validated(row)
  }

  /** The update path of `upsert`, up to the partition choice. */
  function UpdatedRecord(current: Row, record: Row, runType: string, crawlText: string, now: string)
    : (r: Result<Row>)
    ensures ApplyMutableUpdate(current, record, false).Err? ==> r == Err(ImmutableFieldUpdate)
    ensures r.Ok? ==> WellFormed(r.value) && Get(r.value, KUpdatedAtUtc) == Str(now)
    ensures r.Ok? ==> ValidateNonDecreasing(current, r.value).None?
    ensures r.Ok? && Get(r.value, KState) != Get(current, KState) ==>
      ValidateTransition(Str(PyStr(GetOr(current, KState, Str("FETCHED")))), Str(PyStr(Get(r.value, KState)))).None?
    ensures r.Ok? && runType == "monthly" && ParseIsoDate(Str(crawlText)).Some? ==>
      ParseIsoDate(Get(r.value, KLastSeenCrawlDate)).Some?
      && DateLe(ParseIsoDate(Str(crawlText)).value, ParseIsoDate(Get(r.value, KLastSeenCrawlDate)).value)
  {
    match ApplyMutableUpdate(current, record, false)
    case Err(e) => Err(e)
    case Ok(applied) =>
      var r := AfterApply(current, applied, runType, crawlText, now);
      assert r.Ok? ==> SameAt(r.value, applied, KState);
      r
  }

  /** An accepted update keeps every immutable field that was already set. */
  lemma UpdatedKeepsImmutable(current: Row, record: Row, runType: string, crawlText: string, now: string, k: Key)
    requires UpdatedRecord(current, record, runType, crawlText, now).Ok?
    requires Immutable(k) && !Unset(Get(current, k))
    ensures Get(UpdatedRecord(current, record, runType, crawlText, now).value, k) == Get(current, k)
  {
    var applied := ApplyMutableUpdate(current, record, false).value;
    var r := AfterApply(current, applied, runType, crawlText, now);
    assert UpdatedRecord(current, record, runType, crawlText, now) == r;
    assert k != KLastSeenCrawlDate && k != KUpdatedAtUtc;
    AgreeAt(r.value, applied, {KLastSeenCrawlDate, KUpdatedAtUtc}, k);
    ImmutableFieldsKept(current, record, k);
  }

  /** An accepted update stores every non-None mutable value it carries, except the two dates it sets itself. */
  lemma UpdatedCopiesMutable(current: Row, record: Row, runType: string, crawlText: string, now: string, k: Key)
    requires UpdatedRecord(current, record, runType, crawlText, now).Ok?
    requires Mutable(k) && k != KLastSeenCrawlDate && k != KUpdatedAtUtc && k in record && record[k] != Null
    ensures Get(UpdatedRecord(current, record, runType, crawlText, now).value, k) == record[k]
  {
    var applied := ApplyMutableUpdate(current, record, false).value;
    var r := AfterApply(current, applied, runType, crawlText, now);
    assert UpdatedRecord(current, record, runType, crawlText, now) == r;
    AgreeAt(r.value, applied, {KLastSeenCrawlDate, KUpdatedAtUtc}, k);
    AppliedAt(current, record, false, k);
  }

  // ------------------------------------------------------------ stage results

  /** `error or metadata.get("error", default)`. */
  function FailureError(error: string, metadata: Row, default: string): (v: Value)
    ensures error != "" ==> v == Str(error)
    ensures error == "" && KError !in metadata ==> v == Str(default)
  {
    if error != "" then Str(error) else GetOr(metadata, KError, Str(default))
  }

  /** The keys a successful result copies from the metadata into the stage object. */
  function CopiedKeys(stage: Stage): set<Key>
  {
    match stage
    case Download => {KPath, KHash, KSize}
    case Wayback => {KUrl, KContentUrl, KArchiveTime, KArchiveSha1, KArchiveLength, KArchiveMimetype,
                     KArchiveStatusCode}
    case Archive => {KIdentifier, KUrl}
  }

  function DefaultError(stage: Stage): string
  {
    match stage
    case Download => "download_failed"
    case Wayback => "wayback_upload_failed"
    case Archive => "archive_upload_failed"
  }

  /** The stage object after a result: status, error, and on success the copied metadata. */
  function StageObject(obj: Row, stage: Stage, success: bool, metadata: Row, error: string): (r: Row)
    ensures success ==> Get(r, KStatus) == Str("success") && Get(r, KError) == Str("")
    ensures !success ==> Get(r, KStatus) == Str("failed") && Get(r, KError) == FailureError(error, metadata, DefaultError(stage))
    ensures success ==> forall k :: k in CopiedKeys(stage) && k in metadata ==> k in r && r[k] == metadata[k]
    ensures forall k :: (k in obj && k != KStatus && k != KError && !(success && k in CopiedKeys(stage) && k in metadata)
      ==> k in r && r[k] == obj[k])
  {
    if success then
      (map k | k in obj.Keys + metadata.Keys && (k in obj || k in CopiedKeys(stage))
         :: if k in CopiedKeys(stage) && k in metadata then metadata[k] else obj[k])
        [KStatus := Str("success")][KError := Str("")]
    else obj[KStatus := Str("failed")][KError := FailureError(error, metadata, DefaultError(stage))]
  }

  /** `attempts[stage] = current + 1`, refused once the counter reached 2. */
  function CountAttempt(existing: Row, stage: Stage): (r: Result<Row>)
    ensures !GetOr(existing, KAttemptCounts, Dict(map[])).Dict? ==> r == Err(AttributeError)
    ensures (GetOr(existing, KAttemptCounts, Dict(map[])).Dict? && IsPyInt(AttemptOf(existing, StageKey(stage)))
      && IntOf(AttemptOf(existing, StageKey(stage))) >= 2) ==> r == Err(RetryLimitExceeded)
    ensures r.Ok? ==> (IsPyInt(AttemptOf(existing, StageKey(stage))) && IntOf(AttemptOf(existing, StageKey(stage))) < 2
      && AttemptOf(r.value, StageKey(stage)) == Int(IntOf(AttemptOf(existing, StageKey(stage))) + 1))
    ensures r.Ok? ==> (Get(r.value, KAttemptCounts).Dict?
      && forall s :: s != StageKey(stage) ==> AttemptOf(r.value, s) == AttemptOf(existing, s))
    ensures r.Ok? ==> SameAt(r.value, existing, KState) && SameAt(r.value, existing, KUniqueCode)
  {
    var a := GetOr(existing, KAttemptCounts, Dict(map[]));
    if !a.Dict? then Err(AttributeError)
    else
      var cur := GetOr(a.fields, StageKey(stage), Int(0));
      if !IsPyInt(cur) then Err(LedgerError)
      else if IntOf(cur) >= 2 then Err(RetryLimitExceeded)
      else Ok(existing[KAttemptCounts := Dict(a.fields[StageKey(stage) := Int(IntOf(cur) + 1)])])
  }

  /**
   * The stage object after the result (`setdefault` of a non-object fails
   * on item assignment), and on a successful download the `lfs_path` the
   * probe finds for the downloaded path.
   */
  function RecordStage(counted: Row, stage: Stage, success: bool, metadata: Row, error: string,
                       probe: Value -> Option<string>): (r: Result<Row>)
    ensures r.Err? <==> !GetOr(counted, StageKey(stage), Dict(map[])).Dict?
    ensures r.Err? ==> r.error == TypeError
    ensures r.Ok? ==> (Get(r.value, StageKey(stage)) ==
      Dict(StageObject(FieldsOf(Get(counted, StageKey(stage))), stage, success, metadata, error)))
    ensures r.Ok? && stage == Download && success ==>
      Get(r.value, KLfsPath) == (match probe(Get(FieldsOf(Get(r.value, KDownload)), KPath))
                                   case Some(p) => Str(p) case None => Null)
    ensures r.Ok? && !(stage == Download && success) ==> Get(r.value, KLfsPath) == Get(counted, KLfsPath)
    ensures r.Ok? ==> SameAt(r.value, counted, KState) && SameAt(r.value, counted, KUniqueCode)
    ensures r.Ok? ==> SameAt(r.value, counted, KAttemptCounts)
  {
    var o := GetOr(counted, StageKey(stage), Dict(map[]));
    if !o.Dict? then Err(TypeError)
    else
      var obj := StageObject(o.fields, stage, success, metadata, error);
      var staged := counted[StageKey(stage) := Dict(obj)];
      if stage == Download && success then
        Ok(staged[KLfsPath := match probe(Get(obj, KPath)) case Some(p) => Str(p) case None => Null])
      else Ok(staged)
  }

  /**
   * `has_wayback_url` for the state computation: given, or for an archive
   * result the truth of the stripped `wayback.url` (a non-object `wayback`
   * has no `get`).
   */
  function HasWaybackUrl(staged: Row, stage: Stage, hasWaybackUrl: Option<bool>): (r: Result<bool>)
    ensures hasWaybackUrl.Some? ==> r == Ok(hasWaybackUrl.value)
    ensures r.Err? <==> stage == Archive && hasWaybackUrl.None? && !GetOr(staged, KWayback, Dict(map[])).Dict?
    ensures r.Ok? && stage == Archive && hasWaybackUrl.None? ==>
      (r.value <==> Strip(PyStr(GetOr(FieldsOf(Get(staged, KWayback)), KUrl, Str("")))) != "")
  {
    if hasWaybackUrl.Some? then Ok(hasWaybackUrl.value)
    else if stage != Archive then Ok(false)
    else
      var wb := GetOr(staged, KWayback, Dict(map[]));
      if !wb.Dict? then Err(AttributeError)
      else Ok(Strip(PyStr(GetOr(wb.fields, KUrl, Str("")))) != "")
  }

  /** The next state, checked against the transition table, and the new `updated_at_utc`. */
  function Advance(staged: Row, stage: Stage, success: bool, hasDocument: bool, hasUrl: bool, now: string)
    : (r: Result<Row>)
    ensures var next := NextStateForStage(GetOr(staged, KState, Str("FETCHED")), StageName(stage), success, hasUrl, hasDocument);
      r.Ok? <==> next.Ok? && ValidateTransition(GetOr(staged, KState, Str("FETCHED")), Str(StateName(next.value))).None?
    ensures r.Ok? ==> (Get(r.value, KState) ==
      Str(StateName(NextStateForStage(GetOr(staged, KState, Str("FETCHED")), StageName(stage), success, hasUrl, hasDocument).value)))
    ensures r.Ok? ==> ValidateTransition(GetOr(staged, KState, Str("FETCHED")), Get(r.value, KState)).None?
    ensures r.Ok? ==> Get(r.value, KUpdatedAtUtc) == Str(now)
    ensures r.Ok? ==> SameAt(r.value, staged, KUniqueCode) && SameAt(r.value, staged, KAttemptCounts)
    ensures r.Ok? ==> SameAt(r.value, staged, StageKey(stage))
  {
    var current := GetOr(staged, KState, Str("FETCHED"));
    match NextStateForStage(current, StageName(stage), success, hasUrl, hasDocument)
    case Err(e) => Err(e)
    case Ok(next) =>
      if ValidateTransition(current, Str(StateName(next))).Some? then Err(ValidateTransition(current, Str(StateName(next))).value)
      else Ok(staged[KState := Str(StateName(next))][KUpdatedAtUtc := Str(now)])
  }

  /** A failed archive upload leaves every state where it is, and the table accepts that. */
  lemma FailedArchiveKeepsState(s: State, hasUrl: bool, hasDocument: bool)
    ensures NextStateForStage(Str(StateName(s)), "archive", false, hasUrl, hasDocument) == Ok(s)
    ensures ValidateTransition(Str(StateName(s)), Str(StateName(s))).None?
  {
    ParseStateName(s);
  }

  /**
   * The record `apply_stage_result` hands to `upsert`: the stage's counter
   * goes up by one (refused at 2), the stage object records the result, a
   * download sets `lfs_path` from the probe, and the next state is computed
   * and checked against the transition table.  `probe` stands for
   * `existing_file_ledger_path`.
   */
  function StageRecord(existing: Row, stage: Stage, success: bool, metadata: Row, error: string, hasDocument: bool,
                       hasWaybackUrl: Option<bool>, probe: Value -> Option<string>, now: string)
    : (r: Result<Row>)
    ensures (GetOr(existing, KAttemptCounts, Dict(map[])).Dict? && IsPyInt(AttemptOf(existing, StageKey(stage)))
      && IntOf(AttemptOf(existing, StageKey(stage))) >= 2) ==> r == Err(RetryLimitExceeded)
    ensures r.Ok? ==> (IsPyInt(AttemptOf(existing, StageKey(stage))) && IntOf(AttemptOf(existing, StageKey(stage))) < 2
      && AttemptOf(r.value, StageKey(stage)) == Int(IntOf(AttemptOf(existing, StageKey(stage))) + 1))
    ensures r.Ok? ==> var obj := FieldsOf(Get(r.value, StageKey(stage)));
      Get(r.value, StageKey(stage)).Dict?
      && Get(obj, KStatus) == Str(if success then "success" else "failed")
      && Get(obj, KError) == (if success then Str("") else FailureError(error, metadata, DefaultError(stage)))
    ensures r.Ok? ==> ValidateTransition(GetOr(existing, KState, Str("FETCHED")), Get(r.value, KState)).None?
    ensures r.Ok? ==> Get(r.value, KUpdatedAtUtc) == Str(now)
    ensures r.Ok? ==> Get(r.value, KUniqueCode) == Get(existing, KUniqueCode)
    ensures r.Ok? ==> Get(r.value, KAttemptCounts).Dict? && Get(r.value, KState).Str?
  {
    match CountAttempt(existing, stage)
    case Err(e) => Err(e)
    case Ok(counted) =>
      match RecordStage(counted, stage, success, metadata, error, probe)
      case Err(e) => Err(e)
      case Ok(staged) =>
        match HasWaybackUrl(staged, stage, hasWaybackUrl)
        case Err(e) => Err(e)
        case Ok(hasUrl) =>
          Advance(staged, stage, success, hasDocument, hasUrl, now)
  }

  /** A stage result touches only the counters, its stage object, `lfs_path`, the state and the update time. */
  lemma StageRecordFrame(existing: Row, stage: Stage, success: bool, metadata: Row, error: string, hasDocument: bool,
                         hasWaybackUrl: Option<bool>, probe: Value -> Option<string>, now: string)
    requires StageRecord(existing, stage, success, metadata, error, hasDocument, hasWaybackUrl, probe, now).Ok?
    ensures var r := StageRecord(existing, stage, success, metadata, error, hasDocument, hasWaybackUrl, probe, now).value;
      (forall s :: s != StageKey(stage) ==> AttemptOf(r, s) == AttemptOf(existing, s))
      && Agree(r, existing, {KAttemptCounts, StageKey(stage), KLfsPath, KState, KUpdatedAtUtc})
  {
    var counted := CountAttempt(existing, stage).value;
    var staged := RecordStage(counted, stage, success, metadata, error, probe).value;
    var hasUrl := HasWaybackUrl(staged, stage, hasWaybackUrl).value;
    var r := Advance(staged, stage, success, hasDocument, hasUrl, now).value;
    assert Get(r, KAttemptCounts) == Get(staged, KAttemptCounts) == Get(counted, KAttemptCounts);
    CountAttemptAgrees(existing, stage);
    RecordStageAgrees(counted, stage, success, metadata, error, probe);
    AdvanceAgrees(staged, stage, success, hasDocument, hasUrl, now);
    AgreeChain(existing, counted, staged, r, StageKey(stage));
  }

  /** The three steps of a stage result compose. */
  lemma AgreeChain(existing: Row, counted: Row, staged: Row, r: Row, k: Key)
    requires Agree(counted, existing, {KAttemptCounts})
    requires Agree(staged, counted, {k, KLfsPath})
    requires Agree(r, staged, {KState, KUpdatedAtUtc})
    ensures Agree(r, existing, {KAttemptCounts, k, KLfsPath, KState, KUpdatedAtUtc})
  {
  }

  lemma CountAttemptAgrees(existing: Row, stage: Stage)
    requires CountAttempt(existing, stage).Ok?
    ensures Agree(CountAttempt(existing, stage).value, existing, {KAttemptCounts})
  {
  }

  lemma RecordStageAgrees(counted: Row, stage: Stage, success: bool, metadata: Row, error: string,
                          probe: Value -> Option<string>)
    requires RecordStage(counted, stage, success, metadata, error, probe).Ok?
    ensures Agree(RecordStage(counted, stage, success, metadata, error, probe).value, counted, {StageKey(stage), KLfsPath})
  {
  }

  lemma AdvanceAgrees(staged: Row, stage: Stage, success: bool, hasDocument: bool, hasUrl: bool, now: string)
    requires Advance(staged, stage, success, hasDocument, hasUrl, now).Ok?
    ensures Agree(Advance(staged, stage, success, hasDocument, hasUrl, now).value, staged, {KState, KUpdatedAtUtc})
  {
  }

  /**
   * What one accepted stage result leaves in the stored row: the stage's
   * counter one higher, the stage's status recorded, and a state the
   * transition table allows from the old one.
   */
  predicate StageApplied(before: Row, stage: Stage, after: Row)
  {
    IsPyInt(AttemptOf(before, StageKey(stage)))
    && AttemptOf(after, StageKey(stage)) == Int(IntOf(AttemptOf(before, StageKey(stage))) + 1)
    && Get(FieldsOf(Get(after, StageKey(stage))), KStatus) in {Str("success"), Str("failed")}
    && ValidateTransition(GetOr(before, KState, Str("FETCHED")), Get(after, KState)).None?
  }

  /** A staged result arrives in the stored row unchanged in its counters, its stage object and its state. */
  lemma UpdateKeepsStaged(existing: Row, staged: Row, stage: Stage, crawlText: string, now: string, row: Row)
    requires UpdatedRecord(existing, staged, "daily", crawlText, now) == Ok(row)
    requires Get(staged, KAttemptCounts).Dict? && Get(staged, KState).Str? && Get(staged, StageKey(stage)).Dict?
    ensures SameAt(row, staged, KAttemptCounts) && SameAt(row, staged, KState) && SameAt(row, staged, StageKey(stage))
  {
    UpdatedCopiesMutable(existing, staged, "daily", crawlText, now, KAttemptCounts);
    UpdatedCopiesMutable(existing, staged, "daily", crawlText, now, KState);
    UpdatedCopiesMutable(existing, staged, "daily", crawlText, now, StageKey(stage));
  }

  /** A row that carries a staged result's counters, stage object and state records that result. */
  lemma StagedIsApplied(existing: Row, stage: Stage, success: bool, metadata: Row, error: string, hasDocument: bool,
                        hasWaybackUrl: Option<bool>, probe: Value -> Option<string>, now: string, staged: Row, row: Row)
    requires StageRecord(existing, stage, success, metadata, error, hasDocument, hasWaybackUrl, probe, now) == Ok(staged)
    requires SameAt(row, staged, KAttemptCounts) && SameAt(row, staged, KState) && SameAt(row, staged, StageKey(stage))
    ensures StageApplied(existing, stage, row)
  {
    assert AttemptOf(row, StageKey(stage)) == AttemptOf(staged, StageKey(stage));
  }

  // ------------------------------------------------------------ the store

  datatype Operation = Inserted | Updated | Moved

  datatype UpsertResult = UpsertResult(operation: Operation, partition: string, uniqueCode: string)

  /** `unique_code` must be a string that is not blank; the stripped text is the code. */
  function UpsertCode(record: Row): (r: Result<string>)
    ensures r.Ok? <==> Get(record, KUniqueCode).Str? && Strip(Get(record, KUniqueCode).s) != ""
    ensures r.Ok? ==> r.value == Strip(Get(record, KUniqueCode).s)
    ensures r.Err? ==> r.error == LedgerError
  {
    var v := Get(record, KUniqueCode);
    if v.Str? && Strip(v.s) != "" then Ok(Strip(v.s)) else Err(LedgerError)
  }

  class LedgerStore {
    /** Partition name to rows; the cache and the files always agree, so one map stands for both. */
    var parts: Parts
    var index: Index

    ghost predicate Valid()
      reads this
    {
      Exact(parts, index, RawUniqueCode)
    }

    /** Opening a ledger directory: the rows on disk, not yet indexed. */
    constructor(disk: Parts)
      ensures parts == disk && index == map[]
    {
      parts := disk;
      index := map[];
    }

    /** `refresh_index`: fails with DuplicateUniqueCodeError exactly when a code repeats. */
    method RefreshIndex() returns (err: Option<Error>)
      modifies this
      ensures parts == old(parts)
      ensures err.None? <==> Unique(parts, RawUniqueCode)
      ensures err.None? ==> Valid()
      ensures err.Some? ==> err.value.DuplicateUniqueCode?
    {
      var r := BuildIndex(parts, RawUniqueCode);
      if r.Err? {
        return Some(r.error);
      }
      index := r.value;
      return None;
    }

    /** `list_partitions`: every partition name, in string order. */
    method ListPartitions() returns (r: seq<string>)
      ensures |r| == |parts| && (forall p :: p in r <==> p in parts) && SortedBy(r, StrKey)
    {
      r := SortedNames(parts.Keys, StrKey);
    }

    /**
     * `iter_records`: the rows of every partition, partition by partition
     * in the order `list_partitions` gives.
     */
    method IterRecords() returns (r: seq<Row>, names: seq<string>)
      ensures |names| == |parts| && (forall p :: p in names <==> p in parts) && SortedBy(names, StrKey)
      ensures r == RowsIn(parts, names)
      ensures forall q, j :: Pos(parts, q, j) ==> parts[q][j] in r
      ensures forall x :: x in r ==> exists q, j :: Pos(parts, q, j) && parts[q][j] == x
    {
      names := ListPartitions();
      r := [];
      for i := 0 to |names|
        invariant r == RowsIn(parts, names[..i])
      {
        assert names[..i + 1][..i] == names[..i];
        r := r + RowsOf(parts, names[i]);
      }
      assert names[..|names|] == names;
      forall q, j | Pos(parts, q, j)
        ensures parts[q][j] in r
      {
        RowsInMembers(parts, names, parts[q][j]);
      }
      forall x | x in r
        ensures exists q, j :: Pos(parts, q, j) && parts[q][j] == x
      {
        RowsInMembers(parts, names, x);
      }
    }

    /** `exists(unique_code)`. */
    function Exists(code: string): (b: bool)
      reads this
      requires Valid()
      ensures b <==> exists q, j :: Pos(parts, q, j) && code != "" && KeyOf(RawUniqueCode, parts[q][j]) == code
    {
      LookupFinds(parts, index, code, RawUniqueCode);
      Lookup(parts, index, code, RawUniqueCode).Some?
    }

    /** The ledger as the store shows it: the row of every code it holds. */
    ghost function Records(): (m: map<string, Row>)
      reads this
      requires Valid()
      ensures forall c :: Find(c) == (if c in m then Some(m[c]) else None)
    {
      Table(parts, index, RawUniqueCode)
    }

    /** `find(unique_code)`: the row holding the code. */
    function Find(code: string): (r: Option<Row>)
      reads this
      requires Valid()
      ensures r.Some? <==> Exists(code)
      ensures r.Some? ==> Get(r.value, KUniqueCode) == Str(code)
    {
      Lookup(parts, index, code, RawUniqueCode)
    }

    /** The partition `p` after an upsert wrote it: sorted by `unique_code`. */
    ghost predicate SortedPartition(p: string)
      reads this
    {
      p in parts && SortedBy(parts[p], RawUniqueCode.sortKey)
    }

    /** The insert branch: append to the target partition, sort, write and reindex it. */
    method PutNew(code: string, row: Row, target: string)
      requires Valid() && code != "" && code !in index && Get(row, KUniqueCode) == Str(code)
      modifies this
      ensures Valid() && Find(code) == Some(row) && SortedPartition(target)
      ensures OthersKept(old(parts), parts, target, target)
      ensures Records() == old(Records())[code := row]
    {
      var rows := SortRows(RowsOf(parts, target) + [row], RawUniqueCode);
      InsertLands(parts, index, target, row, RawUniqueCode);
      OthersKeptByWrites(parts, target, rows, target, rows);
      var ri := ReindexPartition(index, target, rows, RawUniqueCode);
      ghost var before, at := parts, index;
      parts, index := parts[target := rows], ri.value;
      assert Records() == Table(before, at, RawUniqueCode)[code := row] by {
        InsertTable(before, at, target, row, RawUniqueCode);
      }
    }

    /** The update branch without a move: replace the row in place, sort, write and reindex. */
    method PutInPlace(code: string, row: Row)
      requires Valid() && code in index && Get(row, KUniqueCode) == Str(code)
      modifies this
      ensures Valid() && Find(code) == Some(row) && SortedPartition(old(index)[code].partition)
      ensures OthersKept(old(parts), parts, old(index)[code].partition, old(index)[code].partition)
      ensures Records() == old(Records())[code := row]
    {
      var loc := index[code];
      var source := loc.partition;
      var edited := parts[source][loc.index := row];
      var rows := SortRows(edited, RawUniqueCode);
      ReplaceLands(parts, index, code, row, RawUniqueCode);
      OthersKeptByWrites(parts, source, rows, source, rows);
      var ri := ReindexPartition(index, source, rows, RawUniqueCode);
      ghost var before, at := parts, index;
      parts, index := parts[source := rows], ri.value;
      assert Records() == Table(before, at, RawUniqueCode)[code := row] by {
        ReplaceTable(before, at, code, row, RawUniqueCode);
      }
    }

    /** The move branch: drop the code from both partitions, append to the target, sort, write, reindex both. */
    method PutMoved(code: string, row: Row, target: string)
      requires Valid() && code in index && Get(row, KUniqueCode) == Str(code) && target != index[code].partition
      modifies this
      ensures Valid() && Find(code) == Some(row) && SortedPartition(target)
      ensures OthersKept(old(parts), parts, old(index)[code].partition, target)
      ensures Records() == old(Records())[code := row]
    {
      var source := index[code].partition;
      var src := SortRows(Without(parts[source], code, RawUniqueCode), RawUniqueCode);
      var tgt := SortRows(Without(RowsOf(parts, target), code, RawUniqueCode) + [row], RawUniqueCode);
      MoveLands(parts, index, code, target, row, RawUniqueCode);
      OthersKeptByWrites(parts, source, src, target, tgt);
      var r1 := ReindexPartition(index, source, src, RawUniqueCode);
      var r2 := ReindexPartition(r1.value, target, tgt, RawUniqueCode);
      ghost var before, at := parts, index;
      parts, index := parts[source := src][target := tgt], r2.value;
      assert Records() == Table(before, at, RawUniqueCode)[code := row] by {
        MoveTable(before, at, code, target, row, RawUniqueCode);
      }
    }

    /**
     * `upsert`: insert a new code into its `gr_date` partition, or update
     * the row in place, moving it when its partition changes.  Every
     * partition it writes is sorted by code and reindexed; on an error
     * nothing changes.
     */
    method Upsert(record: Row, runType: Option<string>, crawlDate: Value, now: string, today: Date)
      returns (r: Result<UpsertResult>)
      requires Valid() && ValidDate(today)
      modifies this
      ensures Valid()
      ensures r.Err? ==> parts == old(parts) && index == old(index)
      ensures UpsertCode(record).Err? ==> r == Err(LedgerError)
      ensures r.Ok? ==> UpsertCode(record) == Ok(r.value.uniqueCode)
      ensures r.Ok? ==> Find(r.value.uniqueCode).Some? && WellFormed(Find(r.value.uniqueCode).value)
      ensures r.Ok? ==> r.value.partition == PartitionForGrDate(Get(Find(r.value.uniqueCode).value, KGrDate))
      ensures r.Ok? ==> SortedPartition(r.value.partition)
      ensures r.Ok? ==> (r.value.operation == Inserted <==> !old(Exists(r.value.uniqueCode)))
      ensures r.Ok? && r.value.operation == Inserted ==>
        NewRecord(r.value.uniqueCode, record, NormalizeRunType(runType), NormalizeCrawlDate(crawlDate, today), now, today)
        == Ok(Find(r.value.uniqueCode).value)
      ensures r.Ok? && r.value.operation != Inserted ==> (old(Find(r.value.uniqueCode)).Some?
        && UpdatedRecord(old(Find(r.value.uniqueCode)).value, record, NormalizeRunType(runType),
                         NormalizeCrawlDate(crawlDate, today), now)
           == Ok(Find(r.value.uniqueCode).value))
      ensures r.Ok? && r.value.operation != Moved ==>
        OthersKept(old(parts), parts, r.value.partition, r.value.partition)
      ensures r.Ok? && r.value.operation == Moved ==>
        (r.value.uniqueCode in old(index) && old(index)[r.value.uniqueCode].partition != r.value.partition
         && OthersKept(old(parts), parts, old(index)[r.value.uniqueCode].partition, r.value.partition))
      ensures r.Ok? ==> Records() == old(Records())[r.value.uniqueCode := Find(r.value.uniqueCode).value]
      ensures UpsertCode(record).Ok? && old(Exists(UpsertCode(record).value)) ==>
        (r.Ok? <==> UpdatedRecord(old(Find(UpsertCode(record).value)).value, record, NormalizeRunType(runType),
                                  NormalizeCrawlDate(crawlDate, today), now).Ok?)
      ensures r.Err? && UpsertCode(record).Ok? && old(Exists(UpsertCode(record).value)) ==>
        UpdatedRecord(old(Find(UpsertCode(record).value)).value, record, NormalizeRunType(runType),
                      NormalizeCrawlDate(crawlDate, today), now) == Err(r.error)
    {
      var c := UpsertCode(record);
      if c.Err? {
        return Err(c.error);
      }
      r := UpsertStripped(c.value, record, NormalizeRunType(runType), NormalizeCrawlDate(crawlDate, today), now, today);
    }

    /** `upsert` once the code is stripped and the run type and crawl date are normalised. */
    method UpsertStripped(code: string, record: Row, runText: string, crawlText: string, now: string, today: Date)
      returns (r: Result<UpsertResult>)
      requires Valid() && ValidDate(today) && code != ""
      modifies this
      ensures Valid()
      ensures r.Err? ==> parts == old(parts) && index == old(index)
      ensures r.Ok? ==> r.value.uniqueCode == code && Find(code).Some? && WellFormed(Find(code).value)
      ensures r.Ok? ==> r.value.partition == PartitionForGrDate(Get(Find(code).value, KGrDate))
      ensures r.Ok? ==> SortedPartition(r.value.partition)
      ensures r.Ok? ==> (r.value.operation == Inserted <==> !old(Exists(code)))
      ensures r.Ok? && r.value.operation == Inserted ==>
        NewRecord(code, record, runText, crawlText, now, today) == Ok(Find(code).value)
      ensures r.Ok? && r.value.operation != Inserted ==> (old(Find(code)).Some?
        && UpdatedRecord(old(Find(code)).value, record, runText, crawlText, now) == Ok(Find(code).value))
      ensures r.Ok? && r.value.operation != Moved ==>
        OthersKept(old(parts), parts, r.value.partition, r.value.partition)
      ensures r.Ok? && r.value.operation == Moved ==>
        (code in old(index) && old(index)[code].partition != r.value.partition
         && OthersKept(old(parts), parts, old(index)[code].partition, r.value.partition))
      ensures r.Ok? ==> Records() == old(Records())[code := Find(code).value]
      ensures old(Exists(code)) ==> (r.Ok? <==> UpdatedRecord(old(Find(code)).value, record, runText, crawlText, now).Ok?)
      ensures !old(Exists(code)) ==> (r.Ok? <==> NewRecord(code, record, runText, crawlText, now, today).Ok?)
      ensures r.Err? && old(Exists(code)) ==> UpdatedRecord(old(Find(code)).value, record, runText, crawlText, now) == Err(r.error)
      ensures r.Err? && !old(Exists(code)) ==> NewRecord(code, record, runText, crawlText, now, today) == Err(r.error)
    {
      if code !in index {
        var nr := NewRecord(code, record, runText, crawlText, now, today);
        if nr.Err? {
          return Err(nr.error);
        }
        var target := PartitionForGrDate(Get(nr.value, KGrDate));
        PutNew(code, nr.value, target);
        return Ok(UpsertResult(Inserted, target, code));
      }
      var loc := index[code];
      var source := loc.partition;
      assert At(parts, loc, code, RawUniqueCode);
      var current := parts[source][loc.index];
      assert Find(code) == Some(current);
      var ur := UpdatedRecord(current, record, runText, crawlText, now);
      if ur.Err? {
        return Err(ur.error);
      }
      var updated := ur.value;
      UpdatedKeepsImmutable(current, record, runText, crawlText, now, KUniqueCode);
      var target := PartitionForGrDate(Get(updated, KGrDate));
      if target == source {
        PutInPlace(code, updated);
        return Ok(UpsertResult(Updated, target, code));
      }
      PutMoved(code, updated, target);
      return Ok(UpsertResult(Moved, target, code));
    }

    /**
     * `apply_stage_result`: record one stage outcome on an existing row and
     * write it back through `upsert` (no run type, no crawl date).
     */
    method ApplyStageResult(code: string, stage: string, success: bool, metadata: Row, error: string,
                            hasDocument: bool, hasWaybackUrl: Option<bool>, probe: Value -> Option<string>,
                            now: string, today: Date)
      returns (r: Result<UpsertResult>)
      requires Valid() && ValidDate(today)
      modifies this
      ensures Valid()
      ensures r.Err? ==> parts == old(parts) && index == old(index)
      ensures ParseStage(stage).None? ==> r == Err(LedgerError)
      ensures ParseStage(stage).Some? && old(Find(code)).None? ==> r == Err(RecordNotFound)
      ensures r.Ok? ==> (ParseStage(stage).Some? && old(Find(code)).Some?
        && StageRecord(old(Find(code)).value, ParseStage(stage).value, success, metadata, error, hasDocument,
                       hasWaybackUrl, probe, now).Ok?)
      ensures r.Ok? && Strip(code) == code ==> (r.value.uniqueCode == code && r.value.operation != Inserted
        && Find(code).Some?
        && StageApplied(old(Find(code)).value, ParseStage(stage).value, Find(code).value))
    {
      var st := ParseStage(stage);
      if st.None? {
        return Err(LedgerError);
      }
      var existing := Find(code);
      if existing.None? {
        return Err(RecordNotFound);
      }
      var staged := StageRecord(existing.value, st.value, success, metadata, error, hasDocument, hasWaybackUrl, probe, now);
      if staged.Err? {
        return Err(staged.error);
      }
      assert Get(staged.value, KUniqueCode) == Str(code);
      assert NormalizeRunType(None) == "daily" && NormalizeCrawlDate(Null, today) == IsoFormat(today);
      r := Upsert(staged.value, None, Null, now, today);
      if r.Ok? && Strip(code) == code {
        assert UpsertCode(staged.value) == Ok(code);
        UpdateKeepsStaged(existing.value, staged.value, st.value, IsoFormat(today), now, Find(code).value);
        StagedIsApplied(existing.value, st.value, success, metadata, error, hasDocument, hasWaybackUrl, probe, now,
                        staged.value, Find(code).value);
      }
    }
  }
}
