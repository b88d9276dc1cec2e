/**
 * `InfoStore`, the split ledger.  A record lives in up to three namespaces,
 * each a partitioned list of rows with its own index keyed by `_row_key`:
 * `urlinfos` (what the crawler saw), `uploadinfos` (the state and the stage
 * objects) and `pdfinfos` (the PDF analysis).  `find` merges the three rows
 * into the read model of the single-file ledger.
 */
module Infos {
  import opened Py
  import opened Order
  import opened Dates
  import opened Partitions
  import opened LedgerEngine

  // ------------------------------------------------------- partition order

  /** `_namespace_sort_key`: `(0, -int(stem), stem)`, `(2, 0, stem)` for "unknown", else `(1, 0, stem)`. */
  function NamespaceSortKey(stem: string): seq<int>
  {
    if IsDigitText(stem) then var year: int := DigitsValue(stem); [0, -year] + Codes(stem)
    else if stem == "unknown" then [2, 0] + Codes(stem)
    else [1, 0] + Codes(stem)
  }

  /** The group a partition name sorts into: years, other names, then "unknown". */
  function NameGroup(stem: string): int
  {
    if IsDigitText(stem) then 0 else if stem == "unknown" then 2 else 1
  }

  /** Sorted by `_namespace_sort_key`, year partitions come first, the latest year first, and "unknown" last. */
  lemma NamespaceOrder(a: string, b: string)
    requires Le(NamespaceSortKey(a), NamespaceSortKey(b))
    ensures NameGroup(a) <= NameGroup(b)
    ensures NameGroup(a) == 0 && NameGroup(b) == 0 ==> DigitsValue(a) >= DigitsValue(b)
  {
    var ka, kb := NamespaceSortKey(a), NamespaceSortKey(b);
    assert ka[0] == NameGroup(a) && kb[0] == NameGroup(b);
    if ka[0] == kb[0] {
      assert ka[1..][0] == ka[1] && kb[1..][0] == kb[1];
    }
  }

  /** Distinct names have distinct keys, so the order is total. */
  lemma NamespaceSortKeyInjective(a: string, b: string)
    requires NamespaceSortKey(a) == NamespaceSortKey(b)
    ensures a == b
  {
    var ka := NamespaceSortKey(a);
    assert ka[2..] == Codes(a) && NamespaceSortKey(b)[2..] == Codes(b);
    CodesInjective(a, b);
  }

  // -------------------------------------------------------------- integers

  /** `_to_int(value, default)`: a bool gives the default, an int itself, text is parsed. */
  function ToInt(v: Value, default: int): (n: int)
    ensures v.Bool? ==> n == default
    ensures v.Int? ==> n == v.i
    ensures v == Null || v == Str("") ==> n == default
  {
    if v.Bool? then default
    else if v.Int? then v.i
    else
      var text := NormalizeText(v);
      if text == "" then default
      else match ParseInt(text)
        case Some(i) => i
        case None => default
  }

  /** `_to_int(str(i)) == i`: a counter written as text reads back. */
  lemma ToIntOfText(i: int, default: int)
    ensures ToInt(Str(IntToStr(i)), default) == i
  {
    var s := IntToStr(i);
    NotSpace(s[0]);
    NotSpace(s[|s| - 1]);
    StripSetOfClean(s, Whitespace);
    assert NormalizeText(Str(s)) == s;
    ParseIntOfIntToStr(i);
  }

  /** Text that is not a numeral reads as the default. */
  lemma ToIntOfNonNumeral(s: string, default: int)
    requires ParseInt(s).None?
    ensures ToInt(Str(s), default) == default
  {
    if s != "" {
      StripSetIdempotent(s, Whitespace);
    }
  }

  // -------------------------------------------------------------- row keys

  /** `_row_key` is a stripped text. */
  lemma RowKeyStripped(row: Row)
    ensures Strip(RowKey(row)) == RowKey(row)
  {
    var rk, uc := Get(row, KRecordKey), Get(row, KUniqueCode);
    if rk.Str? { StripSetIdempotent(rk.s, Whitespace); }
    if uc.Str? { StripSetIdempotent(uc.s, Whitespace); }
  }

  /** Every key of an exact index is stripped. */
  lemma IndexKeyStripped(ns: Namespace, k: string)
    requires NsValid(ns) && k in ns.index
    ensures Strip(k) == k && k != ""
  {
    var l := ns.index[k];
    assert At(ns.parts, l, k, RecordKey);
    RowKeyStripped(ns.parts[l.partition][l.index]);
  }

  /** `_normalize_text(record.get("record_key") or record.get("unique_code"))`. */
  function RecordKeyOf(record: Row): (k: string)
    ensures Strip(k) == k
  {
    var k := NormalizeText(Or(Get(record, KRecordKey), Get(record, KUniqueCode)));
    StripSetIdempotent(PyStr(Or(Or(Get(record, KRecordKey), Get(record, KUniqueCode)), Str(""))), Whitespace);
    k
  }

  /** A row whose `record_key` is `key` (stripped, non-blank) is keyed `key`. */
  lemma RowKeyOfKeyed(row: Row, key: string)
    requires Get(row, KRecordKey) == Str(key) && key != "" && Strip(key) == key
    ensures RowKey(row) == key
  {
  }

  /** `_row_key` reads only `record_key` and `unique_code`. */
  lemma RowKeyOn(a: Row, b: Row)
    requires Get(a, KRecordKey) == Get(b, KRecordKey) && Get(a, KUniqueCode) == Get(b, KUniqueCode)
    ensures RowKey(a) == RowKey(b)
  {
  }

  // ------------------------------------------------------------ namespaces

  /** One namespace: its partitions and its index. */
  datatype Namespace = Namespace(parts: Parts, index: Index)

  ghost predicate NsValid(ns: Namespace)
  {
    Exact(ns.parts, ns.index, RecordKey)
  }

  /** `_find_row(namespace, key)`. */
  function FindRow(ns: Namespace, key: string): (r: Option<Row>)
    requires NsValid(ns)
    ensures r.Some? <==> key in ns.index
    ensures r.Some? ==> RowKey(r.value) == key
  {
    Lookup(ns.parts, ns.index, key, RecordKey)
  }

  /**
   * `_upsert_namespace_row`: a new key is appended to `partition`; a key
   * already there is replaced in place; a key in another partition is
   * dropped from both and appended to `partition`.  Each partition written
   * is sorted by `_row_key` and reindexed.
   */
  function UpsertRow(ns: Namespace, key: string, partition: string, row: Row): (r: Namespace)
    requires NsValid(ns) && key != "" && RowKey(row) == key
    ensures NsValid(r) && FindRow(r, key) == Some(row) && r.index[key].partition == partition
    ensures partition in r.parts && SortedBy(r.parts[partition], RecordKey.sortKey)
    ensures key !in ns.index || ns.index[key].partition == partition ==> OthersKept(ns.parts, r.parts, partition, partition)
    ensures key in ns.index ==> OthersKept(ns.parts, r.parts, ns.index[key].partition, partition)
  {
    if key !in ns.index then
      var rows := SortRows(RowsOf(ns.parts, partition) + [row], RecordKey);
      InsertLands(ns.parts, ns.index, partition, row, RecordKey);
      OthersKeptByWrites(ns.parts, partition, rows, partition, rows);
      Namespace(ns.parts[partition := rows], Reindex(ns.index, partition, rows, RecordKey).value)
    else if ns.index[key].partition == partition then
      var l := ns.index[key];
      var rows := SortRows(ns.parts[partition][l.index := row], RecordKey);
      ReplaceLands(ns.parts, ns.index, key, row, RecordKey);
      OthersKeptByWrites(ns.parts, partition, rows, partition, rows);
      Namespace(ns.parts[partition := rows], Reindex(ns.index, partition, rows, RecordKey).value)
    else
      var source := ns.index[key].partition;
      var src := SortRows(Without(ns.parts[source], key, RecordKey), RecordKey);
      var tgt := SortRows(Without(RowsOf(ns.parts, partition), key, RecordKey) + [row], RecordKey);
      MoveLands(ns.parts, ns.index, key, partition, row, RecordKey);
      OthersKeptByWrites(ns.parts, source, src, partition, tgt);
      var i1 := Reindex(ns.index, source, src, RecordKey).value;
      Namespace(ns.parts[source := src][partition := tgt], Reindex(i1, partition, tgt, RecordKey).value)
  }

  /** Writing one key's row leaves every other key's row where the index finds it. */
  lemma UpsertRowKeepsOthers(ns: Namespace, key: string, partition: string, row: Row, k: string)
    requires NsValid(ns) && key != "" && RowKey(row) == key && k != key
    ensures FindRow(UpsertRow(ns, key, partition, row), k) == FindRow(ns, k)
  {
    var r := UpsertRow(ns, key, partition, row);
    if key !in ns.index {
      InsertKeepsRows(ns.parts, partition, row, k, RecordKey);
    } else if ns.index[key].partition == partition {
      var l := ns.index[key];
      assert At(ns.parts, l, key, RecordKey);
      ReplaceKeepsRows(ns.parts, partition, l.index, row, k, RecordKey);
    } else {
      assert At(ns.parts, ns.index[key], key, RecordKey);
      MoveKeepsRows(ns.parts, ns.index[key].partition, partition, key, row, k, RecordKey);
    }
    LookupAgrees(ns.parts, ns.index, r.parts, r.index, k, RecordKey);
  }

  // --------------------------------------------------------------- url rows

  /** `_default_url_row`. */
  function DefaultUrlRow(key: string, now: string, crawl: string, runType: string): Row
  {
    map[KRecordKey := Str(key), KUniqueCode := Str(key), KTitle := Str(""), KDepartmentName := Str(""),
        KDepartmentCode := Str("unknown"), KGrDate := Str(""), KSourceUrl := Str(""),
        KFirstSeenCrawlDate := Str(crawl), KLastSeenCrawlDate := Str(crawl), KFirstSeenRunType := Str(runType),
        KCreatedAtUtc := Str(now), KUpdatedAtUtc := Str(now)]
  }

  /** The fields `_apply_url_patch` copies from a record. */
  predicate UrlMutable(k: Key)
  {
    k == KTitle || k == KDepartmentName || k == KDepartmentCode || k == KGrDate || k == KSourceUrl || k == KLastSeenCrawlDate
  }

  /** The fields an update may not change once set. */
  predicate UrlImmutable(k: Key)
  {
    k == KRecordKey || k == KUniqueCode || k == KCreatedAtUtc || k == KFirstSeenCrawlDate || k == KFirstSeenRunType
  }

  /** The record supplies a new value for a mutable field (`None` is skipped). */
  predicate UrlTakes(incoming: Row, k: Key)
  {
    k in incoming && UrlMutable(k) && incoming[k] != Null
  }

  /** `existing not in (None, "", value)` for an immutable field the record carries. */
  predicate UrlConflict(target: Row, incoming: Row, k: Key)
  {
    k in incoming && UrlImmutable(k) && !Unset(Get(target, k)) && !PyEq(Get(target, k), incoming[k])
  }

  predicate AnyUrlConflict(target: Row, incoming: Row)
  {
    UrlConflict(target, incoming, KRecordKey) || UrlConflict(target, incoming, KUniqueCode)
    || UrlConflict(target, incoming, KCreatedAtUtc) || UrlConflict(target, incoming, KFirstSeenCrawlDate)
    || UrlConflict(target, incoming, KFirstSeenRunType)
  }

  /**
   * `_apply_url_patch`: on an update, a record that would change a set
   * immutable field is refused; otherwise the mutable fields the record
   * carries (and are not None) are copied, and nothing else changes.
   */
  function ApplyUrlPatch(target: Row, incoming: Row, isInsert: bool): (r: Result<Row>)
    ensures r.Err? <==> !isInsert && AnyUrlConflict(target, incoming)
    ensures r.Err? ==> r.error == ImmutableFieldUpdate
  {
    if !isInsert && AnyUrlConflict(target, incoming) then Err(ImmutableFieldUpdate)
    else
      Ok(map k | k in target.Keys + incoming.Keys && (k in target || UrlTakes(incoming, k))
           :: if UrlTakes(incoming, k) then incoming[k] else target[k])
  }

  /** A refused update names an immutable field whose set value the record contradicts. */
  lemma AnyUrlConflictExists(target: Row, incoming: Row)
    ensures AnyUrlConflict(target, incoming) <==> exists k :: UrlConflict(target, incoming, k)
  {
    if exists k :: UrlConflict(target, incoming, k) {
      var k :| UrlConflict(target, incoming, k);
      assert k == KRecordKey || k == KUniqueCode || k == KCreatedAtUtc || k == KFirstSeenCrawlDate || k == KFirstSeenRunType;
    }
  }

  /** Field by field: a mutable field the record carries is taken, every other field is kept. */
  lemma UrlPatchAt(target: Row, incoming: Row, isInsert: bool, k: Key)
    requires ApplyUrlPatch(target, incoming, isInsert).Ok?
    ensures var r := ApplyUrlPatch(target, incoming, isInsert).value;
      (k in r <==> k in target || UrlTakes(incoming, k))
      && Get(r, k) == (if UrlTakes(incoming, k) then incoming[k] else Get(target, k))
  {
  }

  /** An accepted update leaves nothing for the same record to conflict with. */
  lemma UrlPatchSettles(target: Row, incoming: Row)
    requires ApplyUrlPatch(target, incoming, false).Ok?
    ensures !AnyUrlConflict(ApplyUrlPatch(target, incoming, false).value, incoming)
  {
    var r := ApplyUrlPatch(target, incoming, false).value;
    forall k | UrlImmutable(k) ensures Get(r, k) == Get(target, k) {
      UrlPatchAt(target, incoming, false, k);
    }
  }

  /** Applying the same record twice changes nothing more. */
  lemma UrlPatchIdempotent(target: Row, incoming: Row, isInsert: bool)
    requires ApplyUrlPatch(target, incoming, isInsert).Ok?
    ensures var r := ApplyUrlPatch(target, incoming, isInsert).value;
      ApplyUrlPatch(r, incoming, isInsert) == Ok(r)
  {
    var r := ApplyUrlPatch(target, incoming, isInsert).value;
    if !isInsert {
      UrlPatchSettles(target, incoming);
    }
    var r2 := ApplyUrlPatch(r, incoming, isInsert).value;
    forall k ensures (k in r2 <==> k in r) && (k in r ==> r2[k] == r[k]) {
      UrlPatchAt(target, incoming, isInsert, k);
      UrlPatchAt(r, incoming, isInsert, k);
    }
    assert r2 == r;
  }

  /** The written url row keeps the record key under which it was created. */
  lemma UrlPatchKeepsKey(target: Row, incoming: Row, isInsert: bool)
    requires ApplyUrlPatch(target, incoming, isInsert).Ok?
    ensures RowKey(ApplyUrlPatch(target, incoming, isInsert).value) == RowKey(target)
  {
    UrlPatchAt(target, incoming, isInsert, KRecordKey);
    UrlPatchAt(target, incoming, isInsert, KUniqueCode);
    RowKeyOn(ApplyUrlPatch(target, incoming, isInsert).value, target);
  }

  /** The url row of a new record: the defaults with the record's mutable fields. */
  function NewUrlRow(key: string, record: Row, runText: string, crawlText: string, now: string): (r: Row)
    requires key != "" && Strip(key) == key
    ensures RowKey(r) == key
  {
    var t := DefaultUrlRow(key, now, crawlText, runText);
    UrlPatchKeepsKey(t, record, true);
    ApplyUrlPatch(t, record, true).value
  }

  /** A new record's url row carries its key, the run's first-seen fields and the clock. */
  lemma NewUrlRowFields(key: string, record: Row, runText: string, crawlText: string, now: string)
    requires key != "" && Strip(key) == key
    ensures var r := NewUrlRow(key, record, runText, crawlText, now);
      Get(r, KRecordKey) == Str(key) && Get(r, KUniqueCode) == Str(key)
      && Get(r, KFirstSeenCrawlDate) == Str(crawlText) && Get(r, KFirstSeenRunType) == Str(runText)
      && Get(r, KCreatedAtUtc) == Str(now)
      && (UrlTakes(record, KGrDate) ==> Get(r, KGrDate) == record[KGrDate])
      && (!UrlTakes(record, KGrDate) ==> Get(r, KGrDate) == Str(""))
  {
    var t := DefaultUrlRow(key, now, crawlText, runText);
    UrlPatchAt(t, record, true, KRecordKey);
    UrlPatchAt(t, record, true, KUniqueCode);
    UrlPatchAt(t, record, true, KFirstSeenCrawlDate);
    UrlPatchAt(t, record, true, KFirstSeenRunType);
    UrlPatchAt(t, record, true, KCreatedAtUtc);
    UrlPatchAt(t, record, true, KGrDate);
  }

  /** `normalize_text(row.get("last_seen_crawl_date"))`. */
  function LastSeen(row: Row): string
  {
    NormalizeText(Get(row, KLastSeenCrawlDate))
  }

  /**
   * The monthly rule of `update_many` and `upsert`: the crawl date replaces
   * `last_seen_crawl_date` when that is blank or smaller as a string.
   */
  function AdvanceLastSeenText(row: Row, runType: string, crawl: string): (r: Row)
    ensures runType != "monthly" || crawl == "" ==> r == row
    ensures r == row || r == row[KLastSeenCrawlDate := Str(crawl)]
    ensures runType == "monthly" && crawl != "" && Strip(crawl) == crawl ==>
      StrLe(crawl, LastSeen(r)) && StrLe(LastSeen(row), LastSeen(r))
  {
    var existing := LastSeen(row);
    if runType == "monthly" && crawl != "" && (existing == "" || !StrLe(crawl, existing)) then
      StrLeTotalOrder(crawl, existing, crawl);
      StrLeTotalOrder(crawl, crawl, crawl);
      assert Strip(crawl) == crawl ==> LastSeen(row[KLastSeenCrawlDate := Str(crawl)]) == crawl;
      row[KLastSeenCrawlDate := Str(crawl)]
    else
      StrLeTotalOrder(existing, existing, existing);
      row
  }

  /** The monthly rule never moves `last_seen_crawl_date` backwards. */
  lemma LastSeenMonotone(row: Row, runType: string, crawl: string)
    requires Strip(crawl) == crawl
    ensures StrLe(LastSeen(row), LastSeen(AdvanceLastSeenText(row, runType, crawl)))
  {
    var e := LastSeen(row);
    StrLeTotalOrder(e, e, e);
  }

  // ------------------------------------------------------------ upload rows

  /** The stage objects of `_default_upload_row`: nothing attempted yet. */
  const FreshDownload: Row := map[KStatus := Str("not_attempted"), KError := Str(""), KAttempts := Int(0)]

  const FreshWayback: Row :=
    map[KStatus := Str("not_attempted"), KUrl := Str(""), KContentUrl := Str(""), KArchiveTime := Str(""),
        KArchiveSha1 := Str(""), KArchiveLength := Null, KArchiveMimetype := Str(""), KArchiveStatusCode := Str(""),
        KError := Str(""), KAttempts := Int(0)]

  const FreshArchive: Row :=
    map[KStatus := Str("not_attempted"), KIdentifier := Str(""), KUrl := Str(""), KError := Str(""), KAttempts := Int(0)]

  const FreshHf: Row :=
    map[KStatus := Str("not_attempted"), KPath := Null, KHash := Null, KBackend := Null, KCommitHash := Null,
        KError := Null, KSyncedAtUtc := Null, KAttempts := Int(0)]

  /** `_default_upload_row`. */
  function DefaultUploadRow(key: string, now: string): Row
  {
    map[KRecordKey := Str(key), KState := Str("FETCHED"), KDownload := Dict(FreshDownload),
        KWayback := Dict(FreshWayback), KArchive := Dict(FreshArchive), KHf := Dict(FreshHf),
        KCreatedAtUtc := Str(now), KUpdatedAtUtc := Str(now)]
  }

  /** The slots an upload patch may write. */
  predicate UploadSlot(k: Key)
  {
    k == KState || k == KDownload || k == KWayback || k == KArchive || k == KHf
  }

  /**
   * `target.setdefault(k, {})` followed by `isinstance(..., dict)`: the
   * object to update (empty when the slot is missing), or None when the slot
   * holds something other than an object.
   */
  function Slot(t: Row, k: Key): Option<Row>
  {
    if k !in t then Some(map[]) else if t[k].Dict? then Some(t[k].fields) else None
  }

  /** The `state` step: a non-blank state is taken, a blank one keeps the old value (default FETCHED). */
  function PatchState(t: Row, incoming: Row): Row
  {
    if KState in incoming && incoming[KState] != Null then
      var s := NormalizeText(incoming[KState]);
      t[KState := if s != "" then Str(s) else GetOr(t, KState, Str("FETCHED"))]
    else t
  }

  /** One stage's counter from `attempt_counts`, else its own counter. */
  function PatchCounter(t: Row, counts: Row, k: Key): Row
  {
    match Slot(t, k)
    case None => t
    case Some(o) => t[k := Dict(o[KAttempts := Int(ToInt(Get(counts, k), ToInt(Get(o, KAttempts), 0)))])]
  }

  /** The hf counter from `attempt_counts["hf"]`, else `["lfs"]`, else its own counter. */
  function PatchHfCounter(t: Row, counts: Row): Row
  {
    match Slot(t, KHf)
    case None => t
    case Some(o) =>
      var v := GetOr(counts, KHf, GetOr(counts, KLfs, GetOr(o, KAttempts, Int(0))));
      t[KHf := Dict(o[KAttempts := Int(ToInt(v, ToInt(Get(o, KAttempts), 0)))])]
  }

  /** The `attempt_counts` step, taken only when the record's value is an object. */
  function PatchAttempts(t: Row, incoming: Row): Row
  {
    if KAttemptCounts in incoming && incoming[KAttemptCounts].Dict? then
      var c := incoming[KAttemptCounts].fields;
      PatchHfCounter(PatchCounter(PatchCounter(PatchCounter(t, c, KDownload), c, KWayback), c, KArchive), c)
    else t
  }

  /** A stage object of the record is merged key by key into the row's object. */
  function PatchObject(t: Row, incoming: Row, k: Key): Row
  {
    if Get(incoming, k).Dict? then
      match Slot(t, k)
      case None => t
      case Some(o) => t[k := Dict(o + incoming[k].fields)]
    else t
  }

  function PatchStages(t: Row, incoming: Row): Row
  {
    PatchObject(PatchObject(PatchObject(PatchObject(t, incoming, KDownload), incoming, KWayback), incoming, KArchive),
                incoming, KHf)
  }

  /** `lfs_path`: a non-blank path marks hf as synced now, a blank one clears it. */
  function PatchLfs(t: Row, incoming: Row, now: string): Row
  {
    if KLfsPath in incoming then
      match Slot(t, KHf)
      case None => t
      case Some(o) =>
        var n := NormalizeText(incoming[KLfsPath]);
        t[KHf := Dict(o[KPath := if n != "" then Str(n) else Null]
                       [KStatus := Str(if n != "" then "success" else "not_attempted")]
                       [KSyncedAtUtc := if n != "" then Str(now) else Null])]
    else t
  }

  /** `_apply_upload_patch`: state, counters, stage objects, then `lfs_path`. */
  function ApplyUploadPatch(t: Row, incoming: Row, now: string): Row
  {
    PatchLfs(PatchStages(PatchAttempts(PatchState(t, incoming), incoming), incoming), incoming, now)
  }

  /** `_has_upload_patch`. */
  predicate HasUploadPatch(record: Row)
  {
    KState in record || KDownload in record || KWayback in record || KArchive in record || KHf in record
    || KLfsPath in record || KAttemptCounts in record
  }

  /** An upload patch writes only the state and the four stage objects. */
  lemma UploadPatchFrame(t: Row, incoming: Row, now: string, k: Key)
    requires !UploadSlot(k)
    ensures SameAt(ApplyUploadPatch(t, incoming, now), t, k)
  {
    var t1 := PatchState(t, incoming);
    var t2 := PatchAttempts(t1, incoming);
    var t3 := PatchStages(t2, incoming);
    StepFrames(t, t1, t2, t3, incoming, now, k);
  }

  /** Each step of the upload patch writes only upload slots. */
  lemma StepFrames(t: Row, t1: Row, t2: Row, t3: Row, incoming: Row, now: string, k: Key)
    requires !UploadSlot(k)
    requires t1 == PatchState(t, incoming) && t2 == PatchAttempts(t1, incoming) && t3 == PatchStages(t2, incoming)
    ensures SameAt(t1, t, k) && SameAt(t2, t1, k) && SameAt(t3, t2, k) && SameAt(PatchLfs(t3, incoming, now), t3, k)
  {
    AttemptsFrame(t1, incoming, k);
    StagesFrame(t2, incoming, k);
  }

  lemma AttemptsFrame(t: Row, incoming: Row, k: Key)
    requires !UploadSlot(k)
    ensures SameAt(PatchAttempts(t, incoming), t, k)
  {
  }

  lemma StagesFrame(t: Row, incoming: Row, k: Key)
    requires !UploadSlot(k)
    ensures SameAt(PatchStages(t, incoming), t, k)
  {
  }

  /** A record without upload fields leaves the upload row as it is. */
  lemma NoUploadPatchIdentity(t: Row, incoming: Row, now: string)
    requires !HasUploadPatch(incoming)
    ensures ApplyUploadPatch(t, incoming, now) == t
  {
  }

  /** The upload row stays keyed by the record key. */
  lemma UploadPatchKeepsKey(t: Row, incoming: Row, now: string)
    ensures RowKey(ApplyUploadPatch(t, incoming, now)) == RowKey(t)
  {
    UploadPatchFrame(t, incoming, now, KRecordKey);
    UploadPatchFrame(t, incoming, now, KUniqueCode);
    RowKeyOn(ApplyUploadPatch(t, incoming, now), t);
  }

  /** An hf slot that held an object (or nothing) still holds an object when `lfs_path` is applied. */
  lemma HfSlotKept(t: Row, incoming: Row)
    requires Slot(t, KHf).Some?
    ensures Slot(PatchStages(PatchAttempts(PatchState(t, incoming), incoming), incoming), KHf).Some?
  {
  }

  // --------------------------------------------------------------- pdf rows

  /** The fields of a pdf row that the read model's `pdf_info` shows, with the status given. */
  function PdfInfoCopy(status: string, f: Row): Row
  {
    map[KStatus := Str(status), KError := Get(f, KError), KFileSize := Get(f, KFileSize),
        KPageCount := Get(f, KPageCount), KPagesWithImages := Get(f, KPagesWithImages),
        KHasAnyPageImage := Get(f, KHasAnyPageImage), KTotalFontCount := Get(f, KTotalFontCount),
        KFonts := Get(f, KFonts), KUnresolvedWordCount := Get(f, KUnresolvedWordCount),
        KLanguage := Get(f, KLanguage)]
  }

  /** `_pdf_row_from_pdf_info`: an object with a status other than not_attempted is copied field by field. */
  function PdfRowFromPdfInfo(key: string, info: Value, createdAt: Value): (r: Row)
    ensures Get(r, KRecordKey) == Str(key) && Get(r, KCreatedAtUtc) == createdAt
  {
    if PdfStatus(info) == "not_attempted" then PdfBase(key, createdAt)
    else PdfInfoCopy(PdfStatus(info), info.fields)[KRecordKey := Str(key)][KCreatedAtUtc := createdAt]
  }

  function PdfBase(key: string, createdAt: Value): Row
  {
    map[KRecordKey := Str(key), KStatus := Str("not_attempted"), KCreatedAtUtc := createdAt]
  }

  /** The status a `pdf_info` value carries; anything but an object reads as not attempted. */
  function PdfStatus(info: Value): string
  {
    if info.Dict? then TextOr(Get(info.fields, KStatus), "not_attempted") else "not_attempted"
  }

  /** `_normalize_text(v) or default`. */
  function TextOr(v: Value, default: string): string
  {
    var t := NormalizeText(v);
    if t != "" then t else default
  }

  /** `_normalize_text(v) or d` is a fixed point when `d` is itself normalised. */
  lemma TextOrIdempotent(v: Value, d: string)
    requires d != "" && d[0] !in Whitespace && d[|d| - 1] !in Whitespace
    ensures TextOr(Str(TextOr(v, d)), d) == TextOr(v, d)
  {
    NormalizeTextIdempotent(v);
    NormalizeClean(d);
  }

  /** A state read back is the state that was read. */
  lemma StateFixed(v: Value)
    ensures TextOr(Str(TextOr(v, "FETCHED")), "FETCHED") == TextOr(v, "FETCHED")
    ensures TextOr(Str("FETCHED"), "FETCHED") == "FETCHED"
  {
    TextOrIdempotent(v, "FETCHED");
    NormalizeClean("FETCHED");
  }

  /** A pdf status read back is the status that was read. */
  lemma PdfStatusFixed(v: Value)
    ensures TextOr(Str(TextOr(v, "not_attempted")), "not_attempted") == TextOr(v, "not_attempted")
    ensures TextOr(Str("not_attempted"), "not_attempted") == "not_attempted"
  {
    TextOrIdempotent(v, "not_attempted");
    NormalizeClean("not_attempted");
  }

  const NotAttemptedInfo: Value := Dict(map[KStatus := Str("not_attempted")])

  /** The `pdf_info` of the read model, from the pdf row if there is one. */
  function PdfView(pdf: Option<Row>): (v: Value)
    ensures pdf.None? ==> v == NotAttemptedInfo
  {
    if pdf.None? then NotAttemptedInfo
    else
      var status := PdfStatus(Dict(pdf.value));
      if status == "not_attempted" then NotAttemptedInfo else Dict(PdfInfoCopy(status, pdf.value))
  }

  /** A stored copy holds the status it was given. */
  lemma StoredStatus(key: string, createdAt: Value, s: string, f: Row)
    ensures Get(PdfInfoCopy(s, f)[KRecordKey := Str(key)][KCreatedAtUtc := createdAt], KStatus) == Str(s)
  {
  }

  /** A stored copy reads back as the same copy. */
  lemma StoredCopy(key: string, createdAt: Value, s: string, f: Row)
    ensures PdfInfoCopy(s, PdfInfoCopy(s, f)[KRecordKey := Str(key)][KCreatedAtUtc := createdAt]) == PdfInfoCopy(s, f)
  {
  }

  /** Reading back a stored `pdf_info` gives what the record's object itself reads as. */
  lemma PdfRoundTrip(key: string, info: Value, createdAt: Value)
    ensures PdfView(Some(PdfRowFromPdfInfo(key, info, createdAt))) == PdfView(Some(FieldsOf(info)))
  {
    var s := PdfStatus(info);
    PdfStatusFixed(if info.Dict? then Get(info.fields, KStatus) else Null);
    if info.Dict? && s != "not_attempted" {
      StoredStatus(key, createdAt, s, info.fields);
      StoredCopy(key, createdAt, s, info.fields);
    }
  }

  // ---------------------------------------------------------------- merging

  /** `x if isinstance(x, dict) else {}` for a slot of the upload row. */
  function ObjectAt(row: Row, k: Key): Row
  {
    FieldsOf(Get(row, k))
  }

  /** The download object of the read model: `path`, `hash` and `size` filled in from hf when missing. */
  function DownloadView(download: Row, hf: Row): Row
  {
    var p := Get(hf, KPath);
    var h := Get(hf, KHash);
    var d1 := if KPath in download then download else download[KPath := if p.Str? then p else Str("")];
    var d2 := if KHash in d1 then d1 else d1[KHash := if h.Str? then h else Str("")];
    if KSize in d2 then d2 else d2[KSize := Null]
  }

  /** `lfs_path`: hf's path when it is a non-blank string, else None. */
  function LfsView(hf: Row): Value
  {
    var p := Get(hf, KPath);
    if p.Str? && Strip(p.s) != "" then p else Null
  }

  /** The fields `_merge_record` writes over the url row. */
  predicate MergedKey(k: Key)
  {
    k == KRecordKey || k == KUniqueCode || k == KState || k == KDownload || k == KWayback || k == KArchive || k == KHf
    || k == KLfsPath || k == KAttemptCounts || k == KPdfInfo
  }

  /** The values `_merge_record` derives from the three rows, one per merged field. */
  datatype Derived = Derived(recordKey: Value, uniqueCode: Value, state: Value, download: Value, wayback: Value,
                             archive: Value, hf: Value, lfsPath: Value, attemptCounts: Value, pdfInfo: Value)

  /** The url row with the derived fields written over it. */
  function Overlay(urlRow: Row, d: Derived): (r: Row)
    ensures Get(r, KRecordKey) == d.recordKey && Get(r, KUniqueCode) == d.uniqueCode && Get(r, KState) == d.state
    ensures Get(r, KDownload) == d.download && Get(r, KWayback) == d.wayback && Get(r, KArchive) == d.archive
    ensures Get(r, KHf) == d.hf && Get(r, KLfsPath) == d.lfsPath && Get(r, KAttemptCounts) == d.attemptCounts
    ensures Get(r, KPdfInfo) == d.pdfInfo
  {
    urlRow[KRecordKey := d.recordKey][KUniqueCode := d.uniqueCode][KState := d.state][KDownload := d.download]
          [KWayback := d.wayback][KArchive := d.archive][KHf := d.hf][KLfsPath := d.lfsPath]
          [KAttemptCounts := d.attemptCounts][KPdfInfo := d.pdfInfo]
  }

  /**
   * What `_merge_record` shows: the url row's unique code (else the key),
   * the upload row's state (else FETCHED), its four stage objects (anything
   * but an object reads as empty), the download object completed from hf,
   * `lfs_path` from hf, the attempt counters, and the pdf row's `pdf_info`.
   */
  function Derive(key: string, urlRow: Row, up: Row, pdf: Option<Row>): Derived
  {
    Derived(Str(key), Str(TextOr(Get(urlRow, KUniqueCode), key)), MergedState(up), Dict(MergedDownload(up)),
            Dict(ObjectAt(up, KWayback)), Dict(ObjectAt(up, KArchive)), Dict(ObjectAt(up, KHf)),
            LfsView(ObjectAt(up, KHf)), MergedCounts(up), PdfView(pdf))
  }

  /**
   * `_merge_record`: the url row with the derived fields.  A record without
   * an upload row is merged with the default one, stamped with the url
   * row's `updated_at_utc` (or the clock); see `UploadBase`.
   */
  function MergeRecord(key: string, urlRow: Row, up: Row, pdf: Option<Row>): Row
  {
    Overlay(urlRow, Derive(key, urlRow, up, pdf))
  }

  function MergedState(up: Row): Value
  {
    Str(TextOr(Get(up, KState), "FETCHED"))
  }

  function MergedDownload(up: Row): Row
  {
    DownloadView(ObjectAt(up, KDownload), ObjectAt(up, KHf))
  }

  function MergedCounts(up: Row): Value
  {
    Dict(map[KDownload := Int(ToInt(Get(MergedDownload(up), KAttempts), 0)),
             KWayback := Int(ToInt(Get(ObjectAt(up, KWayback), KAttempts), 0)),
             KArchive := Int(ToInt(Get(ObjectAt(up, KArchive), KAttempts), 0))])
  }

  /** The read model keeps every url field it does not derive. */
  lemma MergeKeepsUrlFields(key: string, urlRow: Row, up: Row, pdf: Option<Row>, k: Key)
    requires !MergedKey(k)
    ensures SameAt(MergeRecord(key, urlRow, up, pdf), urlRow, k)
  {
    OverlayKeeps(urlRow, Derive(key, urlRow, up, pdf), k);
  }

  lemma OverlayKeeps(urlRow: Row, d: Derived, k: Key)
    requires !MergedKey(k)
    ensures SameAt(Overlay(urlRow, d), urlRow, k)
  {
  }

  /** The stage objects of the default upload row are the fresh ones. */
  lemma FreshObjects(key: string, stamp: string)
    ensures var up := DefaultUploadRow(key, stamp);
      ObjectAt(up, KDownload) == FreshDownload && ObjectAt(up, KWayback) == FreshWayback
      && ObjectAt(up, KArchive) == FreshArchive && ObjectAt(up, KHf) == FreshHf
  {
  }

  /** The default upload row reads as freshly fetched. */
  lemma FreshState(key: string, stamp: string)
    ensures MergedState(DefaultUploadRow(key, stamp)) == Str("FETCHED")
  {
    assert Get(DefaultUploadRow(key, stamp), KState) == Str("FETCHED");
    StateFixed(Null);
  }

  /** Nothing in the default upload row has been attempted. */
  lemma FreshCounts(key: string, stamp: string)
    ensures MergedCounts(DefaultUploadRow(key, stamp)) == Zeroes()
  {
    FreshObjects(key, stamp);
    assert Get(DownloadView(FreshDownload, FreshHf), KAttempts) == Int(0);
  }

  /** The default upload row's stages are not attempted and it has no `lfs_path`. */
  lemma FreshStatuses(key: string, stamp: string)
    ensures var up := DefaultUploadRow(key, stamp);
      LfsView(ObjectAt(up, KHf)) == Null && Get(MergedDownload(up), KStatus) == Str("not_attempted")
      && Get(ObjectAt(up, KWayback), KStatus) == Str("not_attempted")
      && Get(ObjectAt(up, KArchive), KStatus) == Str("not_attempted")
  {
    FreshObjects(key, stamp);
    assert Get(DownloadView(FreshDownload, FreshHf), KStatus) == Str("not_attempted");
  }

  /** A record without an upload row reads as freshly fetched with no attempts. */
  lemma MergeWithoutUpload(key: string, urlRow: Row, pdf: Option<Row>, stamp: string)
    ensures var r := MergeRecord(key, urlRow, DefaultUploadRow(key, stamp), pdf);
      Get(r, KState) == Str("FETCHED") && Get(r, KAttemptCounts) == Zeroes() && Get(r, KLfsPath) == Null
      && Get(FieldsOf(Get(r, KDownload)), KStatus) == Str("not_attempted")
      && Get(FieldsOf(Get(r, KWayback)), KStatus) == Str("not_attempted")
      && Get(FieldsOf(Get(r, KArchive)), KStatus) == Str("not_attempted")
  {
    FreshState(key, stamp);
    FreshCounts(key, stamp);
    FreshStatuses(key, stamp);
  }

  /** A state written by an upload patch is the state the read model shows. */
  lemma StateRoundTrip(key: string, urlRow: Row, t: Row, incoming: Row, pdf: Option<Row>, now: string)
    requires KState in incoming && NormalizeText(incoming[KState]) != ""
    ensures Get(MergeRecord(key, urlRow, ApplyUploadPatch(t, incoming, now), pdf), KState)
      == Str(NormalizeText(incoming[KState]))
  {
    var n := NormalizeText(incoming[KState]);
    var t1 := PatchState(t, incoming);
    assert Get(t1, KState) == Str(n);
    StateKeptAfterStateStep(t1, incoming, now);
    NormalizeTextIdempotent(incoming[KState]);
  }

  /** The steps after the `state` step leave the state alone. */
  lemma StateKeptAfterStateStep(t1: Row, incoming: Row, now: string)
    ensures Get(PatchLfs(PatchStages(PatchAttempts(t1, incoming), incoming), incoming, now), KState) == Get(t1, KState)
  {
  }

  /** An `lfs_path` written by an upload patch is the `lfs_path` the read model shows. */
  lemma LfsRoundTrip(key: string, urlRow: Row, t: Row, incoming: Row, pdf: Option<Row>, now: string)
    requires KLfsPath in incoming && Slot(t, KHf).Some?
    ensures var n := NormalizeText(incoming[KLfsPath]);
      Get(MergeRecord(key, urlRow, ApplyUploadPatch(t, incoming, now), pdf), KLfsPath)
      == (if n != "" then Str(n) else Null)
  {
    var n := NormalizeText(incoming[KLfsPath]);
    NormalizeTextIdempotent(incoming[KLfsPath]);
    HfSlotKept(t, incoming);
    var hf := ObjectAt(ApplyUploadPatch(t, incoming, now), KHf);
    assert Get(hf, KPath) == (if n != "" then Str(n) else Null);
  }

  // ---------------------------------------------------------------- writes

  /** Every key other than `key` finds the same row in `b` as in `a`. */
  ghost predicate KeptExcept(a: Namespace, b: Namespace, key: string)
  {
    NsValid(a) && NsValid(b) && forall k :: k != key ==> FindRow(b, k) == FindRow(a, k)
  }

  lemma UpsertRowKept(ns: Namespace, key: string, partition: string, row: Row)
    requires NsValid(ns) && key != "" && RowKey(row) == key
    ensures KeptExcept(ns, UpsertRow(ns, key, partition, row), key)
  {
    forall k | k != key ensures FindRow(UpsertRow(ns, key, partition, row), k) == FindRow(ns, k) {
      UpsertRowKeepsOthers(ns, key, partition, row, k);
    }
  }

  /**
   * `_upsert_namespace_row(ns, key, target, row)` as seen from outside: the
   * key finds `row` in `target`, that partition is sorted, and every other
   * key finds what it found before.
   */
  ghost predicate Written(a: Namespace, b: Namespace, key: string, row: Row, target: string)
  {
    KeptExcept(a, b, key) && FindRow(b, key) == Some(row) && b.index[key].partition == target
    && SortedBy(b.parts[target], RecordKey.sortKey)
  }

  lemma UpsertRowWritten(ns: Namespace, key: string, partition: string, row: Row)
    requires NsValid(ns) && key != "" && RowKey(row) == key
    ensures Written(ns, UpsertRow(ns, key, partition, row), key, row, partition)
  {
    UpsertRowKept(ns, key, partition, row);
  }

  /** `rows[loc.index] = row` for a key the index holds: the index is unchanged. */
  function InPlace(ns: Namespace, key: string, row: Row): (r: Namespace)
    requires NsValid(ns) && key in ns.index && RowKey(row) == key
    ensures NsValid(r) && r.index == ns.index && FindRow(r, key) == Some(row)
  {
    var l := ns.index[key];
    assert At(ns.parts, l, key, RecordKey);
    ReplaceSameKeyExact(ns.parts, ns.index, l.partition, l.index, row, RecordKey);
    Namespace(ns.parts[l.partition := ns.parts[l.partition][l.index := row]], ns.index)
  }

  lemma InPlaceKept(ns: Namespace, key: string, row: Row)
    requires NsValid(ns) && key in ns.index && RowKey(row) == key
    ensures KeptExcept(ns, InPlace(ns, key, row), key)
  {
    var r := InPlace(ns, key, row);
    forall k | k != key && k in ns.index ensures FindRow(r, k) == FindRow(ns, k) {
      assert ns.index[k] != ns.index[key];
    }
  }

  /**
   * `rows.append(row)` with the index pointed at the new last position: the
   * row is added to `partition` without sorting it.
   */
  function Appended(ns: Namespace, partition: string, row: Row): (r: Namespace)
    requires NsValid(ns) && RowKey(row) != "" && RowKey(row) !in ns.index
    ensures NsValid(r) && FindRow(r, RowKey(row)) == Some(row) && r.index[RowKey(row)].partition == partition
    ensures r.parts == ns.parts[partition := RowsOf(ns.parts, partition) + [row]]
  {
    var rows := RowsOf(ns.parts, partition);
    AppendFreshExact(ns.parts, ns.index, partition, row, RecordKey);
    Namespace(ns.parts[partition := rows + [row]], ns.index[RowKey(row) := Location(partition, |rows|)])
  }

  lemma AppendedKept(ns: Namespace, partition: string, row: Row)
    requires NsValid(ns) && RowKey(row) != "" && RowKey(row) !in ns.index
    ensures KeptExcept(ns, Appended(ns, partition, row), RowKey(row))
  {
    var r := Appended(ns, partition, row);
    forall k | k != RowKey(row) && k in ns.index ensures FindRow(r, k) == FindRow(ns, k) {
      assert At(ns.parts, ns.index[k], k, RecordKey);
    }
  }

  // ------------------------------------------------------------ update_many

  /** The three namespaces of a ledger directory. */
  datatype Spaces = Spaces(url: Namespace, upload: Namespace, pdf: Namespace)

  ghost predicate SpacesValid(s: Spaces)
  {
    NsValid(s.url) && NsValid(s.upload) && NsValid(s.pdf)
  }

  /** The url row an update writes: the patch, then the monthly `last_seen_crawl_date` rule. */
  function UrlUpdate(current: Row, record: Row, runText: string, crawlText: string): (r: Result<Row>)
    ensures r.Err? <==> AnyUrlConflict(current, record)
    ensures r.Err? ==> r.error == ImmutableFieldUpdate
    ensures r.Ok? ==> RowKey(r.value) == RowKey(current)
  {
    match ApplyUrlPatch(current, record, false)
    case Err(e) => Err(e)
    case Ok(patched) =>
      UrlPatchKeepsKey(current, record, false);
      var r := AdvanceLastSeenText(patched, runText, crawlText);
      RowKeyOn(r, patched);
      Ok(r)
  }

  /** The upload row a write starts from: the stored one, else the default row stamped `stamp`. */
  function UploadBase(up: Option<Row>, key: string, stamp: string): (r: Row)
    requires key != "" && Strip(key) == key && (up.Some? ==> RowKey(up.value) == key)
    ensures RowKey(r) == key
  {
    if up.Some? then up.value
    else
      RowKeyOfKeyed(DefaultUploadRow(key, stamp), key);
      DefaultUploadRow(key, stamp)
  }

  /** The upload row after the record's patch, keyed as before. */
  function PatchedUpload(up: Option<Row>, key: string, record: Row, now: string): (r: Row)
    requires key != "" && Strip(key) == key && (up.Some? ==> RowKey(up.value) == key)
    ensures RowKey(r) == key
  {
    UploadPatchKeepsKey(UploadBase(up, key, now), record, now);
    ApplyUploadPatch(UploadBase(up, key, now), record, now)
  }

  /** The creation time a rewritten pdf row keeps: its own, else the url row's, else the clock. */
  function PdfCreatedAt(current: Option<Row>, urlRow: Row, now: string): string
  {
    TextOr(if current.Some? then Get(current.value, KCreatedAtUtc) else Null, TextOr(Get(urlRow, KCreatedAtUtc), now))
  }

  /** The pdf row of a record that carries `pdf_info`, keyed by the record. */
  function PdfRowFor(key: string, record: Row, createdAt: Value): (r: Row)
    requires key != "" && Strip(key) == key && KPdfInfo in record
    ensures RowKey(r) == key
  {
    var r := PdfRowFromPdfInfo(key, record[KPdfInfo], createdAt);
    RowKeyOfKeyed(r, key);
    r
  }

  /**
   * `update_many`'s upload step: a stored row (already checked to be in
   * the target partition) is patched in place; a record with upload fields
   * and no stored row appends the patched default row, unsorted.
   */
  function UpdateUploadRow(ns: Namespace, key: string, record: Row, target: string, now: string): (r: Namespace)
    requires NsValid(ns) && key != "" && Strip(key) == key
    requires key in ns.index ==> ns.index[key].partition == target
    ensures KeptExcept(ns, r, key)
    ensures HasUploadPatch(record) || key in ns.index ==>
      FindRow(r, key) == Some(PatchedUpload(FindRow(ns, key), key, record, now)) && r.index[key].partition == target
    ensures !HasUploadPatch(record) && key !in ns.index ==> r == ns
  {
    if key in ns.index then
      var row := PatchedUpload(FindRow(ns, key), key, record, now);
      InPlaceKept(ns, key, row);
      InPlace(ns, key, row)
    else if HasUploadPatch(record) then
      var row := PatchedUpload(None, key, record, now);
      AppendedKept(ns, target, row);
      Appended(ns, target, row)
    else ns
  }

  /**
   * `update_many`'s pdf step: with `pdf_info`, a stored row in the target
   * partition is rewritten in place (keeping its creation time) and a
   * missing one is appended; a stored row in another partition is refused
   * with or without `pdf_info`.
   */
  function UpdatePdfRow(ns: Namespace, key: string, record: Row, urlRow: Row, target: string, now: string)
    : (r: Result<Namespace>)
    requires NsValid(ns) && key != "" && Strip(key) == key
    ensures r.Err? <==> key in ns.index && ns.index[key].partition != target
    ensures r.Err? ==> r.error == InvalidTransition
    ensures r.Ok? ==> KeptExcept(ns, r.value, key)
    ensures r.Ok? && KPdfInfo in record ==>
      FindRow(r.value, key) == Some(PdfRowFor(key, record, Str(PdfCreatedAt(FindRow(ns, key), urlRow, now))))
      && r.value.index[key].partition == target
    ensures r.Ok? && KPdfInfo !in record ==> r.value == ns
  {
    if key in ns.index && ns.index[key].partition != target then Err(InvalidTransition)
    else if KPdfInfo in record then
      var row := PdfRowFor(key, record, Str(PdfCreatedAt(FindRow(ns, key), urlRow, now)));
      if key in ns.index then
        InPlaceKept(ns, key, row);
        Ok(InPlace(ns, key, row))
      else
        AppendedKept(ns, target, row);
        Ok(Appended(ns, target, row))
    else Ok(ns)
  }

  /**
   * What an accepted update of `key` leaves: the url row patched and in the
   * target partition, the upload row patched when the record has upload
   * fields or a row is stored, the pdf row rewritten from `pdf_info` when
   * the record has one, and every other key untouched.
   */
  ghost predicate UpdateEffect(before: Spaces, after: Spaces, key: string, record: Row, runText: string,
                               crawlText: string, now: string, res: UpsertResult)
  {
    SpacesValid(before) && SpacesValid(after) && key != "" && Strip(key) == key && key in before.url.index
    && var current := FindRow(before.url, key).value;
    UrlUpdate(current, record, runText, crawlText).Ok?
    && var urlRow := UrlUpdate(current, record, runText, crawlText).value;
    var target := PartitionForGrDate(Get(urlRow, KGrDate));
    res == UpsertResult(Updated, target, key)
    && FindRow(after.url, key) == Some(urlRow) && after.url.index[key].partition == target
    && (HasUploadPatch(record) || key in before.upload.index ==>
          FindRow(after.upload, key) == Some(PatchedUpload(FindRow(before.upload, key), key, record, now))
          && after.upload.index[key].partition == target)
    && (!HasUploadPatch(record) && key !in before.upload.index ==> after.upload == before.upload)
    && (KPdfInfo in record ==>
          FindRow(after.pdf, key) == Some(PdfRowFor(key, record, Str(PdfCreatedAt(FindRow(before.pdf, key), urlRow, now))))
          && after.pdf.index[key].partition == target)
    && (KPdfInfo !in record ==>
          FindRow(after.pdf, key) == FindRow(before.pdf, key)
          && (key in after.pdf.index ==> after.pdf.index[key].partition == target))
    && KeptExcept(before.url, after.url, key) && KeptExcept(before.upload, after.upload, key)
    && KeptExcept(before.pdf, after.pdf, key)
  }

  /**
   * One record of `update_many`, staged in memory: the key must exist, the
   * url row must stay in its partition, and the stored upload and pdf rows
   * must be in that partition too.
   */
  function StageUpdate(s: Spaces, record: Row, runText: string, crawlText: string, now: string)
    : (r: Result<(Spaces, UpsertResult)>)
    requires SpacesValid(s)
    ensures RecordKeyOf(record) == "" ==> r == Err(ValueError)
    ensures RecordKeyOf(record) != "" && RecordKeyOf(record) !in s.url.index ==> r == Err(RecordNotFound)
    ensures r.Err? ==> r.error in {ValueError, RecordNotFound, ImmutableFieldUpdate, InvalidTransition}
    ensures r.Ok? ==> SpacesValid(r.value.0) && r.value.0.url.index == s.url.index
    ensures r.Ok? ==>
      RecordKeyOf(record) in s.url.index && r.value.1.uniqueCode == RecordKeyOf(record) && r.value.1.operation == Updated
    ensures r.Ok? ==> UpdateEffect(s, r.value.0, RecordKeyOf(record), record, runText, crawlText, now, r.value.1)
  {
    var key := RecordKeyOf(record);
    if key == "" then Err(ValueError)
    else if key !in s.url.index then Err(RecordNotFound)
    else
      var source := s.url.index[key].partition;
      var current := FindRow(s.url, key).value;
      match UrlUpdate(current, record, runText, crawlText)
      case Err(e) => Err(e)
      case Ok(urlRow) =>
        var target := PartitionForGrDate(Get(urlRow, KGrDate));
        if target != source then Err(InvalidTransition)
        else if key in s.upload.index && s.upload.index[key].partition != target then Err(InvalidTransition)
        else
          match UpdatePdfRow(s.pdf, key, record, urlRow, target, now)
          case Err(e) => Err(e)
          case Ok(pdf) =>
            InPlaceKept(s.url, key, urlRow);
            var url := InPlace(s.url, key, urlRow);
            var upload := UpdateUploadRow(s.upload, key, record, target, now);
            Ok((Spaces(url, upload, pdf), UpsertResult(Updated, target, key)))
  }

  /**
   * The records of one `update_many` call staged in order, each on the
   * namespaces the previous ones left: the first failing record's error,
   * or the final namespaces and one result per record.
   */
  function StageAll(s: Spaces, records: seq<Row>, runText: string, crawlText: string, now: string)
    : (r: Result<(Spaces, seq<UpsertResult>)>)
    requires SpacesValid(s)
    ensures r.Ok? ==> SpacesValid(r.value.0) && |r.value.1| == |records|
    ensures r.Ok? ==> r.value.0.url.index == s.url.index
    decreases |records|
  {
    if records == [] then Ok((s, []))
    else
      match StageAll(s, records[..|records| - 1], runText, crawlText, now)
      case Err(e) => Err(e)
      case Ok(done) =>
        match StageUpdate(done.0, records[|records| - 1], runText, crawlText, now)
        case Err(e) => Err(e)
        case Ok(step) => Ok((step.0, done.1 + [step.1]))
  }

  /**
   * The loop of `update_many` over a working copy of the namespaces: each
   * record is staged in turn and the first failure stops the loop.
   */
  method StageBatch(s: Spaces, records: seq<Row>, runText: string, crawlText: string, now: string)
    returns (w: Result<(Spaces, seq<UpsertResult>)>)
    requires SpacesValid(s)
    ensures w == StageAll(s, records, runText, crawlText, now)
  {
    var staged := s;
    var results: seq<UpsertResult> := [];
    var i := 0;
    while i < |records|
      invariant 0 <= i <= |records| && SpacesValid(staged)
      invariant StageAll(s, records[..i], runText, crawlText, now) == Ok((staged, results))
    {
      var step := StageUpdate(staged, records[i], runText, crawlText, now);
      TakeOneMore(records, i);
      StageAllSnoc(s, records[..i], records[i], runText, crawlText, now, staged, results);
      if step.Err? {
        StageAllFailsFrom(s, records, i + 1, runText, crawlText, now);
        return Err(step.error);
      }
      staged, results := step.value.0, results + [step.value.1];
      i := i + 1;
    }
    assert records[..i] == records;
    return Ok((staged, results));
  }

  /** The `i`-th result reports the `i`-th record, whose key the url index already held. */
  lemma {:induction false} StageAllResult(s: Spaces, records: seq<Row>, i: nat, runText: string, crawlText: string, now: string)
    requires SpacesValid(s) && StageAll(s, records, runText, crawlText, now).Ok? && i < |records|
    ensures var r := StageAll(s, records, runText, crawlText, now).value;
      RecordKeyOf(records[i]) in s.url.index
      && r.1[i].uniqueCode == RecordKeyOf(records[i]) && r.1[i].operation == Updated
    decreases |records|
  {
    var init := records[..|records| - 1];
    var last := records[|records| - 1];
    var done := StageAll(s, init, runText, crawlText, now).value;
    var step := StageUpdate(done.0, last, runText, crawlText, now).value;
    assert StageAll(s, records, runText, crawlText, now).value.1 == done.1 + [step.1];
    if i < |init| {
      StageAllResult(s, init, i, runText, crawlText, now);
      assert records[i] == init[i] && (done.1 + [step.1])[i] == done.1[i];
    } else {
      assert i == |init|;
    }
  }

  /** Every record of a successful batch was an existing key, and its result says so. */
  lemma StageAllResults(s: Spaces, records: seq<Row>, runText: string, crawlText: string, now: string)
    requires SpacesValid(s) && StageAll(s, records, runText, crawlText, now).Ok?
    ensures var r := StageAll(s, records, runText, crawlText, now).value;
      forall i :: 0 <= i < |records| ==>
        RecordKeyOf(records[i]) in s.url.index
        && r.1[i].uniqueCode == RecordKeyOf(records[i]) && r.1[i].operation == Updated
  {
    forall i | 0 <= i < |records| {
      StageAllResult(s, records, i, runText, crawlText, now);
    }
  }

  /** Staging one more record: its step on top of the staged records before it. */
  lemma StageAllSnoc(s: Spaces, init: seq<Row>, x: Row, runText: string, crawlText: string, now: string,
                     staged: Spaces, results: seq<UpsertResult>)
    requires SpacesValid(s) && SpacesValid(staged)
    requires StageAll(s, init, runText, crawlText, now) == Ok((staged, results))
    ensures StageAll(s, init + [x], runText, crawlText, now)
      == match StageUpdate(staged, x, runText, crawlText, now)
         case Err(e) => Err(e)
         case Ok(step) => Ok((step.0, results + [step.1]))
  {
    var pre := init + [x];
    assert pre[..|pre| - 1] == init && pre[|pre| - 1] == x;
  }

  lemma TakeOneMore(records: seq<Row>, i: nat)
    requires i < |records|
    ensures records[..i + 1] == records[..i] + [records[i]]
  {
  }

  /** Once a prefix of the batch fails, the whole batch fails with that error. */
  lemma {:induction false} StageAllFailsFrom(s: Spaces, records: seq<Row>, i: nat, runText: string, crawlText: string, now: string)
    requires SpacesValid(s) && i <= |records| && StageAll(s, records[..i], runText, crawlText, now).Err?
    ensures StageAll(s, records, runText, crawlText, now) == StageAll(s, records[..i], runText, crawlText, now)
    decreases |records|
  {
    if i < |records| {
      var init := records[..|records| - 1];
      assert init[..i] == records[..i];
      StageAllFailsFrom(s, init, i, runText, crawlText, now);
    } else {
      assert records[..i] == records;
    }
  }

  // ------------------------------------------------------------ insert

  /** The creation time `insert` gives a new pdf row: the new url row's, else the clock. */
  function InsertCreatedAt(urlRow: Row, now: string): Value
  {
    if KCreatedAtUtc in urlRow then urlRow[KCreatedAtUtc] else Str(now)
  }

  /**
   * What inserting the new key `key` leaves: the new url row in its
   * `gr_date` partition, the patched default upload row there only when the
   * record has upload fields, the pdf row there only when the record has
   * `pdf_info`, each written partition sorted, and every other key untouched.
   */
  ghost predicate InsertEffect(before: Spaces, after: Spaces, key: string, record: Row, runText: string,
                               crawlText: string, now: string, res: UpsertResult)
  {
    key != "" && Strip(key) == key && key !in before.url.index
    && var urlRow := NewUrlRow(key, record, runText, crawlText, now);
    var target := PartitionForGrDate(Get(urlRow, KGrDate));
    res == UpsertResult(Inserted, target, key)
    && Written(before.url, after.url, key, urlRow, target)
    && (HasUploadPatch(record) ==> Written(before.upload, after.upload, key, PatchedUpload(None, key, record, now), target))
    && (!HasUploadPatch(record) ==> after.upload == before.upload)
    && (KPdfInfo in record ==>
          Written(before.pdf, after.pdf, key, PdfRowFor(key, record, InsertCreatedAt(urlRow, now)), target))
    && (KPdfInfo !in record ==> after.pdf == before.pdf)
  }

  /** `insert`'s upload step: the patched default row, written only when the record has upload fields. */
  function InsertedUpload(ns: Namespace, key: string, record: Row, partition: string, now: string): (r: Namespace)
    requires NsValid(ns) && key != "" && Strip(key) == key
    ensures NsValid(r)
    ensures HasUploadPatch(record) ==> Written(ns, r, key, PatchedUpload(None, key, record, now), partition)
    ensures !HasUploadPatch(record) ==> r == ns
  {
    if HasUploadPatch(record) then
      UpsertRowWritten(ns, key, partition, PatchedUpload(None, key, record, now));
      UpsertRow(ns, key, partition, PatchedUpload(None, key, record, now))
    else ns
  }

  /** `insert`'s pdf step: the row built from `pdf_info`, written only when the record has one. */
  function InsertedPdf(ns: Namespace, key: string, record: Row, partition: string, createdAt: Value): (r: Namespace)
    requires NsValid(ns) && key != "" && Strip(key) == key
    ensures NsValid(r)
    ensures KPdfInfo in record ==> Written(ns, r, key, PdfRowFor(key, record, createdAt), partition)
    ensures KPdfInfo !in record ==> r == ns
  {
    if KPdfInfo in record then
      UpsertRowWritten(ns, key, partition, PdfRowFor(key, record, createdAt));
      UpsertRow(ns, key, partition, PdfRowFor(key, record, createdAt))
    else ns
  }

  /**
   * `insert` of a new key on the three namespaces: the url row goes to its
   * `gr_date` partition and the upload and pdf rows, when written, go there too.
   */
  function InsertFresh(s: Spaces, key: string, record: Row, runText: string, crawlText: string, now: string)
    : (r: (Spaces, UpsertResult))
    requires SpacesValid(s) && key != "" && Strip(key) == key && key !in s.url.index
    ensures SpacesValid(r.0) && InsertEffect(s, r.0, key, record, runText, crawlText, now, r.1)
  {
    var urlRow := NewUrlRow(key, record, runText, crawlText, now);
    var partition := PartitionForGrDate(Get(urlRow, KGrDate));
    UpsertRowWritten(s.url, key, partition, urlRow);
    var url := UpsertRow(s.url, key, partition, urlRow);
    var upload := InsertedUpload(s.upload, key, record, partition, now);
    var pdf := InsertedPdf(s.pdf, key, record, partition, InsertCreatedAt(urlRow, now));
    (Spaces(url, upload, pdf), UpsertResult(Inserted, partition, key))
  }

  // ------------------------------------------------------------ upsert

  /**
   * What `upsert` leaves for a stored key: the url row patched and moved to
   * its `gr_date` partition, the upload row patched there when the record
   * has upload fields or a row is stored, the pdf row rebuilt from
   * `pdf_info` there, or the stored one moved there when the record has
   * none; each written partition sorted and every other key untouched.
   */
  ghost predicate UpsertEffect(before: Spaces, after: Spaces, key: string, record: Row, runText: string,
                               crawlText: string, now: string, res: UpsertResult)
  {
    SpacesValid(before) && key != "" && Strip(key) == key && key in before.url.index
    && var current := FindRow(before.url, key).value;
    UrlUpdate(current, record, runText, crawlText).Ok?
    && var urlRow := UrlUpdate(current, record, runText, crawlText).value;
    var target := PartitionForGrDate(Get(urlRow, KGrDate));
    res == UpsertResult(Updated, target, key)
    && Written(before.url, after.url, key, urlRow, target)
    && (HasUploadPatch(record) || key in before.upload.index ==>
          Written(before.upload, after.upload, key, PatchedUpload(FindRow(before.upload, key), key, record, now), target))
    && (!HasUploadPatch(record) && key !in before.upload.index ==> after.upload == before.upload)
    && (KPdfInfo in record ==>
          Written(before.pdf, after.pdf, key,
                  PdfRowFor(key, record, Str(PdfCreatedAt(FindRow(before.pdf, key), urlRow, now))), target))
    && (KPdfInfo !in record && key in before.pdf.index ==>
          Written(before.pdf, after.pdf, key, FindRow(before.pdf, key).value, target))
    && (KPdfInfo !in record && key !in before.pdf.index ==> after.pdf == before.pdf)
  }

  /** The three writes of `upsert`'s update branch make up its effect. */
  lemma UpsertEffectOf(before: Spaces, after: Spaces, key: string, record: Row, runText: string, crawlText: string,
                       now: string, urlRow: Row)
    requires SpacesValid(before) && key != "" && Strip(key) == key && key in before.url.index
    requires UrlUpdate(FindRow(before.url, key).value, record, runText, crawlText) == Ok(urlRow)
    requires Written(before.url, after.url, key, urlRow, PartitionForGrDate(Get(urlRow, KGrDate)))
    requires HasUploadPatch(record) || key in before.upload.index ==>
      Written(before.upload, after.upload, key, PatchedUpload(FindRow(before.upload, key), key, record, now),
              PartitionForGrDate(Get(urlRow, KGrDate)))
    requires !HasUploadPatch(record) && key !in before.upload.index ==> after.upload == before.upload
    requires KPdfInfo in record ==>
      Written(before.pdf, after.pdf, key, PdfRowFor(key, record, Str(PdfCreatedAt(FindRow(before.pdf, key), urlRow, now))),
              PartitionForGrDate(Get(urlRow, KGrDate)))
    requires KPdfInfo !in record && key in before.pdf.index ==>
      Written(before.pdf, after.pdf, key, FindRow(before.pdf, key).value, PartitionForGrDate(Get(urlRow, KGrDate)))
    requires KPdfInfo !in record && key !in before.pdf.index ==> after.pdf == before.pdf
    ensures UpsertEffect(before, after, key, record, runText, crawlText, now,
                         UpsertResult(Updated, PartitionForGrDate(Get(urlRow, KGrDate)), key))
  {
  }

  /**
   * `upsert` of a stored key on the three namespaces: the url row is patched
   * (an immutable field that would change raises ImmutableFieldUpdateError)
   * and written to its `gr_date` partition, then the upload and pdf rows
   * follow it there.
   */
  function UpsertStored(s: Spaces, key: string, record: Row, runText: string, crawlText: string, now: string)
    : (r: Result<(Spaces, UpsertResult)>)
    requires SpacesValid(s) && key in s.url.index
    ensures r.Err? <==> AnyUrlConflict(FindRow(s.url, key).value, record)
    ensures r.Err? ==> r.error == ImmutableFieldUpdate
    ensures r.Ok? ==> SpacesValid(r.value.0) && UpsertEffect(s, r.value.0, key, record, runText, crawlText, now, r.value.1)
  {
    IndexKeyStripped(s.url, key);
    match UrlUpdate(FindRow(s.url, key).value, record, runText, crawlText)
    case Err(e) => Err(e)
    case Ok(urlRow) =>
      var target := PartitionForGrDate(Get(urlRow, KGrDate));
      UpsertRowWritten(s.url, key, target, urlRow);
      var url := UpsertRow(s.url, key, target, urlRow);
      var upload := UpsertedUpload(s.upload, key, record, target, now);
      var pdf := UpsertedPdf(s.pdf, key, record, urlRow, target, now);
      UpsertEffectOf(s, Spaces(url, upload, pdf), key, record, runText, crawlText, now, urlRow);
      Ok((Spaces(url, upload, pdf), UpsertResult(Updated, target, key)))
  }

  /** `upsert`'s upload step: the stored row (or the default one) patched, when there is one or the record has upload fields. */
  function UpsertedUpload(ns: Namespace, key: string, record: Row, target: string, now: string): (r: Namespace)
    requires NsValid(ns) && key != "" && Strip(key) == key
    ensures NsValid(r)
    ensures HasUploadPatch(record) || key in ns.index ==>
      Written(ns, r, key, PatchedUpload(FindRow(ns, key), key, record, now), target)
    ensures !HasUploadPatch(record) && key !in ns.index ==> r == ns
  {
    if HasUploadPatch(record) || key in ns.index then
      UpsertRowWritten(ns, key, target, PatchedUpload(FindRow(ns, key), key, record, now));
      UpsertRow(ns, key, target, PatchedUpload(FindRow(ns, key), key, record, now))
    else ns
  }

  /** `upsert`'s pdf step: a row rebuilt from `pdf_info`, else the stored row rewritten in the target partition. */
  function UpsertedPdf(ns: Namespace, key: string, record: Row, urlRow: Row, target: string, now: string): (r: Namespace)
    requires NsValid(ns) && key != "" && Strip(key) == key
    ensures NsValid(r)
    ensures KPdfInfo in record ==>
      Written(ns, r, key, PdfRowFor(key, record, Str(PdfCreatedAt(FindRow(ns, key), urlRow, now))), target)
    ensures KPdfInfo !in record && key in ns.index ==> Written(ns, r, key, FindRow(ns, key).value, target)
    ensures KPdfInfo !in record && key !in ns.index ==> r == ns
  {
    if KPdfInfo in record then
      var row := PdfRowFor(key, record, Str(PdfCreatedAt(FindRow(ns, key), urlRow, now)));
      UpsertRowWritten(ns, key, target, row);
      UpsertRow(ns, key, target, row)
    else if key in ns.index then
      UpsertRowWritten(ns, key, target, FindRow(ns, key).value);
      UpsertRow(ns, key, target, FindRow(ns, key).value)
    else ns
  }

  // ----------------------------------------------------- apply_stage_result

  /** The upload slot `upload_row.get(stage)` reads. */
  function StageSlot(stage: string): (k: Key)
    ensures k != KRecordKey && k != KUniqueCode && k != KState
  {
    if stage == "download" then KDownload
    else if stage == "wayback" then KWayback
    else if stage == "archive" then KArchive
    else if stage == "hf" then KHf
    else Other(stage)
  }

  /** The error a failed stage records when the caller gives none. */
  function FailureDefault(stage: string): string
  {
    if stage == "download" then "download_failed"
    else if stage == "wayback" then "wayback_upload_failed"
    else "archive_upload_failed"
  }

  /** `error or _normalize_text(metadata.get("error")) or default`. */
  function FailureText(error: string, metadata: Row, default: string): string
  {
    if error != "" then error else TextOr(Get(metadata, KError), default)
  }

  /** `for key in keys: if key in metadata: obj[key] = metadata[key]`. */
  function CopyKeys(o: Row, metadata: Row, keys: seq<Key>): (r: Row)
    ensures forall k :: k !in keys ==> Get(r, k) == Get(o, k)
    ensures forall k :: k in keys && k in metadata ==> Get(r, k) == metadata[k]
    ensures forall k :: k in keys && k !in metadata ==> Get(r, k) == Get(o, k)
    decreases keys
  {
    if keys == [] then o
    else
      var o1 := if keys[0] in metadata then o[keys[0] := metadata[keys[0]]] else o;
      CopyKeys(o1, metadata, keys[1..])
  }

  /** The keys a successful wayback upload copies from its metadata. */
  const WaybackKeys: seq<Key> := [KUrl, KContentUrl, KArchiveTime, KArchiveSha1, KArchiveLength, KArchiveMimetype,
                                  KArchiveStatusCode]

  /** The keys a successful archive upload copies from its metadata. */
  const ArchiveKeys: seq<Key> := [KIdentifier, KUrl]

  /** The metadata keys a successful stage copies into its object. */
  function SuccessKeys(stage: string): (r: seq<Key>)
    ensures KStatus !in r && KError !in r && KAttempts !in r
  {
    if stage == "wayback" then WaybackKeys else if stage == "archive" then ArchiveKeys else []
  }

  /** The outcome written into the stage object: status and error, and on success the stage's metadata. */
  function StageOutcome(o: Row, stage: string, success: bool, metadata: Row, error: string): (r: Row)
    ensures Get(r, KStatus) == Str(if success then "success" else "failed")
    ensures Get(r, KError) == Str(if success then "" else FailureText(error, metadata, FailureDefault(stage)))
    ensures Get(r, KAttempts) == Get(o, KAttempts)
  {
    if success then CopyKeys(o[KStatus := Str("success")][KError := Str("")], metadata, SuccessKeys(stage))
    else o[KStatus := Str("failed")][KError := Str(FailureText(error, metadata, FailureDefault(stage)))]
  }

  /**
   * A successful download with `path` in the metadata marks hf as synced
   * now (a blank path clears it and keeps hf's status); `hash` sets hf's
   * hash.
   */
  function SyncHf(hf: Row, metadata: Row, now: string): (r: Row)
    ensures KPath in metadata && NormalizeText(metadata[KPath]) != "" ==>
      Get(r, KPath) == Str(NormalizeText(metadata[KPath])) && Get(r, KStatus) == Str("success")
      && Get(r, KSyncedAtUtc) == Str(now)
    ensures KPath in metadata && NormalizeText(metadata[KPath]) == "" ==>
      Get(r, KPath) == Null && Get(r, KStatus) == GetOr(hf, KStatus, Str("not_attempted"))
      && Get(r, KSyncedAtUtc) == Get(hf, KSyncedAtUtc)
    ensures KHash in metadata ==>
      Get(r, KHash) == (if NormalizeText(metadata[KHash]) != "" then Str(NormalizeText(metadata[KHash])) else Null)
    ensures forall k :: k != KHash && k != KPath && k != KStatus && k != KSyncedAtUtc ==> Get(r, k) == Get(hf, k)
    ensures KPath !in metadata ==> forall k :: k != KHash ==> Get(r, k) == Get(hf, k)
  {
    var h1 :=
      if KPath in metadata then
        var p := NormalizeText(metadata[KPath]);
        var h := hf[KPath := if p != "" then Str(p) else Null];
        h[KStatus := if p != "" then Str("success") else GetOr(h, KStatus, Str("not_attempted"))]
         [KSyncedAtUtc := if p != "" then Str(now) else Get(h, KSyncedAtUtc)]
      else hf;
    if KHash in metadata then
      var x := NormalizeText(metadata[KHash]);
      h1[KHash := if x != "" then Str(x) else Null]
    else h1
  }

  /** `upload_row.setdefault("hf", {})`, then the metadata is applied when hf is an object. */
  function HfAfterDownload(row: Row, metadata: Row, now: string): Row
  {
    match Slot(row, KHf)
    case None => row
    case Some(hf) => row[KHf := Dict(SyncHf(hf, metadata, now))]
  }

  /** `_normalize_text(wayback.get("url"))` when the wayback slot is an object, else blank. */
  function WaybackUrlText(row: Row): string
  {
    if Get(row, KWayback).Dict? then NormalizeText(Get(Get(row, KWayback).fields, KUrl)) else ""
  }

  /** The stage's attempt counter as `_to_int(stage_obj.get("attempts"), 0)` reads it. */
  function StageAttempts(up: Row, stage: string): int
  {
    ToInt(Get(ObjectAt(up, StageSlot(stage)), KAttempts), 0)
  }

  /** The upload row with the stage's outcome written, before the state machine is consulted. */
  function StagedRow(up: Row, stage: string, success: bool, metadata: Row, error: string, now: string): (r: Row)
    ensures Get(r, KState) == Get(up, KState)
  {
    var slot := StageSlot(stage);
    var o := ObjectAt(up, slot);
    var row1 := up[slot := Dict(StageOutcome(o[KAttempts := Int(ToInt(Get(o, KAttempts), 0) + 1)], stage, success,
                                             metadata, error))];
    if stage == "download" && success then HfAfterDownload(row1, metadata, now) else row1
  }

  /**
   * `apply_stage_result` on the upload row: the retry limit is checked
   * first, then the stage name; the stage object gets one more attempt and
   * the outcome; the state machine must accept a transition from the row's
   * state, but the row's state itself is left as it was.
   */
  function UploadStage(up: Row, stage: string, success: bool, metadata: Row, error: string, hasDocument: bool,
                       hasWaybackUrl: Option<bool>, now: string): (r: Result<Row>)
    ensures StageAttempts(up, stage) >= 2 ==> r == Err(RetryLimitExceeded)
    ensures StageAttempts(up, stage) < 2 && ParseStage(stage).None? ==> r == Err(InvalidTransition)
    ensures r.Ok? <==> StageAttempts(up, stage) < 2 && ParseStage(stage).Some?
                       && ValidateState(Str(TextOr(Get(up, KState), "FETCHED"))).None?
  {
    if StageAttempts(up, stage) >= 2 then Err(RetryLimitExceeded)
    else if ParseStage(stage).None? then Err(InvalidTransition)
    else
      var row := StagedRow(up, stage, success, metadata, error, now);
      var hasWayback := if stage == "archive" && hasWaybackUrl.None? then WaybackUrlText(row) != ""
                        else hasWaybackUrl == Some(true);
      match NextStateForStage(Str(TextOr(Get(row, KState), "FETCHED")), stage, success, hasWayback, hasDocument)
      case Err(e) => Err(e)
      case Ok(_) => Ok(row)
  }

  /** The success or failure recorded in the stage object, and the attempt counter one higher. */
  lemma UploadStageOutcome(up: Row, stage: string, success: bool, metadata: Row, error: string, hasDocument: bool,
                           hasWaybackUrl: Option<bool>, now: string)
    requires UploadStage(up, stage, success, metadata, error, hasDocument, hasWaybackUrl, now).Ok?
    ensures var row := UploadStage(up, stage, success, metadata, error, hasDocument, hasWaybackUrl, now).value;
      && Get(row, StageSlot(stage)).Dict?
      && StageAttempts(row, stage) == StageAttempts(up, stage) + 1
      && Get(ObjectAt(row, StageSlot(stage)), KStatus) == Str(if success then "success" else "failed")
      && Get(ObjectAt(row, StageSlot(stage)), KError)
         == Str(if success then "" else FailureText(error, metadata, FailureDefault(stage)))
  {
  }

  /** A successful wayback or archive upload copies the keys it names from the metadata into the stage object. */
  lemma UploadStageCopies(up: Row, stage: string, metadata: Row, error: string, hasDocument: bool,
                          hasWaybackUrl: Option<bool>, now: string, k: Key)
    requires UploadStage(up, stage, true, metadata, error, hasDocument, hasWaybackUrl, now).Ok?
    requires k in SuccessKeys(stage) && k in metadata
    ensures Get(ObjectAt(UploadStage(up, stage, true, metadata, error, hasDocument, hasWaybackUrl, now).value,
                         StageSlot(stage)), k) == metadata[k]
  {
  }

  /** Only the stage's own object changes, and hf too after a successful download; the state is never written. */
  lemma UploadStageFrame(up: Row, stage: string, success: bool, metadata: Row, error: string, hasDocument: bool,
                         hasWaybackUrl: Option<bool>, now: string, k: Key)
    requires UploadStage(up, stage, success, metadata, error, hasDocument, hasWaybackUrl, now).Ok?
    requires k != StageSlot(stage) && (k == KHf ==> stage != "download" || !success)
    ensures Get(UploadStage(up, stage, success, metadata, error, hasDocument, hasWaybackUrl, now).value, k) == Get(up, k)
  {
  }

  /** After a successful download, hf (created empty when missing) is synced from the metadata. */
  lemma DownloadSyncsHf(up: Row, metadata: Row, error: string, hasDocument: bool, hasWaybackUrl: Option<bool>,
                        now: string)
    requires UploadStage(up, "download", true, metadata, error, hasDocument, hasWaybackUrl, now).Ok?
    requires KHf !in up || up[KHf].Dict?
    ensures Get(UploadStage(up, "download", true, metadata, error, hasDocument, hasWaybackUrl, now).value, KHf)
            == Dict(SyncHf(ObjectAt(up, KHf), metadata, now))
  {
    assert UploadStage(up, "download", true, metadata, error, hasDocument, hasWaybackUrl, now).value
           == StagedRow(up, "download", true, metadata, error, now);
  }

  /** Each stage may run at most twice: a third result is refused. */
  lemma RetryLimitAfterTwo(up: Row, stage: string, s1: bool, s2: bool, s3: bool, metadata: Row, error: string,
                           hasDocument: bool, hasWaybackUrl: Option<bool>, now: string)
    requires StageAttempts(up, stage) >= 0
    requires UploadStage(up, stage, s1, metadata, error, hasDocument, hasWaybackUrl, now).Ok?
    requires UploadStage(UploadStage(up, stage, s1, metadata, error, hasDocument, hasWaybackUrl, now).value,
                         stage, s2, metadata, error, hasDocument, hasWaybackUrl, now).Ok?
    ensures var once := UploadStage(up, stage, s1, metadata, error, hasDocument, hasWaybackUrl, now).value;
      var twice := UploadStage(once, stage, s2, metadata, error, hasDocument, hasWaybackUrl, now).value;
      StageAttempts(up, stage) == 0
      && UploadStage(twice, stage, s3, metadata, error, hasDocument, hasWaybackUrl, now) == Err(RetryLimitExceeded)
  {
    var once := UploadStage(up, stage, s1, metadata, error, hasDocument, hasWaybackUrl, now).value;
    UploadStageOutcome(up, stage, s1, metadata, error, hasDocument, hasWaybackUrl, now);
    UploadStageOutcome(once, stage, s2, metadata, error, hasDocument, hasWaybackUrl, now);
  }

  /** The recorded row is keyed as the upload row it started from. */
  lemma UploadStageKeepsKey(up: Row, stage: string, success: bool, metadata: Row, error: string, hasDocument: bool,
                            hasWaybackUrl: Option<bool>, now: string)
    requires UploadStage(up, stage, success, metadata, error, hasDocument, hasWaybackUrl, now).Ok?
    ensures RowKey(UploadStage(up, stage, success, metadata, error, hasDocument, hasWaybackUrl, now).value) == RowKey(up)
  {
    var row := UploadStage(up, stage, success, metadata, error, hasDocument, hasWaybackUrl, now).value;
    UploadStageFrame(up, stage, success, metadata, error, hasDocument, hasWaybackUrl, now, KRecordKey);
    UploadStageFrame(up, stage, success, metadata, error, hasDocument, hasWaybackUrl, now, KUniqueCode);
    RowKeyOn(row, up);
  }

  /**
   * The upload row `apply_stage_result` starts from: the stored one, else
   * the default row stamped with the record's `created_at_utc` (or the clock).
   */
  function StageBase(s: Spaces, key: string, now: string): (r: Row)
    requires SpacesValid(s) && key in s.url.index
    ensures RowKey(r) == key
  {
    IndexKeyStripped(s.url, key);
    UploadBase(FindRow(s.upload, key), key, TextOr(Get(FindRow(s.url, key).value, KCreatedAtUtc), now))
  }

  // ------------------------------------------------------------ the store

  /** Every url field `_merge_record` does not derive is the url row's. */
  lemma MergeKeepsAllUrlFields(key: string, urlRow: Row, up: Row, pdf: Option<Row>)
    ensures forall k :: !MergedKey(k) ==> SameAt(MergeRecord(key, urlRow, up, pdf), urlRow, k)
  {
    forall k | !MergedKey(k)
      ensures SameAt(MergeRecord(key, urlRow, up, pdf), urlRow, k)
    {
      MergeKeepsUrlFields(key, urlRow, up, pdf, k);
    }
  }

  /** The text under `record_key` of a merged record, the key `iter_records` sorts by. */
  function RecordText(row: Row): string
  {
    if Get(row, KRecordKey).Str? then Get(row, KRecordKey).s else ""
  }

  function RecordOrder(row: Row): seq<int>
  {
    StrKey(RecordText(row))
  }

  /** The merged record of a stored key; `InfoStore.Find` states what it shows. */
  function Merged(s: Spaces, key: string, now: string): Option<Row>
    requires SpacesValid(s)
  {
    if key in s.url.index then
      IndexKeyStripped(s.url, key);
      var urlRow := FindRow(s.url, key).value;
      Some(MergeRecord(key, urlRow, UploadBase(FindRow(s.upload, key), key, TextOr(Get(urlRow, KUpdatedAtUtc), now)),
                       FindRow(s.pdf, key)))
    else None
  }

  /** What the merged record of a stored key shows. */
  lemma MergedShows(s: Spaces, key: string, now: string)
    requires SpacesValid(s) && Strip(key) == key
    ensures var r := Merged(s, key, now);
      && (r.Some? <==> key in s.url.index)
      && (r.Some? ==> Get(r.value, KRecordKey) == Str(key) && RecordText(r.value) == key)
      && (r.Some? ==> forall k :: !MergedKey(k) ==> SameAt(r.value, FindRow(s.url, key).value, k))
      && (r.Some? ==> Get(r.value, KPdfInfo) == PdfView(FindRow(s.pdf, key)))
      && (r.Some? && FindRow(s.upload, key).None? ==> Get(r.value, KState) == Str("FETCHED"))
  {
    if key in s.url.index {
      var urlRow := FindRow(s.url, key).value;
      var up := UploadBase(FindRow(s.upload, key), key, TextOr(Get(urlRow, KUpdatedAtUtc), now));
      MergeKeepsAllUrlFields(key, urlRow, up, FindRow(s.pdf, key));
      MergeWithoutUpload(key, urlRow, FindRow(s.pdf, key), TextOr(Get(urlRow, KUpdatedAtUtc), now));
    }
  }

  /** A stored key's merged record exists and carries the key. */
  lemma MergedKeyText(s: Spaces, key: string, now: string)
    requires SpacesValid(s) && Strip(key) == key
    ensures Merged(s, key, now).Some? <==> key in s.url.index
    ensures Merged(s, key, now).Some? ==> RecordText(Merged(s, key, now).value) == key
  {
  }

  /** `find` over each key in turn, keeping what it finds (the loop of `iter_records`). */
  function Collect<T>(keys: seq<string>, find: string -> Option<T>): seq<T>
  {
    if keys == [] then []
    else
      var found := find(keys[|keys| - 1]);
      Collect(keys[..|keys| - 1], find) + (if found.Some? then [found.value] else [])
  }

  /** One more key of the loop. */
  lemma CollectStep<T>(keys: seq<string>, i: nat, find: string -> Option<T>)
    requires i < |keys|
    ensures Collect(keys[..i + 1], find)
            == Collect(keys[..i], find) + (if find(keys[i]).Some? then [find(keys[i]).value] else [])
  {
    assert keys[..i + 1][..i] == keys[..i];
    assert keys[..i + 1][i] == keys[i];
  }

  /** When every key is found, nothing is skipped and the `j`-th value is the `j`-th key's. */
  lemma {:induction false} CollectElement<T>(keys: seq<string>, find: string -> Option<T>, j: nat)
    requires forall i :: 0 <= i < |keys| ==> find(keys[i]).Some?
    requires j < |keys|
    ensures |Collect(keys, find)| == |keys| && find(keys[j]) == Some(Collect(keys, find)[j])
  {
    var init := keys[..|keys| - 1];
    if j < |init| {
      assert keys[j] == init[j];
      CollectElement(init, find, j);
    } else if init != [] {
      CollectElement(init, find, 0);
    }
  }

  /** `find` on a store in state `s`, as a function of the code. */
  ghost function FindIn(s: Spaces, now: string): string -> Option<Row>
  {
    k => if SpacesValid(s) then Merged(s, k, now) else None
  }

  /** Collecting stored keys finds each of them: the `i`-th record is the `i`-th key's. */
  lemma CollectedRecords(s: Spaces, keys: seq<string>, now: string)
    requires SpacesValid(s) && forall i :: 0 <= i < |keys| ==> keys[i] in s.url.index
    ensures var r := Collect(keys, FindIn(s, now));
      |r| == |keys| && forall i :: 0 <= i < |r| ==> RecordText(r[i]) == keys[i] && Merged(s, keys[i], now) == Some(r[i])
  {
    var find := FindIn(s, now);
    forall i | 0 <= i < |keys|
      ensures find(keys[i]) == Merged(s, keys[i], now) && find(keys[i]).Some?
    {
      IndexKeyStripped(s.url, keys[i]);
      MergedKeyText(s, keys[i], now);
    }
    if keys != [] {
      CollectElement(keys, find, 0);
    }
    var r := Collect(keys, find);
    forall i | 0 <= i < |r|
      ensures RecordText(r[i]) == keys[i] && Merged(s, keys[i], now) == Some(r[i])
    {
      CollectElement(keys, find, i);
      IndexKeyStripped(s.url, keys[i]);
      MergedKeyText(s, keys[i], now);
    }
  }

  /** Collecting every stored key once, in code order, gives each record once, in code order. */
  lemma ListedRecords(s: Spaces, keys: seq<string>, now: string)
    requires SpacesValid(s) && |keys| == |s.url.index| && (forall p :: p in keys <==> p in s.url.index)
    requires SortedBy(keys, StrKey)
    ensures var r := Collect(keys, FindIn(s, now));
      && |r| == |s.url.index|
      && (forall i :: 0 <= i < |r| ==> Merged(s, RecordText(r[i]), now) == Some(r[i]))
      && (forall k :: k in s.url.index ==> exists i :: 0 <= i < |r| && RecordText(r[i]) == k)
      && SortedBy(r, RecordOrder)
  {
    CollectedRecords(s, keys, now);
    var r := Collect(keys, FindIn(s, now));
    forall k | k in s.url.index
      ensures exists i :: 0 <= i < |r| && RecordText(r[i]) == k
    {
      var j :| 0 <= j < |keys| && keys[j] == k;
      assert RecordText(r[j]) == k;
    }
    forall i, j | 0 <= i < j < |r|
      ensures Le(RecordOrder(r[i]), RecordOrder(r[j]))
    {
      assert RecordOrder(r[i]) == StrKey(keys[i]) && RecordOrder(r[j]) == StrKey(keys[j]);
    }
  }

  /** The result a staged write returns. */
  function Outcome<T>(w: Result<(Spaces, T)>): Result<T>
  {
    if w.Ok? then Ok(w.value.1) else Err(w.error)
  }

  /** The namespaces after a staged write: its own, or the old ones on an error. */
  function After<T>(s: Spaces, w: Result<(Spaces, T)>): Spaces
  {
    if w.Ok? then w.value.0 else s
  }

  /**
   * `insert` on the namespaces: a blank key raises ValueError, a stored one
   * DuplicateUniqueCodeError; any other is written as a new key.
   */
  function InsertRecord(s: Spaces, record: Row, runText: string, crawlText: string, now: string)
    : (r: Result<(Spaces, UpsertResult)>)
    requires SpacesValid(s)
    ensures RecordKeyOf(record) == "" ==> r == Err(ValueError)
    ensures RecordKeyOf(record) in s.url.index ==> r == Err(DuplicateUniqueCode(RecordKeyOf(record)))
    ensures r.Ok? <==> RecordKeyOf(record) != "" && RecordKeyOf(record) !in s.url.index
    ensures r.Ok? ==>
      SpacesValid(r.value.0) && InsertEffect(s, r.value.0, RecordKeyOf(record), record, runText, crawlText, now, r.value.1)
  {
    var key := RecordKeyOf(record);
    if key == "" then Err(ValueError)
    else if key in s.url.index then Err(DuplicateUniqueCode(key))
    else Ok(InsertFresh(s, key, record, runText, crawlText, now))
  }

  /**
   * `upsert` on the namespaces: a blank key raises ValueError, a new key is
   * inserted as `insert` does, and a stored key is updated (and moved when
   * its `gr_date` partition changes), which an immutable field that would
   * change refuses.
   */
  function UpsertRecord(s: Spaces, record: Row, runText: string, crawlText: string, now: string)
    : (r: Result<(Spaces, UpsertResult)>)
    requires SpacesValid(s)
    ensures RecordKeyOf(record) == "" ==> r == Err(ValueError)
    ensures RecordKeyOf(record) != "" && RecordKeyOf(record) !in s.url.index ==>
      r.Ok? && InsertEffect(s, r.value.0, RecordKeyOf(record), record, runText, crawlText, now, r.value.1)
    ensures RecordKeyOf(record) in s.url.index ==>
      (r.Err? <==> AnyUrlConflict(FindRow(s.url, RecordKeyOf(record)).value, record))
      && (r.Err? ==> r.error == ImmutableFieldUpdate)
      && (r.Ok? ==> UpsertEffect(s, r.value.0, RecordKeyOf(record), record, runText, crawlText, now, r.value.1))
    ensures r.Ok? ==> SpacesValid(r.value.0)
  {
    var key := RecordKeyOf(record);
    if key == "" then Err(ValueError)
    else if key !in s.url.index then Ok(InsertFresh(s, key, record, runText, crawlText, now))
    else UpsertStored(s, key, record, runText, crawlText, now)
  }

  /**
   * `apply_stage_result` on the namespaces: the stripped code must be
   * stored; its upload row (the default one when it has none) records the
   * stage outcome and is written back to the url row's partition, and
   * nothing else changes, the row's state included.
   */
  function StageResultSpaces(s: Spaces, code: string, stage: string, success: bool, metadata: Row, error: string,
                             hasDocument: bool, hasWaybackUrl: Option<bool>, now: string)
    : (r: Result<(Spaces, UpsertResult)>)
    requires SpacesValid(s)
    ensures r.Ok? ==> SpacesValid(r.value.0)
    ensures Strip(code) !in s.url.index ==> r == Err(RecordNotFound)
    ensures Strip(code) in s.url.index ==>
      var key := Strip(code);
      var recorded := UploadStage(StageBase(s, key, now), stage, success, metadata, error, hasDocument, hasWaybackUrl, now);
      (r.Ok? <==> recorded.Ok?) && (r.Err? ==> r.error == recorded.error)
      && (r.Ok? ==> r.value.1 == UpsertResult(Updated, s.url.index[key].partition, key)
                    && r.value.0.url == s.url && r.value.0.pdf == s.pdf
                    && Written(s.upload, r.value.0.upload, key, recorded.value, s.url.index[key].partition)
                    && Get(recorded.value, KState) == Get(StageBase(s, key, now), KState))
  {
    var key := Strip(code);
    if key !in s.url.index then Err(RecordNotFound)
    else
      var partition := s.url.index[key].partition;
      var base := StageBase(s, key, now);
      match UploadStage(base, stage, success, metadata, error, hasDocument, hasWaybackUrl, now)
      case Err(e) => Err(e)
      case Ok(row) =>
        UploadStageKeepsKey(base, stage, success, metadata, error, hasDocument, hasWaybackUrl, now);
        UploadStageFrame(base, stage, success, metadata, error, hasDocument, hasWaybackUrl, now, KState);
        IndexKeyStripped(s.url, key);
        UpsertRowWritten(s.upload, key, partition, row);
        Ok((Spaces(s.url, UpsertRow(s.upload, key, partition, row), s.pdf), UpsertResult(Updated, partition, key)))
  }

  /** `InfoStore(ledger_dir)`: opening the three namespace directories and indexing them. */
  method Open(urlDisk: Parts, uploadDisk: Parts, pdfDisk: Parts) returns (r: Result<InfoStore>)
    ensures r.Ok? <==> Unique(urlDisk, RecordKey) && Unique(uploadDisk, RecordKey) && Unique(pdfDisk, RecordKey)
    ensures r.Ok? ==> fresh(r.value) && r.value.Valid()
    ensures r.Ok? ==> r.value.url.parts == urlDisk && r.value.upload.parts == uploadDisk && r.value.pdf.parts == pdfDisk
    ensures r.Err? ==> r.error.DuplicateUniqueCode?
  {
    var store := new InfoStore(urlDisk, uploadDisk, pdfDisk);
    var err := store.RefreshIndex();
    if err.Some? {
      return Err(err.value);
    }
    return Ok(store);
  }

  class InfoStore {
    /** Each namespace's partitions (the cache and the files agree between calls) and its index. */
    var url: Namespace
    var upload: Namespace
    var pdf: Namespace

    function State(): Spaces
      reads this
    {
      Spaces(url, upload, pdf)
    }

    ghost predicate Valid()
      reads this
    {
      SpacesValid(State())
    }

    /** The three directories' rows, not yet indexed. */
    constructor(urlDisk: Parts, uploadDisk: Parts, pdfDisk: Parts)
      ensures url == Namespace(urlDisk, map[]) && upload == Namespace(uploadDisk, map[])
      ensures pdf == Namespace(pdfDisk, map[])
    {
      url := Namespace(urlDisk, map[]);
      upload := Namespace(uploadDisk, map[]);
      pdf := Namespace(pdfDisk, map[]);
    }

    /**
     * `refresh_index`: each namespace is indexed from its rows; any key
     * found twice raises DuplicateUniqueCodeError.  Rebuilding a valid
     * store gives back the same index.
     */
    method RefreshIndex() returns (err: Option<Error>)
      modifies this
      ensures url.parts == old(url.parts) && upload.parts == old(upload.parts) && pdf.parts == old(pdf.parts)
      ensures err.None? <==> Unique(url.parts, RecordKey) && Unique(upload.parts, RecordKey)
                             && Unique(pdf.parts, RecordKey)
      ensures err.None? ==> Valid()
      ensures err.Some? ==> err.value.DuplicateUniqueCode?
      ensures old(Valid()) ==> err.None? && State() == old(State())
    {
      ghost var before := State();
      var ru := BuildIndex(url.parts, RecordKey);
      if ru.Err? {
        url := Namespace(url.parts, map[]);
        return Some(ru.error);
      }
      url := Namespace(url.parts, ru.value);
      var rp := BuildIndex(upload.parts, RecordKey);
      if rp.Err? {
        upload := Namespace(upload.parts, map[]);
        return Some(rp.error);
      }
      upload := Namespace(upload.parts, rp.value);
      var rd := BuildIndex(pdf.parts, RecordKey);
      if rd.Err? {
        pdf := Namespace(pdf.parts, map[]);
        return Some(rd.error);
      }
      pdf := Namespace(pdf.parts, rd.value);
      if SpacesValid(before) {
        ExactDeterministic(url.parts, url.index, before.url.index, RecordKey);
        ExactDeterministic(upload.parts, upload.index, before.upload.index, RecordKey);
        ExactDeterministic(pdf.parts, pdf.index, before.pdf.index, RecordKey);
      }
      return None;
    }

    /** `list_partitions`: the url partitions, newest year first, then the other names, "unknown" last. */
    method ListPartitions() returns (r: seq<string>)
      ensures |r| == |url.parts| && (forall p :: p in r <==> p in url.parts)
      ensures SortedBy(r, NamespaceSortKey)
    {
      r := SortedNames(url.parts.Keys, NamespaceSortKey);
    }

    /** `exists(unique_code)`: some url row carries the stripped code. */
    function Exists(code: string): (b: bool)
      reads this
      requires Valid()
      ensures b <==> exists q, j :: Pos(url.parts, q, j) && Strip(code) != "" && KeyOf(RecordKey, url.parts[q][j]) == Strip(code)
    {
      LookupFinds(url.parts, url.index, Strip(code), RecordKey);
      Strip(code) in url.index
    }

    /**
     * `find(unique_code)`: the url row of the stripped code, merged with its
     * upload row (the default one, stamped with the url row's
     * `updated_at_utc` or the clock, when it has none) and its pdf row.
     */
    function Find(code: string, now: string): (r: Option<Row>)
      reads this
      requires Valid()
      ensures r.Some? <==> Exists(code)
      ensures r.Some? ==> Get(r.value, KRecordKey) == Str(Strip(code)) && RecordText(r.value) == Strip(code)
      ensures r.Some? ==> forall k :: !MergedKey(k) ==> SameAt(r.value, FindRow(url, Strip(code)).value, k)
      ensures r.Some? ==> Get(r.value, KPdfInfo) == PdfView(FindRow(pdf, Strip(code)))
      ensures r.Some? && FindRow(upload, Strip(code)).None? ==> Get(r.value, KState) == Str("FETCHED")
    {
      StripSetIdempotent(code, Whitespace);
      MergedShows(State(), Strip(code), now);
      Merged(State(), Strip(code), now)
    }

    /** `iter_records`: every record, merged as `Find` merges it, in code order. */
    method IterRecords(now: string) returns (r: seq<Row>)
      requires Valid()
      ensures |r| == |url.index|
      ensures forall i :: 0 <= i < |r| ==> Merged(State(), RecordText(r[i]), now) == Some(r[i])
      ensures forall k :: k in url.index ==> exists i :: 0 <= i < |r| && RecordText(r[i]) == k
      ensures SortedBy(r, RecordOrder)
    {
      var keys := SortedNames(url.index.Keys, StrKey);
      r := [];
      var i := 0;
      while i < |keys|
        invariant 0 <= i <= |keys| && r == Collect(keys[..i], FindIn(State(), now))
      {
        var found := Find(keys[i], now);
        CollectStep(keys, i, FindIn(State(), now));
        IndexKeyStripped(url, keys[i]);
        assert found == FindIn(State(), now)(keys[i]);
        if found.Some? {
          r := r + [found.value];
        }
        i := i + 1;
      }
      assert keys[..i] == keys;
      ListedRecords(State(), keys, now);
    }

    /** Commits a staged write: the namespaces it produced, or nothing on an error. */
    method Commit<T>(w: Result<(Spaces, T)>) returns (r: Result<T>)
      requires w.Ok? ==> SpacesValid(w.value.0)
      requires Valid()
      modifies this
      ensures Valid() && r == Outcome(w) && State() == After(old(State()), w)
    {
      if w.Err? {
        return Err(w.error);
      }
      var ns := w.value.0;
      url, upload, pdf := ns.url, ns.upload, ns.pdf;
      assert State() == ns;
      return Ok(w.value.1);
    }

    /** `insert`. */
    method Insert(record: Row, runType: Option<string>, crawlDate: Value, now: string, today: Date)
      returns (r: Result<UpsertResult>)
      requires Valid() && ValidDate(today)
      modifies this
      ensures var w := InsertRecord(old(State()), record, NormalizeRunType(runType), NormalizeCrawlDate(crawlDate, today), now);
        Valid() && r == Outcome(w) && State() == After(old(State()), w)
    {
      r := Commit(InsertRecord(State(), record, NormalizeRunType(runType), NormalizeCrawlDate(crawlDate, today), now));
    }

    /** `upsert`. */
    method Upsert(record: Row, runType: Option<string>, crawlDate: Value, now: string, today: Date)
      returns (r: Result<UpsertResult>)
      requires Valid() && ValidDate(today)
      modifies this
      ensures var w := UpsertRecord(old(State()), record, NormalizeRunType(runType), NormalizeCrawlDate(crawlDate, today), now);
        Valid() && r == Outcome(w) && State() == After(old(State()), w)
    {
      r := Commit(UpsertRecord(State(), record, NormalizeRunType(runType), NormalizeCrawlDate(crawlDate, today), now));
    }

    /**
     * `update_many`: the records are staged one after another on a copy of
     * the namespaces; the first failure discards every staged edit (the
     * index is rebuilt from the unchanged rows) and raises, and only a batch
     * that stages completely is committed.
     */
    method UpdateMany(records: seq<Row>, runType: Option<string>, crawlDate: Value, now: string, today: Date)
      returns (r: Result<seq<UpsertResult>>)
      requires Valid() && ValidDate(today)
      modifies this
      ensures var w := StageAll(old(State()), records, NormalizeRunType(runType), NormalizeCrawlDate(crawlDate, today), now);
        Valid() && r == Outcome(w) && State() == After(old(State()), w)
    {
      if records == [] {
        return Ok([]);
      }
      var w := StageBatch(State(), records, NormalizeRunType(runType), NormalizeCrawlDate(crawlDate, today), now);
      if w.Err? {
        Rollback();
        return Err(w.error);
      }
      r := Commit(w);
    }

    /** The `except` branch of `update_many`: the index rebuilt from disk is the one before the batch. */
    method Rollback()
      requires Valid()
      modifies this
      ensures Valid() && State() == old(State())
    {
      var _ := RefreshIndex();
    }

    /** `update`: `update_many` of the one record, and its one result. */
    method Update(record: Row, runType: Option<string>, crawlDate: Value, now: string, today: Date)
      returns (r: Result<UpsertResult>)
      requires Valid() && ValidDate(today)
      modifies this
      ensures var w := StageUpdate(old(State()), record, NormalizeRunType(runType), NormalizeCrawlDate(crawlDate, today), now);
        Valid() && r == Outcome(w) && State() == After(old(State()), w)
    {
      var results := UpdateMany([record], runType, crawlDate, now, today);
      assert [record][..0] == [];
      if results.Err? {
        return Err(results.error);
      }
      return Ok(results.value[0]);
    }

    /** `apply_stage_result`. */
    method ApplyStageResult(code: string, stage: string, success: bool, metadata: Row, error: string,
                            hasDocument: bool, hasWaybackUrl: Option<bool>, now: string)
      returns (r: Result<UpsertResult>)
      requires Valid()
      modifies this
      ensures var w := StageResultSpaces(old(State()), code, stage, success, metadata, error, hasDocument, hasWaybackUrl, now);
        Valid() && r == Outcome(w) && State() == After(old(State()), w)
    {
      r := Commit(StageResultSpaces(State(), code, stage, success, metadata, error, hasDocument, hasWaybackUrl, now));
    }
  }
}
