/**
 * The repository status table: per-stage counts over the merged ledger
 * records, its markdown rendering, and the splice of that markdown into a
 * README between two marker comments.  The clock, the partition count and
 * the number of PDF files on disk are inputs, and the README is given as
 * its text.
 */
module ReadmeStatus {
  import opened Py
  import opened Order
  import LedgerEngine

  // ------------------------------------------------------------ per record

  const NotAttempted: string := "not_attempted"

  /** `_stage_status`: the stripped status of a stage, `not_attempted` when missing or blank. */
  function StageStatus(record: Row, stage: Key): (r: string)
    ensures r != []
  {
    var stageObj := GetOr(record, stage, Dict(map[]));
    if !stageObj.Dict? then NotAttempted
    else
      var status := NormalizeText(Get(stageObj.fields, KStatus));
      if status == [] then NotAttempted else status
  }

  /** `_attempt_count`: an int (or bool) count, else 0. */
  function AttemptCount(record: Row, stage: Key): int
  {
    var attempts := GetOr(record, KAttemptCounts, Dict(map[]));
    if !attempts.Dict? then 0
    else
      var value := GetOr(attempts.fields, stage, Int(0));
      if IsPyInt(value) then IntOf(value) else 0
  }

  /** The state a record is counted under: its stripped state, or `UNKNOWN` when blank. */
  function StateLabel(record: Row): (r: string)
    ensures r != []
  {
    var state := NormalizeText(Get(record, KState));
    if state == [] then "UNKNOWN" else state
  }

  predicate Succeeded(record: Row, stage: Key) { StageStatus(record, stage) == "success" }
  predicate Failed(record: Row, stage: Key) { StageStatus(record, stage) == "failed" }

  /** A failed stage that has been tried fewer than twice. */
  predicate Retryable(record: Row, stage: Key)
  {
    Failed(record, stage) && AttemptCount(record, stage) < 2
  }

  /** Wayback is still to run: not attempted although the download succeeded. */
  predicate WaybackPending(record: Row)
  {
    StageStatus(record, KWayback) == NotAttempted && Succeeded(record, KDownload)
  }

  /** Archive is still to run: not attempted although wayback ran or the download failed. */
  predicate ArchivePending(record: Row)
  {
    var wayback := StageStatus(record, KWayback);
    StageStatus(record, KArchive) == NotAttempted
    && (wayback == "success" || wayback == "failed" || Failed(record, KDownload))
  }

  // -------------------------------------------------------------- counting

  /** The success, failed and retryable counters of one stage. */
  datatype StageTally = StageTally(success: int, failed: int, retryable: int)

  /** The counters of `compute_repository_status`'s loop. */
  datatype Tally = Tally(
    states: multiset<string>, download: StageTally, wayback: StageTally, archive: StageTally,
    waybackPending: int, archivePending: int)

  const Zero: Tally := Tally(multiset{}, StageTally(0, 0, 0), StageTally(0, 0, 0), StageTally(0, 0, 0), 0, 0)

  function Inc(b: bool): int { if b then 1 else 0 }

  /** What a stage with this status and attempt count adds to its counters. */
  function Bump(c: StageTally, status: string, attempts: int): StageTally
  {
    StageTally(c.success + Inc(status == "success"), c.failed + Inc(status == "failed"),
      c.retryable + Inc(status == "failed" && attempts < 2))
  }

  /** What one record adds to a stage's counters. */
  function StageStep(c: StageTally, record: Row, stage: Key): StageTally
  {
    Bump(c, StageStatus(record, stage), AttemptCount(record, stage))
  }

  /** One iteration of the loop over the records. */
  function Step(t: Tally, record: Row): Tally
  {
    Tally(
      t.states + multiset{StateLabel(record)},
      StageStep(t.download, record, KDownload),
      StageStep(t.wayback, record, KWayback),
      StageStep(t.archive, record, KArchive),
      t.waybackPending + Inc(WaybackPending(record)),
      t.archivePending + Inc(ArchivePending(record)))
  }

  /** The counters after the loop has seen `records`. */
  function TallyOf(records: seq<Row>): Tally
    decreases |records|
  {
    if records == [] then Zero else Step(TallyOf(records[..|records| - 1]), records[|records| - 1])
  }

  /** The number of records that satisfy `p`. */
  function Count(records: seq<Row>, p: Row -> bool): (n: nat)
    ensures n <= |records|
    decreases |records|
  {
    if records == [] then 0 else Count(records[..|records| - 1], p) + Inc(p(records[|records| - 1]))
  }

  /** A stricter condition holds for no more records. */
  lemma {:induction false} CountMono(records: seq<Row>, p: Row -> bool, q: Row -> bool)
    requires forall r :: p(r) ==> q(r)
    ensures Count(records, p) <= Count(records, q)
    decreases |records|
  {
    if records != [] {
      CountMono(records[..|records| - 1], p, q);
    }
  }

  /** Two exclusive conditions and the rest split the records. */
  lemma {:induction false} CountSplit(records: seq<Row>, p: Row -> bool, q: Row -> bool, rest: Row -> bool)
    requires forall r :: !(p(r) && q(r)) && (rest(r) <==> !p(r) && !q(r))
    ensures Count(records, p) + Count(records, q) + Count(records, rest) == |records|
    decreases |records|
  {
    if records != [] {
      CountSplit(records[..|records| - 1], p, q, rest);
    }
  }

  /** The download counters count the records whose download succeeded, failed, or can be retried. */
  lemma {:induction false} TallyDownload(records: seq<Row>)
    ensures TallyOf(records).download.success == Count(records, r => Succeeded(r, KDownload))
    ensures TallyOf(records).download.failed == Count(records, r => Failed(r, KDownload))
    ensures TallyOf(records).download.retryable == Count(records, r => Retryable(r, KDownload))
    decreases |records|
  {
    if records != [] {
      TallyDownload(records[..|records| - 1]);
    }
  }

  /** The wayback counters, with the pending ones. */
  lemma {:induction false} TallyWayback(records: seq<Row>)
    ensures TallyOf(records).wayback.success == Count(records, r => Succeeded(r, KWayback))
    ensures TallyOf(records).wayback.failed == Count(records, r => Failed(r, KWayback))
    ensures TallyOf(records).waybackPending == Count(records, WaybackPending)
    ensures TallyOf(records).wayback.retryable == Count(records, r => Retryable(r, KWayback))
    decreases |records|
  {
    if records != [] {
      TallyWayback(records[..|records| - 1]);
    }
  }

  /** The archive counters, with the pending ones. */
  lemma {:induction false} TallyArchive(records: seq<Row>)
    ensures TallyOf(records).archive.success == Count(records, r => Succeeded(r, KArchive))
    ensures TallyOf(records).archive.failed == Count(records, r => Failed(r, KArchive))
    ensures TallyOf(records).archivePending == Count(records, ArchivePending)
    ensures TallyOf(records).archive.retryable == Count(records, r => Retryable(r, KArchive))
    decreases |records|
  {
    if records != [] {
      TallyArchive(records[..|records| - 1]);
    }
  }

  /** Every record is counted under exactly one state, so the state counts add up to the total. */
  lemma {:induction false} TallyStates(records: seq<Row>, s: string)
    ensures |TallyOf(records).states| == |records|
    ensures TallyOf(records).states[s] == Count(records, r => StateLabel(r) == s)
    ensures s in TallyOf(records).states ==> s != []
    decreases |records|
  {
    if records != [] {
      TallyStates(records[..|records| - 1], s);
    }
  }

  // ---------------------------------------------------------------- status

  /** `RepositoryStatus`. */
  datatype RepositoryStatus = RepositoryStatus(
    generatedAtUtc: string, totalRecords: int, partitions: int, pdfFiles: int,
    stateCounts: multiset<string>,
    downloadSuccess: int, downloadFailed: int, downloadPending: int, downloadRetryable: int,
    waybackSuccess: int, waybackFailed: int, waybackPending: int, waybackRetryable: int,
    archiveSuccess: int, archiveFailed: int, archivePending: int, archiveRetryable: int)

  /** The status `compute_repository_status` returns for the records `iter_records` yields. */
  function StatusOf(records: seq<Row>, generatedAtUtc: string, partitions: int, pdfFiles: int): RepositoryStatus
  {
    var t := TallyOf(records);
    var pending := |records| - t.download.success - t.download.failed;
    RepositoryStatus(
      generatedAtUtc, |records|, partitions, pdfFiles, t.states,
      t.download.success, t.download.failed, if pending < 0 then 0 else pending, t.download.retryable,
      t.wayback.success, t.wayback.failed, t.waybackPending, t.wayback.retryable,
      t.archive.success, t.archive.failed, t.archivePending, t.archive.retryable)
  }

  /**
   * `compute_repository_status`: `records` is what the store's
   * `iter_records` returns; the generation time, the number of partitions
   * and the number of PDF files are inputs.
   */
  method ComputeRepositoryStatus(records: seq<Row>, generatedAtUtc: string, partitions: int, pdfFiles: int)
    returns (status: RepositoryStatus)
    ensures status == StatusOf(records, generatedAtUtc, partitions, pdfFiles)
  {
    var t := Zero;
    var i := 0;
    while i < |records|
      invariant 0 <= i <= |records|
      invariant t == TallyOf(records[..i])
    {
      assert records[..i + 1][..i] == records[..i];
      ghost var next := Step(t, records[i]);
      assert TallyOf(records[..i + 1]) == next;
      t := CountRecord(t, records[i]);
      assert t == next;
      i := i + 1;
    }
    assert records[..i] == records;
    var pending := |records| - t.download.success - t.download.failed;
    status := RepositoryStatus(
      generatedAtUtc, |records|, partitions, pdfFiles, t.states,
      t.download.success, t.download.failed, if pending < 0 then 0 else pending, t.download.retryable,
      t.wayback.success, t.wayback.failed, t.waybackPending, t.wayback.retryable,
      t.archive.success, t.archive.failed, t.archivePending, t.archive.retryable);
  }

  /** The body of the loop: the counters a record bumps. */
  method CountRecord(t: Tally, record: Row) returns (t': Tally)
    ensures t' == Step(t, record)
  {
    var downloadStatus := StageStatus(record, KDownload);
    var waybackStatus := StageStatus(record, KWayback);
    var archiveStatus := StageStatus(record, KArchive);
    var download := CountStage(t.download, downloadStatus, AttemptCount(record, KDownload));
    var wayback := CountStage(t.wayback, waybackStatus, AttemptCount(record, KWayback));
    var waybackPending := CountPending(t.waybackPending, waybackStatus == NotAttempted && downloadStatus == "success");
    var archive := CountStage(t.archive, archiveStatus, AttemptCount(record, KArchive));
    var archivePending := CountPending(t.archivePending, archiveStatus == NotAttempted
      && (waybackStatus == "success" || waybackStatus == "failed" || downloadStatus == "failed"));
    t' := Tally(t.states + multiset{StateLabel(record)}, download, wayback, archive, waybackPending, archivePending);
  }

  /**
   * The `elif` that bumps a pending counter; `pending` excludes success
   * and failure already, as `not_attempted` is neither.
   */
  method CountPending(count: int, pending: bool) returns (count': int)
    ensures count' == count + Inc(pending)
  {
    count' := count;
    if pending {
      count' := count' + 1;
    }
  }

  /** The success / failed / retryable branch the loop takes for one stage. */
  method CountStage(c: StageTally, status: string, attempts: int) returns (c': StageTally)
    ensures c' == Bump(c, status, attempts)
  {
    var success, failed, retryable := c.success, c.failed, c.retryable;
    if status == "success" {
      success := success + 1;
    } else if status == "failed" {
      failed := failed + 1;
      if attempts < 2 {
        retryable := retryable + 1;
      }
    }
    c' := StageTally(success, failed, retryable);
  }

  /**
   * What the status means: pending downloads are the records whose
   * download neither succeeded nor failed, so the `max(0, …)` never
   * clips; retryable stages are among the failed ones; the state counts
   * add up to the total.
   */
  lemma StatusFacts(records: seq<Row>, generatedAtUtc: string, partitions: int, pdfFiles: int)
    ensures var st := StatusOf(records, generatedAtUtc, partitions, pdfFiles);
      st.downloadSuccess + st.downloadFailed <= st.totalRecords
      && st.downloadPending == Count(records, r => !Succeeded(r, KDownload) && !Failed(r, KDownload))
      && st.downloadRetryable <= st.downloadFailed
      && st.waybackRetryable <= st.waybackFailed
      && st.archiveRetryable <= st.archiveFailed
      && st.waybackSuccess + st.waybackFailed + st.waybackPending <= st.totalRecords
      && |st.stateCounts| == st.totalRecords
  {
    TallyDownload(records);
    TallyWayback(records);
    TallyArchive(records);
    TallyStates(records, "");
    CountSplit(records, r => Succeeded(r, KDownload), r => Failed(r, KDownload),
      r => !Succeeded(r, KDownload) && !Failed(r, KDownload));
    CountMono(records, r => Retryable(r, KDownload), r => Failed(r, KDownload));
    CountMono(records, r => Retryable(r, KWayback), r => Failed(r, KWayback));
    CountMono(records, r => Retryable(r, KArchive), r => Failed(r, KArchive));
    CountSplit(records, r => Succeeded(r, KWayback), r => Failed(r, KWayback),
      r => !Succeeded(r, KWayback) && !Failed(r, KWayback));
    CountMono(records, WaybackPending, r => !Succeeded(r, KWayback) && !Failed(r, KWayback));
  }

  // ------------------------------------------------------------- rendering

  /** `STATE_ORDER`: the ledger's states in pipeline order. */
  const StateOrderStates: seq<LedgerEngine.State> := [
    LedgerEngine.Fetched, LedgerEngine.DownloadSuccess, LedgerEngine.DownloadFailed,
    LedgerEngine.WaybackUploaded, LedgerEngine.WaybackUploadFailed,
    LedgerEngine.ArchivedWithWaybackUrl, LedgerEngine.ArchivedWithoutWaybackUrl,
    LedgerEngine.ArchivedWithoutDocument]

  function StateOrder(): (r: seq<string>)
    ensures |r| == 8
  {
    seq(8, i requires 0 <= i < 8 => LedgerEngine.StateName(StateOrderStates[i]))
  }

  /** The table row of one state. */
  function StateRow(name: string, count: int): string
  {
    "| `" + name + "` | " + IntToStr(count) + " |"
  }

  /** The rows of `names`, each with its count (`get(name, 0)`). */
  function StateRows(names: seq<string>, counts: multiset<string>): (r: seq<string>)
    ensures |r| == |names|
  {
    seq(|names|, i requires 0 <= i < |names| => StateRow(names[i], counts[names[i]]))
  }

  /** The counted states that `STATE_ORDER` leaves out. */
  function ExtraSet(status: RepositoryStatus): set<string>
  {
    set s | s in status.stateCounts && s !in StateOrder()
  }

  /** `extras` is `sorted(...)` of the counted states outside `STATE_ORDER`. */
  ghost predicate ExtraStates(status: RepositoryStatus, extras: seq<string>)
  {
    |extras| == |ExtraSet(status)|
    && (forall s :: s in extras <==> s in ExtraSet(status))
    && SortedBy(extras, StrKey)
  }

  /** The lines before the state rows. */
  function Header(status: RepositoryStatus): (r: seq<string>)
    ensures |r| == 12
  {
    ["_Last updated (UTC): " + status.generatedAtUtc + "_",
     "",
     "| Metric | Count |",
     "| --- | ---: |",
     "| Total records | " + IntToStr(status.totalRecords) + " |",
     "| Ledger partitions | " + IntToStr(status.partitions) + " |",
     "| Downloaded PDF files (`LFS/pdfs`) | " + IntToStr(status.pdfFiles) + " |",
     "",
     "### State Distribution",
     "",
     "| State | Count |",
     "| --- | ---: |"]
  }

  function StageRow(stage: string, success: int, failed: int, pending: int, retryable: int): string
  {
    "| " + stage + " | " + IntToStr(success) + " | " + IntToStr(failed) + " | "
      + IntToStr(pending) + " | " + IntToStr(retryable) + " |"
  }

  /** The stage progress table after the state rows. */
  function Footer(status: RepositoryStatus): (r: seq<string>)
    ensures |r| == 8
  {
    ["",
     "### Stage Progress",
     "",
     "| Stage | Success | Failed | Pending | Retryable |",
     "| --- | ---: | ---: | ---: | ---: |",
     StageRow("Download", status.downloadSuccess, status.downloadFailed, status.downloadPending, status.downloadRetryable),
     StageRow("Wayback", status.waybackSuccess, status.waybackFailed, status.waybackPending, status.waybackRetryable),
     StageRow("Archive", status.archiveSuccess, status.archiveFailed, status.archivePending, status.archiveRetryable)]
  }

  /** The lines `render_status_markdown` joins, given the sorted extra states. */
  function Lines(status: RepositoryStatus, extras: seq<string>): seq<string>
  {
    Header(status) + StateRows(StateOrder(), status.stateCounts)
      + StateRows(extras, status.stateCounts) + Footer(status)
  }

  /** `render_status_markdown`. */
  method RenderStatusMarkdown(status: RepositoryStatus) returns (r: string)
    ensures exists extras :: ExtraStates(status, extras) && r == Join(Lines(status, extras), "\n")
  {
    var lines := Header(status);
    lines := AppendStateRows(lines, StateOrder(), status.stateCounts);
    var extras := SortedNames(ExtraSet(status), StrKey);
    lines := AppendStateRows(lines, extras, status.stateCounts);
    lines := lines + Footer(status);
    assert ExtraStates(status, extras);
    r := Join(lines, "\n");
  }

  /** One of the loops that append a row per state name. */
  method AppendStateRows(lines: seq<string>, names: seq<string>, counts: multiset<string>)
    returns (lines': seq<string>)
    ensures lines' == lines + StateRows(names, counts)
  {
    lines' := lines;
    var i := 0;
    while i < |names|
      invariant 0 <= i <= |names|
      invariant lines' == lines + StateRows(names[..i], counts)
    {
      assert StateRows(names[..i + 1], counts) == StateRows(names[..i], counts) + [StateRow(names[i], counts[names[i]])];
      lines' := lines' + [StateRow(names[i], counts[names[i]])];
      i := i + 1;
    }
    assert names[..i] == names;
  }

  /** No state is listed twice: `STATE_ORDER` names are distinct, and the extras are outside it. */
  lemma StateOrderDistinct(i: int, j: int)
    requires 0 <= i < j < 8
    ensures StateOrder()[i] != StateOrder()[j]
  {
    LedgerEngine.ParseStateName(StateOrderStates[i]);
    LedgerEngine.ParseStateName(StateOrderStates[j]);
  }

  /**
   * The layout of the state table: the eight `STATE_ORDER` rows come
   * first, in that order, then the extra states in sorted order, each row
   * carrying the state's count.
   */
  lemma RenderRows(status: RepositoryStatus, extras: seq<string>)
    requires ExtraStates(status, extras)
    ensures var lines := Lines(status, extras);
      |lines| == 28 + |extras|
      && (forall i :: 0 <= i < 8 ==> lines[12 + i] == StateRow(StateOrder()[i], status.stateCounts[StateOrder()[i]]))
      && (forall j :: 0 <= j < |extras| ==> lines[20 + j] == StateRow(extras[j], status.stateCounts[extras[j]]))
      && SortedBy(extras, StrKey)
  {
    PartsAt(Header(status), StateRows(StateOrder(), status.stateCounts),
      StateRows(extras, status.stateCounts), Footer(status));
  }

  /** Where the pieces of a four-part concatenation land. */
  lemma PartsAt(h: seq<string>, a: seq<string>, b: seq<string>, f: seq<string>)
    ensures forall k :: |h| <= k < |h| + |a| ==> (h + a + b + f)[k] == a[k - |h|]
    ensures forall k :: |h| + |a| <= k < |h| + |a| + |b| ==> (h + a + b + f)[k] == b[k - |h| - |a|]
  {
  }

  /** Every counted state has a row, and no state has two. */
  lemma RenderedStates(status: RepositoryStatus, extras: seq<string>)
    requires ExtraStates(status, extras)
    ensures var names := StateOrder() + extras;
      (forall s :: s in status.stateCounts ==> s in names)
      && (forall i, j :: 0 <= i < j < |names| ==> names[i] != names[j])
  {
    var names := StateOrder() + extras;
    forall s | s in status.stateCounts ensures s in names {
      if s !in StateOrder() {
        assert s in ExtraSet(status);
      }
    }
    forall i, j | 0 <= i < j < |names| ensures names[i] != names[j] {
      if j < 8 {
        StateOrderDistinct(i, j);
      } else if i < 8 {
        assert names[j] in ExtraSet(status);
      } else {
        ExtrasDistinct(status, extras, i - 8, j - 8);
      }
    }
  }

  /** Sorted by distinct keys, so no extra state repeats. */
  lemma ExtrasDistinct(status: RepositoryStatus, extras: seq<string>, i: int, j: int)
    requires ExtraStates(status, extras) && 0 <= i < j < |extras|
    ensures extras[i] != extras[j]
  {
    assert (set x | x in extras) == ExtraSet(status);
    DistinctByCount(extras);
  }

  // ---------------------------------------------------------------- splice

  // Each marker is written as its `<` and the rest, so that facts about
  // where `<` can occur stay cheap.
  const StartTail: string := "!-- STATUS_TABLE_START -->"
  const EndTail: string := "!-- STATUS_TABLE_END -->"
  const StartMarker: string := "<" + StartTail
  const EndMarker: string := "<" + EndTail
  const SectionTitle: string := "## Repository Status"

  /**
   * The splice below holds for any pair of markers of this shape: a `<`
   * only at the front, and no line break.
   */
  predicate MarkerShape(m: string)
  {
    |m| > 0 && m[0] == '<' && '\n' !in m && forall i :: 1 <= i < |m| ==> m[i] != '<'
  }

  /** The markers' shape, and a position where they differ. */
  lemma MarkerFacts()
    ensures MarkerShape(StartMarker) && MarkerShape(EndMarker) && '<' !in SectionTitle
    ensures |StartMarker| == 27 && |EndMarker| == 25 && StartMarker[18] != EndMarker[18]
  {
    assert '<' !in StartTail;
    assert '<' !in EndTail;
  }

  /** The table between its markers. */
  function BlockWith(start: string, content: string, end: string): string
  {
    start + "\n" + content + "\n" + end
  }

  /** What goes before the block when the README has no status section yet. */
  function Section(original: string, title: string): string
  {
    (if EndsWith(original, "\n") then "" else "\n") + "\n" + title + "\n\n"
  }

  /**
   * The splice with markers `start` and `end`: when both occur, the span
   * from the first `start` through the first `end` after it becomes the
   * block, and an `end` occurring only before that `start` makes
   * `str.index` raise `ValueError`; otherwise a new section is appended.
   */
  function UpdateWith(original: string, content: string, start: string, end: string, title: string): (r: Result<(string, bool)>)
    ensures r.Err? <==> (Contains(original, start) && Contains(original, end)
      && FindFrom(original, end, FindFrom(original, start, 0).value).None?)
    ensures r.Err? ==> r.error == ValueError
    ensures r.Ok? ==> (r.value.1 <==> r.value.0 != original)
  {
    var block := BlockWith(start, content, end);
    if Contains(original, start) && Contains(original, end) then
      var s := FindFrom(original, start, 0).value;
      match FindFrom(original, end, s)
      case None => Err(ValueError)
      case Some(e) =>
        var updated := original[..s] + block + original[e + |end|..];
        Ok((updated, updated != original))
    else
      var updated := original + Section(original, title) + block + "\n";
      Ok((updated, updated != original))
  }

  /** `update_readme_status` on the README's text: the new text and whether it differs. */
  function UpdateReadmeStatus(original: string, content: string): (r: Result<(string, bool)>)
  {
    UpdateWith(original, content, StartMarker, EndMarker, SectionTitle)
  }

  /** Where the characters of the block land in `pre + block + post`. */
  lemma BlockAt(pre: string, start: string, content: string, end: string, post: string)
    ensures var u := pre + BlockWith(start, content, end) + post; var p := |pre|; var n := |start|;
      var q := p + n + 2 + |content|;
      (forall k :: p <= k < p + n ==> u[k] == start[k - p])
      && u[p + n] == '\n'
      && (forall k :: p + n + 1 <= k < q - 1 ==> u[k] == content[k - p - n - 1])
      && u[q - 1] == '\n'
      && u[..p] == pre && u[q + |end|..] == post
      && u[q..q + |end|] == end
  {
    var u := pre + BlockWith(start, content, end) + post;
    var q := |pre| + |start| + 2 + |content|;
    var w := pre + start + "\n" + content + "\n";
    assert u == w + end + post;
    assert |w| == q;
  }

  /** The first `end` at or after the block's `start` is the block's own. */
  lemma BlockEnd(pre: string, start: string, content: string, end: string, post: string, d: nat)
    requires MarkerShape(start) && MarkerShape(end)
    requires d < |start| && d < |end| && start[d] != end[d]
    requires !Contains(content, end)
    ensures FindFrom(pre + BlockWith(start, content, end) + post, end, |pre|)
      == Some(|pre| + |start| + 2 + |content|)
  {
    var u := pre + BlockWith(start, content, end) + post;
    BlockAt(pre, start, content, end, post);
    NoEndInStart(pre, start, content, end, post, d);
    NoEndInContent(pre, start, content, end, post);
    FindFromAt(u, end, |pre|, |pre| + |start| + 2 + |content|);
  }

  /** No `end` starts within the block's `start` marker or on the line break after it. */
  lemma NoEndInStart(pre: string, start: string, content: string, end: string, post: string, d: nat)
    requires MarkerShape(start) && MarkerShape(end)
    requires d < |start| && d < |end| && start[d] != end[d]
    ensures var u := pre + BlockWith(start, content, end) + post;
      forall k: nat :: |pre| <= k <= |pre| + |start| ==> !OccursAt(u, end, k)
  {
    var u := pre + BlockWith(start, content, end) + post;
    var p := |pre|;
    BlockAt(pre, start, content, end, post);
    forall k: nat | p <= k <= p + |start| ensures !OccursAt(u, end, k) {
      if k == p {
        NotOccursOver(u, end, k, p + d);
      } else {
        NotOccursOver(u, end, k, k);
      }
    }
  }

  /** No `end` starts within the content or on the line break after it. */
  lemma NoEndInContent(pre: string, start: string, content: string, end: string, post: string)
    requires MarkerShape(end) && !Contains(content, end)
    ensures var u := pre + BlockWith(start, content, end) + post; var n := |pre| + |start|;
      forall k: nat :: n < k < n + 2 + |content| ==> !OccursAt(u, end, k)
  {
    var u := pre + BlockWith(start, content, end) + post;
    var n := |pre| + |start|;
    var q := n + 2 + |content|;
    BlockAt(pre, start, content, end, post);
    forall k: nat | n < k < q ensures !OccursAt(u, end, k) {
      if k + |end| <= q - 1 {
        if OccursAt(u, end, k) {
          assert u[k..k + |end|] == content[k - n - 1..k - n - 1 + |end|];
          assert OccursAt(content, end, k - n - 1);
        }
      } else {
        NotOccursOver(u, end, k, q - 1);
      }
    }
  }

  /** In text without `start` followed by `start`, the first `start` is that one. */
  lemma FirstStartAt(pre: string, start: string, rest: string)
    requires MarkerShape(start) && !Contains(pre, start) && start <= rest
    ensures FindFrom(pre + rest, start, 0) == Some(|pre|)
  {
    var u := pre + rest;
    var n := |start|;
    assert u[|pre|..|pre| + n] == rest[..n];
    forall k: nat | k < |pre| ensures !OccursAt(u, start, k) {
      if k + n <= |pre| {
        if OccursAt(u, start, k) {
          assert u[k..k + n] == pre[k..k + n];
          assert OccursAt(pre, start, k);
        }
      } else {
        assert u[|pre|] == rest[0];
        NotOccursOver(u, start, k, |pre|);
      }
    }
    FindFromAt(u, start, 0, |pre|);
  }

  /** A block spliced into `start`-free text is left as it is by a second update. */
  lemma SpliceFixed(pre: string, start: string, content: string, end: string, title: string, post: string, d: nat)
    requires MarkerShape(start) && MarkerShape(end)
    requires d < |start| && d < |end| && start[d] != end[d]
    requires !Contains(pre, start) && !Contains(content, end)
    ensures var u := pre + BlockWith(start, content, end) + post;
      UpdateWith(u, content, start, end, title) == Ok((u, false))
  {
    var block := BlockWith(start, content, end);
    var u := pre + block + post;
    assert start <= block + post;
    assert u == pre + (block + post);
    FirstStartAt(pre, start, block + post);
    BlockEnd(pre, start, content, end, post, d);
    BlockAt(pre, start, content, end, post);
  }

  /** The text before the first `start` holds no `start`. */
  lemma NoStartBefore(original: string, start: string, s: nat)
    requires start != [] && FindFrom(original, start, 0) == Some(s)
    ensures !Contains(original[..s], start)
  {
    var pre := original[..s];
    forall k: nat ensures !OccursAt(pre, start, k) {
      if OccursAt(pre, start, k) {
        assert pre[k..k + |start|] == original[k..k + |start|];
        assert OccursAt(original, start, k);
      }
    }
  }

  /** Appending the section header to `start`-free text gives `start`-free text. */
  lemma NoStartInAppend(original: string, start: string, title: string)
    requires MarkerShape(start) && '<' !in title && !Contains(original, start)
    ensures !Contains(original + Section(original, title), start)
  {
    var section := Section(original, title);
    var pre := original + section;
    var n := |start|;
    assert section[0] == '\n' && '<' !in section;
    forall k: nat ensures !OccursAt(pre, start, k) {
      if k + n <= |original| {
        if OccursAt(pre, start, k) {
          assert pre[k..k + n] == original[k..k + n];
          assert OccursAt(original, start, k);
        }
      } else if k < |original| {
        if k + n <= |pre| {
          NotOccursOver(pre, start, k, |original|);
        }
      } else if k < |pre| {
        assert pre[k] == section[k - |original|];
        NotOccursOver(pre, start, k, k);
      }
    }
  }

  /** A README with both markers: the block is replaced, and replacing it again changes nothing. */
  lemma SplicedIdempotent(original: string, content: string, start: string, end: string, title: string, d: nat,
                          s: nat, e: nat)
    requires MarkerShape(start) && MarkerShape(end) && '<' !in title
    requires d < |start| && d < |end| && start[d] != end[d]
    requires !Contains(content, end)
    requires Contains(original, start) && Contains(original, end)
    requires FindFrom(original, start, 0) == Some(s) && FindFrom(original, end, s) == Some(e)
    ensures var u := UpdateWith(original, content, start, end, title).value.0;
      UpdateWith(u, content, start, end, title) == Ok((u, false))
  {
    var u := original[..s] + BlockWith(start, content, end) + original[e + |end|..];
    assert UpdateWith(original, content, start, end, title).value.0 == u;
    NoStartBefore(original, start, s);
    SpliceFixed(original[..s], start, content, end, title, original[e + |end|..], d);
  }

  /** A README without both markers: the section is appended, and a second call changes nothing. */
  lemma AppendedIdempotent(original: string, content: string, start: string, end: string, title: string, d: nat)
    requires MarkerShape(start) && MarkerShape(end) && '<' !in title
    requires d < |start| && d < |end| && start[d] != end[d]
    requires !Contains(content, end)
    requires !Contains(original, start)
    ensures var u := UpdateWith(original, content, start, end, title).value.0;
      UpdateWith(u, content, start, end, title) == Ok((u, false))
  {
    NoStartInAppend(original, start, title);
    SpliceFixed(original + Section(original, title), start, content, end, title, "\n", d);
  }

  /** The splice is idempotent for well-shaped markers; see `UpdateReadmeIdempotent`. */
  lemma UpdateWithIdempotent(original: string, content: string, start: string, end: string, title: string, d: nat)
    requires MarkerShape(start) && MarkerShape(end) && '<' !in title
    requires d < |start| && d < |end| && start[d] != end[d]
    requires !Contains(content, end)
    requires Contains(original, start) ==> Contains(original, end)
    requires UpdateWith(original, content, start, end, title).Ok?
    ensures var u := UpdateWith(original, content, start, end, title).value.0;
      UpdateWith(u, content, start, end, title) == Ok((u, false))
  {
    if Contains(original, start) && Contains(original, end) {
      SplicedIdempotent(original, content, start, end, title, d, FindFrom(original, start, 0).value,
                        FindFrom(original, end, FindFrom(original, start, 0).value).value);
    } else {
      AppendedIdempotent(original, content, start, end, title, d);
    }
  }

  /**
   * A repeat call with the same content returns `False`: after one update
   * the first START is the block's, and the first END after it closes the
   * block, so the splice rewrites the block with itself.  `content` must
   * not contain END, and a START already in the README must have an END.
   */
  lemma UpdateReadmeIdempotent(original: string, content: string)
    requires !Contains(content, EndMarker)
    requires Contains(original, StartMarker) ==> Contains(original, EndMarker)
    requires UpdateReadmeStatus(original, content).Ok?
    ensures var u := UpdateReadmeStatus(original, content).value.0;
      UpdateReadmeStatus(u, content) == Ok((u, false))
  {
    MarkerFacts();
    UpdateWithIdempotent(original, content, StartMarker, EndMarker, SectionTitle, 18);
  }

  /** Without both markers the section is appended, so the README always changes. */
  lemma UpdateWithAppends(original: string, content: string, start: string, end: string, title: string)
    requires !(Contains(original, start) && Contains(original, end))
    ensures var r := UpdateWith(original, content, start, end, title);
      r.Ok? && r.value.1 && original <= r.value.0
      && EndsWith(r.value.0, BlockWith(start, content, end) + "\n")
  {
    var tail := BlockWith(start, content, end) + "\n";
    var u := original + Section(original, title) + tail;
    assert UpdateWith(original, content, start, end, title).value.0 == u;
    assert u == original + (Section(original, title) + tail);
    assert u[|u| - |tail|..] == tail;
  }

  lemma UpdateReadmeAppends(original: string, content: string)
    requires !(Contains(original, StartMarker) && Contains(original, EndMarker))
    ensures var r := UpdateReadmeStatus(original, content);
      r.Ok? && r.value.1 && original <= r.value.0
      && EndsWith(r.value.0, BlockWith(StartMarker, content, EndMarker) + "\n")
  {
    UpdateWithAppends(original, content, StartMarker, EndMarker, SectionTitle);
  }
}
