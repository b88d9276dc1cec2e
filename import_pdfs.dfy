/**
 * `import_pdfs_job`: PDF files found in a source directory are placed at
 * `<lfs root>/<department code>/<YYYY-MM>/<unique_code>.pdf` and the
 * ledger row's `lfs_path` is pointed at the copy.  The file system is a
 * map from path to content; SHA-1 and the ledger-relative form of a path
 * (which resolves against the working directory) are parameters.
 */
module ImportPdfs {
  import opened Py
  import opened Codes
  import Dates
  import DepartmentCodes
  import LedgerEngine

  type Files = map<string, seq<bv8>>

  // ------------------------------------------------------------ unique code

  /**
   * `extract_unique_code(file_name)`: the first run of 16 to 22 digits of
   * the cleaned name; else the digits of its stem when there are 16 or
   * more (22 at most); else nothing.
   */
  function ExtractUniqueCode(fileName: string, isFormat: char -> bool): (r: string)
    ensures r == [] || (16 <= |r| <= 22 && AllDigits(r))
  {
    var text := CleanText(Str(fileName), isFormat);
    if text == [] then []
    else if LongDigits(text).Some? then LongDigits(text).value
    else
      var digits := DigitsOnly(Stem(text));
      if 16 <= |digits| <= 22 then digits
      else if |digits| > 22 then digits[..22]
      else []
  }

  /** The code of a name with a long digit run is that run, as `LongDigits` finds it. */
  lemma ExtractUniqueCodeOfRun(fileName: string, isFormat: char -> bool)
    requires LongDigits(CleanText(Str(fileName), isFormat)).Some?
    ensures ExtractUniqueCode(fileName, isFormat) == LongDigits(CleanText(Str(fileName), isFormat)).value
  {
  }

  /** The name the job gives a copy, `<unique_code>.pdf`, yields that code again. */
  lemma ExtractUniqueCodeOfCopyName(code: string, isFormat: char -> bool)
    requires AsciiNotFormat(isFormat) && AllDigits(code) && 16 <= |code| <= 22
    ensures ExtractUniqueCode(code + ".pdf", isFormat) == code
  {
    var name := code + ".pdf";
    assert forall i :: 0 <= i < |name| ==> name[i] == (if i < |code| then code[i] else ".pdf"[i - |code|]);
    CleanTextOfPlain(name, isFormat);
    LongDigitsOfPrefix(code, ".pdf");
  }

  /** A digit text is its own stripped form. */
  lemma StripDigits(code: string)
    requires AllDigits(code)
    ensures Strip(code) == code
  {
    StripSetOfClean(code, Whitespace);
  }

  // -------------------------------------------------------------- year-month

  /**
   * `year_month_from_gr_date`: the first seven characters of the cleaned
   * text when it has at least ten with `-` at positions 4 and 7, else
   * `"unknown"`.
   */
  function YearMonthFromGrDate(grDate: Value, isFormat: char -> bool): (r: string)
    ensures r == "unknown" || (|r| == 7 && r[4] == '-' && r <= CleanText(grDate, isFormat))
  {
    var text := CleanText(grDate, isFormat);
    if |text| >= 7 && |text| >= 10 && text[4] == '-' && text[7] == '-' then text[..7] else "unknown"
  }

  /** An ISO date gives its year and month, whose year is the date's ledger partition. */
  lemma YearMonthOfIsoDate(d: Dates.Date, isFormat: char -> bool)
    requires Dates.ValidDate(d) && AsciiNotFormat(isFormat)
    ensures YearMonthFromGrDate(Str(Dates.IsoFormat(d)), isFormat) == Dates.IsoFormat(d)[..7]
  {
    var iso := Dates.IsoFormat(d);
    forall i | 0 <= i < |iso|
      ensures ' ' < iso[i] < '\U{007F}'
    {
      if i < 4 {
        assert iso[i] == iso[..4][i];
      } else if 4 < i < 7 {
        assert iso[i] == iso[5..7][i - 5];
      } else if 7 < i {
        assert iso[i] == iso[8..][i - 8];
      }
    }
    CleanTextOfPlain(iso, isFormat);
  }

  // ------------------------------------------------------------ file names

  /** The suffix of a name: from its last dot, if that dot is neither first nor last. */
  function SuffixOfName(name: string): (r: string)
    ensures StemOfName(name) + r == name
  {
    match RFind(name, '.')
    case Some(i) => if 0 < i < |name| - 1 then assert name[..i] + name[i..] == name; name[i..] else []
    case None => []
  }

  /** `PurePosixPath(text).suffix`. */
  function Suffix(text: string): string
  {
    SuffixOfName(PathName(text))
  }

  /**
   * `path.suffix.lower() == ".pdf"`.  ASCII lowering is enough: no other
   * character lowercases to `.`, `p`, `d` or `f`.
   */
  predicate IsPdf(path: string)
  {
    Lower(Suffix(path)) == ".pdf"
  }

  /** The suffix of `<base>.<ext>`, for an extension without a dot, is `.<ext>`. */
  lemma SuffixOfDotted(base: string, ext: string)
    requires base != [] && ext != [] && '.' !in ext
    ensures SuffixOfName(base + "." + ext) == "." + ext
  {
    var name := base + "." + ext;
    assert name[|base|..] == "." + ext;
    assert name[|base|] == '.';
    assert forall j :: |base| < j < |name| ==> name[j] == ext[j - |base| - 1];
    RFindAt(name, '.', |base|);
  }

  /** A file `<base>.<ext>` in any directory, with `ext` any casing of `pdf`, is a PDF. */
  lemma IsPdfOfName(dir: string, base: string, ext: string)
    requires '/' !in base + "." + ext && base != [] && Lower(ext) == "pdf" && '.' !in ext
    ensures IsPdf(dir + "/" + base + "." + ext)
  {
    var name := base + "." + ext;
    var path := dir + "/" + base + "." + ext;
    assert path == dir + "/" + name;
    LowerDotted(ext);
    PathNameOfLast(dir, name);
    SuffixOfDotted(base, ext);
    assert Suffix(path) == "." + ext;
  }

  lemma LowerDotted(ext: string)
    requires Lower(ext) == "pdf"
    ensures Lower("." + ext) == ".pdf"
  {
    assert forall i :: 0 < i < |"." + ext| ==> ("." + ext)[i] == ext[i - 1];
  }

  /** `<root>/<department>/<year-month>/<unique_code>.pdf`. */
  function Destination(root: string, department: string, yearMonth: string, code: string): (r: string)
    ensures StartsWith(r, root + "/") && EndsWith(r, code + ".pdf") && EndsWith(r, ".pdf")
  {
    (root + "/") + (department + "/" + yearMonth + "/") + (code + ".pdf")
  }

  /** The department of a ledger row: its cleaned `department_code`, else its cleaned `department_name`, as a code. */
  function DepartmentOf(record: Row, isFormat: char -> bool): string
  {
    var text := CleanText(Get(record, KDepartmentCode), isFormat);
    DepartmentCodes.DepartmentCodeFromName(if text != [] then text else CleanText(Get(record, KDepartmentName), isFormat))
  }

  /** Where the copy of a file with this code and ledger row goes. */
  function DestinationOf(root: string, record: Row, code: string, isFormat: char -> bool): (r: string)
    ensures StartsWith(r, root + "/") && EndsWith(r, code + ".pdf") && EndsWith(r, ".pdf")
  {
    Destination(root, DepartmentOf(record, isFormat), YearMonthFromGrDate(Get(record, KGrDate), isFormat), code)
  }

  // ---------------------------------------------------------------- copying

  datatype Outcome = Copied | Overwritten | Identical | Conflict

  /**
   * `_copy_pdf`: an existing destination with the same SHA-1 is left as
   * it is, one with another is kept unless `overwrite`; a missing one is
   * written.  A dry run decides the outcome and writes nothing.
   */
  function CopyPdf(files: Files, src: string, dst: string, overwrite: bool, dryRun: bool,
                   sha1: seq<bv8> -> string): (r: (Outcome, Files))
    requires src in files
  {
    if dst in files then
      if sha1(files[src]) == sha1(files[dst]) then (Identical, files)
      else if !overwrite then (Conflict, files)
      else if dryRun then (Overwritten, files)
      else (Overwritten, files[dst := files[src]])
    else if dryRun then (Copied, files)
    else (Copied, files[dst := files[src]])
  }

  /** Each outcome and what it writes. */
  lemma CopyPdfCases(files: Files, src: string, dst: string, overwrite: bool, dryRun: bool, sha1: seq<bv8> -> string)
    requires src in files
    ensures var r := CopyPdf(files, src, dst, overwrite, dryRun, sha1);
      && (r.0 == Copied <==> dst !in files)
      && (r.0 == Identical <==> dst in files && sha1(files[src]) == sha1(files[dst]))
      && (r.0 == Conflict <==> dst in files && sha1(files[src]) != sha1(files[dst]) && !overwrite)
      && (r.0 == Overwritten <==> dst in files && sha1(files[src]) != sha1(files[dst]) && overwrite)
      && r.1 == (if !dryRun && (r.0 == Copied || r.0 == Overwritten) then files[dst := files[src]] else files)
  {
  }

  /**
   * After a copy that is not a dry run the destination is there; unless it
   * was a conflict, copying the same file again finds it identical and
   * writes nothing.
   */
  lemma CopyPdfAgain(files: Files, src: string, dst: string, overwrite: bool, sha1: seq<bv8> -> string)
    requires src in files
    ensures var r := CopyPdf(files, src, dst, overwrite, false, sha1);
      dst in r.1 && src in r.1
      && (r.0 != Conflict ==> CopyPdf(r.1, src, dst, overwrite, false, sha1) == (Identical, r.1))
  {
  }

  // ------------------------------------------------------------- buckets

  /** What the job learns of a file from its path alone. */
  datatype Triage = NotPdf | NoCode | Coded(code: string)

  function TriageOf(path: string, isFormat: char -> bool): (t: Triage)
    ensures t.Coded? ==> 16 <= |t.code| <= 22 && AllDigits(t.code)
  {
    if !IsPdf(path) then NotPdf
    else
      var code := ExtractUniqueCode(PathName(path), isFormat);
      if code == [] then NoCode else Coded(code)
  }

  /** Where one file ends up in the report. */
  datatype Bucket = SkippedNonPdf | SkippedNoCode | MissingRecord | Placed(outcome: Outcome)

  /** The number of paths whose triage passes `test`. */
  function CountTriage(paths: seq<string>, isFormat: char -> bool, test: Triage -> bool): (n: nat)
    ensures n <= |paths|
  {
    if paths == [] then 0
    else CountTriage(paths[..|paths| - 1], isFormat, test) + (if test(TriageOf(paths[|paths| - 1], isFormat)) then 1 else 0)
  }

  predicate IsNotPdf(t: Triage) { t.NotPdf? }
  predicate IsNoCode(t: Triage) { t.NoCode? }

  /** A PDF path under the root: where the job may write. */
  predicate UnderRoot(root: string, path: string)
  {
    StartsWith(path, root + "/") && EndsWith(path, ".pdf")
  }

  /** One step writes nothing, or the content of `src` to one path under the root. */
  ghost predicate CopiedUnder(before: Files, after: Files, root: string, src: string)
  {
    after == before || (src in before && exists d :: UnderRoot(root, d) && after == before[d := before[src]])
  }

  /**
   * The files after some steps: none is removed, and one that is new or
   * changed is a path under the root holding the content some file had.
   */
  ghost predicate WritesUnder(before: Files, after: Files, root: string)
  {
    && (forall p :: p in before ==> p in after)
    && (forall p :: p in after && (p !in before || after[p] != before[p]) ==>
          UnderRoot(root, p) && exists q :: q in before && before[q] == after[p])
  }

  lemma WritesUnderStep(orig: Files, cur: Files, next: Files, root: string, src: string)
    requires WritesUnder(orig, cur, root) && CopiedUnder(cur, next, root, src) && src in orig
    ensures WritesUnder(orig, next, root)
  {
    if next != cur {
      var d :| UnderRoot(root, d) && next == cur[d := cur[src]];
      assert exists q :: q in orig && orig[q] == cur[src] by {
        if cur[src] == orig[src] {
          assert src in orig && orig[src] == cur[src];
        }
      }
    }
  }

  /** `ImportPdfsReport`. */
  datatype Report = Report(
    scannedPdfFiles: nat,
    copiedFiles: nat,
    overwrittenFiles: nat,
    skippedIdentical: nat,
    skippedConflicts: nat,
    skippedNonPdf: nat,
    skippedNoUniqueCode: nat,
    missingLedgerRecord: nat)

  function Tally(rep: Report, b: Bucket): (r: Report)
    ensures r.scannedPdfFiles + r.skippedNonPdf == rep.scannedPdfFiles + rep.skippedNonPdf + 1
  {
    match b
    case SkippedNonPdf => rep.(skippedNonPdf := rep.skippedNonPdf + 1)
    case SkippedNoCode => rep.(scannedPdfFiles := rep.scannedPdfFiles + 1, skippedNoUniqueCode := rep.skippedNoUniqueCode + 1)
    case MissingRecord => rep.(scannedPdfFiles := rep.scannedPdfFiles + 1, missingLedgerRecord := rep.missingLedgerRecord + 1)
    case Placed(Copied) => rep.(scannedPdfFiles := rep.scannedPdfFiles + 1, copiedFiles := rep.copiedFiles + 1)
    case Placed(Overwritten) => rep.(scannedPdfFiles := rep.scannedPdfFiles + 1, overwrittenFiles := rep.overwrittenFiles + 1)
    case Placed(Identical) => rep.(scannedPdfFiles := rep.scannedPdfFiles + 1, skippedIdentical := rep.skippedIdentical + 1)
    case Placed(Conflict) => rep.(scannedPdfFiles := rep.scannedPdfFiles + 1, skippedConflicts := rep.skippedConflicts + 1)
  }

  /** Every scanned PDF is in exactly one of the buckets. */
  predicate Balanced(rep: Report)
  {
    rep.scannedPdfFiles == rep.skippedNoUniqueCode + rep.missingLedgerRecord + rep.copiedFiles
      + rep.overwrittenFiles + rep.skippedIdentical + rep.skippedConflicts
  }

  lemma TallyBalanced(rep: Report, b: Bucket)
    requires Balanced(rep)
    ensures Balanced(Tally(rep, b))
    ensures Tally(rep, b).skippedNonPdf == rep.skippedNonPdf + (if b.SkippedNonPdf? then 1 else 0)
    ensures Tally(rep, b).skippedNoUniqueCode == rep.skippedNoUniqueCode + (if b.SkippedNoCode? then 1 else 0)
  {
  }

  /** The report after the first `i` listed files. */
  ghost predicate Scanned(rep: Report, paths: seq<string>, i: nat, isFormat: char -> bool)
  {
    && i <= |paths|
    && Balanced(rep)
    && rep.scannedPdfFiles + rep.skippedNonPdf == i
    && rep.skippedNonPdf == CountTriage(paths[..i], isFormat, IsNotPdf)
    && rep.skippedNoUniqueCode == CountTriage(paths[..i], isFormat, IsNoCode)
  }

  lemma ScanStep(rep: Report, b: Bucket, paths: seq<string>, i: nat, isFormat: char -> bool)
    requires Scanned(rep, paths, i, isFormat) && i < |paths|
    requires b.SkippedNonPdf? <==> TriageOf(paths[i], isFormat).NotPdf?
    requires b.SkippedNoCode? <==> TriageOf(paths[i], isFormat).NoCode?
    ensures Scanned(Tally(rep, b), paths, i + 1, isFormat)
  {
    assert paths[..i + 1][..i] == paths[..i];
    TallyBalanced(rep, b);
  }

  // ------------------------------------------------------------ the ledger

  /** The ledger as the job sees it: the row of every unique code. */
  type Ledger = map<string, Row>

  /** The row `store.upsert({"unique_code": code, "lfs_path": relpath})` makes of the existing row `record`. */
  function LinkedRow(record: Row, code: string, relpath: string, now: string, today: Dates.Date): (r: Result<Row>)
    requires Dates.ValidDate(today)
    ensures r.Ok? ==>
      LedgerEngine.WellFormed(r.value) && Get(r.value, KLfsPath) == Str(relpath) && Get(r.value, KUpdatedAtUtc) == Str(now)
  {
    var patch := map[KUniqueCode := Str(code), KLfsPath := Str(relpath)];
    var runText := LedgerEngine.NormalizeRunType(None);
    var crawlText := LedgerEngine.NormalizeCrawlDate(Null, today);
    var r := LedgerEngine.UpdatedRecord(record, patch, runText, crawlText, now);
    if r.Ok? then
      LedgerEngine.UpdatedCopiesMutable(record, patch, runText, crawlText, now, KLfsPath);
      r
    else r
  }

  /** The link keeps every immutable field the row already had, its unique code among them. */
  lemma LinkedRowKeeps(record: Row, code: string, relpath: string, now: string, today: Dates.Date, k: Key)
    requires Dates.ValidDate(today) && LinkedRow(record, code, relpath, now, today).Ok?
    requires LedgerEngine.Immutable(k) && !LedgerEngine.Unset(Get(record, k))
    ensures Get(LinkedRow(record, code, relpath, now, today).value, k) == Get(record, k)
  {
    LedgerEngine.UpdatedKeepsImmutable(record, map[KUniqueCode := Str(code), KLfsPath := Str(relpath)],
                                       LedgerEngine.NormalizeRunType(None), LedgerEngine.NormalizeCrawlDate(Null, today),
                                       now, k);
  }

  /**
   * What the loop needs of `ImportPdfsConfig` and its surroundings: what a
   * path tells of a file, where a file with a given row and code goes, the
   * flags, SHA-1, the ledger-relative form of a path and the clock.
   */
  datatype Job = Job(triage: string -> Triage, dest: (Row, string) -> string, overwrite: bool, dryRun: bool,
                     sha1: seq<bv8> -> string, relpathOf: string -> string, now: string, today: Dates.Date)

  /** The job of a run with PDF root `root`: files go to `DestinationOf` under it. */
  function JobOf(root: string, overwrite: bool, dryRun: bool, sha1: seq<bv8> -> string, relpathOf: string -> string,
                 isFormat: char -> bool, now: string, today: Dates.Date): (job: Job)
    ensures forall path :: job.triage(path) == TriageOf(path, isFormat)
    ensures forall record, code :: UnderRoot(root, job.dest(record, code))
  {
    Job(path => TriageOf(path, isFormat), (record: Row, code: string) => DestinationOf(root, record, code, isFormat),
        overwrite, dryRun, sha1, relpathOf, now, today)
  }

  /** What one file does: its bucket (or the error that stops the job), the files and the ledger afterwards. */
  datatype Effect = Effect(result: Result<Bucket>, files: Files, ledger: Ledger)

  /**
   * Placing a file whose code has the row `record` at `dst`: the copy
   * decides the bucket and the files; then, unless on a dry run, when the
   * destination is not there, or when the row's `lfs_path` already names
   * it, the upsert points the row at the destination, and its error stops
   * the job.
   */
  function Place(ledger: Ledger, record: Row, code: string, path: string, dst: string, files: Files,
                 overwrite: bool, dryRun: bool, sha1: seq<bv8> -> string, relpathOf: string -> string, now: string,
                 today: Dates.Date): (e: Effect)
    requires path in files && Dates.ValidDate(today)
    ensures e.files == CopyPdf(files, path, dst, overwrite, dryRun, sha1).1
    ensures e.result.Ok? ==> e.result.value == Placed(CopyPdf(files, path, dst, overwrite, dryRun, sha1).0)
    ensures dryRun ==> e.result.Ok? && e.ledger == ledger && e.files == files
    ensures e.result.Err? ==> e.ledger == ledger
  {
    var copy := CopyPdf(files, path, dst, overwrite, dryRun, sha1);
    if dryRun || dst !in copy.1 || Get(record, KLfsPath) == Str(relpathOf(dst)) then
      Effect(Ok(Placed(copy.0)), copy.1, ledger)
    else
      match LinkedRow(record, code, relpathOf(dst), now, today)
      case Err(err) => Effect(Err(err), copy.1, ledger)
      case Ok(row) => Effect(Ok(Placed(copy.0)), copy.1, ledger[code := row])
  }

  /**
   * After a placement that is not a dry run and did not fail, the row of
   * the code names the destination in `lfs_path`, every other row is as it
   * was, and a row that changed is the linked row.
   */
  lemma PlaceLinks(ledger: Ledger, code: string, path: string, dst: string, files: Files, overwrite: bool,
                   sha1: seq<bv8> -> string, relpathOf: string -> string, now: string, today: Dates.Date)
    requires path in files && code in ledger && Dates.ValidDate(today)
    requires Place(ledger, ledger[code], code, path, dst, files, overwrite, false, sha1, relpathOf, now, today).result.Ok?
    ensures var e := Place(ledger, ledger[code], code, path, dst, files, overwrite, false, sha1, relpathOf, now, today);
      && code in e.ledger
      && Get(e.ledger[code], KLfsPath) == Str(relpathOf(dst))
      && (forall c :: c in ledger && c != code ==> c in e.ledger && e.ledger[c] == ledger[c])
      && (e.ledger[code] == ledger[code] || LinkedRow(ledger[code], code, relpathOf(dst), now, today) == Ok(e.ledger[code]))
  {
    CopyPdfAgain(files, path, dst, overwrite, sha1);
  }

  /**
   * One file of the loop of `run_import_pdfs`: a non-PDF or code-less file
   * is only counted, as is one whose code has no ledger row; otherwise it
   * is placed where the job sends a file with that row and code.
   */
  function ImportOne(ledger: Ledger, path: string, files: Files, job: Job): (e: Effect)
    requires path in files && Dates.ValidDate(job.today)
    ensures forall c :: c in e.ledger <==> c in ledger
    ensures forall q :: q in files ==> q in e.files
  {
    match job.triage(path)
    case NotPdf => Effect(Ok(SkippedNonPdf), files, ledger)
    case NoCode => Effect(Ok(SkippedNoCode), files, ledger)
    case Coded(code) =>
      if code !in ledger then Effect(Ok(MissingRecord), files, ledger)
      else Place(ledger, ledger[code], code, path, job.dest(ledger[code], code), files, job.overwrite, job.dryRun,
                 job.sha1, job.relpathOf, job.now, job.today)
  }

  /**
   * The bucket of a file follows its triage, a file whose code has no row
   * changes nothing, and only the row of the file's own code can change.
   */
  lemma ImportOneProps(ledger: Ledger, path: string, files: Files, job: Job)
    requires path in files && Dates.ValidDate(job.today)
    ensures var e := ImportOne(ledger, path, files, job);
      var t := job.triage(path);
      && (e.result.Ok? ==> (e.result.value.SkippedNonPdf? <==> t.NotPdf?))
      && (e.result.Ok? ==> (e.result.value.SkippedNoCode? <==> t.NoCode?))
      && (e.result.Ok? ==> (e.result.value == MissingRecord <==> t.Coded? && t.code !in ledger))
      && (!t.Coded? || t.code !in ledger ==> e.result.Ok? && e.files == files && e.ledger == ledger)
      && (forall c :: c in ledger && t != Coded(c) ==> e.ledger[c] == ledger[c])
  {
  }

  /** Whatever one file writes is its content, at a PDF path under the root its job sends files to. */
  lemma ImportOneWrites(ledger: Ledger, path: string, files: Files, job: Job, root: string)
    requires path in files && Dates.ValidDate(job.today)
    requires forall record, code :: UnderRoot(root, job.dest(record, code))
    ensures CopiedUnder(files, ImportOne(ledger, path, files, job).files, root, path)
  {
    var t := job.triage(path);
    if t.Coded? && t.code in ledger {
      CopyPdfUnder(files, path, job.dest(ledger[t.code], t.code), root, job.overwrite, job.dryRun, job.sha1);
    }
  }

  /** The job part-way through the listed files: `failure` is the error that stopped it, if one did. */
  datatype Progress = Progress(report: Report, files: Files, ledger: Ledger, failure: Option<Error>)

  /** The job before any file: an empty report, nothing written, nothing failed. */
  function Start(files: Files, ledger: Ledger): Progress
  {
    Progress(Report(0, 0, 0, 0, 0, 0, 0, 0), files, ledger, None)
  }

  /** One more file; once stopped, the job stays where it stopped. */
  function ImportStep(p: Progress, path: string, job: Job): (q: Progress)
    requires path in p.files && Dates.ValidDate(job.today)
    ensures forall f :: f in p.files ==> f in q.files
    ensures forall c :: c in q.ledger <==> c in p.ledger
    ensures p.failure.Some? ==> q == p
  {
    if p.failure.Some? then p
    else
      var e := ImportOne(p.ledger, path, p.files, job);
      match e.result
      case Err(err) => Progress(p.report, e.files, e.ledger, Some(err))
      case Ok(b) => Progress(Tally(p.report, b), e.files, e.ledger, None)
  }

  /** The job after the listed files, in order. */
  function ImportAll(p: Progress, paths: seq<string>, job: Job): (q: Progress)
    requires Dates.ValidDate(job.today) && forall i :: 0 <= i < |paths| ==> paths[i] in p.files
    ensures forall f :: f in p.files ==> f in q.files
    ensures forall c :: c in q.ledger <==> c in p.ledger
    decreases |paths|
  {
    if paths == [] then p
    else ImportStep(ImportAll(p, paths[..|paths| - 1], job), paths[|paths| - 1], job)
  }

  /** Once stopped after a prefix, the job ends where it stopped. */
  lemma {:induction false} ImportAllStops(p: Progress, paths: seq<string>, i: nat, job: Job)
    requires Dates.ValidDate(job.today) && forall j :: 0 <= j < |paths| ==> paths[j] in p.files
    requires i <= |paths| && ImportAll(p, paths[..i], job).failure.Some?
    ensures ImportAll(p, paths, job) == ImportAll(p, paths[..i], job)
    decreases |paths|
  {
    if i < |paths| {
      var init := paths[..|paths| - 1];
      assert init[..i] == paths[..i];
      ImportAllStops(p, init, i, job);
    } else {
      assert paths[..i] == paths;
    }
  }

  /** The job after one file more is one step on from where it stood. */
  lemma ImportAllNext(p: Progress, paths: seq<string>, i: nat, job: Job)
    requires Dates.ValidDate(job.today) && forall j :: 0 <= j < |paths| ==> paths[j] in p.files
    requires i < |paths|
    ensures ImportAll(p, paths[..i + 1], job) == ImportStep(ImportAll(p, paths[..i], job), paths[i], job)
  {
    assert paths[..i + 1][..i] == paths[..i];
  }

  /**
   * From where the job stood after the first `i` files, the effect of file
   * `i` either moves it on, or stops it there for good.
   */
  lemma ImportAllAdvance(p: Progress, paths: seq<string>, i: nat, job: Job, report: Report, files: Files,
                         ledger: Ledger, e: Effect)
    requires Dates.ValidDate(job.today) && forall j :: 0 <= j < |paths| ==> paths[j] in p.files
    requires i < |paths| && ImportAll(p, paths[..i], job) == Progress(report, files, ledger, None)
    requires e == ImportOne(ledger, paths[i], files, job)
    ensures e.result.Ok? ==> ImportAll(p, paths[..i + 1], job) == Progress(Tally(report, e.result.value), e.files, e.ledger, None)
    ensures e.result.Err? ==> ImportAll(p, paths, job) == Progress(report, e.files, e.ledger, Some(e.result.error))
  {
    ImportAllNext(p, paths, i, job);
    if e.result.Err? {
      ImportAllStops(p, paths, i + 1, job);
    }
  }

  /** A dry run writes neither files nor the ledger, and never stops. */
  lemma {:induction false} ImportAllDryRun(p: Progress, paths: seq<string>, job: Job)
    requires Dates.ValidDate(job.today) && forall j :: 0 <= j < |paths| ==> paths[j] in p.files
    requires job.dryRun
    ensures var q := ImportAll(p, paths, job);
      q.files == p.files && q.ledger == p.ledger && q.failure == p.failure
    decreases |paths|
  {
    if paths != [] {
      ImportAllDryRun(p, paths[..|paths| - 1], job);
    }
  }

  /** The row of a code that no listed file carries is left as it was. */
  lemma {:induction false} ImportAllKeeps(p: Progress, paths: seq<string>, c: string, job: Job)
    requires Dates.ValidDate(job.today) && forall j :: 0 <= j < |paths| ==> paths[j] in p.files
    requires c in p.ledger && forall j :: 0 <= j < |paths| ==> job.triage(paths[j]) != Coded(c)
    ensures ImportAll(p, paths, job).ledger[c] == p.ledger[c]
    decreases |paths|
  {
    if paths != [] {
      var init := paths[..|paths| - 1];
      ImportAllKeeps(p, init, c, job);
      var before := ImportAll(p, init, job);
      if before.failure.None? {
        ImportOneProps(before.ledger, paths[|paths| - 1], before.files, job);
      }
    }
  }

  // ------------------------------------------------------------------ run

  /**
   * What placing a file with a ledger row does: the copy `_copy_pdf`
   * decides, and, unless on a dry run or when the row's `lfs_path` already
   * names the destination, the upsert that points the row at it.  `kept`
   * says the ledger is unchanged, `linked` is the row afterwards.
   */
  ghost predicate Placement(record: Row, code: string, path: string, dst: string, files: Files, after: Files,
                            overwrite: bool, dryRun: bool, sha1: seq<bv8> -> string, relpathOf: string -> string,
                            r: Result<Bucket>, kept: bool, linked: Option<Row>)
    requires path in files
  {
    var copy := CopyPdf(files, path, dst, overwrite, dryRun, sha1);
    && after == copy.1
    && (r.Ok? ==> r.value == Placed(copy.0))
    && (dryRun || Get(record, KLfsPath) == Str(relpathOf(dst)) ==> r.Ok? && kept)
    && (r.Err? ==> kept)
    && (r.Ok? && !dryRun ==> linked.Some? && Get(linked.value, KLfsPath) == Str(relpathOf(dst)))
  }

  /** A copy to a destination under the root writes there, if anywhere. */
  lemma CopyPdfUnder(files: Files, src: string, dst: string, root: string, overwrite: bool, dryRun: bool,
                     sha1: seq<bv8> -> string)
    requires src in files && UnderRoot(root, dst)
    ensures CopiedUnder(files, CopyPdf(files, src, dst, overwrite, dryRun, sha1).1, root, src)
  {
    var after := CopyPdf(files, src, dst, overwrite, dryRun, sha1).1;
    if after != files {
      assert after == files[dst := files[src]];
    }
  }

  /** The copy and ledger update for a file whose code has the row `record`. */
  method PlaceFile(store: LedgerEngine.LedgerStore, path: string, code: string, record: Row, destination: string,
                   files: Files, root: string, overwrite: bool, dryRun: bool, sha1: seq<bv8> -> string,
                   relpathOf: string -> string, now: string, today: Dates.Date)
    returns (r: Result<Bucket>, after: Files)
    requires store.Valid() && Dates.ValidDate(today) && path in files && UnderRoot(root, destination)
    requires AllDigits(code) && store.Find(code) == Some(record)
    modifies store
    ensures store.Valid()
    ensures CopiedUnder(files, after, root, path)
    ensures dryRun ==> r.Ok? && after == files && store.parts == old(store.parts)
    ensures r.Ok? ==> r.value.Placed?
    ensures Placement(record, code, path, destination, files, after, overwrite, dryRun, sha1, relpathOf, r,
                      store.parts == old(store.parts), store.Find(code))
    ensures Effect(r, after, store.Records())
         == Place(old(store.Records()), record, code, path, destination, files, overwrite, dryRun, sha1, relpathOf,
                  now, today)
  {
    var copy := CopyPdf(files, path, destination, overwrite, dryRun, sha1);
    CopyPdfUnder(files, path, destination, root, overwrite, dryRun, sha1);
    var outcome := copy.0;
    after := copy.1;
    ghost var ledger := store.Records();
    if !dryRun && destination in after {
      var relpath := relpathOf(destination);
      if Get(record, KLfsPath) == Str(relpath) {
        return Ok(Placed(outcome)), after;
      }
      var err := LinkRecord(store, code, record, relpath, now, today);
      if err.Some? {
        return Err(err.value), after;
      }
      assert store.Records() == ledger[code := LinkedRow(record, code, relpath, now, today).value];
    }
    return Ok(Placed(outcome)), after;
  }

  /**
   * One file of the loop of `run_import_pdfs`: a non-PDF or code-less file
   * is only counted, as is one whose code has no ledger row; otherwise it
   * is placed.
   */
  method ImportFile(store: LedgerEngine.LedgerStore, path: string, files: Files, root: string, overwrite: bool,
                    dryRun: bool, sha1: seq<bv8> -> string, relpathOf: string -> string, isFormat: char -> bool,
                    now: string, today: Dates.Date)
    returns (r: Result<Bucket>, after: Files)
    requires store.Valid() && Dates.ValidDate(today) && path in files
    modifies store
    ensures store.Valid()
    ensures CopiedUnder(files, after, root, path)
    ensures dryRun ==> r.Ok? && after == files && store.parts == old(store.parts)
    ensures r.Ok? ==> (r.value.SkippedNonPdf? <==> TriageOf(path, isFormat).NotPdf?)
    ensures r.Ok? ==> (r.value.SkippedNoCode? <==> TriageOf(path, isFormat).NoCode?)
    ensures !TriageOf(path, isFormat).Coded? ==> r.Ok? && after == files && store.parts == old(store.parts)
    ensures TriageOf(path, isFormat).Coded? && old(store.Find(TriageOf(path, isFormat).code)).None? ==>
      r == Ok(MissingRecord) && after == files && store.parts == old(store.parts)
    ensures TriageOf(path, isFormat).Coded? && old(store.Find(TriageOf(path, isFormat).code)).Some? ==>
      var code := TriageOf(path, isFormat).code;
      var record := old(store.Find(code)).value;
      Placement(record, code, path, DestinationOf(root, record, code, isFormat), files, after, overwrite, dryRun, sha1,
                relpathOf, r, store.parts == old(store.parts), store.Find(code))
    ensures Effect(r, after, store.Records())
         == ImportOne(old(store.Records()), path, files, JobOf(root, overwrite, dryRun, sha1, relpathOf, isFormat, now, today))
  {
    after := files;
    if !IsPdf(path) {
      return Ok(SkippedNonPdf), after;
    }
    var code := ExtractUniqueCode(PathName(path), isFormat);
    if code == [] {
      return Ok(SkippedNoCode), after;
    }
    var found := store.Find(code);
    if found.None? {
      return Ok(MissingRecord), after;
    }
    var destination := DestinationOf(root, found.value, code, isFormat);
    r, after := PlaceFile(store, path, code, found.value, destination, files, root, overwrite, dryRun, sha1, relpathOf,
                          now, today);
  }

  /** `store.upsert({"unique_code": code, "lfs_path": relpath})` on the existing row of `code`. */
  method LinkRecord(store: LedgerEngine.LedgerStore, code: string, record: Row, relpath: string, now: string,
                    today: Dates.Date)
    returns (err: Option<Error>)
    requires store.Valid() && Dates.ValidDate(today) && AllDigits(code) && store.Find(code) == Some(record)
    modifies store
    ensures store.Valid()
    ensures err.Some? ==> store.parts == old(store.parts)
    ensures err.None? ==> store.Find(code).Some? && Get(store.Find(code).value, KLfsPath) == Str(relpath)
    ensures err.Some? <==> LinkedRow(record, code, relpath, now, today).Err?
    ensures err.Some? ==>
      err.value == LinkedRow(record, code, relpath, now, today).error && store.Records() == old(store.Records())
    ensures err.None? ==> store.Records() == old(store.Records())[code := LinkedRow(record, code, relpath, now, today).value]
  {
    var patch := map[KUniqueCode := Str(code), KLfsPath := Str(relpath)];
    StripDigits(code);
    assert LedgerEngine.UpsertCode(patch) == Ok(code) && store.Exists(code);
    var u := store.Upsert(patch, None, Null, now, today);
    if u.Err? {
      assert LinkedRow(record, code, relpath, now, today) == Err(u.error);
      return Some(u.error);
    }
    assert u.value.uniqueCode == code;
    assert LinkedRow(record, code, relpath, now, today) == Ok(store.Find(code).value);
    return None;
  }

  /**
   * `run_import_pdfs` over the listed files, in order: a missing source
   * directory raises FileNotFoundError; every file is counted in exactly
   * one bucket; a dry run writes neither files nor the ledger; every file
   * written is a PDF under the root holding a listed file's content.
   */
  method RunImportPdfs(store: LedgerEngine.LedgerStore, sourceIsDir: bool, paths: seq<string>, files: Files,
                       root: string, overwrite: bool, dryRun: bool, sha1: seq<bv8> -> string,
                       relpathOf: string -> string, isFormat: char -> bool, now: string, today: Dates.Date)
    returns (r: Result<Report>, after: Files)
    requires store.Valid() && Dates.ValidDate(today)
    requires forall i :: 0 <= i < |paths| ==> paths[i] in files
    modifies store
    ensures store.Valid()
    ensures !sourceIsDir ==> r == Err(FileNotFound) && after == files && store.parts == old(store.parts)
    ensures dryRun ==> after == files && store.parts == old(store.parts) && (sourceIsDir ==> r.Ok?)
    ensures WritesUnder(files, after, root)
    ensures r.Ok? ==>
      && Balanced(r.value)
      && r.value.scannedPdfFiles + r.value.skippedNonPdf == |paths|
      && r.value.skippedNonPdf == CountTriage(paths, isFormat, IsNotPdf)
      && r.value.skippedNoUniqueCode == CountTriage(paths, isFormat, IsNoCode)
    ensures sourceIsDir ==>
      var q := ImportAll(Start(files, old(store.Records())), paths,
                         JobOf(root, overwrite, dryRun, sha1, relpathOf, isFormat, now, today));
      && after == q.files && store.Records() == q.ledger
      && (r.Ok? <==> q.failure.None?)
      && (r.Ok? ==> r.value == q.report)
      && (r.Err? ==> r.error == q.failure.value)
  {
    after := files;
    if !sourceIsDir {
      return Err(FileNotFound), after;
    }
    assert paths[..|paths|] == paths;
    var report := Report(0, 0, 0, 0, 0, 0, 0, 0);
    ghost var start := Start(files, store.Records());
    ghost var job := JobOf(root, overwrite, dryRun, sha1, relpathOf, isFormat, now, today);
    assert paths[..0] == [];
    for i := 0 to |paths|
      invariant store.Valid()
      invariant ImportAll(start, paths[..i], job) == Progress(report, after, store.Records(), None)
      invariant WritesUnder(files, after, root)
      invariant dryRun ==> after == files && store.parts == old(store.parts)
      invariant Scanned(report, paths, i, isFormat)
    {
      ghost var ledger := store.Records();
      var bucket, next := ImportFile(store, paths[i], after, root, overwrite, dryRun, sha1, relpathOf, isFormat,
                                     now, today);
      ImportAllAdvance(start, paths, i, job, report, after, ledger, Effect(bucket, next, store.Records()));
      WritesUnderStep(files, after, next, root, paths[i]);
      after := next;
      if bucket.Err? {
        return Err(bucket.error), after;
      }
      ScanStep(report, bucket.value, paths, i, isFormat);
      report := Tally(report, bucket.value);
    }
    return Ok(report), after;
  }
}
