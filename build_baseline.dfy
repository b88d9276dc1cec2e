/**
 * The baseline ledger builder: the per-field normalisers, the scores that
 * pick one row per unique code and stage, the crawl-date and state
 * derivation, and the ledger record built from the chosen rows.  The two
 * loops of the build (collecting the source rows, emitting the records)
 * are in module BuildBaselineRecords.
 *
 * `parse_datetime_utc`, `parse_size_bytes`, `parse_int`, `unquote`, the
 * Unicode `Cf` table and the file-system probe for `lfs_path` are
 * parameters, gathered in `Env`.
 */
module BuildBaseline {
  import opened Py
  import opened Dates
  import opened Order
  import opened Codes
  import opened LedgerEngine
  import DepartmentCodes
  import ValidateLedger

  // ------------------------------------------------------------ the inputs

  /** A calendar date `datetime.date()` can return. */
  type Day = d: Date | ValidDate(d) witness Date(1970, 1, 1)

  /** A parsed `download_time_utc`: its UTC date and its instant in seconds since 1970-01-01 UTC. */
  datatype Moment = Moment(day: Day, instant: int)

  /** What the build takes from its surroundings. */
  datatype Env = Env(
    isFormat: char -> bool,             // Unicode's `Cf` category
    unquote: string -> string,          // `urllib.parse.unquote`
    parseUtc: Value -> Option<Moment>,  // `parse_datetime_utc`
    parseSize: string -> Option<int>,   // `parse_size_bytes` of the chosen text
    parseInt: Value -> Option<int>,     // `parse_int`
    isFile: string -> bool)             // `Path(p).exists() and Path(p).is_file()`

  // Column names of the source datasets that are not ledger fields.
  const UniqueCodeCol: Key := Other("Unique Code")
  const DownloadCol: Key := Other("Download")
  const TitleCol: Key := Other("Title")
  const DepartmentNameCol: Key := Other("Department Name")
  const GrDateCol: Key := Other("G.R. Date")
  const DownloadTimeCol: Key := Other("download_time_utc")
  const LinkSuccessCol: Key := Other("link_success")
  const ArchiveUrlCol: Key := Other("archive_url")
  const WaybackUrlCol: Key := Other("wayback_url")
  const UploadSuccessCol: Key := Other("upload_success")
  const DownloadSuccessCol: Key := Other("download_success")
  const FileSizeKbCol: Key := Other("File Size (KB)")
  const FileSizeCol: Key := Other("File Size")

  // ------------------------------------------------------- first_non_empty

  /** `EMPTY_TEXT`: the texts that count as no value. */
  predicate EmptyText(t: string)
  {
    t == "" || t == "-" || t == "None" || t == "null" || t == "NULL"
  }

  /** `first_non_empty(*values)`: the first cleaned value that is not an empty text, else `""`. */
  function FirstNonEmpty(values: seq<Value>, isFormat: char -> bool): (r: string)
    ensures r == "" <==> forall i :: 0 <= i < |values| ==> EmptyText(CleanText(values[i], isFormat))
    ensures r != "" ==> !EmptyText(r)
    ensures r != "" ==> exists i :: (0 <= i < |values| && CleanText(values[i], isFormat) == r
      && forall j :: 0 <= j < i ==> EmptyText(CleanText(values[j], isFormat)))
  {
    if values == [] then ""
    else
      var text := CleanText(values[0], isFormat);
      if !EmptyText(text) then text
      else
        var rest := FirstNonEmpty(values[1..], isFormat);
        assert forall i :: 1 <= i < |values| ==> values[1..][i - 1] == values[i];
        rest
  }

  // ---------------------------------------------------------- parse_gr_date

  /** The first of `%d-%m-%Y` and `%Y-%m-%d` that `strptime` accepts. */
  function GrDateOf(text: string): (r: Option<Date>)
    ensures r.Some? ==> ValidDate(r.value)
  {
    match StrptimeDmy(text, '-')
    case Some(d) => Some(d)
    case None => StrptimeYmd(text, '-')
  }

  /** `parse_gr_date`: the cleaned text read by the first format that fits, as `isoformat()`, else None. */
  function ParseGrDate(value: Value, isFormat: char -> bool): (r: Option<string>)
    ensures r.Some? ==> FromIsoFormat(r.value).Some?
  {
    var text := CleanText(value, isFormat);
    if text == [] then None
    else
      match GrDateOf(text)
      case None => None
      case Some(d) =>
        FromIsoFormatOfIsoFormat(d);
        Some(IsoFormat(d))
  }

  /** An ISO date reads back as itself: the day-first format does not fit it. */
  lemma ParseGrDateOfIso(d: Date, isFormat: char -> bool)
    requires ValidDate(d) && AsciiNotFormat(isFormat)
    ensures ParseGrDate(Str(IsoFormat(d)), isFormat) == Some(IsoFormat(d))
  {
    var t := IsoFormat(d);
    var y, m, dd := Pad4(d.year), Pad2(d.month), Pad2(d.day);
    assert t == y + ['-'] + m + ['-'] + dd;
    DateChars(y, m, dd);
    CleanTextOfPlain(t, isFormat);
    Split3Of(y, m, dd, '-');
    assert StrptimeDmy(t, '-').None?;
    StrptimeYmdOfIsoFormat(d);
  }

  /** A zero-padded `dd-mm-YYYY` date reads as that date. */
  lemma ParseGrDateOfDayFirst(d: Date, isFormat: char -> bool)
    requires ValidDate(d) && AsciiNotFormat(isFormat)
    ensures ParseGrDate(Str(Pad2(d.day) + "-" + Pad2(d.month) + "-" + Pad4(d.year)), isFormat) == Some(IsoFormat(d))
  {
    var dd, m, y := Pad2(d.day), Pad2(d.month), Pad4(d.year);
    var t := dd + "-" + m + "-" + y;
    DateChars(dd, m, y);
    CleanTextOfPlain(t, isFormat);
    Split3Of(dd, m, y, '-');
    MonthFieldOfPad2(d.month);
    DayFieldOfPad2(d.day);
  }

  /** A text without a `-` is never a date here, so `dd/mm/YYYY` is not accepted. */
  lemma ParseGrDateNeedsDash(t: string, isFormat: char -> bool)
    requires '-' !in CleanText(Str(t), isFormat)
    ensures ParseGrDate(Str(t), isFormat) == None
  {
  }

  /** Three digit strings joined by `-` are printable ASCII without blanks. */
  lemma DateChars(a: string, b: string, c: string)
    requires AllDigits(a) && AllDigits(b) && AllDigits(c)
    ensures var t := a + "-" + b + "-" + c; forall i :: 0 <= i < |t| ==> ' ' < t[i] < '\U{007F}'
  {
    var t := a + "-" + b + "-" + c;
    forall i | 0 <= i < |t| ensures ' ' < t[i] < '\U{007F}' {
      if i < |a| { assert t[i] == a[i]; }
      else if |a| < i <= |a| + |b| { assert t[i] == b[i - |a| - 1]; }
      else if |a| + |b| + 1 < i { assert t[i] == c[i - |a| - |b| - 2]; }
    }
  }

  // -------------------------------------------------------- partition keys

  /** `s[:n]`. */
  function Prefix(s: string, n: nat): (r: string)
    ensures |r| <= n && r <= s
  {
    if |s| <= n then s else s[..n]
  }

  /** `gr_date_iso[:4] if gr_date_iso else "unknown"`: the baseline's partition key. */
  function PartitionKey(iso: Option<string>): string
  {
    if iso.Some? && iso.value != "" then Prefix(iso.value, 4) else "unknown"
  }

  /** `gr_date_iso[:7] if gr_date_iso else "unknown"`: the month directory of the PDF path. */
  function YearMonth(iso: Option<string>): string
  {
    if iso.Some? && iso.value != "" then Prefix(iso.value, 7) else "unknown"
  }

  /** `str(n)` of a four-digit year is its zero-padded spelling. */
  lemma NatToStrOfYear(n: nat)
    requires 1000 <= n <= 9999
    ensures NatToStr(n) == Pad4(n)
  {
    var q1 := n / 10;
    var q2 := q1 / 10;
    var q3 := q2 / 10;
    assert q2 == n / 100 && q3 == n / 1000 && 1 <= q3 <= 9;
    assert NatToStr(q3) == [DigitChar(q3)];
    assert NatToStr(q2) == [DigitChar(q3), DigitChar(q2 % 10)];
    assert NatToStr(q1) == [DigitChar(q3), DigitChar(q2 % 10), DigitChar(q1 % 10)];
    assert NatToStr(n) == [DigitChar(q3), DigitChar(q2 % 10), DigitChar(q1 % 10), DigitChar(n % 10)];
    assert n == 100 * q2 + 10 * (q1 % 10) + n % 10;
    assert (n % 100) / 10 == q1 % 10 && (n % 100) % 10 == n % 10;
    assert Pad2(n / 100) == [DigitChar(q3), DigitChar(q2 % 10)];
    assert Pad2(n % 100) == [DigitChar(q1 % 10), DigitChar(n % 10)];
  }

  /**
   * The baseline files a record under the key the ledger itself computes
   * from the record's `gr_date`, as long as the year has four digits
   * without a leading zero; a record without a date goes to `unknown`.
   */
  lemma PartitionKeyAgrees(iso: Option<string>)
    requires iso.Some? ==> FromIsoFormat(iso.value).Some? && FromIsoFormat(iso.value).value.year >= 1000
    ensures PartitionKey(iso) == PartitionForGrDate(Str(if iso.Some? then iso.value else ""))
  {
    if iso.Some? {
      var d := FromIsoFormat(iso.value).value;
      assert iso.value == IsoFormat(d);
      ParseIsoDateOfIsoFormat(d);
      NatToStrOfYear(d.year);
    } else {
      assert Strip("") == "";
    }
  }

  /** A year below 1000 is where the two disagree: the baseline keeps the zero padding. */
  lemma PartitionKeyOfEarlyYear()
    ensures PartitionKey(Some("0999-01-01")) == "0999"
    ensures PartitionForGrDate(Str("0999-01-01")) == "999"
  {
    var d := Date(999, 1, 1);
    IsoOfEarlyYear();
    ParseIsoDateOfIsoFormat(d);
    assert NatToStr(9) == "9" && NatToStr(99) == "99";
  }

  lemma IsoOfEarlyYear()
    ensures IsoFormat(Date(999, 1, 1)) == "0999-01-01"
  {
  }

  // ---------------------------------------------------------- safe_filename

  /** `[A-Za-z0-9._-]`. */
  predicate SafeChar(c: char)
  {
    IsAlnum(c) || c == '.' || c == '_' || c == '-'
  }

  /** `re.sub(r"[^A-Za-z0-9._-]+", "_", value).strip("_") or "unknown"`. */
  function SafeFilename(value: string): (r: string)
    ensures r != []
    ensures forall i :: 0 <= i < |r| ==> SafeChar(r[i])
    ensures r[0] != '_' && r[|r| - 1] != '_'
  {
    var replaced := SubRuns(value, SafeChar, "_");
    var text := StripSet(replaced, {'_'});
    StripSetShape(replaced, {'_'});
    if text == [] then "unknown" else text
  }

  /** A text of safe characters is left as it is by the substitution. */
  lemma {:induction false} SubRunsOfKept(s: string, keep: char -> bool, rep: string)
    requires forall i :: 0 <= i < |s| ==> keep(s[i])
    ensures SubRuns(s, keep, rep) == s
  {
    if s != [] {
      assert forall i :: 0 <= i < |s[1..]| ==> s[1..][i] == s[i + 1];
      SubRunsOfKept(s[1..], keep, rep);
    }
  }

  /** A name that is already safe, with no `_` at either end, is its own file name. */
  lemma SafeFilenameOfSafe(t: string)
    requires t != [] && t[0] != '_' && t[|t| - 1] != '_'
    requires forall i :: 0 <= i < |t| ==> SafeChar(t[i])
    ensures SafeFilename(t) == t
  {
    SubRunsOfKept(t, SafeChar, "_");
    StripSetOfClean(t, {'_'});
  }

  /** Making a file name safe twice changes nothing. */
  lemma SafeFilenameIdempotent(value: string)
    ensures SafeFilename(SafeFilename(value)) == SafeFilename(value)
  {
    SafeFilenameOfSafe(SafeFilename(value));
  }

  /** A name with nothing safe in it becomes `unknown`. */
  lemma SafeFilenameOfUnsafe(value: string)
    requires forall i :: 0 <= i < |value| ==> !SafeChar(value[i])
    ensures SafeFilename(value) == "unknown"
  {
    if value != [] {
      assert DropRun(value, SafeChar) == [] by {
        DropRunAll(value, SafeChar);
      }
      assert SubRuns(value, SafeChar, "_") == "_";
      assert StripSet("_", {'_'}) == [];
    }
  }

  lemma {:induction false} DropRunAll(s: string, keep: char -> bool)
    requires forall i :: 0 <= i < |s| ==> !keep(s[i])
    ensures DropRun(s, keep) == []
  {
    if s != [] {
      assert forall i :: 0 <= i < |s[1..]| ==> s[1..][i] == s[i + 1];
      DropRunAll(s[1..], keep);
    }
  }

  // ---------------------------------------------------------------- scores

  /** `1 if c else 0`. */
  function Flag(c: bool): int { if c then 1 else 0 }

  /** `MIN_DATETIME`, 1970-01-01 UTC, as an instant. */
  const MinInstant: int := 0

  /** The instant of a parsed time, or `MIN_DATETIME` for none. */
  function InstantOr(m: Option<Moment>): int
  {
    if m.Some? then m.value.instant else MinInstant
  }

  /** `score_merged_row`: completeness, a valid G.R. date, a crawl time, that time, the source priority. */
  function ScoreMerged(row: Row, priority: int, env: Env): (r: seq<int>)
    ensures |r| == 5 && 0 <= r[0] <= 5 && 0 <= r[1] <= 1 && 0 <= r[2] <= 1 && r[4] == priority
    ensures r[1] == 1 <==> ParseGrDate(Get(row, GrDateCol), env.isFormat).Some?
  {
    var filled := Flag(FirstNonEmpty([Get(row, TitleCol)], env.isFormat) != "")
      + Flag(FirstNonEmpty([Get(row, DepartmentNameCol)], env.isFormat) != "")
      + Flag(FirstNonEmpty([Get(row, GrDateCol)], env.isFormat) != "")
      + Flag(FirstNonEmpty([Get(row, DownloadCol)], env.isFormat) != "")
      + Flag(FirstNonEmpty([Get(row, UniqueCodeCol)], env.isFormat) != "");
    var crawl := env.parseUtc(Get(row, DownloadTimeCol));
    [filled, Flag(ParseGrDate(Get(row, GrDateCol), env.isFormat).Some?), Flag(crawl.Some?), InstantOr(crawl), priority]
  }

  /** `score_wayback_row`: link success, an archive URL, a content URL, a SHA-1, status 200, the priority. */
  function ScoreWayback(row: Row, priority: int, env: Env): (r: seq<int>)
    ensures |r| == 6 && r[5] == priority
    ensures forall i :: 0 <= i < 5 ==> 0 <= r[i] <= 1
    ensures r[0] == 1 <==> Get(row, LinkSuccessCol) == Bool(true)
  {
    [Flag(Get(row, LinkSuccessCol) == Bool(true)),
     Flag(FirstNonEmpty([Get(row, ArchiveUrlCol)], env.isFormat) != ""),
     Flag(FirstNonEmpty([Get(row, KContentUrl)], env.isFormat) != ""),
     Flag(FirstNonEmpty([Get(row, KArchiveSha1)], env.isFormat) != ""),
     Flag(CleanText(Get(row, KArchiveStatusCode), env.isFormat) == "200"),
     priority]
  }

  /** `score_archive_row`: upload success, an identifier, an archive URL, a wayback URL, the priority. */
  function ScoreArchive(row: Row, priority: int, env: Env): (r: seq<int>)
    ensures |r| == 5 && r[4] == priority
    ensures forall i :: 0 <= i < 4 ==> 0 <= r[i] <= 1
    ensures r[0] == 1 <==> Get(row, UploadSuccessCol) == Bool(true)
  {
    [Flag(Get(row, UploadSuccessCol) == Bool(true)),
     Flag(FirstNonEmpty([Get(row, KIdentifier)], env.isFormat) != ""),
     Flag(FirstNonEmpty([Get(row, ArchiveUrlCol)], env.isFormat) != ""),
     Flag(FirstNonEmpty([Get(row, WaybackUrlCol)], env.isFormat) != ""),
     priority]
  }

  /** `score_pdf_row`: download success, a download time, that time, the priority. */
  function ScorePdf(row: Row, priority: int, env: Env): (r: seq<int>)
    ensures |r| == 4 && r[3] == priority && 0 <= r[0] <= 1 && 0 <= r[1] <= 1
    ensures r[0] == 1 <==> Get(row, DownloadSuccessCol) == Bool(true)
  {
    var t := env.parseUtc(Get(row, DownloadTimeCol));
    [Flag(Get(row, DownloadSuccessCol) == Bool(true)), Flag(t.Some?), InstantOr(t), priority]
  }

  /** `a > b` on tuples of numbers. */
  predicate Greater(a: seq<int>, b: seq<int>)
  {
    !Le(a, b)
  }

  /** Of two scores that differ only in their last place, the greater is the one with the greater last place. */
  lemma {:induction false} GreaterByLast(a: seq<int>, b: seq<int>)
    requires |a| == |b| && a != [] && a[..|a| - 1] == b[..|b| - 1]
    ensures Greater(a, b) <==> a[|a| - 1] > b[|b| - 1]
  {
    if |a| == 1 {
      assert a[1..] == [] && b[1..] == [];
      assert Le(a[1..], b[1..]);
      assert Le(a, b) <==> a[0] <= b[0];
    } else {
      assert a[0] == a[..|a| - 1][0] == b[..|b| - 1][0] == b[0];
      assert a[1..][..|a| - 2] == a[..|a| - 1][1..];
      assert b[1..][..|b| - 2] == b[..|b| - 1][1..];
      GreaterByLast(a[1..], b[1..]);
      assert a[1..][|a| - 2] == a[|a| - 1] && b[1..][|b| - 2] == b[|b| - 1];
    }
  }

  /**
   * Two wayback rows of the same quality, one from each source: the row
   * from the source with the higher priority (the daily dataset, 2) wins.
   */
  lemma WaybackTieGoesToPriority(a: Row, b: Row, env: Env, pa: int, pb: int)
    requires ScoreWayback(a, 0, env)[..5] == ScoreWayback(b, 0, env)[..5]
    ensures Greater(ScoreWayback(a, pa, env), ScoreWayback(b, pb, env)) <==> pa > pb
  {
    var sa, sb := ScoreWayback(a, pa, env), ScoreWayback(b, pb, env);
    assert sa[..5] == ScoreWayback(a, 0, env)[..5];
    assert sb[..5] == ScoreWayback(b, 0, env)[..5];
    GreaterByLast(sa, sb);
  }

  // -------------------------------------------------------- update_best_row

  /** `best_rows` and `best_scores` of one stage; they always have the same keys. */
  datatype Table = Table(rows: map<string, Row>, scores: map<string, seq<int>>)

  /** `current_score is None or score > current_score`. */
  predicate Replaces(t: Table, code: string, score: seq<int>)
  {
    code !in t.scores || Greater(score, t.scores[code])
  }

  /** The tables after `update_best_row`. */
  function Updated(t: Table, code: string, row: Row, score: seq<int>): Table
  {
    if Replaces(t, code, score) then Table(t.rows[code := row], t.scores[code := score]) else t
  }

  /** `update_best_row(best_rows, best_scores, unique_code, row, score)`: the two dicts are updated in place. */
  method UpdateBestRow(bestRows: map<string, Row>, bestScores: map<string, seq<int>>, code: string, row: Row,
                       score: seq<int>)
    returns (rows': map<string, Row>, scores': map<string, seq<int>>)
    ensures Table(rows', scores') == Updated(Table(bestRows, bestScores), code, row, score)
  {
    rows', scores' := bestRows, bestScores;
    var current: Option<seq<int>> := if code in bestScores then Some(bestScores[code]) else None;
    if current.None? || Greater(score, current.value) {
      scores' := scores'[code := score];
      rows' := rows'[code := row];
    }
  }

  /** One offer of a row for a code, with its score. */
  datatype Offer = Offer(code: string, row: Row, score: seq<int>)

  /** The tables after offering every row of `offers` in order, starting empty. */
  function Best(offers: seq<Offer>): (t: Table)
  {
    if offers == [] then Table(map[], map[])
    else
      var o := offers[|offers| - 1];
      Updated(Best(offers[..|offers| - 1]), o.code, o.row, o.score)
  }

  /** The offers for `code`. */
  predicate Offered(offers: seq<Offer>, code: string)
  {
    exists i :: 0 <= i < |offers| && offers[i].code == code
  }

  /**
   * Offer `i` is what the tables keep for its code: every earlier offer for
   * the code scores strictly lower and no later one scores higher.
   */
  predicate Winner(offers: seq<Offer>, i: int)
    requires 0 <= i < |offers|
  {
    && (forall j :: 0 <= j < i && offers[j].code == offers[i].code ==> Greater(offers[i].score, offers[j].score))
    && (forall j :: i < j < |offers| && offers[j].code == offers[i].code ==> Le(offers[j].score, offers[i].score))
  }

  /** Offer `i` is the winner for `c`, and the tables hold its row and score. */
  predicate HoldsWinner(offers: seq<Offer>, t: Table, c: string, i: int)
  {
    && 0 <= i < |offers| && offers[i].code == c && Winner(offers, i)
    && c in t.rows && c in t.scores && t.rows[c] == offers[i].row && t.scores[c] == offers[i].score
  }

  /** The tables hold, for every offered code and nothing else, its winning offer. */
  ghost predicate Kept(offers: seq<Offer>, t: Table)
  {
    && t.rows.Keys == t.scores.Keys
    && (forall c :: c in t.scores <==> Offered(offers, c))
    && (forall c :: c in t.scores ==> exists i :: HoldsWinner(offers, t, c, i))
  }

  /**
   * The kept row of every code is the first offer with the highest score:
   * a strictly greater score replaces the row, and a tie keeps the earlier.
   */
  lemma {:induction false} BestIsFirstHighest(offers: seq<Offer>)
    ensures Kept(offers, Best(offers))
  {
    if offers != [] {
      var n := |offers| - 1;
      var init, o := offers[..n], offers[n];
      assert offers == init + [o];
      BestIsFirstHighest(init);
      KeptStep(init, o, Best(init));
    }
  }

  /** One more offer keeps the tables right. */
  lemma KeptStep(init: seq<Offer>, o: Offer, t: Table)
    requires Kept(init, t)
    ensures Kept(init + [o], Updated(t, o.code, o.row, o.score))
  {
    var t' := Updated(t, o.code, o.row, o.score);
    forall c ensures c in t'.scores <==> Offered(init + [o], c) {
      OfferedSnoc(init, o, c);
    }
    KeptWinners(init, o, t);
  }

  lemma KeptWinners(init: seq<Offer>, o: Offer, t: Table)
    requires Kept(init, t)
    ensures var t' := Updated(t, o.code, o.row, o.score);
      forall c :: c in t'.scores ==> exists i :: HoldsWinner(init + [o], t', c, i)
  {
    var t' := Updated(t, o.code, o.row, o.score);
    forall c | c in t'.scores ensures exists i :: HoldsWinner(init + [o], t', c, i) {
      if c == o.code && Replaces(t, c, o.score) {
        WinnerNew(init, o, t);
      } else {
        var i :| HoldsWinner(init, t, c, i);
        WinnerOld(init, o, t, c, i);
      }
    }
  }

  lemma OfferedSnoc(init: seq<Offer>, o: Offer, c: string)
    ensures Offered(init + [o], c) <==> Offered(init, c) || c == o.code
  {
    var offers := init + [o];
    if Offered(init, c) {
      var i :| 0 <= i < |init| && init[i].code == c;
      assert offers[i] == init[i];
    }
    if c == o.code {
      assert offers[|init|] == o;
    }
    if Offered(offers, c) && c != o.code {
      var i :| 0 <= i < |offers| && offers[i].code == c;
      assert init[i] == offers[i];
    }
  }

  /** A replacing offer becomes the winner of its code. */
  lemma WinnerNew(init: seq<Offer>, o: Offer, t: Table)
    requires Kept(init, t) && Replaces(t, o.code, o.score)
    ensures HoldsWinner(init + [o], Updated(t, o.code, o.row, o.score), o.code, |init|)
  {
    var offers, n, c := init + [o], |init|, o.code;
    forall j | 0 <= j < n && offers[j].code == c ensures Greater(o.score, offers[j].score) {
      assert offers[j] == init[j];
      assert Offered(init, c);
      var i :| HoldsWinner(init, t, c, i);
      var si, sj := init[i].score, init[j].score;
      if j != i {
        assert Le(sj, si) by {
          if j < i { LeTotal(si, sj); }
        }
        if Le(o.score, sj) { LeTrans(o.score, sj, si); }
      }
    }
    assert offers[n] == o;
  }

  /** Any other offer leaves the winner of `c` in place. */
  lemma WinnerOld(init: seq<Offer>, o: Offer, t: Table, c: string, i: int)
    requires HoldsWinner(init, t, c, i)
    requires c != o.code || !Replaces(t, c, o.score)
    ensures HoldsWinner(init + [o], Updated(t, o.code, o.row, o.score), c, i)
  {
    var offers, n := init + [o], |init|;
    assert offers[i] == init[i];
    forall j | i < j < |offers| && offers[j].code == c ensures Le(offers[j].score, offers[i].score) {
      if j < n { assert offers[j] == init[j]; }
    }
    forall j | 0 <= j < i && offers[j].code == c ensures Greater(offers[i].score, offers[j].score) {
      assert offers[j] == init[j];
    }
  }

  // ---------------------------------------------------- derive_crawl_fields

  /** One sighting of a code: the UTC date of a crawl and the run type of its source. */
  datatype Sighting = Sighting(day: Day, runType: string)

  /** `observations.get(code)`, with an absent code read as no sightings. */
  function SightingsOf(m: map<string, seq<Sighting>>, code: string): seq<Sighting>
  {
    if code in m then m[code] else []
  }

  /** `merged_observations.get(code) or fallback_observations.get(code) or []`. */
  function ObservationsOf(code: string, merged: map<string, seq<Sighting>>, fallback: map<string, seq<Sighting>>)
    : (r: seq<Sighting>)
    ensures SightingsOf(merged, code) != [] ==> r == SightingsOf(merged, code)
    ensures SightingsOf(merged, code) == [] ==> r == SightingsOf(fallback, code)
  {
    if SightingsOf(merged, code) != [] then SightingsOf(merged, code) else SightingsOf(fallback, code)
  }

  /** `min(d for d, _ in xs)`. */
  function MinDay(xs: seq<Sighting>): (r: Day)
    requires xs != []
    ensures exists i :: 0 <= i < |xs| && xs[i].day == r
    ensures forall i :: 0 <= i < |xs| ==> DateLe(r, xs[i].day)
  {
    if |xs| == 1 then xs[0].day
    else
      var m := MinDay(xs[1..]);
      assert forall i :: 1 <= i < |xs| ==> xs[1..][i - 1] == xs[i];
      if DateLe(xs[0].day, m) then xs[0].day else m
  }

  /** `[d for d, rt in xs if rt == "monthly"]`. */
  function MonthlyDays(xs: seq<Sighting>): (r: seq<Day>)
    ensures forall d :: d in r <==> exists i :: 0 <= i < |xs| && xs[i].day == d && xs[i].runType == "monthly"
  {
    if xs == [] then []
    else
      var rest := MonthlyDays(xs[1..]);
      assert forall i :: 1 <= i < |xs| ==> xs[1..][i - 1] == xs[i];
      assert forall i :: 0 <= i < |xs[1..]| ==> xs[1..][i] == xs[i + 1];
      (if xs[0].runType == "monthly" then [xs[0].day] else []) + rest
  }

  /** `max(ds)`. */
  function MaxDay(ds: seq<Day>): (r: Day)
    requires ds != []
    ensures r in ds
    ensures forall i :: 0 <= i < |ds| ==> DateLe(ds[i], r)
  {
    if |ds| == 1 then ds[0]
    else
      var m := MaxDay(ds[1..]);
      assert forall i :: 1 <= i < |ds| ==> ds[1..][i - 1] == ds[i];
      if DateLe(m, ds[0]) then ds[0] else m
  }

  /** The crawl dates and first run type `derive_crawl_fields` derives, before formatting. */
  datatype CrawlDays = CrawlDays(first: Day, last: Day, runType: string)

  /**
   * With no sightings, the default date twice and `monthly` exactly when
   * the code was seen in a monthly source; otherwise the earliest date, the
   * latest monthly date (or the earliest when there is none), and `monthly`
   * exactly when a monthly source saw the code on the earliest date.
   */
  function CrawlDaysOf(obs: seq<Sighting>, runTypes: set<string>, default: Day): (r: CrawlDays)
    ensures r.runType == "daily" || r.runType == "monthly"
    ensures DateLe(r.first, r.last)
    ensures obs == [] ==> r.first == default && r.last == default && (r.runType == "monthly" <==> "monthly" in runTypes)
    ensures obs != [] ==> ((exists i :: 0 <= i < |obs| && obs[i].day == r.first)
      && (forall i :: 0 <= i < |obs| ==> DateLe(r.first, obs[i].day))
      && (r.runType == "monthly" <==> exists i :: 0 <= i < |obs| && obs[i].day == r.first && obs[i].runType == "monthly"))
    ensures obs != [] && MonthlyDays(obs) == [] ==> r.last == r.first
    ensures obs != [] && MonthlyDays(obs) != [] ==> (r.last in MonthlyDays(obs)
      && forall i :: 0 <= i < |obs| && obs[i].runType == "monthly" ==> DateLe(obs[i].day, r.last))
  {
    if obs == [] then CrawlDays(default, default, if "monthly" in runTypes then "monthly" else "daily")
    else
      var first := MinDay(obs);
      var earliestMonthly := exists i :: 0 <= i < |obs| && obs[i].day == first && obs[i].runType == "monthly";
      var monthly := MonthlyDays(obs);
      var last := if monthly != [] then MaxDay(monthly) else first;
      assert monthly != [] ==> forall i :: 0 <= i < |obs| && obs[i].runType == "monthly" ==> obs[i].day in monthly;
      CrawlDays(first, last, if earliestMonthly then "monthly" else "daily")
  }

  /** `derive_crawl_fields`: the crawl dates as `isoformat()` texts, and the first run type. */
  function DeriveCrawlFields(code: string, merged: map<string, seq<Sighting>>, fallback: map<string, seq<Sighting>>,
                             seenRunTypes: map<string, set<string>>, default: Day): (string, string, string)
  {
    var c := CrawlDaysOf(ObservationsOf(code, merged, fallback),
                         if code in seenRunTypes then seenRunTypes[code] else {}, default);
    (IsoFormat(c.first), IsoFormat(c.last), c.runType)
  }

  /** The crawl fields parse back as ISO dates in order, and the run type is daily or monthly. */
  lemma CrawlFieldsValid(code: string, merged: map<string, seq<Sighting>>, fallback: map<string, seq<Sighting>>,
                         seenRunTypes: map<string, set<string>>, default: Day)
    ensures var r := DeriveCrawlFields(code, merged, fallback, seenRunTypes, default);
      && ParseIsoDate(Str(r.0)).Some? && ParseIsoDate(Str(r.1)).Some?
      && DateLe(ParseIsoDate(Str(r.0)).value, ParseIsoDate(Str(r.1)).value)
      && (r.2 == "daily" || r.2 == "monthly")
  {
    var c := CrawlDaysOf(ObservationsOf(code, merged, fallback),
                         if code in seenRunTypes then seenRunTypes[code] else {}, default);
    ParseIsoDateOfIsoFormat(c.first);
    ParseIsoDateOfIsoFormat(c.last);
  }

  // ----------------------------------------------------------- derive_state

  /** The state a record without an upload has, from its download outcome. */
  function DownloadStateOf(downloadSuccess: Option<bool>): State
  {
    match downloadSuccess
    case Some(true) => DownloadSuccess
    case Some(false) => DownloadFailed
    case None => Fetched
  }

  /**
   * `derive_state`: an archive upload decides first (and the wayback
   * success splits it), then a wayback success, then a wayback attempt,
   * then the download outcome.
   */
  function DeriveState(archiveSuccess: bool, archiveAttempted: bool, waybackSuccess: bool, waybackAttempted: bool,
                       downloadSuccess: Option<bool>): (r: State)
    ensures r != ArchivedWithoutDocument
    ensures archiveSuccess ==> r == (if waybackSuccess then ArchivedWithWaybackUrl else ArchivedWithoutWaybackUrl)
    ensures !archiveSuccess && waybackSuccess ==> r == WaybackUploaded
    ensures !archiveSuccess && !waybackSuccess && waybackAttempted ==> r == WaybackUploadFailed
    ensures !archiveSuccess && !waybackSuccess && !waybackAttempted ==> r == DownloadStateOf(downloadSuccess)
  {
    if archiveSuccess then
      if waybackSuccess then ArchivedWithWaybackUrl else ArchivedWithoutWaybackUrl
    else if archiveAttempted then
      if waybackSuccess then WaybackUploaded
      else if waybackAttempted then WaybackUploadFailed
      else if downloadSuccess == Some(false) then DownloadFailed
      else if downloadSuccess == Some(true) then DownloadSuccess
      else Fetched
    else if waybackSuccess then WaybackUploaded
    else if waybackAttempted then WaybackUploadFailed
    else if downloadSuccess == Some(true) then DownloadSuccess
    else if downloadSuccess == Some(false) then DownloadFailed
    else Fetched
  }

  /** A failed archive attempt never changes the state: both branches agree. */
  lemma DeriveStateIgnoresArchiveAttempt(archiveSuccess: bool, waybackSuccess: bool, waybackAttempted: bool,
                                         downloadSuccess: Option<bool>)
    ensures DeriveState(archiveSuccess, true, waybackSuccess, waybackAttempted, downloadSuccess)
         == DeriveState(archiveSuccess, false, waybackSuccess, waybackAttempted, downloadSuccess)
  {
  }

  // ------------------------------------------------- the per-record fields

  /** The best row of each stage for one code, `{}` where a stage has none. */
  datatype Sources = Sources(merged: Row, wayback: Row, archive: Row, pdf: Row)

  /** `stage_attempts[stage][code]` for the three stages. */
  datatype Counts = Counts(download: nat, wayback: nat, archive: nat)

  /** The stage outcomes the build derives for one code. */
  datatype Facts = Facts(
    waybackUrl: string,
    waybackSuccess: bool,
    waybackAttempted: bool,
    archiveSuccess: bool,
    archiveAttempted: bool,
    downloadSuccess: Option<bool>,
    downloadStatus: string,
    waybackStatus: string,
    archiveStatus: string)

  /** `download_success`: the PDF row's explicit flag, else implied by a later stage's success or a lone archive attempt. */
  function DownloadSuccessOf(explicit: Value, archiveSuccess: bool, waybackSuccess: bool, archiveAttempted: bool,
                             waybackAttempted: bool): Option<bool>
  {
    if explicit == Bool(true) then Some(true)
    else if explicit == Bool(false) then Some(false)
    else if archiveSuccess || waybackSuccess then Some(true)
    else if archiveAttempted && !waybackAttempted then Some(false)
    else None
  }

  /** `success`, `failed` or `not_attempted` from a success flag and an attempt flag. */
  function StageStatus(success: bool, attempted: bool): string
  {
    if success then "success" else if attempted then "failed" else "not_attempted"
  }

  /**
   * The stage outcomes of one code.  Every status is one the ledger allows,
   * a status is `success` exactly when its stage succeeded, and a later
   * stage's success implies a successful download unless the PDF row says
   * outright that the download failed.
   */
  function FactsOf(src: Sources, n: Counts, isFormat: char -> bool): (f: Facts)
    ensures ValidateLedger.DownloadStatusName(f.downloadStatus)
    ensures ValidateLedger.StageStatusName(f.waybackStatus) && ValidateLedger.StageStatusName(f.archiveStatus)
    ensures f.waybackStatus == "success" <==> f.waybackSuccess
    ensures f.waybackStatus == "failed" <==> !f.waybackSuccess && f.waybackAttempted
    ensures f.archiveStatus == "success" <==> f.archiveSuccess
    ensures f.downloadStatus == "success" <==> f.downloadSuccess == Some(true)
    ensures f.downloadStatus == "failed" <==> f.downloadSuccess == Some(false)
    ensures f.waybackUrl != "" ==> f.waybackSuccess
    ensures (f.archiveSuccess || f.waybackSuccess) && Get(src.pdf, DownloadSuccessCol) != Bool(false) ==>
      f.downloadSuccess == Some(true)
  {
    var w, a := src.wayback, src.archive;
    var waybackUrl := FirstNonEmpty([Get(w, ArchiveUrlCol), Get(a, WaybackUrlCol)], isFormat);
    var waybackSuccess := waybackUrl != "" || Get(w, LinkSuccessCol) == Bool(true);
    var waybackAttempted := n.wayback > 0 || WaybackUrlCol in a;
    var archiveSuccess := Get(a, UploadSuccessCol) == Bool(true);
    var archiveAttempted := n.archive > 0;
    var downloadSuccess := DownloadSuccessOf(Get(src.pdf, DownloadSuccessCol), archiveSuccess, waybackSuccess,
                                             archiveAttempted, waybackAttempted);
    var downloadStatus :=
      if downloadSuccess == Some(true) then "success"
      else if downloadSuccess == Some(false) then "failed"
      else if n.download > 0 || waybackAttempted || archiveAttempted then "attempted"
      else "not_attempted";
    Facts(waybackUrl, waybackSuccess, waybackAttempted, archiveSuccess, archiveAttempted, downloadSuccess,
          downloadStatus, StageStatus(waybackSuccess, waybackAttempted), StageStatus(archiveSuccess, archiveAttempted))
  }

  /** `derive_state(...)` on the facts, as the build calls it. */
  function RecordStateAsWritten(f: Facts): State
  {
    DeriveState(f.archiveSuccess, f.archiveAttempted, f.waybackSuccess, f.waybackAttempted, f.downloadSuccess)
  }

  /**
   * The state with an archived record split by whether it has a wayback
   * URL, as the ledger's archive transition splits it: the build's state
   * with that one case corrected.
   */
  function RecordState(f: Facts): (r: State)
    ensures !f.archiveSuccess ==> r == RecordStateAsWritten(f)
    ensures f.archiveSuccess ==> r == (if f.waybackUrl != "" then ArchivedWithWaybackUrl else ArchivedWithoutWaybackUrl)
  {
    if !f.archiveSuccess then RecordStateAsWritten(f)
    else if f.waybackUrl != "" then ArchivedWithWaybackUrl
    else ArchivedWithoutWaybackUrl
  }

  /** For an archived record the state is the one the ledger's archive transition would give. */
  lemma RecordStateIsArchiveTransition(f: Facts, current: State)
    requires f.archiveSuccess
    ensures NextStateForStage(Str(StateName(current)), "archive", true, f.waybackUrl != "", true) == Ok(RecordState(f))
  {
    ParseStateName(current);
  }

  /** `min(2, max(0, x))`. */
  function Clamp(x: int): (r: int)
    ensures 0 <= r <= 2
    ensures 0 <= x <= 2 ==> r == x
  {
    if x < 0 then 0 else if x > 2 then 2 else x
  }

  /** The attempt counters before clamping: a stage that was evidently attempted counts at least once. */
  function StageAttempts(f: Facts, n: Counts): (nat, nat, nat)
  {
    var download := if n.download == 0 && (f.waybackAttempted || f.archiveAttempted || f.downloadStatus != "not_attempted")
                    then 1 else n.download;
    var wayback := if n.wayback == 0 && f.waybackAttempted then 1 else n.wayback;
    (download, wayback, n.archive)
  }

  /** `attempt_counts`: the three counters, each clamped to [0, 2]. */
  function AttemptObject(f: Facts, n: Counts): (r: Value)
    ensures r.Dict? && ValidateLedger.HasAttemptKeys(r.fields)
    ensures forall s :: StageCounter(s) ==> AttemptInRange(Get(r.fields, s))
  {
    var counts := StageAttempts(f, n);
    Dict(map[KDownload := Int(Clamp(counts.0)), KWayback := Int(Clamp(counts.1)), KArchive := Int(Clamp(counts.2))])
  }

  /** `None` or an int. */
  function OptInt(v: Option<int>): Value
  {
    if v.Some? then Int(v.value) else Null
  }

  /** The G.R. date of the record: the merged row's, else the archive row's, as an ISO date. */
  function GrDateIso(src: Sources, isFormat: char -> bool): (r: Option<string>)
    ensures r.Some? ==> FromIsoFormat(r.value).Some?
  {
    ParseGrDate(Str(FirstNonEmpty([Get(src.merged, GrDateCol), Get(src.archive, GrDateCol)], isFormat)), isFormat)
  }

  /** `LFS/pdfs/<department>/<year-month>/<safe code>.pdf`, or `""` without a source URL. */
  function DownloadPath(code: string, src: Sources, env: Env): (r: string)
    ensures r != "" ==> "LFS/" <= r
  {
    var sourceUrl := SourceUrl(src, env.isFormat);
    if sourceUrl == "" then ""
    else
      var dept := DepartmentCodes.DepartmentCodeFromName(DepartmentName(src, env.isFormat));
      "LFS/pdfs/" + dept + "/" + YearMonth(GrDateIso(src, env.isFormat)) + "/" + SafeFilename(code) + ".pdf"
  }

  function SourceUrl(src: Sources, isFormat: char -> bool): string
  {
    FirstNonEmpty([Get(src.merged, DownloadCol), Get(src.merged, KUrl), Get(src.archive, DownloadCol),
                   Get(src.archive, KUrl), Get(src.wayback, KUrl)], isFormat)
  }

  function DepartmentName(src: Sources, isFormat: char -> bool): string
  {
    FirstNonEmpty([Get(src.merged, DepartmentNameCol), Get(src.archive, DepartmentNameCol)], isFormat)
  }

  /** `download`: the path, status, hash, size (the wayback length when non-zero, else the file size) and error. */
  function DownloadObject(code: string, src: Sources, f: Facts, env: Env): (r: Value)
    ensures r.Dict? && ValidateLedger.HasDownloadFields(r.fields) && Get(r.fields, KStatus) == Str(f.downloadStatus)
  {
    var w, m, a := src.wayback, src.merged, src.archive;
    var waybackLength := env.parseInt(Get(w, KArchiveLength));
    var fileSize := env.parseSize(FirstNonEmpty([Get(m, FileSizeKbCol), Get(m, FileSizeCol), Get(a, FileSizeKbCol),
                                                 Get(a, FileSizeCol)], env.isFormat));
    var size := if waybackLength.Some? && waybackLength.value != 0 then waybackLength else fileSize;
    var pdfStatus := FirstNonEmpty([Get(src.pdf, KStatus)], env.isFormat);
    var error := if f.downloadStatus == "failed" then (if pdfStatus != "" then pdfStatus else "download_failed") else "";
    Dict(map[KPath := Str(DownloadPath(code, src, env)), KStatus := Str(f.downloadStatus),
             KHash := Str(FirstNonEmpty([Get(w, KArchiveSha1)], env.isFormat)), KSize := OptInt(size),
             KError := Str(error)])
  }

  /** `wayback`: the URL, the wayback row's capture fields, the status and error. */
  function WaybackObject(src: Sources, f: Facts, env: Env): (r: Value)
    ensures r.Dict? && ValidateLedger.HasWaybackFields(r.fields) && Get(r.fields, KStatus) == Str(f.waybackStatus)
    ensures Get(r.fields, KUrl) == Str(f.waybackUrl)
  {
    var w, isF := src.wayback, env.isFormat;
    Dict(map[KUrl := Str(f.waybackUrl), KContentUrl := Str(FirstNonEmpty([Get(w, KContentUrl)], isF)),
             KArchiveTime := Str(FirstNonEmpty([Get(w, KArchiveTime)], isF)),
             KArchiveSha1 := Str(FirstNonEmpty([Get(w, KArchiveSha1)], isF)),
             KArchiveLength := OptInt(env.parseInt(Get(w, KArchiveLength))),
             KArchiveMimetype := Str(FirstNonEmpty([Get(w, KArchiveMimetype)], isF)),
             KArchiveStatusCode := Str(FirstNonEmpty([Get(w, KArchiveStatusCode)], isF)),
             KStatus := Str(f.waybackStatus),
             KError := Str(if f.waybackStatus == "failed" then "wayback_upload_failed" else "")])
  }

  /** `archive`: the identifier, URL, status and error. */
  function ArchiveObject(src: Sources, f: Facts, env: Env): (r: Value)
    ensures r.Dict? && ValidateLedger.HasArchiveFields(r.fields) && Get(r.fields, KStatus) == Str(f.archiveStatus)
  {
    var a := src.archive;
    Dict(map[KIdentifier := Str(FirstNonEmpty([Get(a, KIdentifier)], env.isFormat)),
             KUrl := Str(FirstNonEmpty([Get(a, ArchiveUrlCol)], env.isFormat)),
             KStatus := Str(f.archiveStatus),
             KError := Str(if f.archiveStatus == "failed" then "archive_upload_failed" else "")])
  }

  /** `lfs_path`: the download path when a file is there, else None. */
  function LfsPath(code: string, src: Sources, env: Env): (r: Value)
    ensures r.Null? || (r.Str? && Strip(r.s) != "" && r.s == DownloadPath(code, src, env))
  {
    var path := DownloadPath(code, src, env);
    if path != "" && env.isFile(path) then
      assert path[0] == "LFS/"[0];
      LetterNotBlank(path);
      Str(path)
    else Null
  }

  /** A ledger record as the build writes it, one field per key. */
  datatype Record = Record(
    code: string, title: string, departmentName: string, departmentCode: string, grDate: string,
    sourceUrl: string, lfsPath: Value, state: State, attempts: Value, download: Value, wayback: Value,
    archive: Value, firstSeen: string, lastSeen: string, firstRunType: string, createdAt: string,
    updatedAt: string)

  /** The JSON object of a record. */
  function RecordRow(r: Record): Row
  {
    map[KUniqueCode := Str(r.code), KTitle := Str(r.title), KDepartmentName := Str(r.departmentName),
        KDepartmentCode := Str(r.departmentCode), KGrDate := Str(r.grDate), KSourceUrl := Str(r.sourceUrl),
        KLfsPath := r.lfsPath, KState := Str(StateName(r.state)), KAttemptCounts := r.attempts,
        KDownload := r.download, KWayback := r.wayback, KArchive := r.archive,
        KFirstSeenCrawlDate := Str(r.firstSeen), KLastSeenCrawlDate := Str(r.lastSeen),
        KFirstSeenRunType := Str(r.firstRunType), KCreatedAtUtc := Str(r.createdAt), KUpdatedAtUtc := Str(r.updatedAt)]
  }

  /** What each key of the JSON object reads as. */
  lemma RowReads(r: Record)
    ensures var m := RecordRow(r);
      && Get(m, KUniqueCode) == Str(r.code) && Get(m, KSourceUrl) == Str(r.sourceUrl)
      && Get(m, KGrDate) == Str(r.grDate) && Get(m, KLfsPath) == r.lfsPath
      && Get(m, KState) == Str(StateName(r.state)) && Get(m, KAttemptCounts) == r.attempts
      && Get(m, KDownload) == r.download && Get(m, KWayback) == r.wayback && Get(m, KArchive) == r.archive
      && Get(m, KFirstSeenCrawlDate) == Str(r.firstSeen) && Get(m, KLastSeenCrawlDate) == Str(r.lastSeen)
      && Get(m, KFirstSeenRunType) == Str(r.firstRunType)
      && Get(m, KCreatedAtUtc) == Str(r.createdAt) && Get(m, KUpdatedAtUtc) == Str(r.updatedAt)
  {
  }

  /**
   * The ledger record the build writes for `code` from the chosen rows,
   * the attempt counters, the crawl fields, the state and the build time.
   */
  function BaselineRecord(code: string, src: Sources, n: Counts, crawl: (string, string, string), st: State,
                          now: string, env: Env): Record
  {
    var isF := env.isFormat;
    var f := FactsOf(src, n, isF);
    var department := DepartmentName(src, isF);
    var iso := GrDateIso(src, isF);
    Record(code, FirstNonEmpty([Get(src.merged, TitleCol), Get(src.archive, TitleCol)], isF), department,
           DepartmentCodes.DepartmentCodeFromName(department), if iso.Some? then iso.value else "",
           SourceUrl(src, isF), LfsPath(code, src, env), st, AttemptObject(f, n), DownloadObject(code, src, f, env),
           WaybackObject(src, f, env), ArchiveObject(src, f, env), crawl.0, crawl.1, crawl.2, now, now)
  }

  // ------------------------------------------ what the ledger validator sees

  /** The chosen text is already stripped. */
  lemma FirstNonEmptyStripped(values: seq<Value>, isFormat: char -> bool)
    ensures Strip(FirstNonEmpty(values, isFormat)) == FirstNonEmpty(values, isFormat)
  {
    var r := FirstNonEmpty(values, isFormat);
    if r != "" {
      var i :| 0 <= i < |values| && CleanText(values[i], isFormat) == r;
      StripSetIdempotent(DropControls(PyStr(values[i]), isFormat), Whitespace);
    }
  }

  /** A text starting with a letter is not blank. */
  lemma LetterNotBlank(t: string)
    requires t != [] && IsLetter(t[0])
    ensures Strip(t) != ""
  {
    StripBlank(t, Whitespace);
  }

  /** The G.R. date, when there is one, has a year of four digits without a leading zero. */
  predicate FourDigitYear(iso: Option<string>)
  {
    iso.Some? ==> FromIsoFormat(iso.value).Some? && FromIsoFormat(iso.value).value.year >= 1000
  }

  /** The stage objects of a record as its JSON object reads, for facts `f`. */
  predicate StagesRead(rec: Row, f: Facts)
  {
    && Get(rec, KDownload).Dict? && ValidateLedger.HasDownloadFields(Get(rec, KDownload).fields)
    && Get(rec, KWayback).Dict? && ValidateLedger.HasWaybackFields(Get(rec, KWayback).fields)
    && Get(rec, KArchive).Dict? && ValidateLedger.HasArchiveFields(Get(rec, KArchive).fields)
    && ValidateLedger.StatusOf(rec, KDownload) == Str(f.downloadStatus)
    && ValidateLedger.StatusOf(rec, KWayback) == Str(f.waybackStatus)
    && ValidateLedger.StatusOf(rec, KArchive) == Str(f.archiveStatus)
    && Get(FieldsOf(Get(rec, KWayback)), KUrl) == Str(f.waybackUrl)
  }

  /** The record the build writes carries the stage objects of its facts. */
  lemma BaselineStagesRead(code: string, src: Sources, n: Counts, crawl: (string, string, string), st: State,
                           now: string, env: Env)
    ensures StagesRead(RecordRow(BaselineRecord(code, src, n, crawl, st, now, env)), FactsOf(src, n, env.isFormat))
  {
    RowReads(BaselineRecord(code, src, n, crawl, st, now, env));
  }

  /** The record the build writes reads back the code, date, counters, path, state, crawl fields and build time. */
  lemma BaselineReads(code: string, src: Sources, n: Counts, crawl: (string, string, string), st: State,
                      now: string, env: Env)
    ensures var rec := RecordRow(BaselineRecord(code, src, n, crawl, st, now, env));
      var iso := GrDateIso(src, env.isFormat);
      && Get(rec, KUniqueCode) == Str(code) && Get(rec, KGrDate) == Str(if iso.Some? then iso.value else "")
      && Get(rec, KAttemptCounts) == AttemptObject(FactsOf(src, n, env.isFormat), n)
      && Get(rec, KLfsPath) == LfsPath(code, src, env) && Get(rec, KState) == Str(StateName(st))
      && Get(rec, KFirstSeenCrawlDate) == Str(crawl.0) && Get(rec, KLastSeenCrawlDate) == Str(crawl.1)
      && Get(rec, KFirstSeenRunType) == Str(crawl.2)
      && Get(rec, KCreatedAtUtc) == Str(now) && Get(rec, KUpdatedAtUtc) == Str(now)
  {
    RowReads(BaselineRecord(code, src, n, crawl, st, now, env));
  }

  /** Stage objects with every expected key and an allowed status leave the stage checks nothing to report. */
  lemma StagesClean(rec: Row, src: Sources, n: Counts, isFormat: char -> bool, at: ValidateLedger.Place)
    requires StagesRead(rec, FactsOf(src, n, isFormat))
    ensures ValidateLedger.StageObjectsValid(rec) && ValidateLedger.StageObjectIssues(rec, at) == Ok([])
  {
    ValidateLedger.StageObjectIssuesProps(rec, at);
  }

  /** The state, as corrected, meets what the validator's state table demands of stage objects built from the same facts. */
  lemma StateMeets(rec: Row, src: Sources, n: Counts, isFormat: char -> bool)
    requires StagesRead(rec, FactsOf(src, n, isFormat))
    ensures ValidateLedger.Meets(RecordState(FactsOf(src, n, isFormat)), rec)
  {
    var f := FactsOf(src, n, isFormat);
    if RecordState(f) == ArchivedWithWaybackUrl {
      FirstNonEmptyStripped([Get(src.wayback, ArchiveUrlCol), Get(src.archive, WaybackUrlCol)], isFormat);
    }
  }

  /** A new, non-blank code, a G.R. date filed under its partition and in-range counters pass the first record checks. */
  lemma FrontOf(rec: Row, code: string, iso: Option<string>, f: Facts, n: Counts,
                firstSeen: map<string, ValidateLedger.Place>)
    requires Get(rec, KUniqueCode) == Str(code) && Strip(code) != "" && code !in firstSeen
    requires FourDigitYear(iso) && Get(rec, KGrDate) == Str(if iso.Some? then iso.value else "")
    requires Get(rec, KAttemptCounts) == AttemptObject(f, n)
    ensures ValidateLedger.FrontValid(PartitionKey(iso), rec, firstSeen)
  {
    PartitionKeyAgrees(iso);
  }

  /** Crawl fields derived from the sightings and a parsable build time pass the date checks. */
  lemma DatesOf(rec: Row, code: string, merged: map<string, seq<Sighting>>, fallback: map<string, seq<Sighting>>,
                seenRunTypes: map<string, set<string>>, today: Day, now: string,
                fromIso: string -> Option<ValidateLedger.Stamp>)
    requires var crawl := DeriveCrawlFields(code, merged, fallback, seenRunTypes, today);
      && Get(rec, KFirstSeenCrawlDate) == Str(crawl.0) && Get(rec, KLastSeenCrawlDate) == Str(crawl.1)
      && Get(rec, KFirstSeenRunType) == Str(crawl.2)
    requires Get(rec, KCreatedAtUtc) == Str(now) && Get(rec, KUpdatedAtUtc) == Str(now)
    requires ValidateLedger.ParseIsoTimestamp(Str(now), fromIso).Some?
    ensures ValidateLedger.DatesValid(rec, fromIso)
  {
    CrawlFieldsValid(code, merged, fallback, seenRunTypes, today);
  }

  /** A record whose fields read as the build writes them passes every error check of the ledger validator. */
  lemma RecordValidOf(rec: Row, code: string, src: Sources, n: Counts, now: string, env: Env,
                      merged: map<string, seq<Sighting>>, fallback: map<string, seq<Sighting>>,
                      seenRunTypes: map<string, set<string>>, today: Day,
                      firstSeen: map<string, ValidateLedger.Place>, fromIso: string -> Option<ValidateLedger.Stamp>)
    requires Strip(code) != "" && code !in firstSeen
    requires FourDigitYear(GrDateIso(src, env.isFormat))
    requires ValidateLedger.ParseIsoTimestamp(Str(now), fromIso).Some?
    requires StagesRead(rec, FactsOf(src, n, env.isFormat))
    requires var crawl := DeriveCrawlFields(code, merged, fallback, seenRunTypes, today);
      var iso := GrDateIso(src, env.isFormat);
      && Get(rec, KUniqueCode) == Str(code) && Get(rec, KGrDate) == Str(if iso.Some? then iso.value else "")
      && Get(rec, KAttemptCounts) == AttemptObject(FactsOf(src, n, env.isFormat), n)
      && Get(rec, KLfsPath) == LfsPath(code, src, env)
      && Get(rec, KState) == Str(StateName(RecordState(FactsOf(src, n, env.isFormat))))
      && Get(rec, KFirstSeenCrawlDate) == Str(crawl.0) && Get(rec, KLastSeenCrawlDate) == Str(crawl.1)
      && Get(rec, KFirstSeenRunType) == Str(crawl.2)
      && Get(rec, KCreatedAtUtc) == Str(now) && Get(rec, KUpdatedAtUtc) == Str(now)
    ensures ValidateLedger.RecordValid(PartitionKey(GrDateIso(src, env.isFormat)), rec, firstSeen, fromIso)
  {
    var f := FactsOf(src, n, env.isFormat);
    FrontOf(rec, code, GrDateIso(src, env.isFormat), f, n, firstSeen);
    StagesClean(rec, src, n, env.isFormat, ValidateLedger.Place("", 0));
    StateMeets(rec, src, n, env.isFormat);
    ParseStateName(RecordState(f));
    DatesOf(rec, code, merged, fallback, seenRunTypes, today, now, fromIso);
  }

  /**
   * A record the build writes, with its state as corrected, passes every
   * error check of the ledger validator in the partition the build files it
   * under: given a non-blank code not seen before, a G.R. date (if any) with
   * a four-digit year, and a build time the validator can parse.
   */
  lemma BaselineRecordValid(code: string, src: Sources, n: Counts, now: string, env: Env,
                            merged: map<string, seq<Sighting>>, fallback: map<string, seq<Sighting>>,
                            seenRunTypes: map<string, set<string>>, today: Day,
                            firstSeen: map<string, ValidateLedger.Place>, fromIso: string -> Option<ValidateLedger.Stamp>)
    requires Strip(code) != "" && code !in firstSeen
    requires FourDigitYear(GrDateIso(src, env.isFormat))
    requires ValidateLedger.ParseIsoTimestamp(Str(now), fromIso).Some?
    ensures var crawl := DeriveCrawlFields(code, merged, fallback, seenRunTypes, today);
      var st := RecordState(FactsOf(src, n, env.isFormat));
      ValidateLedger.RecordValid(PartitionKey(GrDateIso(src, env.isFormat)),
                                 RecordRow(BaselineRecord(code, src, n, crawl, st, now, env)), firstSeen, fromIso)
  {
    var crawl := DeriveCrawlFields(code, merged, fallback, seenRunTypes, today);
    var st := RecordState(FactsOf(src, n, env.isFormat));
    var rec := RecordRow(BaselineRecord(code, src, n, crawl, st, now, env));
    BaselineReads(code, src, n, crawl, st, now, env);
    BaselineStagesRead(code, src, n, crawl, st, now, env);
    RecordValidOf(rec, code, src, n, now, env, merged, fallback, seenRunTypes, today, firstSeen, fromIso);
  }

  /**
   * As written, a wayback row with `link_success` true but no URL, for a
   * code whose archive upload succeeded, gives `ARCHIVE_UPLOADED_WITH_WAYBACK_URL`
   * with a blank `wayback.url`, and the validator's state table reports an error.
   */
  lemma LinkOnlyWaybackRejected(env: Env, now: string, crawl: (string, string, string), at: ValidateLedger.Place)
    ensures var src := Sources(map[], map[LinkSuccessCol := Bool(true)], map[UploadSuccessCol := Bool(true)], map[]);
      var n := Counts(0, 1, 1);
      var f := FactsOf(src, n, env.isFormat);
      var st := RecordStateAsWritten(f);
      var table := ValidateLedger.StateTable(st, RecordRow(BaselineRecord("1234567890123456", src, n, crawl, st, now, env)), at);
      && st == ArchivedWithWaybackUrl && RecordState(f) == ArchivedWithoutWaybackUrl
      && table.Ok? && !ValidateLedger.NoErrors(table.value)
  {
    var src := Sources(map[], map[LinkSuccessCol := Bool(true)], map[UploadSuccessCol := Bool(true)], map[]);
    var n := Counts(0, 1, 1);
    var f := FactsOf(src, n, env.isFormat);
    assert FirstNonEmpty([Get(src.wayback, ArchiveUrlCol), Get(src.archive, WaybackUrlCol)], env.isFormat) == "";
    var st := RecordStateAsWritten(f);
    var rec := RecordRow(BaselineRecord("1234567890123456", src, n, crawl, st, now, env));
    BaselineStagesRead("1234567890123456", src, n, crawl, st, now, env);
    assert Strip("") == "";
    ValidateLedger.StateTableProps(st, rec, at);
  }
}
