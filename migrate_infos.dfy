/**
 * The one-time split of the single-file ledger into url, upload and pdf
 * info rows: the record key each ledger row is filed under, the three row
 * builders, the scan that refuses a record key met twice, the check that a
 * target holds no partition files yet, and the order the source files are
 * read in.  The SHA-1 digest, `unquote` and the clock are parameters; the
 * reads and writes of the partition files are not part of this model.
 */
module MigrateInfos {
  import opened Py
  import opened Order
  import opened Codes
  import DepartmentCodes
  import LedgerEngine
  import PrunePdfInfo
  import BuildBaseline
  import Infos

  /** What the migration takes from outside: `unquote` and the hex SHA-1 digest of a text. */
  datatype Env = Env(
    unquote: string -> string,   // `urllib.parse.unquote`
    sha1Hex: string -> string)   // `hashlib.sha1(text.encode("utf-8")).hexdigest()`

  // `ALLOWED_*_STATUS`.
  const DownloadStatuses: set<string> := {"not_attempted", "attempted", "success", "failed"}
  const WaybackStatuses: set<string> := {"not_attempted", "success", "failed"}
  const ArchiveStatuses: set<string> := {"not_attempted", "success", "failed"}
  const PdfStatuses: set<string> := {"not_attempted", "success", "failed", "missing_pdf"}

  // ------------------------------------------------------------------ texts

  /** `_non_empty_text(value, default)`: the stripped `str(value or "")`, or the default when that is blank. */
  function NonEmptyText(v: Value, default: string): (r: string)
    ensures r == default || (r != "" && Strip(r) == r && r == NormalizeText(v))
    ensures NormalizeText(v) == "" ==> r == default
  {
    var text := NormalizeText(v);
    StripSetIdempotent(PyStr(Or(v, Str(""))), Whitespace);
    if text != "" then text else default
  }

  /** `_optional_text`: the stripped text, or None when it is blank. */
  function OptionalText(v: Value): (r: Value)
    ensures r == Null <==> NormalizeText(v) == ""
    ensures r != Null ==> r == Str(NormalizeText(v))
  {
    var text := NormalizeText(v);
    if text != "" then Str(text) else Null
  }

  /** A stripped text reads back as itself. */
  lemma NonEmptyTextOfStripped(s: string, default: string)
    requires s != "" && Strip(s) == s
    ensures NonEmptyText(Str(s), default) == s
  {
  }

  // ------------------------------------------------------------ conversions

  /** `_bool_or_none`: a bool itself; a text that strips and lower-cases to true/1/yes or false/0/no; else None. */
  function BoolOrNone(v: Value): (r: Option<bool>)
    ensures v.Bool? ==> r == Some(v.b)
    ensures !v.Bool? && !v.Str? ==> r.None?
  {
    match v
    case Bool(b) => Some(b)
    case Str(s) =>
      var t := Lower(Strip(s));
      if t == "true" || t == "1" || t == "yes" then Some(true)
      else if t == "false" || t == "0" || t == "no" then Some(false)
      else None
    case _ => None
  }

  /** The words `_bool_or_none` recognises, in any letter case and with surrounding blanks. */
  lemma BoolOrNoneOfText(s: string)
    ensures BoolOrNone(Str(s)) == Some(true) <==> Lower(Strip(s)) in {"true", "1", "yes"}
    ensures BoolOrNone(Str(s)) == Some(false) <==> Lower(Strip(s)) in {"false", "0", "no"}
  {
  }

  /** `str(b)` for a bool and its lower-case spelling read back as `b`. */
  lemma BoolOrNoneOfPyStr(b: bool)
    ensures BoolOrNone(Str(PyStr(Bool(b)))) == Some(b)
    ensures BoolOrNone(Str(if b then "true" else "false")) == Some(b)
  {
    var t := PyStr(Bool(b));
    StripSetOfClean(t, Whitespace);
    var w := if b then "true" else "false";
    StripSetOfClean(w, Whitespace);
    assert Lower(t) == w;
    assert Lower(w) == w;
  }

  /** `_status(value, allowed, default)`: the text when it is one of `allowed`, else the default. */
  function Status(v: Value, allowed: set<string>, default: string): (r: string)
    ensures default in allowed ==> r in allowed
    ensures NormalizeText(v) != "" && NormalizeText(v) in allowed ==> r == NormalizeText(v)
    ensures NormalizeText(v) !in allowed && NormalizeText(v) != "" ==> r == default
  {
    var text := NonEmptyText(v, default);
    if text in allowed then text else default
  }

  /** A blank value gives the default, and an allowed status surrounded by blanks gives that status. */
  lemma StatusCases(allowed: set<string>, default: string, s: string, pad: string)
    requires s in allowed && s != "" && Strip(s) == s
    requires forall i :: 0 <= i < |pad| ==> pad[i] in Whitespace
    ensures Status(Null, allowed, default) == default
    ensures Status(Str(pad + s + pad), allowed, default) == s
  {
    StripPadded(s, pad);
  }

  /** Blanks around a stripped text are stripped off again. */
  lemma StripPadded(s: string, pad: string)
    requires s != "" && Strip(s) == s
    requires forall i :: 0 <= i < |pad| ==> pad[i] in Whitespace
    ensures Strip(pad + s + pad) == s
  {
    var t := pad + s + pad;
    StripSetShape(s, Whitespace);
    StripSetShape(t, Whitespace);
    var lo, hi :| 0 <= lo <= hi <= |t| && Strip(t) == t[lo..hi]
      && (forall i :: 0 <= i < lo ==> t[i] in Whitespace)
      && (forall i :: hi <= i < |t| ==> t[i] in Whitespace);
    assert t[|pad|] == s[0] && t[|pad| + |s| - 1] == s[|s| - 1];
    assert lo <= |pad| && hi >= |pad| + |s|;
    forall i | 0 <= i < |pad| ensures t[i] == pad[i] && t[|pad| + |s| + i] == pad[i] {
    }
    assert lo < |pad| ==> t[lo] in Whitespace;
    assert hi > |pad| + |s| ==> t[hi - 1] == pad[hi - 1 - |pad| - |s|];
    assert t[|pad|..|pad| + |s|] == s;
  }

  /** A missing, unparsable or negative count becomes 0; there is no upper clamp. */
  function Attempts(v: Value): (n: nat)
    ensures PrunePdfInfo.IntOrNone(v).Some? && PrunePdfInfo.IntOrNone(v).value >= 0 ==> n == PrunePdfInfo.IntOrNone(v).value
    ensures PrunePdfInfo.IntOrNone(v).None? || PrunePdfInfo.IntOrNone(v).value < 0 ==> n == 0
  {
    match PrunePdfInfo.IntOrNone(v)
    case None => 0
    case Some(i) => if i < 0 then 0 else i
  }

  /** Any count written as `str(n)` reads back clamped below at 0 only. */
  lemma AttemptsOfIntToStr(i: int)
    ensures Attempts(Str(IntToStr(i))) == (if i < 0 then 0 else i)
    ensures Attempts(Int(i)) == (if i < 0 then 0 else i)
  {
    PrunePdfInfo.IntOrNoneOfIntToStr(i);
  }

  /** The hf attempt count: `attempt_counts["hf"]` when it parses, else `attempt_counts["lfs"]`. */
  function HfAttempts(counts: Row): (n: nat)
    ensures PrunePdfInfo.IntOrNone(Get(counts, KHf)).Some? ==> n == Attempts(Get(counts, KHf))
    ensures PrunePdfInfo.IntOrNone(Get(counts, KHf)).None? ==> n == Attempts(Get(counts, KLfs))
  {
    if PrunePdfInfo.IntOrNone(Get(counts, KHf)).Some? then Attempts(Get(counts, KHf)) else Attempts(Get(counts, KLfs))
  }

  function OptInt(v: Option<int>): Value
  {
    if v.Some? then Int(v.value) else Null
  }

  function OptBool(v: Option<bool>): Value
  {
    if v.Some? then Bool(v.value) else Null
  }

  /** A dict value itself, anything else None. */
  function DictOrNull(v: Value): Value
  {
    if v.Dict? then v else Null
  }

  // ------------------------------------------------------------- record key

  /**
   * `_ascii_slug`: the ASCII characters of the text (NFKD decomposition is
   * not modelled, so an accented letter is dropped), every run of
   * characters outside `[A-Za-z0-9._-]` replaced by one `_`, and no `_` at
   * either end.
   */
  function AsciiSlug(value: string): (r: string)
    ensures forall i :: 0 <= i < |r| ==> BuildBaseline.SafeChar(r[i])
    ensures r != [] ==> r[0] != '_' && r[|r| - 1] != '_'
  {
    var runs := SubRuns(DepartmentCodes.AsciiText(value), BuildBaseline.SafeChar, "_");
    assert BuildBaseline.SafeChar("_"[0]);
    StripSetShape(runs, {'_'});
    StripSet(runs, {'_'})
  }

  /** The first `n` characters, or all of a shorter text (`s[:n]`). */
  function Prefix(s: string, n: nat): (r: string)
    ensures |r| <= n && r <= s
  {
    if |s| <= n then s else s[..n]
  }

  /** A key `_record_key_from_row` can give that is its own slug: safe characters, no `_` at either end. */
  predicate SlugShape(k: string)
  {
    k != [] && k[0] != '_' && k[|k| - 1] != '_' && forall i :: 0 <= i < |k| ==> BuildBaseline.SafeChar(k[i])
  }

  /**
   * `_record_key_from_row` on the stripped `unique_code` text and the
   * percent-decoded, stripped `source_url` text: the first long digit run
   * of the code, then of the URL; the code's digits (18 at most) when there
   * are 16 or more; else the ASCII slug of the code text, the URL's stem or
   * the URL text, whichever is first non-blank, or `ucode_` and 20 digest
   * digits when that slug is empty; MigrationError when both texts are blank.
   */
  function RecordKeyFromTexts(uniqueText: string, sourceUrl: string, sha1Hex: string -> string): (r: Result<string>)
  {
    if LongDigits(uniqueText).Some? then Ok(LongDigits(uniqueText).value)
    else if LongDigits(sourceUrl).Some? then Ok(LongDigits(sourceUrl).value)
    else
      var digits := DigitsOnly(uniqueText);
      if |digits| >= 18 then Ok(digits[..18])
      else if |digits| >= 16 then Ok(digits)
      else
        var fallback := if uniqueText != "" then uniqueText else if Stem(sourceUrl) != "" then Stem(sourceUrl) else sourceUrl;
        if fallback != "" then
          var slug := AsciiSlug(fallback);
          if slug != "" then Ok(slug) else Ok("ucode_" + Prefix(sha1Hex(fallback), 20))
        else Err(MigrationError)
  }

  /** `_record_key_from_row(row, ...)`; the file and line only go into the error message. */
  function RecordKeyFromRow(row: Row, env: Env): Result<string>
  {
    RecordKeyFromTexts(NonEmptyText(Get(row, KUniqueCode), ""), env.unquote(NonEmptyText(Get(row, KSourceUrl), "")),
                       env.sha1Hex)
  }

  /** The key is refused exactly when both texts are blank; a refusal is a MigrationError. */
  lemma RecordKeyRefused(u: string, url: string, sha1Hex: string -> string)
    ensures RecordKeyFromTexts(u, url, sha1Hex).Err? <==> u == "" && url == ""
    ensures RecordKeyFromTexts(u, url, sha1Hex).Err? ==> RecordKeyFromTexts(u, url, sha1Hex).error == MigrationError
  {
    if u == "" && url == "" {
      assert DigitsOnly(u) == [];
      assert !LongRunAt(u, 0) && !LongRunAt(url, 0);
    }
  }

  /** Wherever digits decide, the key is the baseline's canonical code of the same texts. */
  lemma RecordKeyAgreesWithBaseline(u: string, url: string, sha1Hex: string -> string)
    requires LongDigits(u).Some? || LongDigits(url).Some? || |DigitsOnly(u)| >= 16
    ensures RecordKeyFromTexts(u, url, sha1Hex) == Ok(CodeFromTexts(u, url))
  {
  }

  /** A key is 16 to 22 digits, a slug, or `ucode_` and at most 20 digest characters. */
  lemma RecordKeyShape(u: string, url: string, sha1Hex: string -> string)
    requires RecordKeyFromTexts(u, url, sha1Hex).Ok?
    ensures var k := RecordKeyFromTexts(u, url, sha1Hex).value;
      || (16 <= |k| <= 22 && AllDigits(k))
      || SlugShape(k)
      || (exists h :: |h| <= 20 && k == "ucode_" + h)
  {
    var k := RecordKeyFromTexts(u, url, sha1Hex).value;
    if LongDigits(u).Some? {
      assert k == LongDigits(u).value;
    } else if LongDigits(url).Some? {
      assert k == LongDigits(url).value;
    } else {
      var digits := DigitsOnly(u);
      if |digits| >= 18 {
        assert k == digits[..18];
      } else if |digits| < 16 {
        var fallback := if u != "" then u else if Stem(url) != "" then Stem(url) else url;
        if AsciiSlug(fallback) == "" {
          assert k == "ucode_" + Prefix(sha1Hex(fallback), 20);
        } else {
          assert k == AsciiSlug(fallback);
        }
      }
    }
  }

  /** A slice has no more digits than the whole. */
  lemma DigitsOnlySlice(s: string, lo: int, hi: int)
    requires 0 <= lo <= hi <= |s|
    ensures |DigitsOnly(s[lo..hi])| <= |DigitsOnly(s)|
  {
    assert s == s[..lo] + s[lo..hi] + s[hi..];
    DigitsOnlyConcat(s[..lo] + s[lo..hi], s[hi..]);
    DigitsOnlyConcat(s[..lo], s[lo..hi]);
  }

  /** A text with a long digit run has at least 16 digits. */
  lemma LongDigitsHasDigits(s: string)
    requires LongDigits(s).Some?
    ensures |DigitsOnly(s)| >= 16
  {
    var p := LongRunStart(s, 0).value;
    assert LongRunAt(s, p);
    var run := s[p..p + 16];
    assert forall i :: 0 <= i < 16 ==> run[i] == s[p + i];
    DigitsOnlyOfDigits(run);
    DigitsOnlySlice(s, p, p + 16);
  }

  /** Dropping the non-ASCII characters keeps every digit. */
  lemma {:induction false} DigitsOfAscii(s: string)
    ensures DigitsOnly(DepartmentCodes.AsciiText(s)) == DigitsOnly(s)
  {
    if s != [] {
      DigitsOfAscii(s[1..]);
      var rest := DepartmentCodes.AsciiText(s[1..]);
      if s[0] as int < 128 {
        assert ([s[0]] + rest)[1..] == rest;
      }
    }
  }

  /** Replacing runs of unsafe characters by `_` keeps every digit. */
  lemma {:induction false} DigitsOfSubRuns(s: string)
    ensures DigitsOnly(SubRuns(s, BuildBaseline.SafeChar, "_")) == DigitsOnly(s)
    decreases |s|
  {
    if s != [] {
      if BuildBaseline.SafeChar(s[0]) {
        DigitsOfSubRuns(s[1..]);
        DigitsOnlyConcat([s[0]], SubRuns(s[1..], BuildBaseline.SafeChar, "_"));
        assert [s[0]] + s[1..] == s;
        DigitsOnlyConcat([s[0]], s[1..]);
      } else {
        var d := DropRun(s, BuildBaseline.SafeChar);
        DigitsOfSubRuns(d);
        DigitsOnlyConcat("_", SubRuns(d, BuildBaseline.SafeChar, "_"));
        DigitsOfDropRun(s);
      }
    }
  }

  /** The run `DropRun` drops holds no digit. */
  lemma {:induction false} DigitsOfDropRun(s: string)
    ensures DigitsOnly(DropRun(s, BuildBaseline.SafeChar)) == DigitsOnly(s)
  {
    if s != [] && !BuildBaseline.SafeChar(s[0]) {
      DigitsOfDropRun(s[1..]);
    }
  }

  /** The slug has no more digits than the text it comes from. */
  lemma SlugDigits(s: string)
    ensures |DigitsOnly(AsciiSlug(s))| <= |DigitsOnly(s)|
  {
    var runs := SubRuns(DepartmentCodes.AsciiText(s), BuildBaseline.SafeChar, "_");
    DigitsOfAscii(s);
    DigitsOfSubRuns(DepartmentCodes.AsciiText(s));
    StripSetShape(runs, {'_'});
    var lo, hi :| 0 <= lo <= hi <= |runs| && StripSet(runs, {'_'}) == runs[lo..hi];
    DigitsOnlySlice(runs, lo, hi);
  }

  /** A slug is its own slug. */
  lemma AsciiSlugOfSlug(k: string)
    requires SlugShape(k)
    ensures AsciiSlug(k) == k
  {
    assert DepartmentCodes.AsciiText(k) == k;
    BuildBaseline.SubRunsOfKept(k, BuildBaseline.SafeChar, "_");
    StripSetOfClean(k, {'_'});
  }

  /** A text with at most 15 digits has no long digit run. */
  lemma FewDigitsNoRun(s: string)
    requires |DigitsOnly(s)| < 16
    ensures LongDigits(s).None?
  {
    if LongDigits(s).Some? {
      LongDigitsHasDigits(s);
    }
  }

  /**
   * Deriving the key again from a derived key, with the same URL, gives it
   * back, whenever the code text is not blank and has a non-empty slug
   * (so that no digest is involved).  The key is then made of safe
   * characters only.
   */
  lemma RecordKeyStable(u: string, url: string, sha1Hex: string -> string)
    requires u != "" && AsciiSlug(u) != ""
    ensures var r := RecordKeyFromTexts(u, url, sha1Hex);
      && r.Ok? && RecordKeyFromTexts(r.value, url, sha1Hex) == r
      && r.value != "" && forall i :: 0 <= i < |r.value| ==> BuildBaseline.SafeChar(r.value[i])
  {
    var k := RecordKeyFromTexts(u, url, sha1Hex).value;
    if LongDigits(u).Some? || LongDigits(url).Some? || |DigitsOnly(u)| >= 16 {
      assert 16 <= |k| <= 22 && AllDigits(k);
      LongDigitsOfDigits(k);
    } else {
      assert k == AsciiSlug(u);
      SlugDigits(u);
      FewDigitsNoRun(k);
      AsciiSlugOfSlug(k);
    }
  }

  // ------------------------------------------------------------ row builders

  /** `_canonical_department_code`: a known code, else the code the name maps to, else the code text's, else "unknown". */
  function CanonicalDepartmentCode(row: Row): (r: string)
    ensures var code := NonEmptyText(Get(row, KDepartmentCode), "");
      code != "" && DepartmentCodes.IsCode(DepartmentCodes.Table, Lower(code)) ==> r == Lower(code)
    ensures NonEmptyText(Get(row, KDepartmentCode), "") == "" && NonEmptyText(Get(row, KDepartmentName), "") == ""
      ==> r == "unknown"
    ensures var code := NonEmptyText(Get(row, KDepartmentCode), "");
      var name := NonEmptyText(Get(row, KDepartmentName), "");
      || r == "unknown" || DepartmentCodes.IsCode(DepartmentCodes.Table, r)
      || r == DepartmentCodes.FallbackSlug(Strip(name)) || r == DepartmentCodes.FallbackSlug(Strip(code))
  {
    var codeRaw := NonEmptyText(Get(row, KDepartmentCode), "");
    var nameRaw := NonEmptyText(Get(row, KDepartmentName), "");
    if codeRaw != "" && DepartmentCodes.IsCode(DepartmentCodes.Table, Lower(codeRaw)) then Lower(codeRaw)
    else if nameRaw != "" then DepartmentCodes.DepartmentCodeFromName(nameRaw)
    else if codeRaw != "" then DepartmentCodes.DepartmentCodeFromName(codeRaw)
    else "unknown"
  }

  /** The `created_at_utc` and `updated_at_utc` all three rows carry. */
  function Stamps(row: Row, now: string): (r: (string, string))
    ensures NormalizeText(Get(row, KCreatedAtUtc)) == "" ==> r.0 == now
    ensures NormalizeText(Get(row, KCreatedAtUtc)) != "" ==> r.0 == NormalizeText(Get(row, KCreatedAtUtc))
    ensures NormalizeText(Get(row, KUpdatedAtUtc)) == "" ==> r.1 == r.0
    ensures NormalizeText(Get(row, KUpdatedAtUtc)) != "" ==> r.1 == NormalizeText(Get(row, KUpdatedAtUtc))
  {
    var createdAt := NonEmptyText(Get(row, KCreatedAtUtc), now);
    (createdAt, NonEmptyText(Get(row, KUpdatedAtUtc), createdAt))
  }

  /** A url info row, field by field. */
  datatype UrlInfo = UrlInfo(
    key: string, title: string, departmentName: string, departmentCode: string, grDate: string,
    sourceUrl: string, firstSeen: string, lastSeen: string, firstRunType: string, createdAt: string,
    updatedAt: string)

  const UrlInfoKeys: set<Key> := {KRecordKey, KUniqueCode, KTitle, KDepartmentName, KDepartmentCode, KGrDate,
    KSourceUrl, KFirstSeenCrawlDate, KLastSeenCrawlDate, KFirstSeenRunType, KCreatedAtUtc, KUpdatedAtUtc}

  /** The JSON object of a url info row: `record_key` and `unique_code` both the key. */
  function UrlJson(u: UrlInfo): (r: Row)
    ensures r.Keys == UrlInfoKeys
    ensures r[KRecordKey] == Str(u.key) && r[KUniqueCode] == Str(u.key) && r[KSourceUrl] == Str(u.sourceUrl)
    ensures r[KCreatedAtUtc] == Str(u.createdAt) && r[KUpdatedAtUtc] == Str(u.updatedAt)
    ensures r[KDepartmentCode] == Str(u.departmentCode)
  {
    map[KRecordKey := Str(u.key), KUniqueCode := Str(u.key), KTitle := Str(u.title),
        KDepartmentName := Str(u.departmentName), KDepartmentCode := Str(u.departmentCode), KGrDate := Str(u.grDate),
        KSourceUrl := Str(u.sourceUrl), KFirstSeenCrawlDate := Str(u.firstSeen), KLastSeenCrawlDate := Str(u.lastSeen),
        KFirstSeenRunType := Str(u.firstRunType), KCreatedAtUtc := Str(u.createdAt), KUpdatedAtUtc := Str(u.updatedAt)]
  }

  /** The fields `_build_urlinfo_row` takes from a ledger row. */
  function UrlInfoOf(row: Row, key: string, now: string): (u: UrlInfo)
    ensures u.key == key && (u.createdAt, u.updatedAt) == Stamps(row, now)
    ensures u.sourceUrl == NonEmptyText(Get(row, KSourceUrl), "")
    ensures u.departmentCode == CanonicalDepartmentCode(row)
    ensures u.firstRunType == NonEmptyText(Get(row, KFirstSeenRunType), "daily")
  {
    var stamps := Stamps(row, now);
    UrlInfo(key, NonEmptyText(Get(row, KTitle), ""), NonEmptyText(Get(row, KDepartmentName), ""),
            CanonicalDepartmentCode(row), NonEmptyText(Get(row, KGrDate), ""),
            NonEmptyText(Get(row, KSourceUrl), ""), NonEmptyText(Get(row, KFirstSeenCrawlDate), ""),
            NonEmptyText(Get(row, KLastSeenCrawlDate), ""), NonEmptyText(Get(row, KFirstSeenRunType), "daily"),
            stamps.0, stamps.1)
  }

  /** `_build_urlinfo_row`. */
  function UrlInfoRow(row: Row, key: string, now: string): Row
  {
    UrlJson(UrlInfoOf(row, key, now))
  }

  /**
   * Migrating a url info row again derives the key it is filed under: its
   * `unique_code` is that key and its `source_url` the same stripped text
   * (for a code text with a non-empty slug, RecordKeyStable).
   */
  lemma UrlInfoRekeys(row: Row, now: string, env: Env)
    requires NonEmptyText(Get(row, KUniqueCode), "") != "" && AsciiSlug(NonEmptyText(Get(row, KUniqueCode), "")) != ""
    ensures RecordKeyFromRow(row, env).Ok?
    ensures RecordKeyFromRow(UrlInfoRow(row, RecordKeyFromRow(row, env).value, now), env) == RecordKeyFromRow(row, env)
  {
    var u := NonEmptyText(Get(row, KUniqueCode), "");
    var src := NonEmptyText(Get(row, KSourceUrl), "");
    var url := env.unquote(src);
    RecordKeyStable(u, url, env.sha1Hex);
    var k := RecordKeyFromRow(row, env).value;
    assert k[0] !in Whitespace && k[|k| - 1] !in Whitespace by {
      SafeNotSpace(k[0]);
      SafeNotSpace(k[|k| - 1]);
    }
    StripSetOfClean(k, Whitespace);
    NonEmptyTextOfStripped(k, "");
    var out := UrlInfoRow(row, k, now);
    assert Get(out, KUniqueCode) == Str(k) && Get(out, KSourceUrl) == Str(src);
    if src != "" {
      NonEmptyTextOfStripped(src, "");
    }
    assert NonEmptyText(Get(out, KSourceUrl), "") == src;
  }

  lemma SafeNotSpace(c: char)
    requires BuildBaseline.SafeChar(c)
    ensures c !in Whitespace
  {
  }

  /** A stage object of an upload info row: its status, its text fields and its attempt count. */
  datatype StageInfo = StageInfo(status: string, texts: map<Key, string>, attempts: nat)

  /** The hf object: `success` with the path and a sync stamp, or `not_attempted` with neither. */
  datatype HfInfo = HfInfo(path: Value, syncedAt: Value, attempts: nat)

  /** An upload info row, field by field. */
  datatype UploadInfo = UploadInfo(
    key: string, state: string, download: StageInfo, wayback: StageInfo, archiveLength: Value,
    archive: StageInfo, hf: HfInfo, createdAt: string, updatedAt: string)

  const UploadInfoKeys: set<Key> := {KRecordKey, KState, KDownload, KWayback, KArchive, KHf, KCreatedAtUtc, KUpdatedAtUtc}

  /** The JSON object of a stage: its texts, `status` and `attempts`. */
  function StageJson(s: StageInfo): (r: Value)
    ensures r.Dict? && KStatus in r.fields && KAttempts in r.fields
    ensures r.fields[KStatus] == Str(s.status) && r.fields[KAttempts] == Int(s.attempts)
  {
    var texts := map k | k in s.texts :: Str(s.texts[k]);
    Dict(texts[KStatus := Str(s.status)][KAttempts := Int(s.attempts)])
  }

  /** The JSON object of the hf stage. */
  function HfJson(h: HfInfo): (r: Value)
    ensures r.Dict? && KPath in r.fields && KSyncedAtUtc in r.fields && KStatus in r.fields && KAttempts in r.fields
    ensures r.fields[KPath] == h.path && r.fields[KSyncedAtUtc] == h.syncedAt
    ensures r.fields[KStatus] == Str(if h.path != Null then "success" else "not_attempted")
    ensures r.fields[KAttempts] == Int(h.attempts)
  {
    Dict(map[KStatus := Str(if h.path != Null then "success" else "not_attempted"), KPath := h.path, KHash := Null,
             KBackend := Null, KCommitHash := Null, KError := Null, KSyncedAtUtc := h.syncedAt,
             KAttempts := Int(h.attempts)])
  }

  /** The JSON object of an upload info row. */
  function UploadJson(u: UploadInfo): (r: Row)
    ensures r.Keys == UploadInfoKeys && r[KRecordKey] == Str(u.key) && r[KState] == Str(u.state)
    ensures r[KDownload] == StageJson(u.download) && r[KArchive] == StageJson(u.archive) && r[KHf] == HfJson(u.hf)
    ensures r[KWayback] == Dict(StageJson(u.wayback).fields[KArchiveLength := u.archiveLength])
    ensures r[KCreatedAtUtc] == Str(u.createdAt) && r[KUpdatedAtUtc] == Str(u.updatedAt)
  {
    map[KRecordKey := Str(u.key), KState := Str(u.state), KDownload := StageJson(u.download),
        KWayback := Dict(StageJson(u.wayback).fields[KArchiveLength := u.archiveLength]),
        KArchive := StageJson(u.archive), KHf := HfJson(u.hf), KCreatedAtUtc := Str(u.createdAt),
        KUpdatedAtUtc := Str(u.updatedAt)]
  }

  /** The stripped texts of `keys` in a source stage object. */
  function Texts(src: Row, keys: set<Key>): (r: map<Key, string>)
    ensures r.Keys == keys
  {
    map k | k in keys :: NonEmptyText(Get(src, k), "")
  }

  const WaybackTextKeys: set<Key> := {KUrl, KContentUrl, KArchiveTime, KArchiveSha1, KArchiveMimetype,
    KArchiveStatusCode, KError}

  /** The fields `_build_uploadinfo_row` takes from a ledger row. */
  function UploadInfoOf(row: Row, key: string, now: string): (u: UploadInfo)
    ensures u.key == key && (u.createdAt, u.updatedAt) == Stamps(row, now)
    ensures u.download.status in DownloadStatuses && u.wayback.status in WaybackStatuses
    ensures u.archive.status in ArchiveStatuses
    ensures var counts := FieldsOf(Get(row, KAttemptCounts));
      && u.download.attempts == Attempts(Get(counts, KDownload)) && u.wayback.attempts == Attempts(Get(counts, KWayback))
      && u.archive.attempts == Attempts(Get(counts, KArchive)) && u.hf.attempts == HfAttempts(counts)
    ensures u.hf.path == OptionalText(Get(row, KLfsPath))
    ensures u.hf.syncedAt == (if u.hf.path != Null then Str(u.updatedAt) else Null)
  {
    var stamps := Stamps(row, now);
    var counts := FieldsOf(Get(row, KAttemptCounts));
    var download := FieldsOf(Get(row, KDownload));
    var wayback := FieldsOf(Get(row, KWayback));
    var archive := FieldsOf(Get(row, KArchive));
    var hfPath := OptionalText(Get(row, KLfsPath));
    UploadInfo(
      key, NonEmptyText(Get(row, KState), "FETCHED"),
      StageInfo(Status(Get(download, KStatus), DownloadStatuses, "not_attempted"), Texts(download, {KError}),
                Attempts(Get(counts, KDownload))),
      StageInfo(Status(Get(wayback, KStatus), WaybackStatuses, "not_attempted"), Texts(wayback, WaybackTextKeys),
                Attempts(Get(counts, KWayback))),
      OptInt(PrunePdfInfo.IntOrNone(Get(wayback, KArchiveLength))),
      StageInfo(Status(Get(archive, KStatus), ArchiveStatuses, "not_attempted"),
                Texts(archive, {KIdentifier, KUrl, KError}), Attempts(Get(counts, KArchive))),
      HfInfo(hfPath, if hfPath != Null then Str(stamps.1) else Null, HfAttempts(counts)),
      stamps.0, stamps.1)
  }

  /** `_build_uploadinfo_row`. */
  function UploadInfoRow(row: Row, key: string, now: string): Row
  {
    UploadJson(UploadInfoOf(row, key, now))
  }

  /**
   * The hf object is `success`, with the stripped `lfs_path` and a
   * `synced_at_utc` of the row's update stamp, exactly when `lfs_path` is
   * not blank, and `not_attempted` with neither otherwise.
   */
  lemma UploadInfoHf(row: Row, key: string, now: string)
    ensures var hf := UploadInfoRow(row, key, now)[KHf].fields;
      && (hf[KStatus] == Str("success") <==> NormalizeText(Get(row, KLfsPath)) != "")
      && (hf[KStatus] == Str("success") ==>
            hf[KPath] == Str(NormalizeText(Get(row, KLfsPath))) && hf[KSyncedAtUtc] == Str(Stamps(row, now).1))
      && (hf[KStatus] != Str("success") ==> hf[KPath] == Null && hf[KSyncedAtUtc] == Null)
  {
    var u := UploadInfoOf(row, key, now);
    assert UploadInfoRow(row, key, now)[KHf] == HfJson(u.hf);
  }

  /** What a successful analysis records, field by field. */
  datatype Metrics = Metrics(
    fileSize: Option<int>, pageCount: Option<int>, pagesWithImages: Option<int>, hasAnyPageImage: Option<bool>,
    fontCount: Option<int>, fonts: Value, unresolvedWordCount: Option<int>, language: Value)

  /** The analysis part of a pdf info row. */
  datatype PdfResult =
    | NotAttempted
    | Unreadable(status: string, error: Value)        // `missing_pdf` or `failed`
    | Analysed(error: Value, metrics: Metrics)        // `success`

  const PdfBaseKeys: set<Key> := {KRecordKey, KStatus, KCreatedAtUtc, KUpdatedAtUtc}
  const PdfMetricKeys: set<Key> := {KFileSize, KPageCount, KPagesWithImages, KHasAnyPageImage, KFontCount, KFonts,
    KUnresolvedWordCount, KLanguage}

  function PdfStatusName(p: PdfResult): string
  {
    match p
    case NotAttempted => "not_attempted"
    case Unreadable(status, _) => status
    case Analysed(_, _) => "success"
  }

  /** The metric fields of a successful analysis. */
  function MetricsJson(m: Metrics): (r: Row)
    ensures r.Keys == PdfMetricKeys
    ensures && r[KFileSize] == OptInt(m.fileSize) && r[KPageCount] == OptInt(m.pageCount)
      && r[KPagesWithImages] == OptInt(m.pagesWithImages) && r[KHasAnyPageImage] == OptBool(m.hasAnyPageImage)
      && r[KFontCount] == OptInt(m.fontCount) && r[KFonts] == m.fonts
      && r[KUnresolvedWordCount] == OptInt(m.unresolvedWordCount) && r[KLanguage] == m.language
  {
    map[KFileSize := OptInt(m.fileSize), KPageCount := OptInt(m.pageCount),
        KPagesWithImages := OptInt(m.pagesWithImages), KHasAnyPageImage := OptBool(m.hasAnyPageImage),
        KFontCount := OptInt(m.fontCount), KFonts := m.fonts, KUnresolvedWordCount := OptInt(m.unresolvedWordCount),
        KLanguage := m.language]
  }

  /** The metric fields of a missing or failed PDF: all None. */
  const NullMetricsJson: Row := map k | k in PdfMetricKeys :: Null

  /** The four fields every pdf info row has. */
  function PdfBaseJson(key: string, status: string, stamps: (string, string)): (r: Row)
    ensures r.Keys == PdfBaseKeys && r[KRecordKey] == Str(key) && r[KStatus] == Str(status)
    ensures r[KCreatedAtUtc] == Str(stamps.0) && r[KUpdatedAtUtc] == Str(stamps.1)
  {
    map[KRecordKey := Str(key), KStatus := Str(status), KCreatedAtUtc := Str(stamps.0), KUpdatedAtUtc := Str(stamps.1)]
  }

  /** The base fields, then `error`, then the metric fields. */
  function WithMetrics(base: Row, error: Value, metrics: Row): (r: Row)
    requires base.Keys == PdfBaseKeys && metrics.Keys == PdfMetricKeys
    ensures r.Keys == PdfBaseKeys + {KError} + PdfMetricKeys && r[KError] == error
    ensures forall k :: k in PdfBaseKeys ==> r[k] == base[k]
    ensures forall k :: k in PdfMetricKeys ==> r[k] == metrics[k]
  {
    base[KError := error] + metrics
  }

  /** The JSON object of a pdf info row. */
  function PdfJson(key: string, stamps: (string, string), p: PdfResult): (r: Row)
    ensures PdfBaseKeys <= r.Keys && r[KRecordKey] == Str(key) && r[KStatus] == Str(PdfStatusName(p))
    ensures r[KCreatedAtUtc] == Str(stamps.0) && r[KUpdatedAtUtc] == Str(stamps.1)
    ensures p.NotAttempted? ==> r.Keys == PdfBaseKeys
    ensures !p.NotAttempted? ==> r.Keys == PdfBaseKeys + {KError} + PdfMetricKeys && r[KError] == p.error
    ensures p.Unreadable? ==> forall k :: k in PdfMetricKeys ==> r[k] == Null
    ensures p.Analysed? ==> forall k :: k in PdfMetricKeys ==> r[k] == MetricsJson(p.metrics)[k]
  {
    var base := PdfBaseJson(key, PdfStatusName(p), stamps);
    match p
    case NotAttempted => base
    case Unreadable(_, error) => WithMetrics(base, error, NullMetricsJson)
    case Analysed(error, m) => WithMetrics(base, error, MetricsJson(m))
  }

  /** The status `_build_pdfinfo_row` gives: `not_attempted` unless `pdf_info` is a dict with an allowed status. */
  function PdfStatus(row: Row): (s: string)
    ensures s in PdfStatuses
  {
    var src := Get(row, KPdfInfo);
    if src.Dict? then Status(Get(src.fields, KStatus), PdfStatuses, "not_attempted") else "not_attempted"
  }

  /**
   * The analysis `_build_pdfinfo_row` reads from `pdf_info`: none unless it
   * is a dict with an attempted status; the counts are parsed like
   * `_int_or_none`, `has_any_page_image` like `_bool_or_none`, and `fonts`
   * and `language` are kept only when they are dicts.
   */
  function PdfResultOf(row: Row): (p: PdfResult)
    ensures PdfStatusName(p) == PdfStatus(row)
    ensures p.Analysed? ==>
      (p.metrics.fonts.Dict? || p.metrics.fonts == Null) && (p.metrics.language.Dict? || p.metrics.language == Null)
  {
    var status := PdfStatus(row);
    if status == "not_attempted" then NotAttempted
    else
      var f := FieldsOf(Get(row, KPdfInfo));
      var error := OptionalText(Get(f, KError));
      if status == "missing_pdf" || status == "failed" then Unreadable(status, error)
      else
        Analysed(error, Metrics(PrunePdfInfo.IntOrNone(Get(f, KFileSize)), PrunePdfInfo.IntOrNone(Get(f, KPageCount)),
                                PrunePdfInfo.IntOrNone(Get(f, KPagesWithImages)), BoolOrNone(Get(f, KHasAnyPageImage)),
                                PrunePdfInfo.IntOrNone(Get(f, KFontCount)), DictOrNull(Get(f, KFonts)),
                                PrunePdfInfo.IntOrNone(Get(f, KUnresolvedWordCount)), DictOrNull(Get(f, KLanguage))))
  }

  /** `_build_pdfinfo_row`. */
  function PdfInfoRow(row: Row, key: string, now: string): Row
  {
    PdfJson(key, Stamps(row, now), PdfResultOf(row))
  }

  /**
   * A row without an attempted analysis gets only the four base fields; a
   * missing or failed PDF gets every metric as None; a successful one gets
   * each count as an int or None, `has_any_page_image` as a bool or None and
   * `fonts`/`language` as a dict or None.
   */
  lemma PdfInfoShape(row: Row, key: string, now: string)
    ensures var r := PdfInfoRow(row, key, now);
      && r[KStatus] == Str(PdfStatus(row))
      && (PdfStatus(row) == "not_attempted" <==> r.Keys == PdfBaseKeys)
      && (PdfStatus(row) != "not_attempted" ==> r.Keys == PdfBaseKeys + {KError} + PdfMetricKeys)
      && (PdfStatus(row) in {"missing_pdf", "failed"} ==> forall k :: k in PdfMetricKeys ==> r[k] == Null)
      && (PdfStatus(row) == "success" ==>
            && (r[KFileSize].Int? || r[KFileSize] == Null) && (r[KPageCount].Int? || r[KPageCount] == Null)
            && (r[KPagesWithImages].Int? || r[KPagesWithImages] == Null)
            && (r[KHasAnyPageImage].Bool? || r[KHasAnyPageImage] == Null)
            && (r[KFontCount].Int? || r[KFontCount] == Null)
            && (r[KUnresolvedWordCount].Int? || r[KUnresolvedWordCount] == Null)
            && (r[KFonts].Dict? || r[KFonts] == Null) && (r[KLanguage].Dict? || r[KLanguage] == Null))
  {
    var p := PdfResultOf(row);
    var r := PdfJson(key, Stamps(row, now), p);
    assert PdfStatusName(p) == PdfStatus(row);
    assert !p.NotAttempted? ==> KError in r.Keys && KError !in PdfBaseKeys;
    if p.Analysed? {
      var m := MetricsJson(p.metrics);
      assert r[KFileSize] == m[KFileSize] && r[KPageCount] == m[KPageCount] && r[KPagesWithImages] == m[KPagesWithImages];
      assert r[KHasAnyPageImage] == m[KHasAnyPageImage] && r[KFontCount] == m[KFontCount] && r[KFonts] == m[KFonts];
      assert r[KUnresolvedWordCount] == m[KUnresolvedWordCount] && r[KLanguage] == m[KLanguage];
    }
  }

  /** The three rows of one ledger row share its key and its stamps. */
  lemma RowsShareKeyAndStamps(row: Row, key: string, now: string)
    ensures var url, upload, pdf := UrlInfoRow(row, key, now), UploadInfoRow(row, key, now), PdfInfoRow(row, key, now);
      && url[KRecordKey] == upload[KRecordKey] == pdf[KRecordKey] == Str(key)
      && url[KCreatedAtUtc] == upload[KCreatedAtUtc] == pdf[KCreatedAtUtc] == Str(Stamps(row, now).0)
      && url[KUpdatedAtUtc] == upload[KUpdatedAtUtc] == pdf[KUpdatedAtUtc] == Str(Stamps(row, now).1)
  {
    var u := UrlInfoOf(row, key, now);
    var up := UploadInfoOf(row, key, now);
  }

  // ------------------------------------------------------------------ scan

  /** One decoded line of a source partition file, with where it was read. */
  datatype SourceLine = SourceLine(file: string, lineNo: nat, value: Value)

  /** The key of a line: MigrationError for a line that is not a JSON object, else its record key. */
  function LineKey(line: SourceLine, env: Env): (r: Result<string>)
    ensures r.Err? ==> r.error == MigrationError
  {
    if line.value.Dict? then
      RecordKeyRefused(NonEmptyText(Get(line.value.fields, KUniqueCode), ""),
                       env.unquote(NonEmptyText(Get(line.value.fields, KSourceUrl), "")), env.sha1Hex);
      RecordKeyFromRow(line.value.fields, env)
    else Err(MigrationError)
  }

  /** The keys of all lines. */
  function LineKeys(lines: seq<SourceLine>, env: Env): (ks: seq<Result<string>>)
    ensures |ks| == |lines| && forall i :: 0 <= i < |lines| ==> ks[i] == LineKey(lines[i], env)
  {
    seq(|lines|, i requires 0 <= i < |lines| => LineKey(lines[i], env))
  }

  /** The first `n` keys are all there, and no two are the same. */
  ghost predicate Distinct(ks: seq<Result<string>>, n: nat)
    requires n <= |ks|
  {
    && (forall i :: 0 <= i < n ==> ks[i].Ok?)
    && (forall i, j :: 0 <= i < j < n ==> ks[i].value != ks[j].value)
  }

  /** Every line has a key, and no two lines share one. */
  ghost predicate KeysDistinct(lines: seq<SourceLine>, env: Env)
  {
    Distinct(LineKeys(lines, env), |lines|)
  }

  /** The scan's map after the first `n` keys: each key at the place of the one line that has it. */
  ghost predicate Seen(ks: seq<Result<string>>, n: nat, seen: set<string>)
    requires n <= |ks|
  {
    && Distinct(ks, n)
    && (forall i :: 0 <= i < n ==> ks[i].value in seen)
    && (forall k :: k in seen ==> exists i :: 0 <= i < n && ks[i].value == k)
    && |seen| == n
  }

  /** Adding a new key keeps `Seen`. */
  lemma SeenStep(ks: seq<Result<string>>, n: nat, seen: set<string>)
    requires n < |ks| && Seen(ks, n, seen)
    requires ks[n].Ok? && ks[n].value !in seen
    ensures Seen(ks, n + 1, seen + {ks[n].value})
  {
  }

  /** A key met before makes the keys not distinct. */
  lemma SeenRepeat(ks: seq<Result<string>>, n: nat, seen: set<string>)
    requires n < |ks| && Seen(ks, n, seen)
    requires ks[n].Ok? && ks[n].value in seen
    ensures !Distinct(ks, |ks|)
  {
    var i :| 0 <= i < n && ks[i].value == ks[n].value;
  }

  /** A missing key makes the keys not distinct. */
  lemma MissingKey(ks: seq<Result<string>>, n: nat)
    requires n < |ks| && ks[n].Err?
    ensures !Distinct(ks, |ks|)
  {
  }

  /** The partition a line's `gr_date` falls in. */
  function LinePartition(line: SourceLine): string
  {
    LedgerEngine.PartitionForGrDate(Get(FieldsOf(line.value), KGrDate))
  }

  /** The partition of every line. */
  function LinePartitions(lines: seq<SourceLine>): (ps: seq<string>)
    ensures |ps| == |lines| && forall i :: 0 <= i < |lines| ==> ps[i] == LinePartition(lines[i])
  {
    seq(|lines|, i requires 0 <= i < |lines| => LinePartition(lines[i]))
  }

  /** How many of the first `n` partitions are `p`. */
  function PartitionTally(parts: seq<string>, n: nat, p: string): nat
    requires n <= |parts|
  {
    if n == 0 then 0 else PartitionTally(parts, n - 1, p) + (if parts[n - 1] == p then 1 else 0)
  }

  /** A Counter's entry: 0 for a key it has not met. */
  function CountIn(m: map<string, nat>, p: string): nat
  {
    if p in m then m[p] else 0
  }

  /** A Counter's update: one more for `p`. */
  function Bump(counts: map<string, nat>, p: string): (r: map<string, nat>)
    ensures CountIn(r, p) == CountIn(counts, p) + 1
    ensures forall q :: q != p ==> CountIn(r, q) == CountIn(counts, q)
  {
    counts[p := CountIn(counts, p) + 1]
  }

  /** `counts` with the first `n` partitions counted, in order. */
  function CountLines(counts: map<string, nat>, parts: seq<string>, n: nat): map<string, nat>
    requires n <= |parts|
  {
    if n == 0 then counts else Bump(CountLines(counts, parts, n - 1), parts[n - 1])
  }

  /** Counting one more partition. */
  lemma CountLinesStep(counts: map<string, nat>, parts: seq<string>, n: nat, c: map<string, nat>)
    requires n < |parts| && c == CountLines(counts, parts, n)
    ensures Bump(c, parts[n]) == CountLines(counts, parts, n + 1)
  {
  }

  /** Each partition's count grows by the number of lines that fall in it. */
  lemma {:induction false} CountLinesTally(counts: map<string, nat>, parts: seq<string>, n: nat, p: string)
    requires n <= |parts|
    ensures CountIn(CountLines(counts, parts, n), p) == CountIn(counts, p) + PartitionTally(parts, n, p)
  {
    if n > 0 {
      CountLinesTally(counts, parts, n - 1, p);
    }
  }

  /** `MigrateInfosReport`: the counters the scan fills. */
  class MigrateInfosReport {
    var sourceFiles: nat
    var sourceRows: nat
    var uniqueCodes: nat
    var sourcePartitionCounts: map<string, nat>

    constructor (files: nat)
      ensures sourceFiles == files && sourceRows == 0 && uniqueCodes == 0 && sourcePartitionCounts == map[]
    {
      sourceFiles, sourceRows, uniqueCodes, sourcePartitionCounts := files, 0, 0, map[];
    }

    /** One more source row, counted in its partition. */
    method CountRow(partition: string)
      modifies this
      ensures sourceRows == old(sourceRows) + 1
      ensures sourcePartitionCounts == Bump(old(sourcePartitionCounts), partition)
      ensures sourceFiles == old(sourceFiles) && uniqueCodes == old(uniqueCodes)
    {
      sourceRows := sourceRows + 1;
      sourcePartitionCounts := Bump(sourcePartitionCounts, partition);
    }
  }

  /**
   * `_scan_source`: every line's record key, refusing a line without one
   * and a key met before with MigrationError; on success the report has
   * counted every line, once per partition, and as many unique codes as lines.
   */
  method ScanSource(lines: seq<SourceLine>, env: Env, report: MigrateInfosReport) returns (r: Result<()>)
    modifies report
    ensures r.Ok? <==> KeysDistinct(lines, env)
    ensures r.Err? ==> r.error == MigrationError
    ensures r.Ok? ==> report.sourceRows == old(report.sourceRows) + |lines| && report.uniqueCodes == |lines|
    ensures r.Ok? ==> report.sourcePartitionCounts == CountLines(old(report.sourcePartitionCounts), LinePartitions(lines), |lines|)
    ensures report.sourceFiles == old(report.sourceFiles)
  {
    ghost var ks, parts := LineKeys(lines, env), LinePartitions(lines);
    var seen: map<string, (string, nat)> := map[];
    ghost var rows0, counts0 := report.sourceRows, report.sourcePartitionCounts;
    var i := 0;
    while i < |lines|
      invariant 0 <= i <= |lines| && Seen(ks, i, seen.Keys) && |seen| == i
      invariant report.sourceRows == rows0 + i && report.sourceFiles == old(report.sourceFiles)
      invariant report.sourcePartitionCounts == CountLines(counts0, parts, i)
    {
      var line := lines[i];
      var key := LineKey(line, env);
      if key.Err? {
        MissingKey(ks, i);
        return Err(MigrationError);
      }
      if key.value in seen {
        SeenRepeat(ks, i, seen.Keys);
        return Err(MigrationError);
      }
      SeenStep(ks, i, seen.Keys);
      seen := seen[key.value := (line.file, line.lineNo)];
      var partition := LinePartition(line);
      assert partition == parts[i];
      CountLinesStep(counts0, parts, i, report.sourcePartitionCounts);
      report.CountRow(partition);
      i := i + 1;
    }
    report.uniqueCodes := |seen|;
    r := Ok(());
  }


  // --------------------------------------------------------------- targets

  /** What a target directory path holds. */
  datatype Target = Absent | NotADirectory | Directory(jsonlFiles: set<string>)

  /** `_require_target_empty`: a target may be absent or a directory without `.jsonl` files. */
  function RequireTargetEmpty(t: Target): (r: Result<()>)
    ensures r.Ok? <==> t.Absent? || (t.Directory? && t.jsonlFiles == {})
    ensures r.Err? ==> r.error == MigrationError
  {
    match t
    case Absent => Ok(())
    case NotADirectory => Err(MigrationError)
    case Directory(files) => if files == {} then Ok(()) else Err(MigrationError)
  }

  /** `_list_source_files`: the source partition stems, years newest first, then other names, `unknown` last. */
  method ListSourceFiles(stems: set<string>) returns (r: seq<string>)
    ensures |r| == |stems| && (forall p :: p in r <==> p in stems)
    ensures SortedBy(r, Infos.NamespaceSortKey)
  {
    r := SortedNames(stems, Infos.NamespaceSortKey);
  }
}
