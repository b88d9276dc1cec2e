/**
 * The slice of Python the ledger code leans on: JSON-like values as rows
 * hold them, truthiness, `str()`, `int()`, `str.strip()` and a few string
 * searches. Character classes are ASCII except for whitespace, which is
 * Python's full `str.isspace` set.
 */
module Py {

  datatype Option<T> = None | Some(value: T)

  /** The exception classes the modelled code raises. */
  datatype Error =
    | LedgerError
    | RecordNotFound
    | DuplicateUniqueCode(key: string)
    | InvalidTransition
    | RetryLimitExceeded
    | ImmutableFieldUpdate
    | ValueError
    | TypeError
    | AttributeError
    | SyncHFError
    | MigrationError
    | OverflowError
    | FileNotFound

  /** A value, or the exception raised instead of returning it. */
  datatype Result<T> = Ok(value: T) | Err(error: Error)

  /**
   * A key of a JSON object.  Every field name the modelled code spells out
   * is a constructor, written as the name in camel case after a `K`; any
   * other key is `Other(name)`.  `KeyName` gives a key's spelling.
   */
  datatype Key =
    | KUniqueCode
    | KRecordKey
    | KTitle
    | KDepartmentName
    | KDepartmentCode
    | KGrDate
    | KSourceUrl
    | KLfsPath
    | KState
    | KAttemptCounts
    | KDownload
    | KWayback
    | KArchive
    | KPdfInfo
    | KFirstSeenCrawlDate
    | KLastSeenCrawlDate
    | KFirstSeenRunType
    | KCreatedAtUtc
    | KUpdatedAtUtc
    | KPath
    | KStatus
    | KHash
    | KSize
    | KError
    | KUrl
    | KContentUrl
    | KArchiveTime
    | KArchiveSha1
    | KArchiveLength
    | KArchiveMimetype
    | KArchiveStatusCode
    | KIdentifier
    | KFileSize
    | KPageCount
    | KPagesWithImages
    | KHasAnyPageImage
    | KFontCount
    | KFonts
    | KUnresolvedWordCount
    | KLanguage
    | KInferred
    | KScriptWordCounts
    | KTotalWords
    | KAttempts
    | KHf
    | KLfs
    | KBackend
    | KCommitHash
    | KSyncedAtUtc
    | KTotalFontCount
    | Other(name: string)

  function KeyName(k: Key): string
  {
    match k
    case KUniqueCode => "unique_code"
    case KRecordKey => "record_key"
    case KTitle => "title"
    case KDepartmentName => "department_name"
    case KDepartmentCode => "department_code"
    case KGrDate => "gr_date"
    case KSourceUrl => "source_url"
    case KLfsPath => "lfs_path"
    case KState => "state"
    case KAttemptCounts => "attempt_counts"
    case KDownload => "download"
    case KWayback => "wayback"
    case KArchive => "archive"
    case KPdfInfo => "pdf_info"
    case KFirstSeenCrawlDate => "first_seen_crawl_date"
    case KLastSeenCrawlDate => "last_seen_crawl_date"
    case KFirstSeenRunType => "first_seen_run_type"
    case KCreatedAtUtc => "created_at_utc"
    case KUpdatedAtUtc => "updated_at_utc"
    case KPath => "path"
    case KStatus => "status"
    case KHash => "hash"
    case KSize => "size"
    case KError => "error"
    case KUrl => "url"
    case KContentUrl => "content_url"
    case KArchiveTime => "archive_time"
    case KArchiveSha1 => "archive_sha1"
    case KArchiveLength => "archive_length"
    case KArchiveMimetype => "archive_mimetype"
    case KArchiveStatusCode => "archive_status_code"
    case KIdentifier => "identifier"
    case KFileSize => "file_size"
    case KPageCount => "page_count"
    case KPagesWithImages => "pages_with_images"
    case KHasAnyPageImage => "has_any_page_image"
    case KFontCount => "font_count"
    case KFonts => "fonts"
    case KUnresolvedWordCount => "unresolved_word_count"
    case KLanguage => "language"
    case KInferred => "inferred"
    case KScriptWordCounts => "script_word_counts"
    case KTotalWords => "total_words"
    case KAttempts => "attempts"
    case KHf => "hf"
    case KLfs => "lfs"
    case KBackend => "backend"
    case KCommitHash => "commit_hash"
    case KSyncedAtUtc => "synced_at_utc"
    case KTotalFontCount => "total_font_count"
    case Other(name) => name
  }

  /** A decoded JSON value (floats are not modelled). */
  datatype Value =
    | Null
    | Bool(b: bool)
    | Int(i: int)
    | Str(s: string)
    | List(items: seq<Value>)
    | Dict(fields: map<Key, Value>)

  /** A JSON object: one line of a partition file. */
  type Row = map<Key, Value>

  /** `row.get(key)`: an absent key reads as None. */
  function Get(row: Row, key: Key): Value
  {
    if key in row then row[key] else Null
  }

  /** `row.get(key, default)`. */
  function GetOr(row: Row, key: Key, default: Value): Value
  {
    if key in row then row[key] else default
  }

  /** The fields of a dict value, or the empty map for anything else. */
  function FieldsOf(v: Value): Row
  {
    if v.Dict? then v.fields else map[]
  }

  predicate Truthy(v: Value)
  {
    match v
    case Null => false
    case Bool(b) => b
    case Int(i) => i != 0
    case Str(s) => s != ""
    case List(xs) => xs != []
    case Dict(m) => m != map[]
  }

  /** Python's `a or b`. */
  function Or(a: Value, b: Value): Value
  {
    if Truthy(a) then a else b
  }

  /** `isinstance(v, int)`: a bool is an int in Python. */
  predicate IsPyInt(v: Value)
  {
    v.Int? || v.Bool?
  }

  function IntOf(v: Value): int
    requires IsPyInt(v)
  {
    if v.Bool? then (if v.b then 1 else 0) else v.i
  }

  /** `a == b` where a bool and an int compare numerically. */
  predicate PyEq(a: Value, b: Value)
  {
    if IsPyInt(a) && IsPyInt(b) then IntOf(a) == IntOf(b) else a == b
  }

  // ---------------------------------------------------------------- characters

  /** The characters `str.isspace()` accepts. */
  const Whitespace: set<char> := {
    '\t', '\n', '\U{000B}', '\U{000C}', '\r', '\U{001C}', '\U{001D}', '\U{001E}',
    '\U{001F}', ' ', '\U{0085}', '\U{00A0}', '\U{1680}', '\U{2000}', '\U{2001}',
    '\U{2002}', '\U{2003}', '\U{2004}', '\U{2005}', '\U{2006}', '\U{2007}',
    '\U{2008}', '\U{2009}', '\U{200A}', '\U{2028}', '\U{2029}', '\U{202F}',
    '\U{205F}', '\U{3000}'
  }

  predicate IsDigit(c: char) { '0' <= c <= '9' }
  predicate IsUpper(c: char) { 'A' <= c <= 'Z' }
  predicate IsLower(c: char) { 'a' <= c <= 'z' }
  predicate IsLetter(c: char) { IsUpper(c) || IsLower(c) }
  predicate IsAlnum(c: char) { IsLetter(c) || IsDigit(c) }

  predicate AllDigits(s: string)
  {
    forall i :: 0 <= i < |s| ==> IsDigit(s[i])
  }

  /** `s.isdigit()`: non-empty and all digits. */
  predicate IsDigitText(s: string)
  {
    s != [] && AllDigits(s)
  }

  function LowerChar(c: char): char
  {
    if IsUpper(c) then (c as int + 32) as char else c
  }

  function Lower(s: string): (r: string)
    ensures |r| == |s|
    ensures forall i :: 0 <= i < |s| ==> r[i] == LowerChar(s[i])
  {
    seq(|s|, i requires 0 <= i < |s| => LowerChar(s[i]))
  }

  function DigitsOnly(s: string): (r: string)
    ensures AllDigits(r) && |r| <= |s|
  {
    if s == [] then []
    else (if IsDigit(s[0]) then [s[0]] else []) + DigitsOnly(s[1..])
  }

  // ------------------------------------------------------------------- strip

  /** `s.lstrip(chars)`. */
  function LStrip(s: string, cs: set<char>): string
  {
    if s != [] && s[0] in cs then LStrip(s[1..], cs) else s
  }

  /** `s.rstrip(chars)`. */
  function RStrip(s: string, cs: set<char>): string
  {
    if s != [] && s[|s| - 1] in cs then RStrip(s[..|s| - 1], cs) else s
  }

  /** `lstrip` removes a prefix of characters from `cs` and stops at the first other one. */
  lemma {:induction false} LStripProps(s: string, cs: set<char>)
    ensures var r := LStrip(s, cs);
      |r| <= |s| && r == s[|s| - |r|..]
      && (r != [] ==> r[0] !in cs)
      && (forall i :: 0 <= i < |s| - |r| ==> s[i] in cs)
    decreases |s|
  {
    if s != [] && s[0] in cs {
      var t := s[1..];
      LStripProps(t, cs);
      assert LStrip(s, cs) == LStrip(t, cs);
      var n := |s| - |LStrip(s, cs)|;
      assert forall i :: 1 <= i < n ==> s[i] == t[i - 1];
      assert s[n..] == t[n - 1..];
    } else {
      assert LStrip(s, cs) == s;
    }
  }

  /** `rstrip` removes a suffix of characters from `cs` and stops at the last other one. */
  lemma {:induction false} RStripProps(s: string, cs: set<char>)
    ensures var r := RStrip(s, cs);
      |r| <= |s| && r == s[..|r|]
      && (r != [] ==> r[|r| - 1] !in cs)
      && (forall i :: |r| <= i < |s| ==> s[i] in cs)
  {
    if s != [] && s[|s| - 1] in cs {
      RStripProps(s[..|s| - 1], cs);
      assert s[..|s| - 1][..|RStrip(s, cs)|] == s[..|RStrip(s, cs)|];
    }
  }

  /** `s.strip(chars)`. */
  function StripSet(s: string, cs: set<char>): string
  {
    LStrip(RStrip(s, cs), cs)
  }

  /** `s.strip()`. */
  function Strip(s: string): string
  {
    StripSet(s, Whitespace)
  }

  /** `str(value or "").strip()`, the repositories' text normaliser. */
  function NormalizeText(v: Value): string
  {
    Strip(PyStr(Or(v, Str(""))))
  }

  lemma {:induction false} StripSetShape(s: string, cs: set<char>)
    ensures var r := StripSet(s, cs);
      exists lo, hi :: 0 <= lo <= hi <= |s| && r == s[lo..hi]
        && (forall i :: 0 <= i < lo ==> s[i] in cs)
        && (forall i :: hi <= i < |s| ==> s[i] in cs)
    ensures var r := StripSet(s, cs); r != [] ==> r[0] !in cs && r[|r| - 1] !in cs
  {
    var m := RStrip(s, cs);
    var r := LStrip(m, cs);
    RStripProps(s, cs);
    LStripProps(m, cs);
    var lo, hi := |m| - |r|, |m|;
    assert r == s[lo..hi];
    assert r != [] ==> r[|r| - 1] == m[|m| - 1];
  }

  lemma {:induction false} StripSetOfClean(s: string, cs: set<char>)
    requires s == [] || (s[0] !in cs && s[|s| - 1] !in cs)
    ensures StripSet(s, cs) == s
  {
  }

  lemma StripSetIdempotent(s: string, cs: set<char>)
    ensures StripSet(StripSet(s, cs), cs) == StripSet(s, cs)
  {
    StripSetShape(s, cs);
    StripSetOfClean(StripSet(s, cs), cs);
  }

  /** Normalising a text that is already normalised changes nothing. */
  lemma NormalizeTextIdempotent(v: Value)
    ensures NormalizeText(Str(NormalizeText(v))) == NormalizeText(v)
  {
    StripSetIdempotent(PyStr(Or(v, Str(""))), Whitespace);
  }

  /** A text without surrounding whitespace is its own normal form. */
  lemma NormalizeClean(s: string)
    requires s == [] || (s[0] !in Whitespace && s[|s| - 1] !in Whitespace)
    ensures NormalizeText(Str(s)) == s
  {
    StripSetOfClean(s, Whitespace);
  }

  lemma {:induction false} StripBlank(s: string, cs: set<char>)
    ensures StripSet(s, cs) == [] <==> forall i :: 0 <= i < |s| ==> s[i] in cs
  {
    var m := RStrip(s, cs);
    RStripProps(s, cs);
    LStripProps(m, cs);
    if StripSet(s, cs) != [] {
      StripSetShape(s, cs);
    }
  }

  /** The characters a stripped text keeps are exactly those of a slice. */
  lemma StripChars(s: string, cs: set<char>, c: char)
    requires c in StripSet(s, cs)
    ensures c in s
  {
    var m := RStrip(s, cs);
    var r := LStrip(m, cs);
    RStripProps(s, cs);
    LStripProps(m, cs);
    var k :| 0 <= k < |r| && r[k] == c;
    assert m[|m| - |r| + k] == c;
    assert s[|m| - |r| + k] == c;
  }

  // ---------------------------------------------------------------- integers

  function DigitChar(d: nat): char
    requires d < 10
  {
    ('0' as int + d) as char
  }

  function DigitValue(c: char): nat
    requires IsDigit(c)
  {
    c as int - '0' as int
  }

  /** The value of a decimal digit string, most significant digit first. */
  function DigitsValue(s: string): nat
    requires AllDigits(s)
  {
    if s == [] then 0 else DigitsValue(s[..|s| - 1]) * 10 + DigitValue(s[|s| - 1])
  }

  /** `str(n)` for a natural number. */
  function NatToStr(n: nat): (r: string)
    ensures r != [] && AllDigits(r)
    ensures r[0] == '0' ==> n == 0
  {
    if n < 10 then [DigitChar(n)] else NatToStr(n / 10) + [DigitChar(n % 10)]
  }

  /** `str(i)`. */
  function IntToStr(i: int): (r: string)
    ensures r != [] && (r[0] == '-' || IsDigit(r[0])) && IsDigit(r[|r| - 1])
  {
    if i < 0 then "-" + NatToStr(-i) else NatToStr(i)
  }

  /**
   * The digits `int()` accepts after the sign: ASCII digits, where a single
   * underscore may stand between two digits (`1_000`).
   */
  predicate IsGroupedDigits(s: string)
  {
    s != [] && IsDigit(s[0]) && IsDigit(s[|s| - 1])
    && (forall i :: 0 <= i < |s| ==> IsDigit(s[i]) || s[i] == '_')
    && (forall i :: 0 <= i < |s| - 1 ==> IsDigit(s[i]) || IsDigit(s[i + 1]))
  }

  /** `int(text)` for text that is already stripped: an optional sign, then grouped digits. */
  function ParseSigned(t: string): Option<int>
  {
    if t != [] && (t[0] == '-' || t[0] == '+') then
      if IsGroupedDigits(t[1..]) then
        var v: int := DigitsValue(DigitsOnly(t[1..]));
        Some(if t[0] == '-' then -v else v)
      else None
    else if IsGroupedDigits(t) then Some(DigitsValue(DigitsOnly(t)))
    else None
  }

  /** Digits never taken out by `DigitsOnly` leave a digit text as it is. */
  lemma {:induction false} DigitsOnlyOfDigits(s: string)
    requires AllDigits(s)
    ensures DigitsOnly(s) == s
  {
    if s != [] {
      DigitsOnlyOfDigits(s[1..]);
    }
  }

  /** `DigitsOnly` distributes over concatenation. */
  lemma {:induction false} DigitsOnlyConcat(a: string, b: string)
    ensures DigitsOnly(a + b) == DigitsOnly(a) + DigitsOnly(b)
  {
    if a == [] {
      assert a + b == b;
    } else {
      assert (a + b)[0] == a[0] && (a + b)[1..] == a[1..] + b;
      DigitsOnlyConcat(a[1..], b);
    }
  }

  /** A plain numeral is read digit by digit. */
  lemma ParseSignedOfDigits(s: string)
    requires IsDigitText(s)
    ensures ParseSigned(s) == Some(DigitsValue(s))
    ensures ParseSigned("-" + s) == Some(-(DigitsValue(s) as int))
    ensures ParseSigned("+" + s) == Some(DigitsValue(s))
  {
    DigitsOnlyOfDigits(s);
    assert ("-" + s)[1..] == s && ("+" + s)[1..] == s;
  }

  /** Two digit groups joined by one underscore are grouped digits. */
  lemma GroupedShape(a: string, b: string)
    requires IsDigitText(a) && IsDigitText(b)
    ensures IsGroupedDigits(a + "_" + b)
  {
    var t := a + "_" + b;
    assert forall i :: 0 <= i < |a| ==> t[i] == a[i];
    assert forall i :: |a| < i < |t| ==> t[i] == b[i - |a| - 1];
  }

  /** Dropping the underscore between two digit groups leaves their digits. */
  lemma GroupedDigits(a: string, b: string)
    requires IsDigitText(a) && IsDigitText(b)
    ensures DigitsOnly(a + "_" + b) == a + b
  {
    DigitsOnlyConcat(a + "_", b);
    DigitsOnlyConcat(a, "_");
    DigitsOnlyOfDigits(a);
    DigitsOnlyOfDigits(b);
    assert DigitsOnly("_") == [];
  }

  /** An underscore between two digit groups does not change the number `int()` reads. */
  lemma ParseSignedGrouped(a: string, b: string)
    requires IsDigitText(a) && IsDigitText(b)
    ensures ParseSigned(a + "_" + b) == ParseSigned(a + b) == Some(DigitsValue(a + b))
  {
    var t := a + "_" + b;
    GroupedShape(a, b);
    GroupedDigits(a, b);
    assert t[0] == a[0];
    assert IsDigitText(a + b);
    ParseSignedOfDigits(a + b);
  }

  /** A doubled, leading or trailing underscore makes `int()` fail. */
  lemma ParseSignedRefusesLooseUnderscore(a: string, b: string)
    requires IsDigitText(a) && IsDigitText(b)
    ensures ParseSigned(a + "__" + b).None?
    ensures ParseSigned("_" + a).None? && ParseSigned(a + "_").None?
  {
    var t := a + "__" + b;
    assert t[|a|] == '_' && t[|a| + 1] == '_';
    assert ("_" + a)[0] == '_';
    assert (a + "_")[|a|] == '_';
  }

  /** `int(text)`: `None` stands for the ValueError. */
  function ParseInt(text: string): Option<int>
  {
    ParseSigned(Strip(text))
  }

  lemma {:induction false} DigitsValueOfNatToStr(n: nat)
    ensures DigitsValue(NatToStr(n)) == n
  {
    if n >= 10 {
      DigitsValueOfNatToStr(n / 10);
      var s := NatToStr(n / 10) + [DigitChar(n % 10)];
      assert s[..|s| - 1] == NatToStr(n / 10);
    }
  }

  lemma NotSpace(c: char)
    requires c == '-' || IsDigit(c)
    ensures c !in Whitespace
  {
  }

  /** Every Python whitespace character below U+007F is at most a space. */
  lemma PrintableNotSpace(c: char)
    requires ' ' < c < '\U{007F}'
    ensures c !in Whitespace
  {
  }

  /** `int(str(i)) == i`. */
  /** A negative numeral reads back through its sign. */
  lemma ParseSignedOfNegative(n: nat)
    requires n > 0
    ensures ParseSigned("-" + NatToStr(n)) == Some(-(n as int))
  {
    DigitsValueOfNatToStr(n);
    ParseSignedOfDigits(NatToStr(n));
  }

  /** A non-negative numeral reads back as its digits. */
  lemma ParseSignedOfNatural(n: nat)
    ensures ParseSigned(NatToStr(n)) == Some(n)
  {
    DigitsValueOfNatToStr(n);
    ParseSignedOfDigits(NatToStr(n));
  }

  lemma ParseIntOfIntToStr(i: int)
    ensures ParseInt(IntToStr(i)) == Some(i)
  {
    var s := IntToStr(i);
    NotSpace(s[0]);
    NotSpace(s[|s| - 1]);
    StripSetOfClean(s, Whitespace);
    assert Strip(s) == s;
    if i < 0 {
      ParseSignedOfNegative(-i);
    } else {
      ParseSignedOfNatural(i);
    }
  }

  /** `str(value)` (a non-empty list or dict prints as a fixed marker). */
  function PyStr(v: Value): string
  {
    match v
    case Null => "None"
    case Bool(b) => if b then "True" else "False"
    case Int(i) => IntToStr(i)
    case Str(s) => s
    case List(xs) => if xs == [] then "[]" else "[...]"
    case Dict(m) => if m == map[] then "{}" else "{...}"
  }

  // --------------------------------------------------------- string searches

  predicate StartsWith(s: string, p: string) { p <= s }

  predicate EndsWith(s: string, p: string)
  {
    |p| <= |s| && s[|s| - |p|..] == p
  }

  /** `s.find(sub, start)`: the first occurrence at or after `start`. */
  predicate OccursAt(s: string, sub: string, k: nat)
  {
    k + |sub| <= |s| && s[k..k + |sub|] == sub
  }

  function FindFrom(s: string, sub: string, start: nat): (r: Option<nat>)
    decreases |s| - start
    ensures r.Some? ==> start <= r.value && OccursAt(s, sub, r.value)
    ensures r.Some? ==> forall k: nat :: start <= k < r.value ==> !OccursAt(s, sub, k)
    ensures r.None? ==> forall k: nat :: start <= k ==> !OccursAt(s, sub, k)
  {
    if start + |sub| > |s| then None
    else if s[start..start + |sub|] == sub then Some(start)
    else FindFrom(s, sub, start + 1)
  }

  /** `s.find(sub, start)` is `p` when `sub` occurs at `p` and nowhere between `start` and `p`. */
  lemma FindFromAt(s: string, sub: string, start: nat, p: nat)
    requires start <= p && OccursAt(s, sub, p)
    requires forall k: nat :: start <= k < p ==> !OccursAt(s, sub, k)
    ensures FindFrom(s, sub, start) == Some(p)
  {
  }

  /** An occurrence at `k` would put `sub[j - k]` at `j`. */
  lemma NotOccursOver(s: string, sub: string, k: nat, j: nat)
    requires k <= j < k + |sub| && j < |s| && s[j] != sub[j - k]
    ensures !OccursAt(s, sub, k)
  {
  }

  /** `sub in s`. */
  predicate Contains(s: string, sub: string)
  {
    FindFrom(s, sub, 0).Some?
  }

  /** The number of occurrences of the character `c` (`s.count(c)`). */
  function CountChar(s: string, c: char): (n: nat)
    ensures n <= |s|
    ensures n == 0 <==> c !in s
  {
    if s == [] then 0 else (if s[0] == c then 1 else 0) + CountChar(s[1..], c)
  }

  /** `s.split(c, 1)` when `c` occurs: the text before and after the first `c`. */
  function SplitFirst(s: string, c: char): (r: Option<(string, string)>)
    ensures r.None? <==> c !in s
    ensures r.Some? ==> s == r.value.0 + [c] + r.value.1 && c !in r.value.0
  {
    if s == [] then None
    else if s[0] == c then Some(([], s[1..]))
    else
      match SplitFirst(s[1..], c)
      case None => None
      case Some(parts) => Some(([s[0]] + parts.0, parts.1))
  }

  /** Replace every `c` with `t` (`s.replace(c, t)` for a one-character `c`). */
  function ReplaceChar(s: string, c: char, t: string): (r: string)
    ensures c !in t ==> c !in r
    ensures |r| >= |s| - CountChar(s, c)
  {
    if s == [] then [] else (if s[0] == c then t else [s[0]]) + ReplaceChar(s[1..], c, t)
  }

  /** Replacing a character that does not occur changes nothing. */
  lemma {:induction false} ReplaceCharAbsent(s: string, c: char, t: string)
    requires c !in s
    ensures ReplaceChar(s, c, t) == s
    decreases |s|
  {
    if s != [] {
      assert s[1..] == s[1..] && c !in s[1..];
      ReplaceCharAbsent(s[1..], c, t);
    }
  }

  /** `s.split(c)` for a one-character separator: the pieces between the occurrences of `c`. */
  function SplitOn(s: string, c: char): (r: seq<string>)
    ensures |r| >= 1
    ensures forall i :: 0 <= i < |r| ==> c !in r[i]
    decreases |s|
  {
    match SplitFirst(s, c)
    case None => [s]
    case Some(parts) => [parts.0] + SplitOn(parts.1, c)
  }

  /** Joining the pieces with the separator gives back the text. */
  lemma {:induction false} JoinSplitOn(s: string, c: char)
    ensures Join(SplitOn(s, c), [c]) == s
    decreases |s|
  {
    match SplitFirst(s, c)
    case None =>
    case Some(parts) =>
      JoinSplitOn(parts.1, c);
      var r := SplitOn(s, c);
      assert r[1..] == SplitOn(parts.1, c);
  }

  /**
   * `re.sub("[^...]+", rep, s)`: every maximal run of characters that
   * `keep` rejects is replaced by one copy of `rep`.
   */
  function SubRuns(s: string, keep: char -> bool, rep: string): (r: string)
    ensures (forall i :: 0 <= i < |rep| ==> keep(rep[i])) ==> forall i :: 0 <= i < |r| ==> keep(r[i])
    ensures (forall c :: c in r ==> c in s || c in rep)
  {
    if s == [] then []
    else if keep(s[0]) then [s[0]] + SubRuns(s[1..], keep, rep)
    else rep + SubRuns(DropRun(s, keep), keep, rep)
  }

  /** `s` without its leading run of rejected characters. */
  function DropRun(s: string, keep: char -> bool): (r: string)
    ensures |r| <= |s| && r == s[|s| - |r|..]
    ensures r == [] || keep(r[0])
    ensures s != [] && !keep(s[0]) ==> |r| < |s|
  {
    if s != [] && !keep(s[0]) then DropRun(s[1..], keep) else s
  }

  /**
   * Every character of `s` that `keep` rejects is `c` and is followed by a
   * kept character, if by any: the shape of `SubRuns(_, keep, [c])`.
   */
  predicate SingleRuns(s: string, keep: char -> bool, c: char)
  {
    forall i :: 0 <= i < |s| && !keep(s[i]) ==> s[i] == c && (i + 1 < |s| ==> keep(s[i + 1]))
  }

  /** `re.sub("[^...]+", c, s)` leaves single copies of `c` between kept characters. */
  lemma {:induction false} SubRunsSingle(s: string, keep: char -> bool, c: char)
    requires !keep(c)
    ensures SingleRuns(SubRuns(s, keep, [c]), keep, c)
    ensures SubRuns(s, keep, [c]) != [] ==> SubRuns(s, keep, [c])[0] == (if keep(s[0]) then s[0] else c)
    decreases |s|
  {
    if s != [] {
      var r := SubRuns(s, keep, [c]);
      if keep(s[0]) {
        SubRunsSingle(s[1..], keep, c);
        var t := SubRuns(s[1..], keep, [c]);
        assert r == [s[0]] + t;
        assert forall i :: 1 <= i < |r| ==> r[i] == t[i - 1];
      } else {
        var d := DropRun(s, keep);
        SubRunsSingle(d, keep, c);
        var t := SubRuns(d, keep, [c]);
        assert r == [c] + t;
        assert forall i :: 1 <= i < |r| ==> r[i] == t[i - 1];
      }
    }
  }

  /** A text already in that shape is left as it is. */
  lemma {:induction false} SubRunsOfSingle(s: string, keep: char -> bool, c: char)
    requires !keep(c) && SingleRuns(s, keep, c)
    ensures SubRuns(s, keep, [c]) == s
    decreases |s|
  {
    if s != [] {
      var tail := s[1..];
      SingleRunsSlice(s, keep, c, 1, |s|);
      assert s[1..|s|] == tail;
      SubRunsOfSingle(tail, keep, c);
      if !keep(s[0]) {
        DropSingleSeparator(s, keep, c);
        assert s == [c] + tail;
      }
    }
  }

  /** In that shape a rejected character is a lone `c`, so the run it starts is just that character. */
  lemma DropSingleSeparator(s: string, keep: char -> bool, c: char)
    requires s != [] && !keep(s[0]) && SingleRuns(s, keep, c)
    ensures s[0] == c && DropRun(s, keep) == s[1..]
  {
    var tail := s[1..];
    assert tail == [] || keep(tail[0]);
    assert DropRun(tail, keep) == tail;
  }

  /** The shape survives slicing. */
  lemma SingleRunsSlice(s: string, keep: char -> bool, c: char, lo: int, hi: int)
    requires SingleRuns(s, keep, c) && 0 <= lo <= hi <= |s|
    ensures SingleRuns(s[lo..hi], keep, c)
  {
    forall i | 0 <= i < hi - lo && !keep(s[lo..hi][i])
      ensures s[lo..hi][i] == c && (i + 1 < hi - lo ==> keep(s[lo..hi][i + 1]))
    {
      assert s[lo..hi][i] == s[lo + i];
      if i + 1 < hi - lo {
        assert s[lo..hi][i + 1] == s[lo + i + 1];
      }
    }
  }

  /** A text matching the regular expression `-?\d+` (ASCII digits). */
  predicate IsIntText(t: string)
  {
    IsDigitText(t) || (t != [] && t[0] == '-' && IsDigitText(t[1..]))
  }

  /** The value `int(t)` gives for a text matching `-?\d+`. */
  function IntTextValue(t: string): (r: int)
    requires IsIntText(t)
    ensures ParseSigned(t) == Some(r)
  {
    var magnitude: int := if t[0] == '-' then DigitsValue(t[1..]) else DigitsValue(t);
    if t[0] == '-' then
      assert t == "-" + t[1..];
      ParseSignedOfDigits(t[1..]);
      -magnitude
    else
      ParseSignedOfDigits(t);
      magnitude
  }

  /**
   * `value[1:-1]` when `value` is at least two characters long and starts
   * and ends with the same quote character, else `value`.
   */
  function Unquote(value: string): (r: string)
    ensures |r| <= |value|
  {
    if |value| >= 2 && value[0] == value[|value| - 1] && (value[0] == '\'' || value[0] == '"')
    then value[1..|value| - 1]
    else value
  }

  // -------------------------------------------------------------------- lines

  /** The line boundaries of `str.splitlines()`. */
  predicate IsLineBreak(c: char)
  {
    c == '\n' || c == '\r' || c == '\U{000B}' || c == '\U{000C}' || c == '\U{001C}'
    || c == '\U{001D}' || c == '\U{001E}' || c == '\U{0085}' || c == '\U{2028}' || c == '\U{2029}'
  }

  predicate NoLineBreak(line: string)
  {
    forall i :: 0 <= i < |line| ==> !IsLineBreak(line[i])
  }

  /** The index of the first line boundary of `s`, or `|s|`. */
  function LineEnd(s: string): (k: nat)
    ensures k <= |s| && NoLineBreak(s[..k]) && (k < |s| ==> IsLineBreak(s[k]))
  {
    if s == [] || IsLineBreak(s[0]) then 0
    else
      var k := 1 + LineEnd(s[1..]);
      assert s[..k] == [s[0]] + s[1..][..k - 1];
      k
  }

  /** `s.splitlines()`: a `"\r\n"` pair is one boundary and a final boundary ends the last line. */
  function SplitLines(s: string): (r: seq<string>)
    ensures forall i :: 0 <= i < |r| ==> NoLineBreak(r[i])
    decreases |s|
  {
    if s == [] then []
    else
      var k := LineEnd(s);
      if k == |s| then [s]
      else
        var skip := if s[k] == '\r' && k + 1 < |s| && s[k + 1] == '\n' then 2 else 1;
        [s[..k]] + SplitLines(s[k + skip..])
  }

  /** `sep.join(parts)`. */
  function Join(parts: seq<string>, sep: string): string
  {
    if parts == [] then [] else if |parts| == 1 then parts[0] else parts[0] + sep + Join(parts[1..], sep)
  }
}
