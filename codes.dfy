/**
 * The normalisers the import jobs share: `clean_text`, the search for a
 * run of 16 to 22 digits (`LONG_DIGITS_RE = \d{16,22}`), the
 * `canonical_unique_code` precedence, and the name and stem of a path.
 * Digits are ASCII; which characters are in Unicode's `Cf` category is a
 * parameter, since the Unicode tables are not modelled.
 */
module Codes {
  import opened Py

  // -------------------------------------------------------------- clean_text

  /** Unicode's `Cc` category: the C0 and C1 control characters and DEL. */
  predicate IsCc(c: char)
  {
    c <= '\U{001F}' || ('\U{007F}' <= c <= '\U{009F}')
  }

  /** The characters of `s` outside `Cc` and outside `Cf` (as `isFormat` says), in order. */
  function DropControls(s: string, isFormat: char -> bool): (r: string)
    ensures |r| <= |s|
    ensures forall i :: 0 <= i < |r| ==> !IsCc(r[i]) && !isFormat(r[i])
  {
    if s == [] then []
    else (if IsCc(s[0]) || isFormat(s[0]) then [] else [s[0]]) + DropControls(s[1..], isFormat)
  }

  /** A text without control characters is kept whole. */
  lemma {:induction false} DropControlsOfClean(s: string, isFormat: char -> bool)
    requires forall i :: 0 <= i < |s| ==> !IsCc(s[i]) && !isFormat(s[i])
    ensures DropControls(s, isFormat) == s
  {
    if s != [] {
      assert forall i :: 0 <= i < |s[1..]| ==> s[1..][i] == s[i + 1];
      DropControlsOfClean(s[1..], isFormat);
    }
  }

  /** `clean_text`: `""` for None, else `str(value)` without `Cf`/`Cc` characters, stripped. */
  function CleanText(v: Value, isFormat: char -> bool): string
  {
    if v.Null? then [] else Strip(DropControls(PyStr(v), isFormat))
  }

  /** No ASCII character is in `Cf`: what the Unicode tables say of every format character. */
  ghost predicate AsciiNotFormat(isFormat: char -> bool)
  {
    forall c :: c < '\U{0080}' ==> !isFormat(c)
  }

  /** A printable ASCII text without surrounding blanks comes out of `clean_text` as it went in. */
  lemma CleanTextOfPlain(s: string, isFormat: char -> bool)
    requires AsciiNotFormat(isFormat)
    requires forall i :: 0 <= i < |s| ==> ' ' < s[i] < '\U{007F}'
    ensures CleanText(Str(s), isFormat) == s
  {
    DropControlsOfClean(s, isFormat);
    if s != [] {
      PrintableNotSpace(s[0]);
      PrintableNotSpace(s[|s| - 1]);
    }
    StripSetOfClean(s, Whitespace);
  }

  // ------------------------------------------------------------- digit runs

  /** The end of the run of digits that starts at `k`. */
  function DigitRunEnd(s: string, k: nat): (r: nat)
    requires k <= |s|
    ensures k <= r <= |s| && (r < |s| ==> !IsDigit(s[r]))
    ensures forall i :: k <= i < r ==> IsDigit(s[i])
    decreases |s| - k
  {
    if k < |s| && IsDigit(s[k]) then DigitRunEnd(s, k + 1) else k
  }

  /** At least 16 digits start at `p`: where `\d{16,22}` can match. */
  predicate LongRunAt(s: string, p: nat)
    requires p <= |s|
  {
    DigitRunEnd(s, p) - p >= 16
  }

  /** The leftmost position at or after `q` where 16 digits start. */
  function LongRunStart(s: string, q: nat): (r: Option<nat>)
    requires q <= |s|
    ensures r.Some? ==> q <= r.value < |s| && LongRunAt(s, r.value)
    ensures r.Some? ==> forall p :: q <= p < r.value ==> !LongRunAt(s, p)
    ensures r.None? ==> forall p :: q <= p <= |s| ==> !LongRunAt(s, p)
    decreases |s| - q
  {
    if q == |s| then None
    else if LongRunAt(s, q) then Some(q)
    else LongRunStart(s, q + 1)
  }

  /**
   * `LONG_DIGITS_RE.search(s).group(0)`: the leftmost match, taken
   * greedily, so up to 22 digits of the first run that has at least 16.
   */
  function LongDigits(s: string): (r: Option<string>)
    ensures r.Some? ==> 16 <= |r.value| <= 22 && AllDigits(r.value)
    ensures r.None? <==> forall p :: 0 <= p <= |s| ==> !LongRunAt(s, p)
  {
    match LongRunStart(s, 0)
    case None => None
    case Some(p) =>
      var e := DigitRunEnd(s, p);
      var stop := if e - p > 22 then p + 22 else e;
      assert forall i :: 0 <= i < stop - p ==> s[p..stop][i] == s[p + i];
      Some(s[p..stop])
  }

  /** The match sits at the leftmost place where 16 digits start, and it is the first 22 digits there at most. */
  lemma LongDigitsLeftmost(s: string)
    requires LongDigits(s).Some?
    ensures
      exists p :: 0 <= p < |s| && LongRunAt(s, p)
        && (forall q :: 0 <= q < p ==> !LongRunAt(s, q))
        && LongDigits(s).value == s[p..p + |LongDigits(s).value|]
        && (|LongDigits(s).value| < 22 ==> p + |LongDigits(s).value| == DigitRunEnd(s, p))
  {
    var p := LongRunStart(s, 0).value;
    assert LongRunAt(s, p);
  }

  /** A text of at least 16 digits matches from its start: all of it, or its first 22 digits. */
  lemma LongDigitsOfDigits(t: string)
    requires AllDigits(t) && |t| >= 16
    ensures LongDigits(t) == Some(if |t| > 22 then t[..22] else t)
  {
    DigitRunAll(t, 0);
    assert LongRunAt(t, 0) && LongRunStart(t, 0) == Some(0);
    assert t[0..|t|] == t;
  }

  /** A text that starts with 16 to 22 digits followed by a non-digit matches those digits. */
  lemma LongDigitsOfPrefix(t: string, rest: string)
    requires AllDigits(t) && 16 <= |t| <= 22 && (rest == [] || !IsDigit(rest[0]))
    ensures LongDigits(t + rest) == Some(t)
  {
    var s := t + rest;
    DigitRunPrefix(t, rest, 0);
    assert LongRunAt(s, 0) && LongRunStart(s, 0) == Some(0);
    assert s[0..|t|] == t;
  }

  lemma {:induction false} DigitRunPrefix(t: string, rest: string, k: nat)
    requires AllDigits(t) && k <= |t| && (rest == [] || !IsDigit(rest[0]))
    ensures DigitRunEnd(t + rest, k) == |t|
    decreases |t| - k
  {
    var s := t + rest;
    if k < |t| {
      assert s[k] == t[k];
      DigitRunPrefix(t, rest, k + 1);
    } else if rest != [] {
      assert s[k] == rest[0];
    }
  }

  lemma {:induction false} DigitRunAll(t: string, k: nat)
    requires AllDigits(t) && k <= |t|
    ensures DigitRunEnd(t, k) == |t|
    decreases |t| - k
  {
    if k < |t| {
      DigitRunAll(t, k + 1);
    }
  }

  // ---------------------------------------------------- canonical_unique_code

  /**
   * `canonical_unique_code` on the cleaned code text and the cleaned,
   * percent-decoded URL text: the first long digit run in the code, then
   * in the URL; else the code's digits (18 at most) when there are 16 or
   * more; else the code text, else the URL text.
   */
  function CodeFromTexts(code: string, url: string): (r: string)
  {
    if LongDigits(code).Some? then LongDigits(code).value
    else if LongDigits(url).Some? then LongDigits(url).value
    else
      var digits := DigitsOnly(code);
      if |digits| >= 18 then digits[..18]
      else if |digits| >= 16 then digits
      else if code != [] then code
      else url
  }

  /** `canonical_unique_code(unique_code, source_url)`; `unquote` stands for `urllib.parse.unquote`. */
  function CanonicalUniqueCode(uniqueCode: Value, sourceUrl: Value, isFormat: char -> bool,
                               unquote: string -> string): string
  {
    CodeFromTexts(CleanText(uniqueCode, isFormat), unquote(CleanText(sourceUrl, isFormat)))
  }

  /** The precedence, case by case. */
  lemma CodeFromTextsCases(code: string, url: string)
    ensures LongDigits(code).Some? ==> CodeFromTexts(code, url) == LongDigits(code).value
    ensures LongDigits(code).None? && LongDigits(url).Some? ==> CodeFromTexts(code, url) == LongDigits(url).value
    ensures LongDigits(code).None? && LongDigits(url).None? && |DigitsOnly(code)| >= 16 ==>
      var r := CodeFromTexts(code, url);
      16 <= |r| <= 18 && AllDigits(r) && r <= DigitsOnly(code)
    ensures LongDigits(code).None? && LongDigits(url).None? && |DigitsOnly(code)| < 16 ==>
      CodeFromTexts(code, url) == (if code != [] then code else url)
  {
  }

  /** The result is blank only when both texts are. */
  lemma CodeFromTextsBlank(code: string, url: string)
    ensures CodeFromTexts(code, url) == [] <==> code == [] && url == []
  {
    if code == [] {
      assert DigitsOnly(code) == [];
    }
  }

  /**
   * Deriving the code again from a derived code gives it back, unless the
   * code text was blank and the URL text was the fallback.
   */
  lemma CodeFromTextsIdempotent(code: string, url: string)
    requires code != []
    ensures CodeFromTexts(CodeFromTexts(code, url), url) == CodeFromTexts(code, url)
  {
    var r := CodeFromTexts(code, url);
    if LongDigits(code).Some? || LongDigits(url).Some? || |DigitsOnly(code)| >= 16 {
      assert AllDigits(r) && |r| >= 16 && |r| <= 22;
      LongDigitsOfDigits(r);
    }
  }

  // ----------------------------------------------------------- path names

  /** The position of the last `c` in `s`, if any (`s.rfind(c)`). */
  function RFind(s: string, c: char): (r: Option<nat>)
    ensures r.Some? ==> r.value < |s| && s[r.value] == c && c !in s[r.value + 1..]
    ensures r.Some? ==> forall j :: r.value < j < |s| ==> s[j] != c
    ensures r.None? ==> forall j :: 0 <= j < |s| ==> s[j] != c
  {
    if s == [] then None
    else if s[|s| - 1] == c then Some(|s| - 1)
    else
      match RFind(s[..|s| - 1], c)
      case None => None
      case Some(i) => assert s[i + 1..] == s[..|s| - 1][i + 1..] + [s[|s| - 1]]; Some(i)
  }

  /** `s.rfind(c)` is the `c` at `i` when none follows it. */
  lemma RFindAt(s: string, c: char, i: nat)
    requires i < |s| && s[i] == c && forall j :: i < j < |s| ==> s[j] != c
    ensures RFind(s, c) == Some(i)
  {
  }

  /**
   * `PurePosixPath(text).name`: the last component that is neither empty
   * nor `.` (pathlib drops both when it parses a path).
   */
  function PathName(text: string): (r: string)
    ensures '/' !in r && r != "."
    decreases |text|
  {
    match RFind(text, '/')
    case None => if text == "." then [] else text
    case Some(i) =>
      var last := text[i + 1..];
      if last == [] || last == "." then PathName(text[..i]) else last
  }

  /** `PurePosixPath.stem`: the name without its last suffix, where a suffix needs a dot neither first nor last. */
  function StemOfName(name: string): (r: string)
    ensures |r| <= |name|
  {
    match RFind(name, '.')
    case Some(i) => if 0 < i < |name| - 1 then name[..i] else name
    case None => name
  }

  /** `Path(text).stem`. */
  function Stem(text: string): string
  {
    StemOfName(PathName(text))
  }

  /** The stem of `<dir>/<base>.<ext>` is `<base>` for a base name without `/` and an extension without `.`. */
  lemma StemOfFile(dir: string, base: string, ext: string)
    requires base != [] && '/' !in base && base != "." && ext != [] && '/' !in ext && '.' !in ext
    ensures Stem(dir + "/" + base + "." + ext) == base
    ensures Stem(base + "." + ext) == base
  {
    var name := base + "." + ext;
    assert dir + "/" + base + "." + ext == dir + "/" + name;
    assert '/' !in name by {
      assert forall j :: 0 <= j < |name| ==> name[j] == (if j < |base| then base[j] else if j == |base| then '.' else ext[j - |base| - 1]);
    }
    PathNameOfLast(dir, name);
    StemOfDotted(base, ext);
  }

  /** The name of `<dir>/<name>` is `<name>`, and a bare name is its own name. */
  lemma PathNameOfLast(dir: string, name: string)
    requires name != [] && name != "." && '/' !in name
    ensures PathName(dir + "/" + name) == name && PathName(name) == name
  {
    var path := dir + "/" + name;
    assert path[|dir| + 1..] == name;
    assert forall j :: |dir| < j < |path| ==> path[j] == name[j - |dir| - 1];
    RFindAt(path, '/', |dir|);
  }

  /** The stem of `<base>.<ext>`, for an extension without a dot, is `<base>`. */
  lemma StemOfDotted(base: string, ext: string)
    requires base != [] && ext != [] && '.' !in ext
    ensures StemOfName(base + "." + ext) == base
  {
    var name := base + "." + ext;
    assert forall j :: |base| < j < |name| ==> name[j] == ext[j - |base| - 1];
    RFindAt(name, '.', |base|);
    assert name[..|base|] == base;
  }
}
