/**
 * The pure helpers of the PDF metadata job: font-name normalisation and
 * lookup, word extraction, the code-point script table, per-word script
 * majority, language inference, count ordering, and the `pdf_info` values
 * recorded when no PDF could be read.  Which characters are letters and
 * which are word characters come from Unicode tables; they are parameters
 * here (`alpha` for `str.isalpha`, `word` for the regex class `\w`).
 */
module PdfInfo {
  import opened Py
  import opened Order

  // ------------------------------------------------------------ font names

  /** The `^[A-Z]{6}\+` subset tag of an embedded font name. */
  predicate FontPrefix(t: string)
  {
    |t| >= 7 && (forall i :: 0 <= i < 6 ==> IsUpper(t[i])) && t[6] == '+'
  }

  predicate LowerAlnum(c: char) { IsLower(c) || IsDigit(c) }

  /** `NON_ALNUM_RE.sub("", s)`: keeps only `[a-z0-9]`. */
  function KeepAlnum(s: string): (r: string)
    ensures forall i :: 0 <= i < |r| ==> LowerAlnum(r[i])
    ensures |r| <= |s|
  {
    if s == [] then []
    else (if LowerAlnum(s[0]) then [s[0]] else []) + KeepAlnum(s[1..])
  }

  /** `_normalize_font_name`. */
  function NormalizeFontName(fontName: string): (r: string)
    ensures forall i :: 0 <= i < |r| ==> LowerAlnum(r[i])
  {
    var t := Strip(fontName);
    if t == [] then []
    else KeepAlnum(Lower(if FontPrefix(t) then t[7..] else t))
  }

  lemma {:induction false} KeepAlnumOfClean(s: string)
    requires forall i :: 0 <= i < |s| ==> LowerAlnum(s[i])
    ensures KeepAlnum(s) == s
  {
    if s != [] {
      KeepAlnumOfClean(s[1..]);
      assert s == [s[0]] + s[1..];
    }
  }

  lemma {:induction false} LowerOfClean(s: string)
    requires forall i :: 0 <= i < |s| ==> LowerAlnum(s[i])
    ensures Lower(s) == s
  {
    assert forall i :: 0 <= i < |s| ==> LowerChar(s[i]) == s[i];
  }

  lemma NotWhitespace(c: char)
    requires LowerAlnum(c)
    ensures c !in Whitespace
  {
  }

  /** A normalised name is its own normal form. */
  lemma NormalizeFontNameIdempotent(fontName: string)
    ensures NormalizeFontName(NormalizeFontName(fontName)) == NormalizeFontName(fontName)
  {
    var r := NormalizeFontName(fontName);
    if r != [] {
      NotWhitespace(r[0]);
      NotWhitespace(r[|r| - 1]);
      StripSetOfClean(r, Whitespace);
      assert !FontPrefix(r) by {
        if |r| >= 7 { assert LowerAlnum(r[6]); }
      }
      LowerOfClean(r);
      KeepAlnumOfClean(r);
    }
  }

  /** A subset tag is dropped: `ABCDEF+Name` normalises as `Name` would after it. */
  lemma NormalizeFontNameDropsTag(tag: string, name: string)
    requires |tag| == 6 && forall i :: 0 <= i < 6 ==> IsUpper(tag[i])
    requires name == [] || name[|name| - 1] !in Whitespace
    ensures NormalizeFontName(tag + "+" + name) == KeepAlnum(Lower(name))
  {
    var t := tag + "+" + name;
    assert t[0] == tag[0];
    assert t[|t| - 1] !in Whitespace by {
      if name == [] { assert t[|t| - 1] == '+'; } else { assert t[|t| - 1] == name[|name| - 1]; }
    }
    StripSetOfClean(t, Whitespace);
    assert FontPrefix(t) by {
      forall i | 0 <= i < 6 ensures IsUpper(t[i]) { assert t[i] == tag[i]; }
    }
    assert t[7..] == name;
  }

  /** `_resolve_font_key`: the least key the page knows the name by, else the least global one. */
  function ResolveFontKey(fontName: string, pageLookup: map<string, set<string>>, globalLookup: map<string, set<string>>)
    : (r: Option<string>)
    ensures var n := NormalizeFontName(fontName);
      var pageKeys := if n in pageLookup then pageLookup[n] else {};
      var globalKeys := if n in globalLookup then globalLookup[n] else {};
      (r.None? <==> n == [] || (pageKeys == {} && globalKeys == {}))
      && (r.Some? && pageKeys != {} ==> r.value in pageKeys && forall k :: k in pageKeys ==> StrLe(r.value, k))
      && (r.Some? && pageKeys == {} ==> r.value in globalKeys && forall k :: k in globalKeys ==> StrLe(r.value, k))
  {
    var n := NormalizeFontName(fontName);
    if n == [] then None
    else
      var pageKeys := if n in pageLookup then pageLookup[n] else {};
      if pageKeys != {} then Some(MinStr(pageKeys))
      else
        var globalKeys := if n in globalLookup then globalLookup[n] else {};
        if globalKeys != {} then Some(MinStr(globalKeys)) else None
  }

  // ------------------------------------------------------------------ ints

  /** `_safe_int`: a bool gives the default, an int itself, anything else `int(str(value))` or the default. */
  function SafeInt(value: Value, default: int): (r: int)
    ensures value.Bool? ==> r == default
    ensures value.Int? ==> r == value.i
  {
    if value.Bool? then default
    else if value.Int? then value.i
    else
      var parsed := ParseInt(PyStr(value));
      if parsed.Some? then parsed.value else default
  }

  /** A decimal numeral is read back as its value. */
  lemma SafeIntOfNumeral(i: int, default: int)
    ensures SafeInt(Str(IntToStr(i)), default) == i
  {
    ParseIntOfIntToStr(i);
  }

  // ----------------------------------------------------------------- words

  /** The length of the run of word characters at the front of `s`. */
  function RunLen(s: string, word: char -> bool): (k: nat)
    ensures k <= |s| && (forall i :: 0 <= i < k ==> word(s[i])) && (k < |s| ==> !word(s[k]))
  {
    if s == [] || !word(s[0]) then 0 else 1 + RunLen(s[1..], word)
  }

  predicate HasAlpha(w: string, alpha: char -> bool)
  {
    exists i :: 0 <= i < |w| && alpha(w[i])
  }

  /** `_extract_words`: the maximal runs of word characters that hold a letter. */
  function ExtractWords(text: string, word: char -> bool, alpha: char -> bool): (r: seq<string>)
    ensures forall w :: w in r ==> w != [] && (forall i :: 0 <= i < |w| ==> word(w[i])) && HasAlpha(w, alpha)
    decreases |text|
  {
    if text == [] then []
    else if !word(text[0]) then ExtractWords(text[1..], word, alpha)
    else
      var k := RunLen(text, word);
      (if HasAlpha(text[..k], alpha) then [text[..k]] else []) + ExtractWords(text[k..], word, alpha)
  }

  lemma {:induction false} RunLenStops(a: string, c: char, b: string, word: char -> bool)
    requires !word(c)
    ensures RunLen(a + [c] + b, word) == RunLen(a, word)
    decreases |a|
  {
    if a != [] && word(a[0]) {
      assert (a + [c] + b)[1..] == a[1..] + [c] + b;
      RunLenStops(a[1..], c, b, word);
    }
  }

  /** A non-word character separates: the words of `a c b` are those of `a`, then of `b`. */
  lemma {:induction false} ExtractWordsSplit(a: string, c: char, b: string, word: char -> bool, alpha: char -> bool)
    requires !word(c)
    ensures ExtractWords(a + [c] + b, word, alpha) == ExtractWords(a, word, alpha) + ExtractWords(b, word, alpha)
    decreases |a|
  {
    var s := a + [c] + b;
    if a == [] {
      assert s == [c] + b && s[1..] == b;
    } else if !word(a[0]) {
      assert s[1..] == a[1..] + [c] + b;
      ExtractWordsSplit(a[1..], c, b, word, alpha);
    } else {
      var k := RunLen(a, word);
      RunLenStops(a, c, b, word);
      assert s[..k] == a[..k];
      assert s[k..] == a[k..] + [c] + b;
      ExtractWordsSplit(a[k..], c, b, word, alpha);
    }
  }

  /** A single run of word characters is one word exactly when it holds a letter. */
  lemma ExtractWordsOfRun(w: string, word: char -> bool, alpha: char -> bool)
    requires w != [] && forall i :: 0 <= i < |w| ==> word(w[i])
    ensures ExtractWords(w, word, alpha) == if HasAlpha(w, alpha) then [w] else []
  {
    assert RunLen(w, word) == |w|;
    assert w[..|w|] == w && w[|w|..] == [];
  }

  // --------------------------------------------------------------- scripts

  /** The script ranges of `_script_for_codepoint`, inclusive, in the order it tests them. */
  const ScriptRanges: seq<(int, int, string)> := [
    (0x0900, 0x097F, "Devanagari"), (0xA8E0, 0xA8FF, "Devanagari"),
    (0x0980, 0x09FF, "Bengali"),
    (0x0A00, 0x0A7F, "Gurmukhi"),
    (0x0A80, 0x0AFF, "Gujarati"),
    (0x0B00, 0x0B7F, "Oriya"),
    (0x0B80, 0x0BFF, "Tamil"),
    (0x0C00, 0x0C7F, "Telugu"),
    (0x0C80, 0x0CFF, "Kannada"),
    (0x0D00, 0x0D7F, "Malayalam"),
    (0x0600, 0x06FF, "Arabic"), (0x0750, 0x077F, "Arabic"), (0x08A0, 0x08FF, "Arabic"),
    (0x0041, 0x005A, "Latin"), (0x0061, 0x007A, "Latin"), (0x00C0, 0x024F, "Latin"), (0x1E00, 0x1EFF, "Latin")]

  predicate InRange(cp: int, i: int)
    requires 0 <= i < |ScriptRanges|
  {
    ScriptRanges[i].0 <= cp <= ScriptRanges[i].1
  }

  /** `_script_for_codepoint`. */
  function ScriptForCodepoint(cp: int): string
  {
    if 0x0900 <= cp <= 0x097F || 0xA8E0 <= cp <= 0xA8FF then "Devanagari"
    else if 0x0980 <= cp <= 0x09FF then "Bengali"
    else if 0x0A00 <= cp <= 0x0A7F then "Gurmukhi"
    else if 0x0A80 <= cp <= 0x0AFF then "Gujarati"
    else if 0x0B00 <= cp <= 0x0B7F then "Oriya"
    else if 0x0B80 <= cp <= 0x0BFF then "Tamil"
    else if 0x0C00 <= cp <= 0x0C7F then "Telugu"
    else if 0x0C80 <= cp <= 0x0CFF then "Kannada"
    else if 0x0D00 <= cp <= 0x0D7F then "Malayalam"
    else if 0x0600 <= cp <= 0x06FF || 0x0750 <= cp <= 0x077F || 0x08A0 <= cp <= 0x08FF then "Arabic"
    else if 0x0041 <= cp <= 0x005A || 0x0061 <= cp <= 0x007A || 0x00C0 <= cp <= 0x024F || 0x1E00 <= cp <= 0x1EFF then "Latin"
    else "Other"
  }

  /** The ranges do not overlap, so the order of the tests does not matter. */
  lemma ScriptRangesDisjoint(i: int, j: int, cp: int)
    requires 0 <= i < j < |ScriptRanges|
    ensures !(InRange(cp, i) && InRange(cp, j))
  {
  }

  /** A code point in a range of the table gets that range's script. */
  lemma ScriptForCodepointInTable(cp: int)
    ensures forall i :: 0 <= i < |ScriptRanges| && InRange(cp, i) ==> ScriptForCodepoint(cp) == ScriptRanges[i].2
  {
    forall i | 0 <= i < |ScriptRanges| && InRange(cp, i)
      ensures ScriptForCodepoint(cp) == ScriptRanges[i].2
    {
      if i == 0 {} else if i == 1 {} else if i == 2 {} else if i == 3 {} else if i == 4 {} else if i == 5 {} else if i == 6 {} else if i == 7 {} else if i == 8 {} else if i == 9 {} else if i == 10 {} else if i == 11 {} else if i == 12 {} else if i == 13 {} else if i == 14 {} else if i == 15 {} else {}
    }
  }

  /** A code point outside every range of the table is `Other`. */
  lemma ScriptForCodepointOutside(cp: int)
    ensures (forall i :: 0 <= i < |ScriptRanges| ==> !InRange(cp, i)) ==> ScriptForCodepoint(cp) == "Other"
  {
    if ScriptForCodepoint(cp) != "Other" {
      if 0x0900 <= cp <= 0x097F { assert InRange(cp, 0); } else if 0xA8E0 <= cp <= 0xA8FF { assert InRange(cp, 1); } else if 0x0980 <= cp <= 0x09FF { assert InRange(cp, 2); } else if 0x0A00 <= cp <= 0x0A7F { assert InRange(cp, 3); } else if 0x0A80 <= cp <= 0x0AFF { assert InRange(cp, 4); } else if 0x0B00 <= cp <= 0x0B7F { assert InRange(cp, 5); } else if 0x0B80 <= cp <= 0x0BFF { assert InRange(cp, 6); } else if 0x0C00 <= cp <= 0x0C7F { assert InRange(cp, 7); } else if 0x0C80 <= cp <= 0x0CFF { assert InRange(cp, 8); } else if 0x0D00 <= cp <= 0x0D7F { assert InRange(cp, 9); } else if 0x0600 <= cp <= 0x06FF { assert InRange(cp, 10); } else if 0x0750 <= cp <= 0x077F { assert InRange(cp, 11); } else if 0x08A0 <= cp <= 0x08FF { assert InRange(cp, 12); } else if 0x0041 <= cp <= 0x005A { assert InRange(cp, 13); } else if 0x0061 <= cp <= 0x007A { assert InRange(cp, 14); } else if 0x00C0 <= cp <= 0x024F { assert InRange(cp, 15); } else if 0x1E00 <= cp <= 0x1EFF { assert InRange(cp, 16); }
    }
  }

  // ---------------------------------------------------------------- counts

  /** `_increment_counter(counts, key)`. */
  function Bump(counts: map<string, int>, key: string): (r: map<string, int>)
    ensures r.Keys == counts.Keys + {key}
  {
    counts[key := (if key in counts then counts[key] else 0) + 1]
  }

  /** The sort key `(-count, name)`. */
  function CountKey(counts: map<string, int>, name: string): seq<int>
  {
    [-(if name in counts then counts[name] else 0)] + Codes(name)
  }

  lemma CountKeyInjective(counts: map<string, int>)
    ensures KeyInjective(counts.Keys, k => CountKey(counts, k))
  {
    forall a, b | a in counts.Keys && b in counts.Keys && CountKey(counts, a) == CountKey(counts, b)
      ensures a == b
    {
      assert CountKey(counts, a)[1..] == Codes(a) && CountKey(counts, b)[1..] == Codes(b);
      CodesInjective(a, b);
    }
  }

  /** `(-count, name)` order: a larger count first, then the smaller name. */
  lemma CountKeyLe(counts: map<string, int>, a: string, b: string)
    requires a in counts && b in counts
    ensures Le(CountKey(counts, a), CountKey(counts, b))
      <==> counts[a] > counts[b] || (counts[a] == counts[b] && StrLe(a, b))
  {
    var ka := CountKey(counts, a);
    var kb := CountKey(counts, b);
    assert ka[0] == -counts[a] && kb[0] == -counts[b];
    assert ka[1..] == Codes(a) && kb[1..] == Codes(b);
  }

  /** `r` has the largest count, and the smallest name among the largest. */
  predicate IsTop(counts: map<string, int>, r: string)
  {
    r in counts
    && (forall k :: k in counts ==> counts[k] <= counts[r])
    && (forall k :: k in counts && counts[k] == counts[r] ==> StrLe(r, k))
  }

  /** `max(sorted(counts), key=counts.get)`: the first maximum in name order. */
  function Top(counts: map<string, int>): (r: string)
    requires counts != map[]
    ensures IsTop(counts, r)
  {
    CountKeyInjective(counts);
    assert counts.Keys != {} by {
      var k :| k in counts;
    }
    var r := MinBy(counts.Keys, k => CountKey(counts, k));
    forall k | k in counts ensures counts[k] <= counts[r] && (counts[k] == counts[r] ==> StrLe(r, k)) {
      CountKeyLe(counts, r, k);
    }
    r
  }

  /** The tally of scripts over the letters of `w`. */
  function ScriptCounts(w: string, alpha: char -> bool): (r: map<string, int>)
    decreases |w|
  {
    if w == [] then map[]
    else
      var counts := ScriptCounts(w[..|w| - 1], alpha);
      var c := w[|w| - 1];
      if alpha(c) then Bump(counts, ScriptForCodepoint(c as int)) else counts
  }

  /** The number of letters of `w` in `script`. */
  function LettersIn(w: string, alpha: char -> bool, script: string): nat
    decreases |w|
  {
    if w == [] then 0
    else
      var c := w[|w| - 1];
      LettersIn(w[..|w| - 1], alpha, script) + (if alpha(c) && ScriptForCodepoint(c as int) == script then 1 else 0)
  }

  /** The tally counts each script's letters, and holds exactly the scripts that occur. */
  lemma {:induction false} ScriptCountsMeaning(w: string, alpha: char -> bool, script: string)
    ensures script in ScriptCounts(w, alpha) <==> LettersIn(w, alpha, script) > 0
    ensures script in ScriptCounts(w, alpha) ==> ScriptCounts(w, alpha)[script] == LettersIn(w, alpha, script)
    decreases |w|
  {
    if w != [] {
      ScriptCountsMeaning(w[..|w| - 1], alpha, script);
    }
  }

  /** The tally is empty exactly when `w` has no letter. */
  lemma {:induction false} ScriptCountsEmpty(w: string, alpha: char -> bool)
    ensures ScriptCounts(w, alpha) == map[] <==> forall i :: 0 <= i < |w| ==> !alpha(w[i])
    decreases |w|
  {
    if w != [] {
      var init := w[..|w| - 1];
      ScriptCountsEmpty(init, alpha);
      var c := w[|w| - 1];
      if alpha(c) {
        assert ScriptForCodepoint(c as int) in ScriptCounts(w, alpha);
      } else {
        assert forall i :: 0 <= i < |init| ==> init[i] == w[i];
      }
    }
  }

  /** What `_script_for_word` returns: `Other` without letters, else the top script. */
  function ScriptOfWord(w: string, alpha: char -> bool): (r: string)
  {
    var counts := ScriptCounts(w, alpha);
    if counts == map[] then "Other" else Top(counts)
  }

  /** `_script_for_word`: tallies the scripts of the letters, then takes the majority. */
  method ScriptForWord(w: string, alpha: char -> bool) returns (r: string)
    ensures r == ScriptOfWord(w, alpha)
    ensures (forall i :: 0 <= i < |w| ==> !alpha(w[i])) ==> r == "Other"
    ensures (exists i :: 0 <= i < |w| && alpha(w[i])) ==> IsTop(ScriptCounts(w, alpha), r)
  {
    var counts: map<string, int> := map[];
    var i := 0;
    while i < |w|
      invariant 0 <= i <= |w|
      invariant counts == ScriptCounts(w[..i], alpha)
    {
      assert w[..i + 1][..i] == w[..i];
      if alpha(w[i]) {
        counts := Bump(counts, ScriptForCodepoint(w[i] as int));
      }
      i := i + 1;
    }
    assert w[..i] == w;
    ScriptCountsEmpty(w, alpha);
    if counts == map[] {
      r := "Other";
    } else {
      r := Top(counts);
    }
  }

  /** `SCRIPT_TO_LANGUAGE`. */
  const ScriptToLanguage: map<string, string> := map[
    "Devanagari" := "mr_hi", "Latin" := "en", "Arabic" := "ar_ur", "Gujarati" := "gu",
    "Bengali" := "bn", "Gurmukhi" := "pa", "Tamil" := "ta", "Telugu" := "te",
    "Kannada" := "kn", "Malayalam" := "ml", "Oriya" := "or"]

  /** `SCRIPT_TO_LANGUAGE.get(script, script.lower())`. */
  function LanguageOf(script: string): string
  {
    if script in ScriptToLanguage then ScriptToLanguage[script] else Lower(script)
  }

  /** The counts `_inferred_language` considers: no `Other`, nothing below 1. */
  function Considered(counts: map<string, int>): (r: map<string, int>)
    ensures forall k :: k in r <==> k in counts && k != "Other" && counts[k] > 0
    ensures forall k :: k in r ==> r[k] == counts[k]
  {
    map k | k in counts && k != "Other" && counts[k] > 0 :: counts[k]
  }

  /** `_inferred_language`. */
  function InferredLanguage(counts: map<string, int>): (r: string)
    ensures Considered(counts) == map[] ==> r == "unknown"
    ensures Considered(counts) != map[] ==> exists top :: IsTop(Considered(counts), top) && r == LanguageOf(top)
  {
    var considered := Considered(counts);
    if considered == map[] then "unknown" else LanguageOf(Top(considered))
  }

  /** The `Other` count never changes the language. */
  lemma InferredLanguageIgnoresOther(counts: map<string, int>, n: int)
    ensures InferredLanguage(counts["Other" := n]) == InferredLanguage(counts)
  {
    assert Considered(counts["Other" := n]) == Considered(counts);
  }

  /** Nor does a script that was not seen. */
  lemma InferredLanguageIgnoresZero(counts: map<string, int>, script: string, n: int)
    requires script !in counts && n <= 0
    ensures InferredLanguage(counts[script := n]) == InferredLanguage(counts)
  {
    assert Considered(counts[script := n]) == Considered(counts);
  }

  /** A single script seen gives its language. */
  lemma InferredLanguageOfOne(script: string, n: int)
    requires script != "Other" && n > 0
    ensures InferredLanguage(map[script := n]) == LanguageOf(script)
  {
    assert Considered(map[script := n]) == map[script := n];
  }

  /**
   * `_sorted_count_dict` as its list of entries: the same entries, by
   * descending count and then by name.
   */
  method SortedCountDict(values: map<string, int>) returns (entries: seq<(string, int)>)
    ensures |entries| == |values|
    ensures forall k :: k in values <==> exists i :: 0 <= i < |entries| && entries[i].0 == k
    ensures forall i :: 0 <= i < |entries| ==> entries[i].0 in values && entries[i].1 == values[entries[i].0]
    ensures forall i, j :: 0 <= i < j < |entries| ==> entries[i].0 != entries[j].0
    ensures forall i, j :: 0 <= i < j < |entries| ==>
      entries[i].1 > entries[j].1 || (entries[i].1 == entries[j].1 && StrLe(entries[i].0, entries[j].0))
  {
    var names := SortedNames(values.Keys, k => CountKey(values, k));
    entries := seq(|names|, i requires 0 <= i < |names| => (names[i], values[names[i]]));
    forall k | k in values ensures exists i :: 0 <= i < |entries| && entries[i].0 == k {
      var i :| 0 <= i < |names| && names[i] == k;
      assert entries[i].0 == k;
    }
    forall i, j | 0 <= i < j < |entries|
      ensures entries[i].1 > entries[j].1 || (entries[i].1 == entries[j].1 && StrLe(entries[i].0, entries[j].0))
    {
      CountKeyLe(values, names[i], names[j]);
    }
  }

  // ------------------------------------------------------- recorded infos

  /** The `language` object of a `pdf_info`. */
  datatype Language = Language(inferred: string, scriptWordCounts: map<string, int>, totalWords: int)

  /** A `pdf_info` object; the per-font entries are kept as JSON values. */
  datatype Info = Info(
    status: string, error: string, path: string, fileSize: Option<int>, pageCount: Option<int>,
    pagesWithImages: int, hasAnyPageImage: bool, fontCount: int, fonts: map<string, Value>,
    unresolvedWordCount: int, language: Language)

  /** An info that saw no page. */
  function EmptyInfo(status: string, error: string, path: string): Info
  {
    Info(status, error, path, None, None, 0, false, 0, map[], 0, Language("unknown", map[], 0))
  }

  /** `_build_missing_info`. */
  function BuildMissingInfo(): Info
  {
    EmptyInfo("missing_pdf", "local_pdf_not_found", "")
  }

  /** `_build_failed_info`: `path` is the ledger-relative text of the PDF's path, if any. */
  function BuildFailedInfo(path: Option<string>, error: string): (r: Info)
    ensures r.error == (if Strip(error) == "" then "pdf_info_failed" else Strip(error))
    ensures path.Some? ==> r.path == path.value
  {
    var message := Strip(error);
    EmptyInfo("failed", if message == "" then "pdf_info_failed" else message, if path.Some? then path.value else "")
  }

  /**
   * Neither info saw a page: no sizes, no image and zero counts, with an
   * `unknown` language; they differ only in status, error and path, and
   * the failed info never records a blank error.
   */
  lemma EmptyInfos(path: Option<string>, error: string)
    ensures var m := BuildMissingInfo(); var f := BuildFailedInfo(path, error);
      !m.hasAnyPageImage && m.pagesWithImages == 0 && m.fontCount == 0 && m.fonts == map[]
      && m.unresolvedWordCount == 0 && m.fileSize.None? && m.pageCount.None?
      && m.language == Language("unknown", map[], 0)
      && m.status == "missing_pdf" && f.status == "failed" && f.error != ""
      && f == m.(status := f.status, error := f.error, path := f.path)
  {
  }
}
