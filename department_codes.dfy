/**
 * Department names to short department codes: the fixed code table, a
 * name normaliser, a lookup from normalised names to codes, and a slug
 * for names the table does not know.
 */
module DepartmentCodes {
  import opened Py

  /** `DEPARTMENT_CODE_TO_NAME`, in its declaration order. */
  const Table: seq<(string, string)> := [
    ("mahagri", "Agriculture, Dairy Development, Animal Husbandry and Fisheries Department"),
    ("mahcoop", "Co-operation, Textiles and Marketing Department"),
    ("mahenv", "Environment Department"),
    ("mahfin", "Finance Department"),
    ("mahfood", "Food, Civil Supplies and Consumer Protection Department"),
    ("mahadmin", "General Administration Department"),
    ("mahtech", "Higher and Technical Education Department"),
    ("mahhome", "Home Department"),
    ("mahhouse", "Housing Department"),
    ("mahind", "Industries, Energy and Labour Department"),
    ("mahit", "Information Technology Department"),
    ("mahlaw", "Law and Judiciary Department"),
    ("mahmar", "Marathi Language Department"),
    ("mahmed", "Medical Education and Drugs Department"),
    ("mahmin", "Minorities Development Department"),
    ("mahbah", "Other Backward Bahujan Welfare Department"),
    ("mahpar", "Parliamentary Affairs Department"),
    ("mahdis", "Persons with Disabilities Welfare Department"),
    ("mahplan", "Planning Department"),
    ("mahhea", "Public Health Department"),
    ("mahpwd", "Public Works Department"),
    ("mahrev", "Revenue and Forest Department"),
    ("mahrural", "Rural Development Department"),
    ("mahedu", "School Education and Sports Department"),
    ("mahskill", "Skill Development and Entrepreneurship Department"),
    ("mahsoc", "Social Justice and Special Assistance Department"),
    ("mahsoil", "Soil and Water Conservation Department"),
    ("mahtour", "Tourism and Cultural Affairs Department"),
    ("mahtrib", "Tribal Development Department"),
    ("mahurb", "Urban Development Department"),
    ("mahwater", "Water Resources Department"),
    ("mahsanit", "Water Supply and Sanitation Department"),
    ("mahwom", "Women and Child Development Department")
  ]

  // ---------------------------------------------------------- normalisation

  /**
   * `_ascii_text`: the ASCII characters of the text.  NFKD decomposition
   * is not modelled, so an accented letter is dropped rather than reduced
   * to its base letter.
   */
  function AsciiText(s: string): (r: string)
    ensures forall i :: 0 <= i < |r| ==> r[i] as int < 128
    ensures (forall i :: 0 <= i < |s| ==> s[i] as int < 128) ==> r == s
  {
    if s == [] then []
    else
      var rest := AsciiText(s[1..]);
      if s[0] as int < 128 then [s[0]] + rest else rest
  }

  predicate IsLowerOrDigit(c: char) { IsLower(c) || IsDigit(c) }

  predicate NotSpace(c: char) { c !in Whitespace }

  /** The common first step of both normalisers: ASCII, `&` spelled out, lower case. */
  function Prepared(value: string): string
  {
    Lower(ReplaceChar(AsciiText(value), '&', " and "))
  }

  /** `_normalize_name`. */
  function NormalizeName(value: string): string
  {
    var words := Strip(SubRuns(Prepared(value), IsLowerOrDigit, " "));
    SubRuns(words, NotSpace, " ")
  }

  /** Only `[a-z0-9 ]`, no outer spaces, and single spaces between words. */
  predicate NameShape(t: string)
  {
    SingleRuns(t, IsLowerOrDigit, ' ') && (t != [] ==> t[0] != ' ' && t[|t| - 1] != ' ')
  }

  /** A space is the only whitespace a text of `[a-z0-9 ]` holds. */
  lemma SpacesOnly(c: char)
    requires IsLowerOrDigit(c) || c == ' '
    ensures NotSpace(c) <==> IsLowerOrDigit(c)
  {
  }

  /** Collapsing whitespace runs changes nothing once words are single-spaced. */
  lemma CollapseSpaces(words: string)
    requires SingleRuns(words, IsLowerOrDigit, ' ')
    ensures SubRuns(words, NotSpace, " ") == words
  {
    forall i | 0 <= i < |words|
      ensures NotSpace(words[i]) <==> IsLowerOrDigit(words[i])
    {
      SpacesOnly(words[i]);
    }
    assert SingleRuns(words, NotSpace, ' ');
    SubRunsOfSingle(words, NotSpace, ' ');
  }

  /** The stripped runs of a prepared text are single-spaced words. */
  lemma RunsShape(value: string)
    ensures NameShape(Strip(SubRuns(Prepared(value), IsLowerOrDigit, " ")))
  {
    var runs := SubRuns(Prepared(value), IsLowerOrDigit, " ");
    SubRunsSingle(Prepared(value), IsLowerOrDigit, ' ');
    StripSetShape(runs, Whitespace);
    var lo, hi :| 0 <= lo <= hi <= |runs| && Strip(runs) == runs[lo..hi];
    SingleRunsSlice(runs, IsLowerOrDigit, ' ', lo, hi);
  }

  /** The words of a prepared text, stripped: the part of `NormalizeName` that matters. */
  lemma WordsShape(value: string)
    ensures var words := Strip(SubRuns(Prepared(value), IsLowerOrDigit, " "));
      NameShape(words) && NormalizeName(value) == words
  {
    RunsShape(value);
    CollapseSpaces(Strip(SubRuns(Prepared(value), IsLowerOrDigit, " ")));
  }

  /** `_normalize_name` output uses `[a-z0-9 ]` only, with single interior spaces. */
  lemma NormalizeNameShape(value: string)
    ensures NameShape(NormalizeName(value))
    ensures forall i :: 0 <= i < |NormalizeName(value)| ==>
      IsLowerOrDigit(NormalizeName(value)[i]) || NormalizeName(value)[i] == ' '
  {
    WordsShape(value);
  }

  /** A text of `[a-z0-9 ]` is its own prepared form. */
  lemma PreparedOfShape(t: string)
    requires forall i :: 0 <= i < |t| ==> IsLowerOrDigit(t[i]) || t[i] == ' '
    ensures Prepared(t) == t
  {
    assert forall i :: 0 <= i < |t| ==> t[i] as int < 128;
    assert AsciiText(t) == t;
    assert '&' !in t by {
      forall i | 0 <= i < |t| ensures t[i] != '&' {
        assert IsLowerOrDigit(t[i]) || t[i] == ' ';
      }
    }
    ReplaceCharAbsent(t, '&', " and ");
    assert forall i :: 0 <= i < |t| ==> LowerChar(t[i]) == t[i];
    assert Lower(t) == t;
  }

  /** A text in normal form has no outer whitespace. */
  lemma ShapeClean(t: string)
    requires NameShape(t)
    ensures Strip(t) == t
  {
    if t != [] {
      assert IsLowerOrDigit(t[0]) && IsLowerOrDigit(t[|t| - 1]);
      SpacesOnly(t[0]);
      SpacesOnly(t[|t| - 1]);
    }
    StripSetOfClean(t, Whitespace);
  }

  /** A text in normal form is its own normal form. */
  lemma NormalizeNameOfShape(t: string)
    requires NameShape(t)
    ensures NormalizeName(t) == t
  {
    assert forall i :: 0 <= i < |t| ==> IsLowerOrDigit(t[i]) || t[i] == ' ';
    PreparedOfShape(t);
    SubRunsOfSingle(t, IsLowerOrDigit, ' ');
    ShapeClean(t);
    CollapseSpaces(t);
  }

  /** `_normalize_name` is idempotent. */
  lemma NormalizeNameIdempotent(value: string)
    ensures NormalizeName(NormalizeName(value)) == NormalizeName(value)
  {
    NormalizeNameShape(value);
    NormalizeNameOfShape(NormalizeName(value));
  }

  lemma {:induction false} ReplaceCharConcat(a: string, b: string, c: char, t: string)
    ensures ReplaceChar(a + b, c, t) == ReplaceChar(a, c, t) + ReplaceChar(b, c, t)
    decreases |a|
  {
    if a == [] {
      assert a + b == b;
    } else {
      assert (a + b)[1..] == a[1..] + b;
      ReplaceCharConcat(a[1..], b, c, t);
    }
  }

  lemma {:induction false} AsciiTextConcat(a: string, b: string)
    ensures AsciiText(a + b) == AsciiText(a) + AsciiText(b)
    decreases |a|
  {
    if a == [] {
      assert a + b == b;
    } else {
      assert (a + b)[1..] == a[1..] + b;
      AsciiTextConcat(a[1..], b);
    }
  }

  /** The prepared form of a concatenation is the concatenation of the prepared forms. */
  lemma {:induction false} PreparedConcat(a: string, b: string)
    ensures Prepared(a + b) == Prepared(a) + Prepared(b)
  {
    AsciiTextConcat(a, b);
    ReplaceCharConcat(AsciiText(a), AsciiText(b), '&', " and ");
    var x, y := ReplaceChar(AsciiText(a), '&', " and "), ReplaceChar(AsciiText(b), '&', " and ");
    assert Lower(x + y) == Lower(x) + Lower(y);
  }

  lemma AmpersandPrepared()
    ensures Prepared("&") == " and " && Prepared(" and ") == " and "
  {
    assert AsciiText("&") == "&";
    assert ReplaceChar("&", '&', " and ") == " and ";
    PreparedOfShape(" and ");
  }

  /** `&` is read as the word "and". */
  lemma AmpersandIsAnd(a: string, b: string)
    ensures Prepared(a + "&" + b) == Prepared(a + " and " + b)
    ensures NormalizeName(a + "&" + b) == NormalizeName(a + " and " + b)
    ensures FallbackSlug(a + "&" + b) == FallbackSlug(a + " and " + b)
  {
    PreparedConcat(a + "&", b);
    PreparedConcat(a, "&");
    PreparedConcat(a + " and ", b);
    PreparedConcat(a, " and ");
    AmpersandPrepared();
  }

  /** `_fallback_slug`. */
  function FallbackSlug(value: string): string
  {
    var slug := StripSet(SubRuns(Prepared(value), IsLowerOrDigit, "_"), {'_'});
    if slug == [] then "unknown" else slug
  }

  /** The slug is non-empty, uses `[a-z0-9_]` only and neither starts nor ends with `_`. */
  lemma FallbackSlugShape(value: string)
    ensures var r := FallbackSlug(value);
      r != [] && r[0] != '_' && r[|r| - 1] != '_'
      && forall i :: 0 <= i < |r| ==> IsLowerOrDigit(r[i]) || r[i] == '_'
  {
    var runs := SubRuns(Prepared(value), IsLowerOrDigit, "_");
    var slug := StripSet(runs, {'_'});
    SubRunsSingle(Prepared(value), IsLowerOrDigit, '_');
    StripSetShape(runs, {'_'});
    var lo, hi :| 0 <= lo <= hi <= |runs| && slug == runs[lo..hi];
    SingleRunsSlice(runs, IsLowerOrDigit, '_', lo, hi);
  }

  // ----------------------------------------------------------------- lookup

  /** `as_code in DEPARTMENT_CODE_TO_NAME`. */
  predicate IsCode(table: seq<(string, string)>, code: string)
  {
    exists i :: 0 <= i < |table| && table[i].0 == code
  }

  /** `_NAME_TO_CODE`: built in table order, so the last code of a normalised name wins. */
  function NameToCode(table: seq<(string, string)>): (m: map<string, string>)
    ensures forall n :: n in m ==> IsCode(table, m[n])
    decreases |table|
  {
    if table == [] then map[]
    else
      var init := table[..|table| - 1];
      var last := table[|table| - 1];
      var m := NameToCode(init)[NormalizeName(last.1) := last.0];
      assert forall n :: n in NameToCode(init) ==> IsCode(table, NameToCode(init)[n]) by {
        forall n | n in NameToCode(init) ensures IsCode(table, NameToCode(init)[n]) {
          var i :| 0 <= i < |init| && init[i].0 == NameToCode(init)[n];
          assert table[i] == init[i];
        }
      }
      m
  }

  /** The code the table gives a department name (`department_code_from_name` over `table`). */
  function CodeFromName(table: seq<(string, string)>, name: string): (r: string)
    ensures Strip(name) == [] ==> r == "unknown"
    ensures Strip(name) != [] && IsCode(table, Lower(Strip(name))) ==> r == Lower(Strip(name))
    ensures r == "unknown" || IsCode(table, r) || r == FallbackSlug(Strip(name))
  {
    var text := Strip(name);
    if text == [] then "unknown"
    else
      var asCode := Lower(text);
      if IsCode(table, asCode) then asCode
      else
        var names := NameToCode(table);
        var normalized := NormalizeName(text);
        if normalized in names then names[normalized] else FallbackSlug(text)
  }

  /** `department_code_from_name`. */
  function DepartmentCodeFromName(name: string): (r: string)
    ensures Strip(name) == [] ==> r == "unknown"
    ensures Strip(name) != [] && IsCode(Table, Lower(Strip(name))) ==> r == Lower(Strip(name))
  {
    CodeFromName(Table, name)
  }

  /** A known code in any letter case, and with surrounding blanks, gives the lower-case code. */
  lemma KnownCodeAnyCase(name: string, j: int)
    requires 0 <= j < |Table| && Lower(Strip(name)) == Table[j].0
    ensures DepartmentCodeFromName(name) == Table[j].0
  {
  }

  /**
   * What the round trip from code to name and back needs of a table: its
   * codes and normalised names are distinct, its names are stripped and
   * none of them reads as a code.
   */
  predicate RoundTripTable(table: seq<(string, string)>)
  {
    (forall i, j :: 0 <= i < j < |table| ==> NormalizeName(table[i].1) != NormalizeName(table[j].1))
    && (forall i :: 0 <= i < |table| ==>
      table[i].1 != [] && Strip(table[i].1) == table[i].1 && !IsCode(table, Lower(table[i].1)))
  }

  /** With distinct normalised names, each name maps back to its own code. */
  lemma {:induction false} NameToCodeAt(table: seq<(string, string)>, j: int)
    requires 0 <= j < |table|
    requires forall i, k :: 0 <= i < k < |table| ==> NormalizeName(table[i].1) != NormalizeName(table[k].1)
    ensures NormalizeName(table[j].1) in NameToCode(table)
    ensures NameToCode(table)[NormalizeName(table[j].1)] == table[j].0
    decreases |table|
  {
    var init := table[..|table| - 1];
    if j < |table| - 1 {
      assert init[j] == table[j];
      assert forall i, k :: 0 <= i < k < |init| ==> NormalizeName(init[i].1) != NormalizeName(init[k].1) by {
        forall i, k | 0 <= i < k < |init| ensures NormalizeName(init[i].1) != NormalizeName(init[k].1) {
          assert init[i] == table[i] && init[k] == table[k];
        }
      }
      NameToCodeAt(init, j);
      assert NormalizeName(table[j].1) != NormalizeName(table[|table| - 1].1);
    }
  }

  /** For such a table, `department_code_from_name(DEPARTMENT_CODE_TO_NAME[c]) == c`. */
  lemma RoundTrip(table: seq<(string, string)>, j: int)
    requires RoundTripTable(table) && 0 <= j < |table|
    ensures CodeFromName(table, table[j].1) == table[j].0
  {
    NameToCodeAt(table, j);
  }
}
