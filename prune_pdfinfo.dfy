/**
 * The one-time scrub of pdfinfo rows: drop the row's `updated_at` stamps,
 * rename `font_count` to `total_font_count`, and reduce every font entry to
 * its kept fields plus a positive `word_count`, dropping fonts without one.
 * Rows are values; the scrub's in-place edits of a row become a new row
 * returned by the method, and the report's counters are a class.
 */
module PrunePdfInfo {
  import opened Py

  const WordsKey: Key := Other("words")
  const WordCountKey: Key := Other("word_count")
  const UpdatedAtKey: Key := Other("updated_at")

  /** `DROP_FONT_FIELDS`: the verbose font metadata the scrub removes. */
  predicate DropFontField(k: Key)
  {
    k == Other("basefont") || k == Other("encoding") || k == Other("ext")
    || k == Other("font_num") || k == Other("referencer") || k == Other("resource_name")
  }

  /** A font field the rebuilt font does not copy: the dropped fields and both counts. */
  predicate Scrubbed(k: Key)
  {
    DropFontField(k) || k == WordsKey || k == WordCountKey
  }

  // ---------------------------------------------------------------- counts

  /**
   * `_int_or_none`: a bool gives None, an int itself, and a text whose
   * stripped form is `-?\d+` its value; anything else None.
   */
  function IntOrNone(v: Value): (r: Option<int>)
    ensures v.Int? ==> r == Some(v.i)
    ensures !v.Int? && !v.Str? ==> r.None?
  {
    match v
    case Int(i) => Some(i)
    case Str(s) =>
      var t := Strip(s);
      if IsIntText(t) then Some(IntTextValue(t)) else None
    case _ => None
  }

  /**
   * On text, `_int_or_none` agrees with `int()` wherever it gives a value.
   * Of the ASCII numerals `int()` reads, it refuses exactly those with a
   * leading `+` or a digit-group underscore, which `isdigit()` rejects.
   */
  lemma IntOrNoneOfText(s: string)
    ensures IntOrNone(Str(s)).Some? ==> ParseInt(s) == IntOrNone(Str(s))
    ensures ParseInt(s).Some? && IntOrNone(Str(s)).None? <==>
      ParseInt(s).Some? && (Strip(s)[0] == '+' || '_' in Strip(s))
  {
    var t := Strip(s);
    if ParseInt(s).Some? && t[0] != '+' && '_' !in t {
      var body := if t[0] == '-' then t[1..] else t;
      assert forall i :: 0 <= i < |body| ==> body[i] in t;
      assert IsIntText(t) by {
        if t[0] == '-' {
          assert t == "-" + body;
        }
      }
    }
    if ParseInt(s).Some? && (t[0] == '+' || '_' in t) {
      assert !IsIntText(t);
    }
  }

  /** Every `str(i)` reads back as `i`. */
  lemma IntOrNoneOfIntToStr(i: int)
    ensures IntOrNone(Str(IntToStr(i))) == Some(i)
  {
    var s := IntToStr(i);
    NotSpace(s[0]);
    NotSpace(s[|s| - 1]);
    StripSetOfClean(s, Whitespace);
    assert Strip(s) == s;
    if i < 0 {
      assert s[1..] == NatToStr(-i);
    }
    assert IsIntText(s);
    ParseIntOfIntToStr(i);
  }

  /** `_normalized_font_word_count`: the positive int `word_count`, or `words` when `word_count` is missing or None. */
  function NormalizedFontWordCount(font: Row): (r: Option<int>)
    ensures r.Some? ==> r.value > 0
  {
    var value := if Get(font, WordCountKey) == Null && WordsKey in font then font[WordsKey] else Get(font, WordCountKey);
    var parsed := IntOrNone(value);
    if parsed.None? || parsed.value <= 0 then None else parsed
  }

  /**
   * `word_count` wins whenever it is present and not None, even when it
   * does not parse; `words` is read only in its absence.
   */
  lemma NormalizedFontWordCountPrecedence(font: Row)
    ensures Get(font, WordCountKey).Int? && Get(font, WordCountKey).i > 0
      ==> NormalizedFontWordCount(font) == Some(Get(font, WordCountKey).i)
    ensures Get(font, WordCountKey) != Null && IntOrNone(Get(font, WordCountKey)).None?
      ==> NormalizedFontWordCount(font).None?
    ensures Get(font, WordCountKey) == Null && Get(font, WordsKey).Int? && Get(font, WordsKey).i > 0
      ==> NormalizedFontWordCount(font) == Some(Get(font, WordsKey).i)
    ensures Get(font, WordCountKey) == Null && WordsKey !in font ==> NormalizedFontWordCount(font).None?
    ensures NormalizedFontWordCount(font).Some? ==> WordCountKey in font || WordsKey in font
  {
  }

  // ---------------------------------------------------------------- fonts

  /** The fields of `fields` whose keys `drop` does not name. */
  function Restrict(fields: Row, drop: Key -> bool): (r: Row)
    ensures forall k :: k in r <==> k in fields && !drop(k)
    ensures forall k :: k in r ==> r[k] == fields[k]
  {
    map k | k in fields && !drop(k) :: fields[k]
  }

  /** The fields of a font the rebuilt font copies. */
  function KeptFields(font: Row): (r: Row)
    ensures forall k :: k in r <==> k in font && !Scrubbed(k)
    ensures forall k :: k in r ==> r[k] == font[k]
  {
    Restrict(font, Scrubbed)
  }

  /** The font `_scrub_font_obj` returns: None without a positive count. */
  function ScrubbedFont(font: Row): (r: Option<Row>)
    ensures r.None? <==> NormalizedFontWordCount(font).None?
  {
    match NormalizedFontWordCount(font)
    case None => None
    case Some(n) => Some(KeptFields(font)[WordCountKey := Int(n)])
  }

  /** A surviving font holds exactly the kept fields, unchanged, plus its positive `word_count`. */
  lemma ScrubbedFontShape(font: Row)
    requires ScrubbedFont(font).Some?
    ensures forall k :: k in ScrubbedFont(font).value <==> (k in font && !Scrubbed(k)) || k == WordCountKey
    ensures ScrubbedFont(font).value[WordCountKey] == Int(NormalizedFontWordCount(font).value)
    ensures NormalizedFontWordCount(font).value > 0
    ensures forall k :: k in ScrubbedFont(font).value && k != WordCountKey ==> ScrubbedFont(font).value[k] == font[k]
  {
  }

  /** A font with nothing to drop whose count is already a plain positive int. */
  predicate FontClean(font: Row)
  {
    NormalizedFontWordCount(font).Some? && WordsKey !in font
    && (forall k :: k in font ==> !DropFontField(k))
    && Get(font, WordCountKey) == Int(NormalizedFontWordCount(font).value)
  }

  lemma CleanFontKeeps(font: Row)
    requires FontClean(font)
    ensures forall k :: k in font ==> k in ScrubbedFont(font).value && ScrubbedFont(font).value[k] == font[k]
    ensures forall k :: k in ScrubbedFont(font).value ==> k in font
  {
    var out := ScrubbedFont(font).value;
    ScrubbedFontShape(font);
    assert WordCountKey in font;
    forall k | k in font
      ensures k in out && out[k] == font[k]
    {
      if k != WordCountKey {
        assert !DropFontField(k) && k != WordsKey;
      }
    }
  }

  lemma CleanFontFixed(font: Row)
    requires FontClean(font)
    ensures ScrubbedFont(font) == Some(font)
  {
    CleanFontKeeps(font);
    SameKeys(ScrubbedFont(font).value, font);
  }

  lemma FixedFontNoDrops(font: Row)
    requires ScrubbedFont(font) == Some(font)
    ensures forall k :: k in font ==> !DropFontField(k)
  {
    var out := ScrubbedFont(font).value;
    ScrubbedFontShape(font);
    forall k | k in font
      ensures !DropFontField(k)
    {
      if k == WordCountKey {
        assert !DropFontField(WordCountKey);
      } else {
        assert k in out && !Scrubbed(k);
      }
    }
  }

  lemma FixedFontCount(font: Row)
    requires ScrubbedFont(font) == Some(font)
    ensures WordsKey !in font
    ensures Get(font, WordCountKey) == Int(NormalizedFontWordCount(font).value)
  {
    var out := ScrubbedFont(font).value;
    ScrubbedFontShape(font);
    assert WordsKey !in out;
    assert Get(font, WordCountKey) == out[WordCountKey];
  }

  lemma FixedFontClean(font: Row)
    requires ScrubbedFont(font) == Some(font)
    ensures FontClean(font)
  {
    FixedFontNoDrops(font);
    FixedFontCount(font);
  }

  /** The tests `_scrub_font_obj` makes, read as `FontClean`. */
  lemma FontCleanByParts(font: Row)
    requires NormalizedFontWordCount(font).Some?
    ensures FontClean(font) <==>
      !(exists k :: k in font && DropFontField(k)) && WordsKey !in font
      && PyEq(Get(font, WordCountKey), Int(NormalizedFontWordCount(font).value))
  {
    if Get(font, WordCountKey).Bool? {
      NormalizedFontWordCountPrecedence(font);
    }
  }

  /** The scrub leaves a font as it is exactly when it has nothing to drop and its count is already a plain positive int. */
  lemma ScrubbedFontFixed(font: Row)
    ensures ScrubbedFont(font) == Some(font) <==> FontClean(font)
  {
    if FontClean(font) {
      CleanFontFixed(font);
    }
    if ScrubbedFont(font) == Some(font) {
      FixedFontClean(font);
    }
  }

  /** A scrubbed font scrubs to itself. */
  lemma ScrubbedFontIdempotent(font: Row)
    requires ScrubbedFont(font).Some?
    ensures ScrubbedFont(ScrubbedFont(font).value) == ScrubbedFont(font)
  {
    var out := ScrubbedFont(font).value;
    assert NormalizedFontWordCount(out) == NormalizedFontWordCount(font);
    ScrubbedFontFixed(out);
  }

  /** The scrub changes a font when the result is not the font itself. */
  predicate FontChanged(font: Row)
  {
    ScrubbedFont(font) != Some(font)
  }

  /**
   * Copies `fields` without the keys `drop` names, and reports whether it
   * met a key `flag` names: the loop of `_scrub_font_obj`.
   */
  method CopyFields(fields: Row, drop: Key -> bool, flag: Key -> bool) returns (kept: Row, flagged: bool)
    ensures kept == Restrict(fields, drop)
    ensures flagged <==> exists k :: k in fields && flag(k)
  {
    kept := map[];
    flagged := false;
    var todo := fields.Keys;
    while todo != {}
      invariant todo <= fields.Keys
      invariant forall k :: k in kept <==> k in fields && k !in todo && !drop(k)
      invariant forall k :: k in kept ==> kept[k] == fields[k]
      invariant flagged <==> exists k :: k in fields && k !in todo && flag(k)
      decreases |todo|
    {
      var k :| k in todo;
      if flag(k) {
        flagged := true;
      }
      if !drop(k) {
        kept := kept[k := fields[k]];
      }
      todo := todo - {k};
    }
    assert kept.Keys == Restrict(fields, drop).Keys;
  }

  /**
   * `_scrub_font_obj` as written: every `words` or `word_count` key counts
   * as a change, and a surviving font always has one of them, so the flag
   * is always set.
   */
  method ScrubFontObjAsWritten(font: Row) returns (out: Option<Row>, changed: bool)
    ensures out == ScrubbedFont(font)
    ensures changed
  {
    var kept, flagged := CopyFields(font, Scrubbed, Scrubbed);
    changed := flagged;
    var wordCount := NormalizedFontWordCount(font);
    if wordCount.None? {
      return None, true;
    }
    out := Some(kept[WordCountKey := Int(wordCount.value)]);
    if !PyEq(Get(font, WordCountKey), Int(wordCount.value)) || WordsKey in font {
      changed := true;
    }
    NormalizedFontWordCountPrecedence(font);
    if WordCountKey in font {
      assert Scrubbed(WordCountKey);
    }
  }

  /** An already scrubbed font, which the as-written scrub still reports as changed. */
  lemma AsWrittenReportsUnchangedFont()
    ensures !FontChanged(map[WordCountKey := Int(5)])
  {
    var font := map[WordCountKey := Int(5)];
    assert NormalizedFontWordCount(font) == Some(5);
    ScrubbedFontFixed(font);
  }

  /**
   * `_scrub_font_obj` with the flag it evidently intends: only dropped
   * metadata, a `words` key or a count that is not already the plain int
   * count a change.
   */
  method ScrubFontObj(font: Row) returns (out: Option<Row>, changed: bool)
    ensures out == ScrubbedFont(font)
    ensures changed <==> FontChanged(font)
  {
    var kept, flagged := CopyFields(font, Scrubbed, DropFontField);
    changed := flagged;
    var wordCount := NormalizedFontWordCount(font);
    if wordCount.None? {
      return None, true;
    }
    out := Some(kept[WordCountKey := Int(wordCount.value)]);
    if !PyEq(Get(font, WordCountKey), Int(wordCount.value)) || WordsKey in font {
      changed := true;
    }
    ScrubbedFontFixed(font);
    FontCleanByParts(font);
  }

  // ---------------------------------------------------------------- font maps

  /** A font entry the row scrub rewrites or removes. */
  predicate FontUpdated(fonts: map<Key, Value>, k: Key)
    requires k in fonts
  {
    !fonts[k].Dict? || FontChanged(fonts[k].fields)
  }

  /** An entry `_scrub_row` keeps: a dict font with a positive count. */
  predicate Survives(fonts: map<Key, Value>, k: Key)
    requires k in fonts
  {
    fonts[k].Dict? && ScrubbedFont(fonts[k].fields).Some?
  }

  /** The scrubbed form of a surviving entry. */
  function ScrubbedEntry(fonts: map<Key, Value>, k: Key): Value
    requires k in fonts && Survives(fonts, k)
  {
    Dict(ScrubbedFont(fonts[k].fields).value)
  }

  /** The fonts that survive, each scrubbed: dict entries with a positive count. */
  function ScrubbedFonts(fonts: map<Key, Value>): (r: map<Key, Value>)
    ensures forall k :: k in r <==> k in fonts && Survives(fonts, k)
    ensures forall k :: k in r ==> r[k] == ScrubbedEntry(fonts, k)
  {
    map k | k in fonts && Survives(fonts, k) :: ScrubbedEntry(fonts, k)
  }

  /** The font map changes exactly when some entry counts as updated. */
  lemma ScrubbedFontsChanged(fonts: map<Key, Value>)
    ensures ScrubbedFonts(fonts) != fonts <==> UpdatedFonts(fonts, fonts.Keys) != {}
  {
    var r := ScrubbedFonts(fonts);
    if UpdatedFonts(fonts, fonts.Keys) != {} {
      var k :| k in UpdatedFonts(fonts, fonts.Keys);
      assert k !in r || r[k] != fonts[k];
    } else {
      forall k | k in fonts
        ensures k in r && r[k] == fonts[k]
      {
        assert k !in UpdatedFonts(fonts, fonts.Keys);
        ScrubbedFontFixed(fonts[k].fields);
      }
      assert r.Keys == fonts.Keys;
    }
  }

  /** Scrubbing the surviving fonts again changes nothing. */
  lemma ScrubbedFontsIdempotent(fonts: map<Key, Value>)
    ensures ScrubbedFonts(ScrubbedFonts(fonts)) == ScrubbedFonts(fonts)
    ensures UpdatedFonts(ScrubbedFonts(fonts), ScrubbedFonts(fonts).Keys) == {}
  {
    var r := ScrubbedFonts(fonts);
    forall k | k in r
      ensures ScrubbedFont(r[k].fields) == Some(r[k].fields)
    {
      ScrubbedFontIdempotent(fonts[k].fields);
    }
    assert ScrubbedFonts(r).Keys == r.Keys;
  }

  // ---------------------------------------------------------------- rows

  /** The row with its `updated_at_utc` and `updated_at` stamps popped. */
  function DropStamps(row: Row): Row
  {
    row - {KUpdatedAtUtc, UpdatedAtKey}
  }

  /** `font_count` renamed to `total_font_count`, which keeps its value when already present. */
  function RenameFontCount(row: Row): Row
  {
    if KFontCount in row then
      (if KTotalFontCount !in row then row[KTotalFontCount := row[KFontCount]] else row) - {KFontCount}
    else row
  }

  /** A dict `fonts` value replaced by its surviving, scrubbed fonts; anything else left as is. */
  function ScrubFontsField(row: Row): Row
  {
    var fonts := Get(row, KFonts);
    if fonts.Dict? then row[KFonts := Dict(ScrubbedFonts(fonts.fields))] else row
  }

  /** The row `_scrub_row` leaves behind. */
  function ScrubbedRow(row: Row): Row
  {
    ScrubFontsField(RenameFontCount(DropStamps(row)))
  }

  /** After the scrub no stamp and no `font_count` is left, and `total_font_count` keeps an existing value over the renamed one. */
  lemma ScrubbedRowRenames(row: Row)
    ensures KUpdatedAtUtc !in ScrubbedRow(row) && UpdatedAtKey !in ScrubbedRow(row) && KFontCount !in ScrubbedRow(row)
    ensures KTotalFontCount in ScrubbedRow(row) <==> KTotalFontCount in row || KFontCount in row
    ensures KTotalFontCount in row ==> ScrubbedRow(row)[KTotalFontCount] == row[KTotalFontCount]
    ensures KTotalFontCount !in row && KFontCount in row ==> ScrubbedRow(row)[KTotalFontCount] == row[KFontCount]
  {
  }

  /** A dict of fonts is replaced by the surviving fonts; any other `fonts` value is kept. */
  lemma ScrubbedRowFonts(row: Row)
    ensures KFonts in ScrubbedRow(row) <==> KFonts in row
    ensures KFonts in row && row[KFonts].Dict? ==> ScrubbedRow(row)[KFonts] == Dict(ScrubbedFonts(row[KFonts].fields))
    ensures KFonts in row && !row[KFonts].Dict? ==> ScrubbedRow(row)[KFonts] == row[KFonts]
  {
  }

  /** Every other field of the row is left alone. */
  lemma ScrubbedRowKeepsOthers(row: Row, k: Key)
    requires k != KUpdatedAtUtc && k != UpdatedAtKey && k != KFontCount && k != KTotalFontCount && k != KFonts
    ensures k in ScrubbedRow(row) <==> k in row
    ensures k in row ==> ScrubbedRow(row)[k] == row[k]
  {
  }

  /** The fonts of a row the scrub counts as updated. */
  function RowFontUpdates(row: Row): nat
  {
    var fonts := Get(row, KFonts);
    if fonts.Dict? then |UpdatedFonts(fonts.fields, fonts.fields.Keys)| else 0
  }

  /** Replacing a field by its own value is no change. */
  lemma UpdateSame(m: Row, k: Key, v: Value)
    requires k in m && m[k] == v
    ensures m[k := v] == m
  {
  }

  /** The scrub changes a row exactly when it has a stamp, a `font_count` or an updated font. */
  lemma ScrubbedRowChanged(row: Row)
    ensures ScrubbedRow(row) != row <==>
      KUpdatedAtUtc in row || UpdatedAtKey in row || KFontCount in row || RowFontUpdates(row) > 0
  {
    var r := ScrubbedRow(row);
    ScrubbedRowRenames(row);
    ScrubbedRowFonts(row);
    var fonts := Get(row, KFonts);
    if fonts.Dict? {
      ScrubbedFontsChanged(fonts.fields);
    }
    if KUpdatedAtUtc in row || UpdatedAtKey in row || KFontCount in row {
    } else if RowFontUpdates(row) > 0 {
      assert r[KFonts] != row[KFonts];
    } else {
      assert DropStamps(row) == row;
      assert RenameFontCount(row) == row;
      if fonts.Dict? {
        UpdateSame(row, KFonts, Dict(ScrubbedFonts(fonts.fields)));
      }
    }
  }

  /** Scrubbing twice gives the row scrubbing once gave, and the second scrub finds nothing to change. */
  lemma ScrubbedRowIdempotent(row: Row)
    ensures ScrubbedRow(ScrubbedRow(row)) == ScrubbedRow(row)
    ensures RowFontUpdates(ScrubbedRow(row)) == 0
  {
    var r := ScrubbedRow(row);
    ScrubbedRowRenames(row);
    ScrubbedRowFonts(row);
    if KFonts in row && row[KFonts].Dict? {
      ScrubbedFontsIdempotent(row[KFonts].fields);
    }
    ScrubbedRowChanged(r);
  }

  // ---------------------------------------------------------------- report

  /** `PruneReport`: the counters the scrub bumps. */
  class PruneReport {
    var filesScanned: nat
    var filesUpdated: nat
    var rowsScanned: nat
    var rowsUpdated: nat
    var fontsUpdated: nat
    var totalFontCountRenamed: nat
    var updatedAtRemoved: nat

    constructor ()
      ensures filesScanned == 0 && filesUpdated == 0 && rowsScanned == 0 && rowsUpdated == 0
      ensures fontsUpdated == 0 && totalFontCountRenamed == 0 && updatedAtRemoved == 0
    {
      filesScanned, filesUpdated, rowsScanned, rowsUpdated := 0, 0, 0, 0;
      fontsUpdated, totalFontCountRenamed, updatedAtRemoved := 0, 0, 0;
    }
  }

  /**
   * What a loop over a map's keys has built once the keys in `done` are
   * handled: the kept entries with their values, and the flagged keys.
   */
  ghost predicate Collected<K(!new), V>(done: set<K>, next: map<K, V>, keep: K -> bool, entry: K -> V,
                                        flag: K -> bool, flagged: set<K>)
  {
    (forall k :: k in next <==> k in done && keep(k))
    && (forall k :: k in next ==> next[k] == entry(k))
    && (forall k :: k in flagged <==> k in done && flag(k))
  }

  /** Handling one more key keeps `Collected`. */
  lemma CollectedStep<K(!new), V>(done: set<K>, next: map<K, V>, keep: K -> bool, entry: K -> V,
                                  flag: K -> bool, flagged: set<K>, k: K, e: Option<V>)
    requires Collected(done, next, keep, entry, flag, flagged)
    requires k !in done
    requires e.Some? <==> keep(k)
    requires e.Some? ==> e.value == entry(k)
    ensures Collected(done + {k}, if e.Some? then next[k := e.value] else next, keep, entry, flag,
                      if flag(k) then flagged + {k} else flagged)
    ensures flag(k) ==> |flagged + {k}| == |flagged| + 1
  {
  }

  /** Sets with the same members are equal. */
  lemma SameSet<K>(a: set<K>, b: set<K>)
    requires forall k :: k in a <==> k in b
    ensures a == b
  {
  }

  /** The entries among `keys` that count as updated fonts. */
  function UpdatedFonts(fonts: map<Key, Value>, keys: set<Key>): (r: set<Key>)
    ensures forall k :: k in r <==> k in keys && k in fonts && FontUpdated(fonts, k)
  {
    set k | k in keys && k in fonts && FontUpdated(fonts, k)
  }

  /** The font loop's view of an entry: kept, its scrubbed value, and counted as updated. */
  function SurvivesIn(fonts: map<Key, Value>): Key -> bool
  {
    k => k in fonts && Survives(fonts, k)
  }

  function EntryIn(fonts: map<Key, Value>): Key -> Value
  {
    k => if k in fonts && Survives(fonts, k) then ScrubbedEntry(fonts, k) else Null
  }

  function UpdatedIn(fonts: map<Key, Value>): Key -> bool
  {
    k => k in fonts && FontUpdated(fonts, k)
  }

  /** One pass of the font loop of `_scrub_row`: the entry to keep, if any, and whether it counts as updated. */
  method ScrubFontEntry(fonts: map<Key, Value>, k: Key, report: PruneReport) returns (entry: Option<Value>, updated: bool)
    requires k in fonts
    modifies report`fontsUpdated
    ensures entry.Some? <==> Survives(fonts, k)
    ensures entry.Some? ==> entry.value == ScrubbedEntry(fonts, k)
    ensures updated <==> FontUpdated(fonts, k)
    ensures report.fontsUpdated == old(report.fontsUpdated) + (if updated then 1 else 0)
  {
    var value := fonts[k];
    entry, updated := None, false;
    if !value.Dict? {
      updated := true;
      report.fontsUpdated := report.fontsUpdated + 1;
    } else {
      var scrubbed, fontChanged := ScrubFontObj(value.fields);
      if scrubbed.Some? {
        entry := Some(Dict(scrubbed.value));
      }
      if fontChanged {
        updated := true;
        report.fontsUpdated := report.fontsUpdated + 1;
      }
    }
  }

  /** The loop over the fonts: every entry is handled once, in any order. */
  method FontsLoop(fonts: map<Key, Value>, report: PruneReport)
    returns (next: map<Key, Value>, changed: bool, ghost updatedKeys: set<Key>)
    modifies report`fontsUpdated
    ensures Collected(fonts.Keys, next, SurvivesIn(fonts), EntryIn(fonts), UpdatedIn(fonts), updatedKeys)
    ensures changed <==> updatedKeys != {}
    ensures report.fontsUpdated == old(report.fontsUpdated) + |updatedKeys|
  {
    next := map[];
    changed := false;
    updatedKeys := {};
    var todo := fonts.Keys;
    ghost var done: set<Key> := {};
    while todo != {}
      invariant todo <= fonts.Keys
      invariant forall k :: k in done <==> k in fonts && k !in todo
      invariant Collected(done, next, SurvivesIn(fonts), EntryIn(fonts), UpdatedIn(fonts), updatedKeys)
      invariant changed <==> updatedKeys != {}
      invariant report.fontsUpdated == old(report.fontsUpdated) + |updatedKeys|
      decreases |todo|
    {
      var k :| k in todo;
      var entry, updated := ScrubFontEntry(fonts, k, report);
      CollectedStep(done, next, SurvivesIn(fonts), EntryIn(fonts), UpdatedIn(fonts), updatedKeys, k, entry);
      if entry.Some? {
        next := next[k := entry.value];
      }
      if updated {
        changed := true;
        updatedKeys := updatedKeys + {k};
      }
      todo := todo - {k};
      done := done + {k};
    }
    SameSet(done, fonts.Keys);
  }

  /** The font loop of `_scrub_row`: the surviving fonts, and whether any entry was updated. */
  method ScrubFonts(fonts: map<Key, Value>, report: PruneReport) returns (next: map<Key, Value>, changed: bool)
    modifies report`fontsUpdated
    ensures next == ScrubbedFonts(fonts)
    ensures changed <==> UpdatedFonts(fonts, fonts.Keys) != {}
    ensures report.fontsUpdated == old(report.fontsUpdated) + |UpdatedFonts(fonts, fonts.Keys)|
  {
    ghost var updatedKeys;
    next, changed, updatedKeys := FontsLoop(fonts, report);
    SameSet(updatedKeys, UpdatedFonts(fonts, fonts.Keys));
    SameKeys(next, ScrubbedFonts(fonts));
  }

  /** Maps with the same keys and the same values are equal. */
  lemma SameKeys<K, V>(a: map<K, V>, b: map<K, V>)
    requires forall k :: k in a <==> k in b
    requires forall k :: k in a ==> a[k] == b[k]
    ensures a == b
  {
  }

  /** `_scrub_row`: the scrubbed row and whether the scrub changed it. */
  method ScrubRow(row: Row, report: PruneReport) returns (out: Row, changed: bool)
    modifies report`fontsUpdated, report`totalFontCountRenamed, report`updatedAtRemoved
    ensures out == ScrubbedRow(row)
    ensures changed <==> out != row
    ensures report.updatedAtRemoved == old(report.updatedAtRemoved) + (if KUpdatedAtUtc in row || UpdatedAtKey in row then 1 else 0)
    ensures report.totalFontCountRenamed == old(report.totalFontCountRenamed) + (if KFontCount in row then 1 else 0)
    ensures report.fontsUpdated == old(report.fontsUpdated) + RowFontUpdates(row)
  {
    changed := false;
    var removedUpdated := KUpdatedAtUtc in row || UpdatedAtKey in row;
    out := row - {KUpdatedAtUtc, UpdatedAtKey};
    if removedUpdated {
      report.updatedAtRemoved := report.updatedAtRemoved + 1;
      changed := true;
    }
    if KFontCount in out {
      if KTotalFontCount !in out {
        out := out[KTotalFontCount := out[KFontCount]];
      }
      out := out - {KFontCount};
      report.totalFontCountRenamed := report.totalFontCountRenamed + 1;
      changed := true;
    }
    ScrubbedRowChanged(row);
    var fonts := Get(out, KFonts);
    assert fonts == Get(row, KFonts);
    if !fonts.Dict? {
      return;
    }
    var next, fontsChanged := ScrubFonts(fonts.fields, report);
    ScrubbedFontsChanged(fonts.fields);
    if fontsChanged {
      out := out[KFonts := Dict(next)];
      changed := true;
    } else {
      UpdateSame(out, KFonts, Dict(next));
    }
  }
}
