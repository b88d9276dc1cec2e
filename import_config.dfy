/**
 * The importer's configuration file: a tiny YAML subset (top-level
 * scalars and one level of two-space-indented sections), read into the
 * `hf` settings and the `attempt_thresholds` table.  Locating the file and
 * reading it are inputs here: `LoadImportConfig` is given its text, or
 * None when no file was found or it could not be read.
 */
module ImportConfig {
  import opened Py

  /** The values `_parse_scalar` produces. */
  datatype Scalar = Text(text: string) | Flag(flag: bool) | Number(number: int)

  /** A dict whose keys keep their first insertion order, as Python's do. */
  type Items = seq<(string, Scalar)>

  /** A top-level value: a scalar, or a section of scalars. */
  datatype Node = Leaf(scalar: Scalar) | Section(items: Items)

  type Yaml = map<string, Node>

  const DefaultRepoPath := "LFS/mahGRs"
  const DefaultMode := "auto"
  const DefaultThreshold := 100

  // ------------------------------------------------------------ dict helpers

  predicate HasKey(items: Items, k: string)
  {
    exists i :: 0 <= i < |items| && items[i].0 == k
  }

  predicate Distinct(items: Items)
  {
    forall i, j :: 0 <= i < j < |items| ==> items[i].0 != items[j].0
  }

  /** `d.get(k)`. */
  function Lookup(items: Items, k: string): (r: Option<Scalar>)
    ensures r.Some? <==> HasKey(items, k)
  {
    if items == [] then None
    else if items[0].0 == k then Some(items[0].1)
    else
      var r := Lookup(items[1..], k);
      assert HasKey(items[1..], k) ==> HasKey(items, k) by {
        if HasKey(items[1..], k) {
          var i :| 0 <= i < |items[1..]| && items[1..][i].0 == k;
          assert items[i + 1].0 == k;
        }
      }
      assert HasKey(items, k) ==> HasKey(items[1..], k) by {
        if HasKey(items, k) {
          var i :| 0 <= i < |items| && items[i].0 == k;
          assert items[1..][i - 1].0 == k;
        }
      }
      r
  }

  /** `d[k] = v`: an existing key keeps its place, a new one goes last. */
  function Put(items: Items, k: string, v: Scalar): (r: Items)
    ensures Lookup(r, k) == Some(v)
    ensures forall j :: j != k ==> Lookup(r, j) == Lookup(items, j)
    ensures forall i :: 0 <= i < |r| ==> r[i].0 == k || (exists m :: 0 <= m < |items| && items[m].0 == r[i].0)
  {
    if items == [] then [(k, v)]
    else if items[0].0 == k then [(k, v)] + items[1..]
    else
      var rest := Put(items[1..], k, v);
      var r := [items[0]] + rest;
      forall i | 0 <= i < |r|
        ensures r[i].0 == k || (exists m :: 0 <= m < |items| && items[m].0 == r[i].0)
      {
        if i == 0 {
          assert items[0].0 == r[i].0;
        } else if rest[i - 1].0 != k {
          var m :| 0 <= m < |items[1..]| && items[1..][m].0 == rest[i - 1].0;
          assert items[m + 1].0 == r[i].0;
        }
      }
      r
  }

  /** Writing a key keeps the keys distinct. */
  lemma {:induction false} PutDistinct(items: Items, k: string, v: Scalar)
    requires Distinct(items)
    ensures Distinct(Put(items, k, v))
    decreases |items|
  {
    if items != [] && items[0].0 != k {
      var tail := items[1..];
      var rest := Put(tail, k, v);
      var r := [items[0]] + rest;
      assert Put(items, k, v) == r;
      assert Distinct(tail) by {
        forall i, j | 0 <= i < j < |tail| ensures tail[i].0 != tail[j].0 {
          assert tail[i] == items[i + 1] && tail[j] == items[j + 1];
        }
      }
      PutDistinct(tail, k, v);
      forall i | 1 <= i < |r|
        ensures r[0].0 != r[i].0
      {
        assert r[i] == rest[i - 1];
        if rest[i - 1].0 != k {
          var m :| 0 <= m < |tail| && tail[m].0 == rest[i - 1].0;
          assert items[m + 1].0 == r[i].0;
        }
      }
      forall i, j | 0 <= i < j < |r| ensures r[i].0 != r[j].0 {
        if i > 0 {
          assert r[i] == rest[i - 1] && r[j] == rest[j - 1];
        }
      }
    }
  }

  // ------------------------------------------------------------------ scalars

  predicate Quoted(text: string)
  {
    |text| >= 2 && text[0] == text[|text| - 1] && (text[0] == '\'' || text[0] == '"')
  }

  /** `_parse_scalar`. */
  function ParseScalar(value: string): (r: Scalar)
    ensures Strip(value) == [] ==> r == Text("")
    ensures Quoted(Strip(value)) ==> r == Text(Strip(value)[1..|Strip(value)| - 1])
    ensures r.Flag? <==> Lower(Strip(value)) == "true" || Lower(Strip(value)) == "false"
    ensures r.Flag? ==> (r.flag <==> Lower(Strip(value)) == "true")
    ensures r.Number? <==> IsIntText(Strip(value))
    ensures r.Number? ==> ParseSigned(Strip(value)) == Some(r.number)
    ensures r.Text? && !Quoted(Strip(value)) ==> r.text == Strip(value)
  {
    var text := Strip(value);
    if text == [] then Text("")
    else if Quoted(text) then
      assert !IsIntText(text) by {
        assert !IsDigit(text[0]) && text[0] != '-';
      }
      assert Lower(text)[0] == text[0];
      Text(text[1..|text| - 1])
    else
      var lowered := Lower(text);
      if lowered == "true" then
        assert lowered[0] == 't' && !IsIntText(text);
        Flag(true)
      else if lowered == "false" then
        assert lowered[0] == 'f' && !IsIntText(text);
        Flag(false)
      else if IsIntText(text) then Number(IntTextValue(text))
      else Text(text)
  }

  /** A whole number written out in decimal reads back as that number. */
  lemma ParseScalarOfInt(n: int)
    ensures ParseScalar(IntToStr(n)) == Number(n)
  {
    ParseIntOfIntToStr(n);
    NumeralClean(n);
  }

  /** A decimal numeral has no characters `strip()` removes and matches `-?\d+`. */
  lemma NumeralClean(n: int)
    ensures Strip(IntToStr(n)) == IntToStr(n) && IsIntText(IntToStr(n))
  {
    var t := IntToStr(n);
    NotSpace(t[0]);
    NotSpace(t[|t| - 1]);
    StripSetOfClean(t, Whitespace);
    if n < 0 {
      assert t[1..] == NatToStr(-n);
    }
  }

  // ------------------------------------------------------------------ parser

  /**
   * The loop state of `_parse_simple_yaml`: the document so far and the
   * key of the section `current_map` points into.
   */
  datatype Parser = Parser(root: Yaml, current: Option<string>)

  /** `current_map` is always the section stored under its key. */
  predicate ValidParser(p: Parser)
  {
    p.current.Some? ==> p.current.value in p.root && p.root[p.current.value].Section?
  }

  /** A key as the parser stores it: non-empty, stripped, without `:`. */
  predicate GoodKey(k: string)
  {
    k != [] && Strip(k) == k && ':' !in k
  }

  /** Distinct keys, each as the parser stores it. */
  predicate GoodItems(items: Items)
  {
    Distinct(items) && forall i :: 0 <= i < |items| ==> GoodKey(items[i].0)
  }

  predicate GoodYaml(y: Yaml)
  {
    forall k :: k in y ==> GoodKey(k) && (y[k].Section? ==> GoodItems(y[k].items))
  }

  /** What one line of the file is to the parser. */
  datatype LineKind =
    | Skipped
    | TopScalar(key: string, value: string)
    | TopSection(key: string)
    | Nested(key: string, value: string)

  /** The per-line filters of `_parse_simple_yaml`, and the classified line. */
  function Classify(line: string): (r: LineKind)
    ensures r.TopScalar? ==> GoodKey(r.key) && r.value != [] && Strip(r.value) == r.value
    ensures r.TopSection? || r.Nested? ==> GoodKey(r.key)
  {
    var stripped := LStrip(line, Whitespace);
    LStripProps(line, Whitespace);
    var indent := |line| - |stripped|;
    if Strip(line) == [] || StartsWith(stripped, "#") || (indent != 0 && indent != 2) then Skipped
    else
      match SplitFirst(stripped, ':')
      case None => Skipped
      case Some(parts) =>
        var key := Strip(parts.0);
        var valueText := Strip(parts.1);
        if key == [] then Skipped
        else
          StripSetIdempotent(parts.0, Whitespace);
          StripSetIdempotent(parts.1, Whitespace);
          assert ':' !in key by {
            if ':' in key {
              StripChars(parts.0, Whitespace, ':');
            }
          }
          if indent == 0 then
            if valueText == [] then TopSection(key) else TopScalar(key, valueText)
          else Nested(key, valueText)
  }

  /** One iteration of the loop of `_parse_simple_yaml`. */
  function YamlStep(p: Parser, line: string): Parser
    requires ValidParser(p)
  {
    match Classify(line)
    case Skipped => p
    case TopSection(key) => Parser(p.root[key := Section([])], Some(key))
    case TopScalar(key, value) => Parser(p.root[key := Leaf(ParseScalar(value))], None)
    case Nested(key, value) =>
      if p.current.None? then p
      else
        var name := p.current.value;
        Parser(p.root[name := Section(Put(p.root[name].items, key, ParseScalar(value)))], p.current)
  }

  /** The loop invariants of `_parse_simple_yaml`, kept by every line. */
  lemma YamlStepKeeps(p: Parser, line: string)
    requires ValidParser(p) && GoodYaml(p.root)
    ensures ValidParser(YamlStep(p, line)) && GoodYaml(YamlStep(p, line).root)
  {
    var kind := Classify(line);
    if kind.Nested? && p.current.Some? {
      var name := p.current.value;
      var items := p.root[name].items;
      var items' := Put(items, kind.key, ParseScalar(kind.value));
      PutDistinct(items, kind.key, ParseScalar(kind.value));
      forall i | 0 <= i < |items'|
        ensures GoodKey(items'[i].0)
      {
        if items'[i].0 != kind.key {
          var m :| 0 <= m < |items| && items[m].0 == items'[i].0;
        }
      }
    }
  }

  /** The parser state after the lines `lines`, in order. */
  function YamlOf(lines: seq<string>): (r: Parser)
    ensures ValidParser(r) && GoodYaml(r.root)
    decreases |lines|
  {
    if lines == [] then Parser(map[], None)
    else
      var before := YamlOf(lines[..|lines| - 1]);
      YamlStepKeeps(before, lines[|lines| - 1]);
      YamlStep(before, lines[|lines| - 1])
  }

  /** `_parse_simple_yaml`. */
  method ParseSimpleYaml(text: string) returns (root: Yaml)
    ensures root == YamlOf(SplitLines(text)).root
    ensures GoodYaml(root)
  {
    var lines := SplitLines(text);
    var p := Parser(map[], None);
    var i := 0;
    while i < |lines|
      invariant 0 <= i <= |lines|
      invariant p == YamlOf(lines[..i])
    {
      assert lines[..i + 1][..i] == lines[..i];
      ghost var next := YamlStep(p, lines[i]);
      assert YamlOf(lines[..i + 1]) == next;
      var kind := Classify(lines[i]);
      match kind {
        case Skipped =>
        case TopSection(key) =>
          p := Parser(p.root[key := Section([])], Some(key));
        case TopScalar(key, value) =>
          p := Parser(p.root[key := Leaf(ParseScalar(value))], None);
        case Nested(key, value) =>
          if p.current.Some? {
            var name := p.current.value;
            p := Parser(p.root[name := Section(Put(p.root[name].items, key, ParseScalar(value)))], p.current);
          }
      }
      assert p == next;
      i := i + 1;
    }
    assert lines[..i] == lines;
    root := p.root;
  }

  /** Lines that are blank, comments, wrongly indented or colon-less change nothing. */
  lemma SkippedLine(p: Parser, line: string)
    requires ValidParser(p)
    requires Strip(line) == [] || StartsWith(LStrip(line, Whitespace), "#") || ':' !in line
      || (|line| - |LStrip(line, Whitespace)| != 0 && |line| - |LStrip(line, Whitespace)| != 2)
    ensures YamlStep(p, line) == p
  {
    LStripProps(line, Whitespace);
  }

  /** A top-level key without a value opens an empty section and makes it current. */
  lemma OpensSection(p: Parser, line: string)
    requires ValidParser(p) && Classify(line).TopSection?
    ensures var key := Classify(line).key;
      YamlStep(p, line) == Parser(p.root[key := Section([])], Some(key))
  {
  }

  /** A nested line outside any section is ignored. */
  lemma NestedOutsideSection(p: Parser, line: string)
    requires ValidParser(p) && p.current.None? && Classify(line).Nested?
    ensures YamlStep(p, line) == p
  {
  }

  /** A nested line sets its key in the current section and nowhere else. */
  lemma NestedSetsCurrent(p: Parser, line: string)
    requires ValidParser(p) && p.current.Some? && Classify(line).Nested?
    ensures var kind := Classify(line);
      var q := YamlStep(p, line);
      var name := p.current.value;
      q.current == p.current && q.root.Keys == p.root.Keys
      && Lookup(q.root[name].items, kind.key) == Some(ParseScalar(kind.value))
      && (forall k :: k in p.root && k != name ==> q.root[k] == p.root[k])
  {
  }

  // -------------------------------------------------------------- converters

  /** `_as_string(value, default)`: `None` is absent. */
  function AsString(v: Option<Scalar>, default: string): (r: string)
    ensures v.None? ==> r == default
    ensures v.Some? && v.value.Text? ==> r == Strip(v.value.text)
  {
    match v
    case None => default
    case Some(Text(t)) => Strip(t)
    case Some(Flag(b)) => if b then "True" else "False"
    case Some(Number(n)) => IntToStr(n)
  }

  /** A value that is there is never replaced by the default, and comes back stripped. */
  lemma AsStringPresent(v: Scalar, default: string)
    ensures var r := AsString(Some(v), default); Strip(r) == r && (v.Text? || r != [])
  {
    match v
    case Text(t) => StripSetIdempotent(t, Whitespace);
    case Flag(b) =>
      var r := AsString(Some(v), default);
      StripSetShape(r, Whitespace);
      StripSetOfClean(r, Whitespace);
    case Number(n) => NumeralClean(n);
  }

  /** `_as_int(value, default)`. */
  function AsInt(v: Option<Scalar>, default: int): (r: int)
    ensures v.None? ==> r == default
    ensures v.Some? && v.value.Text? ==>
      (r == default || ParseSigned(Strip(v.value.text)) == Some(r))
      && (IsIntText(Strip(v.value.text)) ==> ParseSigned(Strip(v.value.text)) == Some(r))
  {
    match v
    case None => default
    case Some(Flag(b)) => if b then 1 else 0
    case Some(Number(n)) => n
    case Some(Text(t)) =>
      var text := Strip(t);
      if text != [] && IsIntText(text) then IntTextValue(text) else default
  }

  /** A numeral in the file reads back as its number. */
  lemma AsIntOfNumeral(n: int, default: int)
    ensures AsInt(Some(ParseScalar(IntToStr(n))), default) == n
  {
    ParseScalarOfInt(n);
  }

  /** A quoted numeral is read as text, and that text converts to the same number. */
  lemma AsIntOfQuotedNumeral(n: int, quote: char, default: int)
    requires quote == '\'' || quote == '"'
    ensures ParseScalar([quote] + IntToStr(n) + [quote]) == Text(IntToStr(n))
    ensures AsInt(Some(ParseScalar([quote] + IntToStr(n) + [quote])), default) == n
  {
    var t := IntToStr(n);
    var q := [quote] + t + [quote];
    StripSetOfClean(q, Whitespace);
    assert Quoted(Strip(q));
    assert q[1..|q| - 1] == t;
    NumeralClean(n);
    ParseIntOfIntToStr(n);
  }

  /** `_as_int_dict` over a section: blank keys are dropped, the last write of a key wins. */
  function AsIntDict(items: Items): (r: map<string, int>)
    ensures forall k :: k in r ==> k != [] && Strip(k) == k
    decreases |items|
  {
    if items == [] then map[]
    else
      var rest := AsIntDict(items[..|items| - 1]);
      var (k, v) := items[|items| - 1];
      var keyText := Strip(k);
      StripSetIdempotent(k, Whitespace);
      if keyText == [] then rest else rest[keyText := AsInt(Some(v), 0)]
  }

  /** A section the parser produced gives each of its keys the integer of its value. */
  lemma {:induction false} AsIntDictOfParsed(items: Items, k: string)
    requires GoodItems(items)
    ensures k in AsIntDict(items) <==> HasKey(items, k)
    ensures k in AsIntDict(items) ==> AsIntDict(items)[k] == AsInt(Lookup(items, k), 0)
    decreases |items|
  {
    if items != [] {
      var init := items[..|items| - 1];
      var last := items[|items| - 1];
      assert items == init + [last];
      assert GoodItems(init) by {
        forall i | 0 <= i < |init| ensures GoodKey(init[i].0) {
          assert init[i] == items[i];
        }
      }
      assert !HasKey(init, last.0);
      AsIntDictOfParsed(init, k);
      LookupSnoc(init, last, k);
      assert GoodKey(last.0);
    }
  }

  /** The lookup of a key in a dict with one more entry at the end (the first entry wins). */
  lemma {:induction false} LookupSnoc(items: Items, last: (string, Scalar), k: string)
    ensures Lookup(items + [last], k)
      == if HasKey(items, k) then Lookup(items, k) else if last.0 == k then Some(last.1) else None
    decreases |items|
  {
    var all := items + [last];
    if items == [] {
      assert all == [last];
    } else {
      assert all[1..] == items[1..] + [last];
      LookupSnoc(items[1..], last, k);
    }
  }

  // ------------------------------------------------------------------ config

  datatype HFConfig = HFConfig(
    datasetRepoUrl: string,
    datasetRepoId: string,
    datasetRepoPath: string,
    uploadLargeFolderMode: string,
    uploadLargeFolderThreshold: int)

  datatype Config = Config(attemptThresholds: map<string, int>, hf: HFConfig)

  /** The section stored under `key`, or an empty one when the value is missing or a scalar. */
  function SectionOf(root: Yaml, key: string): Items
  {
    if key in root && root[key].Section? then root[key].items else []
  }

  /** The configuration of a document (`load_import_config` after parsing). */
  function ConfigOf(root: Yaml): (c: Config)
    ensures c.hf.uploadLargeFolderThreshold >= 1
    ensures c.hf.uploadLargeFolderMode != []
    ensures SectionOf(root, "hf") == [] ==> c.hf == HFConfig("", "", DefaultRepoPath, DefaultMode, DefaultThreshold)
  {
    var hf := SectionOf(root, "hf");
    var mode := AsString(Lookup(hf, "upload_large_folder_mode"), DefaultMode);
    var threshold := AsInt(Lookup(hf, "upload_large_folder_threshold"), DefaultThreshold);
    var thresholds := if "attempt_thresholds" in root && root["attempt_thresholds"].Section?
      then AsIntDict(root["attempt_thresholds"].items) else map[];
    Config(
      thresholds,
      HFConfig(
        AsString(Lookup(hf, "dataset_repo_url"), ""),
        AsString(Lookup(hf, "dataset_repo_id"), ""),
        AsString(Lookup(hf, "dataset_repo_path"), DefaultRepoPath),
        if mode == [] then DefaultMode else mode,
        if threshold < 1 then 1 else threshold))
  }

  /** `load_import_config`: `text` is the file's contents, or None without a readable file. */
  method LoadImportConfig(text: Option<string>) returns (c: Config)
    ensures text.None? ==> c == Config(map[], HFConfig("", "", DefaultRepoPath, DefaultMode, DefaultThreshold))
    ensures text.Some? ==> c == ConfigOf(YamlOf(SplitLines(text.value)).root)
  {
    var root: Yaml := map[];
    if text.Some? {
      root := ParseSimpleYaml(text.value);
    }
    c := ConfigOf(root);
  }

  /** A threshold written in the `hf` section is used as given when it is at least 1. */
  lemma ThresholdAsWritten(root: Yaml, n: int)
    requires Lookup(SectionOf(root, "hf"), "upload_large_folder_threshold") == Some(Number(n))
    ensures ConfigOf(root).hf.uploadLargeFolderThreshold == if n < 1 then 1 else n
  {
  }
}
