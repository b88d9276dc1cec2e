/**
 * The pure decisions of the Hugging Face sync job: placeholder detection,
 * normalisation of repository-relative paths, the repository id taken
 * from the settings or from a dataset URL, whether a path lies in the
 * ledger tree, and whether an upload goes through `upload_large_folder`.
 * Whether the installed client offers `upload_large_folder` is a parameter.
 */
module SyncHF {
  import opened Py

  /** `HF_REPO_PATH_PLACEHOLDER`. */
  const PathPlaceholder: string := "/absolute/path/to/local/hf-dataset-clone"

  /** `_looks_like_placeholder`: the template path itself, or a text holding both `<` and `>`. */
  predicate LooksLikePlaceholder(value: string)
  {
    var text := Strip(value);
    text != [] && (text == PathPlaceholder || ('<' in text && '>' in text))
  }

  /** A blank text is never a placeholder; a text with `<...>` always is. */
  lemma PlaceholderCases(value: string)
    ensures Strip(value) == [] ==> !LooksLikePlaceholder(value)
    ensures '<' in Strip(value) && '>' in Strip(value) ==> LooksLikePlaceholder(value)
    ensures LooksLikePlaceholder(value) ==> LooksLikePlaceholder(Strip(value))
  {
    StripSetIdempotent(value, Whitespace);
  }

  // ------------------------------------------------------ repository paths

  predicate NotSlash(c: char) { c != '/' }

  /** No two `/` in a row. */
  predicate NoDoubleSlash(s: string)
  {
    forall i :: 0 <= i < |s| - 1 ==> !(s[i] == '/' && s[i + 1] == '/')
  }

  /** The shape every normalised path has. */
  predicate CleanRelpath(s: string)
  {
    '\\' !in s && NoDoubleSlash(s) && (s != [] ==> s[0] != '/' && s[|s| - 1] != '/')
  }

  /** The traversals `_normalize_repo_relpath` refuses. */
  predicate Traverses(text: string)
  {
    StartsWith(text, "../") || Contains(text, "/../") || text == ".."
  }

  /** The text `_normalize_repo_relpath` has before its final checks. */
  function Tidied(pathText: string): (r: string)
  {
    var t := SubRuns(ReplaceChar(Strip(pathText), '\\', "/"), NotSlash, "/");
    var u := LStrip(t, {'/'});
    if EndsWith(u, "/") && u != "/" then u[..|u| - 1] else u
  }

  /** `_normalize_repo_relpath`; the error is the `SyncHFError` for a traversal. */
  function NormalizeRepoRelpath(pathText: string): (r: Result<string>)
  {
    var text := Tidied(pathText);
    if text == [] || text == "." then Ok([])
    else if Traverses(text) then Err(SyncHFError)
    else Ok(text)
  }

  /** Collapsing the runs of `/` leaves single `/` between other characters, and no backslash. */
  lemma CollapsedShape(s: string)
    requires '\\' !in s
    ensures var t := SubRuns(s, NotSlash, "/"); SingleRuns(t, NotSlash, '/') && '\\' !in t
  {
    SubRunsSingle(s, NotSlash, '/');
  }

  /** The shape survives `lstrip("/")`, which also removes every leading `/`. */
  lemma LStrippedShape(t: string)
    requires SingleRuns(t, NotSlash, '/') && '\\' !in t
    ensures var u := LStrip(t, {'/'});
      SingleRuns(u, NotSlash, '/') && '\\' !in u && (u != [] ==> u[0] != '/')
  {
    var u := LStrip(t, {'/'});
    LStripProps(t, {'/'});
    SingleRunsSlice(t, NotSlash, '/', |t| - |u|, |t|);
    assert t[|t| - |u|..|t|] == u;
    forall i | 0 <= i < |u| ensures u[i] != '\\' { assert u[i] == t[|t| - |u| + i]; }
  }

  /** Dropping the one trailing `/` leaves no `/` at the end. */
  lemma TrimmedShape(u: string)
    requires SingleRuns(u, NotSlash, '/') && '\\' !in u && (u != [] ==> u[0] != '/')
    ensures var v := if EndsWith(u, "/") && u != "/" then u[..|u| - 1] else u;
      CleanRelpath(v)
  {
    var v := if EndsWith(u, "/") && u != "/" then u[..|u| - 1] else u;
    if EndsWith(u, "/") && u != "/" {
      SingleRunsSlice(u, NotSlash, '/', 0, |u| - 1);
      assert u[|u| - 1] == '/';
      if |u| >= 2 {
        assert u[|u| - 2] != '/';
      }
    }
    forall i | 0 <= i < |v| ensures v[i] != '\\' { assert v[i] == u[i]; }
    forall i | 0 <= i < |v| - 1 ensures !(v[i] == '/' && v[i + 1] == '/') {
      assert !NotSlash(v[i]) ==> NotSlash(v[i + 1]);
    }
  }

  lemma TidiedShape(pathText: string)
    ensures CleanRelpath(Tidied(pathText))
  {
    var s := ReplaceChar(Strip(pathText), '\\', "/");
    CollapsedShape(s);
    var t := SubRuns(s, NotSlash, "/");
    LStrippedShape(t);
    TrimmedShape(LStrip(t, {'/'}));
  }

  /**
   * A successful result has no backslash, no `//` and no `/` at either
   * end; blank and `.` give the empty path; a traversal is refused.
   */
  lemma NormalizeRepoRelpathShape(pathText: string)
    ensures NormalizeRepoRelpath(pathText).Ok? ==> CleanRelpath(NormalizeRepoRelpath(pathText).value)
    ensures NormalizeRepoRelpath(pathText).Err? <==> Traverses(Tidied(pathText)) && Tidied(pathText) != "."
    ensures Tidied(pathText) == "." ==> NormalizeRepoRelpath(pathText) == Ok([])
    ensures NormalizeRepoRelpath(pathText).Ok? && NormalizeRepoRelpath(pathText).value != [] ==>
      !Traverses(NormalizeRepoRelpath(pathText).value)
  {
    TidiedShape(pathText);
    if Tidied(pathText) == [] {
      assert !StartsWith([], "../") && !Contains([], "/../");
    }
  }

  /** A path already in normal form is its own normalisation. */
  lemma NormalizeRepoRelpathOfClean(s: string)
    requires CleanRelpath(s) && Strip(s) == s && s != "." && !Traverses(s)
    ensures NormalizeRepoRelpath(s) == Ok(s)
  {
    ReplaceCharAbsent(s, '\\', "/");
    assert SingleRuns(s, NotSlash, '/') by {
      forall i | 0 <= i < |s| && !NotSlash(s[i])
        ensures s[i] == '/' && (i + 1 < |s| ==> NotSlash(s[i + 1]))
      {
        if i + 1 < |s| {
          assert !(s[i] == '/' && s[i + 1] == '/');
        }
      }
    }
    SubRunsOfSingle(s, NotSlash, '/');
    assert LStrip(s, {'/'}) == s;
  }

  /** Normalising a successful result whose ends are not blank gives it back. */
  lemma NormalizeRepoRelpathIdempotent(pathText: string)
    requires NormalizeRepoRelpath(pathText).Ok?
    requires Strip(NormalizeRepoRelpath(pathText).value) == NormalizeRepoRelpath(pathText).value
    ensures NormalizeRepoRelpath(NormalizeRepoRelpath(pathText).value) == NormalizeRepoRelpath(pathText)
  {
    var r := NormalizeRepoRelpath(pathText).value;
    NormalizeRepoRelpathShape(pathText);
    if r == [] {
      assert Tidied([]) == [];
    } else {
      NormalizeRepoRelpathOfClean(r);
    }
  }

  // ------------------------------------------------------------ repo ids

  /** The literal part of `HF_REPO_URL_PATTERN` before the captured id. */
  const DatasetsMarker: string := "huggingface.co/datasets/"

  /** A character of `[^/?#]`. */
  predicate SegmentChar(c: char) { c != '/' && c != '?' && c != '#' }

  /** The end of the longest run of `[^/?#]` that starts at `k`. */
  function SegmentEnd(s: string, k: nat): (r: nat)
    requires k <= |s|
    ensures k <= r <= |s| && (r < |s| ==> !SegmentChar(s[r]))
    ensures forall i :: k <= i < r ==> SegmentChar(s[i])
    decreases |s| - k
  {
    if k < |s| && SegmentChar(s[k]) then SegmentEnd(s, k + 1) else k
  }

  /**
   * The id `([^/?#]+/[^/?#]+)` captures when the marker occurs at `q`: both
   * runs are the longest possible, since a shorter first run would be
   * followed by a character other than `/`.
   */
  function RepoIdAt(text: string, q: nat): Option<string>
  {
    if !OccursAt(text, DatasetsMarker, q) then None
    else
      var a := q + |DatasetsMarker|;
      var b := SegmentEnd(text, a);
      if b == a || b == |text| || text[b] != '/' then None
      else
        var c := SegmentEnd(text, b + 1);
        if c == b + 1 then None else Some(text[a..c])
  }

  /**
   * `HF_REPO_URL_PATTERN.search(text)` from position `q`: the first marker
   * followed by an id.  The optional `https://` and `www.` before the
   * marker move where the match starts but not what it captures.
   */
  function SearchRepoId(text: string, q: nat): Option<string>
    decreases |text| - q
  {
    if q > |text| then None
    else
      match RepoIdAt(text, q)
      case Some(id) => Some(id)
      case None => SearchRepoId(text, q + 1)
  }

  /** `_extract_repo_id_from_url`. */
  function ExtractRepoIdFromUrl(repoUrl: string): (r: string)
  {
    var text := Strip(repoUrl);
    if text == [] then []
    else
      match SearchRepoId(text, 0)
      case Some(id) => id
      case None =>
        if !Contains(text, "://") && CountChar(text, '/') == 1 then StripSet(text, {'/'}) else []
  }

  lemma {:induction false} CountCharConcat(a: string, b: string, c: char)
    ensures CountChar(a + b, c) == CountChar(a, c) + CountChar(b, c)
    decreases |a|
  {
    if a == [] {
      assert a + b == b;
    } else {
      assert (a + b)[0] == a[0] && (a + b)[1..] == a[1..] + b;
      CountCharConcat(a[1..], b, c);
    }
  }

  /** A run of `[^/?#]` holds no `/`. */
  lemma RunHasNoSlash(text: string, k: nat, r: nat)
    requires k <= r <= |text| && forall i :: k <= i < r ==> SegmentChar(text[i])
    ensures '/' !in text[k..r]
  {
    var run := text[k..r];
    forall i | 0 <= i < |run| ensures run[i] != '/' { assert run[i] == text[k + i]; }
  }

  /** Two slash-free, non-empty runs joined by `/`. */
  lemma OneSlash(x: string, y: string)
    requires x != [] && y != [] && '/' !in x && '/' !in y
    ensures var id := x + "/" + y; CountChar(id, '/') == 1 && id[0] != '/' && id[|id| - 1] != '/'
  {
    CountCharConcat(x + "/", y, '/');
    CountCharConcat(x, "/", '/');
    assert (x + "/" + y)[0] == x[0];
  }

  lemma RepoIdAtShape(text: string, q: nat)
    requires RepoIdAt(text, q).Some?
    ensures var id := RepoIdAt(text, q).value;
      CountChar(id, '/') == 1 && id[0] != '/' && id[|id| - 1] != '/'
  {
    var a := q + |DatasetsMarker|;
    var b := SegmentEnd(text, a);
    var c := SegmentEnd(text, b + 1);
    assert text[a..c] == text[a..b] + "/" + text[b + 1..c];
    RunHasNoSlash(text, a, b);
    RunHasNoSlash(text, b + 1, c);
    OneSlash(text[a..b], text[b + 1..c]);
  }

  lemma {:induction false} SearchRepoIdShape(text: string, q: nat)
    requires SearchRepoId(text, q).Some?
    ensures var id := SearchRepoId(text, q).value;
      CountChar(id, '/') == 1 && id[0] != '/' && id[|id| - 1] != '/'
    decreases |text| - q
  {
    if RepoIdAt(text, q).Some? {
      RepoIdAtShape(text, q);
    } else {
      SearchRepoIdShape(text, q + 1);
    }
  }

  lemma CountCharSlice(s: string, lo: int, hi: int, c: char)
    requires 0 <= lo <= hi <= |s|
    ensures CountChar(s[lo..hi], c) <= CountChar(s, c)
  {
    assert s == s[..lo] + s[lo..hi] + s[hi..];
    CountCharConcat(s[..lo] + s[lo..hi], s[hi..], c);
    CountCharConcat(s[..lo], s[lo..hi], c);
  }

  /** What `_extract_repo_id_from_url` returns holds at most one `/`. */
  lemma ExtractRepoIdShape(repoUrl: string)
    ensures CountChar(ExtractRepoIdFromUrl(repoUrl), '/') <= 1
  {
    var text := Strip(repoUrl);
    if text != [] {
      if SearchRepoId(text, 0).Some? {
        SearchRepoIdShape(text, 0);
      } else if !Contains(text, "://") && CountChar(text, '/') == 1 {
        StripSetShape(text, {'/'});
        var lo, hi :| 0 <= lo <= hi <= |text| && StripSet(text, {'/'}) == text[lo..hi];
        CountCharSlice(text, lo, hi, '/');
      }
    }
  }

  /** The marker at `q` followed by `<ns>/<name>` and the end of the text captures `<ns>/<name>`. */
  lemma RepoIdAtMarker(text: string, q: nat, ns: string, name: string)
    requires ns != [] && name != []
    requires forall i :: 0 <= i < |ns| ==> SegmentChar(ns[i])
    requires forall i :: 0 <= i < |name| ==> SegmentChar(name[i])
    requires q <= |text| && text[q..] == DatasetsMarker + ns + "/" + name
    ensures RepoIdAt(text, q) == Some(ns + "/" + name)
  {
    var m := q + |DatasetsMarker|;
    assert text[q..m] == DatasetsMarker;
    assert text[m..m + |ns|] == ns;
    SegmentRun(text, m, ns);
    assert text[m + |ns|] == '/';
    assert text[m + |ns| + 1..|text|] == name;
    SegmentRun(text, m + |ns| + 1, name);
    assert text[m..|text|] == ns + "/" + name;
  }

  /** A dataset address `huggingface.co/datasets/<ns>/<name>` gives `<ns>/<name>`. */
  lemma ExtractRepoIdOfDatasetUrl(ns: string, name: string)
    requires ns != [] && name != [] && name[|name| - 1] !in Whitespace
    requires forall i :: 0 <= i < |ns| ==> SegmentChar(ns[i])
    requires forall i :: 0 <= i < |name| ==> SegmentChar(name[i])
    ensures ExtractRepoIdFromUrl(DatasetsMarker + ns + "/" + name) == ns + "/" + name
  {
    var text := DatasetsMarker + ns + "/" + name;
    assert text[0] == 'h' && text[|text| - 1] == name[|name| - 1];
    NormalizeClean(text);
    assert text[0..] == text;
    RepoIdAtMarker(text, 0, ns, name);
  }

  /** A run of segment characters placed at `k` ends where it ends. */
  lemma SegmentRun(text: string, k: nat, run: string)
    requires k + |run| <= |text| && text[k..k + |run|] == run
    requires forall i :: 0 <= i < |run| ==> SegmentChar(run[i])
    requires k + |run| == |text| || !SegmentChar(text[k + |run|])
    ensures SegmentEnd(text, k) == k + |run|
    decreases |run|
  {
    if run != [] {
      assert text[k] == run[0];
      assert text[k + 1..k + |run|] == run[1..];
      SegmentRun(text, k + 1, run[1..]);
    }
  }

  /**
   * `resolve_hf_repo_id`: the id setting, normalised, else the id in the
   * dataset URL; it must be non-empty, not a placeholder, and `ns/name`.
   */
  function ResolveHfRepoId(repoIdText: string, repoUrlText: string): (r: Result<string>)
    ensures r.Ok? ==> r.value != [] && !LooksLikePlaceholder(r.value) && CountChar(r.value, '/') == 1
  {
    match NormalizeRepoRelpath(repoIdText)
    case Err(e) => Err(e)
    case Ok(normalized) =>
      var repoId := if normalized == [] then ExtractRepoIdFromUrl(repoUrlText) else normalized;
      if repoId == [] || LooksLikePlaceholder(repoId) || CountChar(repoId, '/') != 1 then Err(SyncHFError)
      else Ok(repoId)
  }

  /** A usable id setting wins over the URL; the URL is read only when the setting is blank. */
  lemma ResolveHfRepoIdSources(repoIdText: string, repoUrlText: string)
    ensures NormalizeRepoRelpath(repoIdText).Err? ==> ResolveHfRepoId(repoIdText, repoUrlText).Err?
    ensures NormalizeRepoRelpath(repoIdText) == Ok([]) ==>
      ResolveHfRepoId(repoIdText, repoUrlText) == ResolveHfRepoId("", repoUrlText)
    ensures NormalizeRepoRelpath(repoIdText).Ok? && NormalizeRepoRelpath(repoIdText).value != [] ==>
      ResolveHfRepoId(repoIdText, repoUrlText) == ResolveHfRepoId(repoIdText, "")
  {
    assert NormalizeRepoRelpath("") == Ok([]) by {
      assert Strip("") == [];
      assert Tidied("") == [];
    }
  }

  /** A clean `ns/name` id resolves to itself, whatever the URL says. */
  lemma ResolveHfRepoIdOfId(id: string, repoUrlText: string)
    requires CleanRelpath(id) && Strip(id) == id && id != "." && !Traverses(id)
    requires id != [] && CountChar(id, '/') == 1 && !LooksLikePlaceholder(id)
    ensures ResolveHfRepoId(id, repoUrlText) == Ok(id)
  {
    NormalizeRepoRelpathOfClean(id);
  }

  // ----------------------------------------------------------- ledger tree

  /** `Path(normalized).parts` for a normalised path: its pieces, without `.` pieces. */
  function PathParts(pieces: seq<string>): (r: seq<string>)
    ensures forall i :: 0 <= i < |r| ==> r[i] in pieces && r[i] != "."
  {
    if pieces == [] then []
    else
      var rest := PathParts(pieces[1..]);
      if pieces[0] == "." then rest else [pieces[0]] + rest
  }

  /** Some part `import` is directly followed by a part `grinfo`. */
  predicate HasLedgerPair(parts: seq<string>)
  {
    exists i :: 0 <= i < |parts| - 1 && parts[i] == "import" && parts[i + 1] == "grinfo"
  }

  /** `_contains_ledger_segment`; the error is the traversal error of the normalisation. */
  function ContainsLedgerSegment(pathText: string): (r: Result<bool>)
    ensures r.Err? <==> NormalizeRepoRelpath(pathText).Err?
    ensures NormalizeRepoRelpath(pathText) == Ok([]) ==> r == Ok(false)
  {
    match NormalizeRepoRelpath(pathText)
    case Err(e) => Err(e)
    case Ok(normalized) =>
      if normalized == [] then Ok(false) else Ok(HasLedgerPair(PathParts(SplitOn(normalized, '/'))))
  }

  /** Putting parts before or after the pair keeps it. */
  lemma LedgerPairWithin(before: seq<string>, after: seq<string>)
    ensures HasLedgerPair(before + ["import", "grinfo"] + after)
  {
    var parts := before + ["import", "grinfo"] + after;
    assert parts[|before|] == "import" && parts[|before| + 1] == "grinfo";
  }

  /** Dropping `.` parts never separates `import` from a following `grinfo`. */
  lemma {:induction false} PathPartsKeepPair(pieces: seq<string>, i: int)
    requires 0 <= i < |pieces| - 1 && pieces[i] == "import" && pieces[i + 1] == "grinfo"
    ensures HasLedgerPair(PathParts(pieces))
    decreases |pieces|
  {
    if i == 0 {
      assert pieces[0] != ".";
      assert pieces[1..][0] != "." && pieces[1..][1..] == pieces[2..];
      assert PathParts(pieces) == ["import"] + PathParts(pieces[1..]);
      assert PathParts(pieces[1..]) == ["grinfo"] + PathParts(pieces[2..]);
      LedgerPairWithin([], PathParts(pieces[2..]));
      assert PathParts(pieces) == [] + ["import", "grinfo"] + PathParts(pieces[2..]);
    } else {
      PathPartsKeepPair(pieces[1..], i - 1);
      var rest := PathParts(pieces[1..]);
      var j :| 0 <= j < |rest| - 1 && rest[j] == "import" && rest[j + 1] == "grinfo";
      if pieces[0] != "." {
        assert PathParts(pieces)[j + 1] == rest[j] && PathParts(pieces)[j + 2] == rest[j + 1];
      }
    }
  }

  /** A normalised path with adjacent pieces `import` and `grinfo` lies in the ledger tree. */
  lemma LedgerSegmentOfPieces(pathText: string, i: int)
    requires NormalizeRepoRelpath(pathText).Ok?
    requires var pieces := SplitOn(NormalizeRepoRelpath(pathText).value, '/');
      0 <= i < |pieces| - 1 && pieces[i] == "import" && pieces[i + 1] == "grinfo"
    ensures ContainsLedgerSegment(pathText) == Ok(true)
  {
    var n := NormalizeRepoRelpath(pathText).value;
    PathPartsKeepPair(SplitOn(n, '/'), i);
  }

  // --------------------------------------------------------- large folder

  const ModeAuto: string := "auto"
  const ModeAlways: string := "always"
  const ModeNever: string := "never"

  /** `_normalize_large_folder_mode`; the error is the `SyncHFError` for another mode. */
  function NormalizeLargeFolderMode(value: string): (r: Result<string>)
    ensures r.Ok? <==> Lower(Strip(if value == [] then ModeAuto else value)) in {ModeAuto, ModeAlways, ModeNever}
    ensures r.Ok? ==> r.value == Lower(Strip(if value == [] then ModeAuto else value))
  {
    var mode := Lower(Strip(if value == [] then ModeAuto else value));
    if mode in {ModeAuto, ModeAlways, ModeNever} then Ok(mode) else Err(SyncHFError)
  }

  /**
   * `_should_use_large_folder`: `supportsLargeFolder` is what
   * `_supports_upload_large_folder(api)` answers.
   */
  function ShouldUseLargeFolder(largeFolderMode: string, largeFolderThreshold: int, supportsLargeFolder: bool,
                                hasDirectoryTarget: bool, totalFiles: int): (r: Result<bool>)
  {
    match NormalizeLargeFolderMode(largeFolderMode)
    case Err(e) => Err(e)
    case Ok(mode) =>
      if mode == ModeNever then Ok(false)
      else if mode == ModeAlways then
        if !supportsLargeFolder then Err(SyncHFError) else Ok(hasDirectoryTarget)
      else
        Ok(hasDirectoryTarget && totalFiles >= (if largeFolderThreshold < 1 then 1 else largeFolderThreshold)
           && supportsLargeFolder)
  }

  /**
   * The decision by mode: `never` is always false; `always` fails without
   * client support and otherwise follows the directory target; `auto`
   * needs a directory target, enough files and support; large-folder
   * uploads are only ever chosen for a directory target with support.
   */
  lemma ShouldUseLargeFolderCases(largeFolderMode: string, threshold: int, supports: bool,
                                  hasDirectoryTarget: bool, totalFiles: int)
    ensures var r := ShouldUseLargeFolder(largeFolderMode, threshold, supports, hasDirectoryTarget, totalFiles);
      var mode := NormalizeLargeFolderMode(largeFolderMode);
      (mode.Err? ==> r.Err?)
      && (mode == Ok(ModeNever) ==> r == Ok(false))
      && (mode == Ok(ModeAlways) ==> (r.Err? <==> !supports) && (supports ==> r == Ok(hasDirectoryTarget)))
      && (mode == Ok(ModeAuto) ==> r == Ok(hasDirectoryTarget && totalFiles >= threshold && totalFiles >= 1 && supports))
      && (r == Ok(true) ==> hasDirectoryTarget && supports)
  {
  }
}
