/**
 * The `.env` loader: one `KEY=value` assignment per line, merged into the
 * process environment.  Finding the file (walking up from the start
 * directory) and reading it are inputs here: `LoadLocalEnv` is given the
 * path that was found, if any, and the file's text.
 */
module LocalEnv {
  import opened Py

  /** `_parse_assignment`: the key and value a line assigns, or None. */
  function ParseAssignment(line: string): (r: Option<(string, string)>)
    ensures r.Some? ==> r.value.0 != [] && Strip(r.value.0) == r.value.0 && '=' !in r.value.0
    ensures Strip(line) == [] || Strip(line)[0] == '#' ==> r.None?
  {
    var text := Strip(line);
    if text == [] || text[0] == '#' then None
    else
      var body := if StartsWith(text, "export ") then Strip(text[7..]) else text;
      match SplitFirst(body, '=')
      case None => None
      case Some(parts) =>
        var key := Strip(parts.0);
        if key == [] then None
        else
          StripSetIdempotent(parts.0, Whitespace);
          KeyHasNoEquals(parts.0);
          Some((key, Unquote(Strip(parts.1))))
  }

  lemma KeyHasNoEquals(s: string)
    requires '=' !in s
    ensures '=' !in Strip(s)
  {
    if '=' in Strip(s) {
      StripChars(s, Whitespace, '=');
    }
  }

  /** A name made of letters, digits and `_`, as environment variables are named. */
  predicate VarName(key: string)
  {
    key != [] && forall i :: 0 <= i < |key| ==> IsAlnum(key[i]) || key[i] == '_'
  }

  /** The first `=` of `KEY=value` is the one after the name. */
  lemma SplitAtName(key: string, value: string)
    requires VarName(key)
    ensures SplitFirst(key + "=" + value, '=') == Some((key, value))
  {
    var body := key + "=" + value;
    var parts := SplitFirst(body, '=').value;
    assert body == parts.0 + ['='] + parts.1;
    assert forall i :: 0 <= i < |key| ==> body[i] == key[i] != '=';
    assert body[|key|] == '=' && body[|parts.0|] == '=';
    assert |parts.0| == |key|;
    assert parts.0 == body[..|key|] == key;
    assert parts.1 == body[|key| + 1..] == value;
  }

  /** `KEY=value` neither needs stripping nor starts with `export ` or `#`. */
  lemma PlainAssignment(key: string, value: string)
    requires VarName(key)
    requires value == [] || (value[0] !in Whitespace && value[|value| - 1] !in Whitespace)
    ensures var body := key + "=" + value;
      Strip(body) == body && Strip(key) == key && Strip(value) == value
      && body[0] != '#' && !StartsWith(body, "export ")
  {
    var body := key + "=" + value;
    assert body[0] == key[0] && key[0] !in Whitespace;
    assert body[|body| - 1] == if value == [] then '=' else value[|value| - 1];
    StripSetOfClean(body, Whitespace);
    StripSetOfClean(value, Whitespace);
    assert key[|key| - 1] !in Whitespace;
    StripSetOfClean(key, Whitespace);
    if |key| < 7 {
      assert body[|key|] == '=';
    } else {
      assert body[6] == key[6];
    }
  }

  /** The body of an assignment, once any `export ` is dropped and the text stripped. */
  lemma ParseBody(line: string, key: string, value: string)
    requires VarName(key) && Strip(key) == key
    requires Strip(line) != [] && Strip(line)[0] != '#'
    requires (if StartsWith(Strip(line), "export ") then Strip(Strip(line)[7..]) else Strip(line)) == key + "=" + value
    ensures ParseAssignment(line) == Some((key, Unquote(Strip(value))))
  {
    SplitAtName(key, value);
  }

  /**
   * A line `KEY=value`, with or without a leading `export `, assigns `value`
   * to `KEY`, its quotes removed: the round trip of writing an assignment.
   */
  lemma ParseAssignmentOf(key: string, value: string, exported: bool)
    requires VarName(key)
    requires value == [] || (value[0] !in Whitespace && value[|value| - 1] !in Whitespace)
    ensures ParseAssignment((if exported then "export " else "") + key + "=" + value) == Some((key, Unquote(value)))
  {
    var body := key + "=" + value;
    var line := (if exported then "export " else "") + key + "=" + value;
    PlainAssignment(key, value);
    if exported {
      assert line == "export " + body;
      assert line[|line| - 1] == body[|body| - 1] && line[0] == 'e';
      StripSetOfClean(line, Whitespace);
      assert StartsWith(line, "export ") && line[7..] == body;
    } else {
      assert line == body;
    }
    ParseBody(line, key, value);
  }

  /** An assignment, or None for a line that assigns nothing. */
  type Assignment = Option<(string, string)>

  /** The assignments of the lines of a file, in order. */
  function Assignments(lines: seq<string>): (r: seq<Assignment>)
    ensures |r| == |lines| && forall i :: 0 <= i < |lines| ==> r[i] == ParseAssignment(lines[i])
  {
    seq(|lines|, i requires 0 <= i < |lines| => ParseAssignment(lines[i]))
  }

  /** Whether an assignment sets `key`. */
  predicate Sets(a: Assignment, key: string)
  {
    a.Some? && a.value.0 == key
  }

  /** One iteration of the loop of `load_local_env`. */
  function ApplyOne(env: map<string, string>, a: Assignment, override: bool): map<string, string>
  {
    match a
    case None => env
    case Some(kv) => if !override && kv.0 in env then env else env[kv.0 := kv.1]
  }

  /** The environment after the assignments `xs`, in order. */
  function Merge(env: map<string, string>, xs: seq<Assignment>, override: bool): map<string, string>
    decreases |xs|
  {
    if xs == [] then env
    else ApplyOne(Merge(env, xs[..|xs| - 1], override), xs[|xs| - 1], override)
  }

  lemma {:induction false} MergeAppend(env: map<string, string>, a: seq<Assignment>, b: seq<Assignment>, override: bool)
    ensures Merge(env, a + b, override) == Merge(Merge(env, a, override), b, override)
    decreases |b|
  {
    if b == [] {
      assert a + b == a;
    } else {
      assert (a + b)[..|a + b| - 1] == a + b[..|b| - 1];
      MergeAppend(env, a, b[..|b| - 1], override);
    }
  }

  /** Keys are only ever added: the result holds the old keys and the assigned ones. */
  lemma {:induction false} MergeKeys(env: map<string, string>, xs: seq<Assignment>, override: bool, k: string)
    ensures k in Merge(env, xs, override) <==> k in env || exists i :: 0 <= i < |xs| && Sets(xs[i], k)
    decreases |xs|
  {
    if xs != [] {
      var init := xs[..|xs| - 1];
      MergeKeys(env, init, override, k);
      if exists i :: 0 <= i < |xs| && Sets(xs[i], k) {
        var i :| 0 <= i < |xs| && Sets(xs[i], k);
        if i < |init| {
          assert Sets(init[i], k);
        }
      }
      if exists i :: 0 <= i < |init| && Sets(init[i], k) {
        var i :| 0 <= i < |init| && Sets(init[i], k);
        assert Sets(xs[i], k);
      }
    }
  }

  /** Without override, a key already in the environment is never replaced. */
  lemma {:induction false} KeptWithoutOverride(env: map<string, string>, xs: seq<Assignment>, k: string)
    requires k in env
    ensures k in Merge(env, xs, false) && Merge(env, xs, false)[k] == env[k]
    decreases |xs|
  {
    if xs != [] {
      KeptWithoutOverride(env, xs[..|xs| - 1], k);
    }
  }

  /** Assignments of other keys leave the value of `k` alone. */
  lemma {:induction false} UntouchedKey(env: map<string, string>, xs: seq<Assignment>, override: bool, k: string)
    requires k in env
    requires forall i :: 0 <= i < |xs| ==> !Sets(xs[i], k)
    ensures k in Merge(env, xs, override) && Merge(env, xs, override)[k] == env[k]
    decreases |xs|
  {
    if xs != [] {
      UntouchedKey(env, xs[..|xs| - 1], override, k);
      assert !Sets(xs[|xs| - 1], k);
    }
  }

  /**
   * Without override the first assignment of a new key decides its value:
   * from then on the key is in the environment.
   */
  lemma FirstAssignmentWins(env: map<string, string>, xs: seq<Assignment>, k: string, j: int)
    requires k !in env && 0 <= j < |xs| && Sets(xs[j], k)
    requires forall i :: 0 <= i < j ==> !Sets(xs[i], k)
    ensures k in Merge(env, xs, false) && Merge(env, xs, false)[k] == xs[j].value.1
  {
    var before := xs[..j];
    MergeKeys(env, before, false, k);
    forall i | 0 <= i < |before|
      ensures !Sets(before[i], k)
    {
      assert before[i] == xs[i];
    }
    assert xs[..j + 1][..j] == before;
    var mid := Merge(env, xs[..j + 1], false);
    assert k in mid && mid[k] == xs[j].value.1;
    KeptWithoutOverride(mid, xs[j + 1..], k);
    MergeAppend(env, xs[..j + 1], xs[j + 1..], false);
    assert xs[..j + 1] + xs[j + 1..] == xs;
  }

  /** With override the last assignment of a key decides its value. */
  lemma LastAssignmentWins(env: map<string, string>, xs: seq<Assignment>, k: string, j: int)
    requires 0 <= j < |xs| && Sets(xs[j], k)
    requires forall i :: j < i < |xs| ==> !Sets(xs[i], k)
    ensures k in Merge(env, xs, true) && Merge(env, xs, true)[k] == xs[j].value.1
  {
    var mid := Merge(env, xs[..j + 1], true);
    assert xs[..j + 1][..j] == xs[..j];
    assert k in mid && mid[k] == xs[j].value.1;
    var rest := xs[j + 1..];
    forall i | 0 <= i < |rest|
      ensures !Sets(rest[i], k)
    {
      assert rest[i] == xs[j + 1 + i];
    }
    UntouchedKey(mid, rest, true, k);
    MergeAppend(env, xs[..j + 1], rest, true);
    assert xs[..j + 1] + rest == xs;
  }

  /** The loop of `load_local_env` over the parsed lines of the file. */
  method MergeInto(env0: map<string, string>, lines: seq<Assignment>, override: bool) returns (env: map<string, string>)
    ensures env == Merge(env0, lines, override)
  {
    env := env0;
    var i := 0;
    while i < |lines|
      invariant 0 <= i <= |lines|
      invariant env == Merge(env0, lines[..i], override)
    {
      assert lines[..i + 1][..i] == lines[..i];
      var parsed := lines[i];
      if parsed.Some? {
        var key, value := parsed.value.0, parsed.value.1;
        if override || key !in env {
          env := env[key := value];
        }
      }
      i := i + 1;
    }
    assert lines[..i] == lines;
  }

  /** The process state `load_local_env` reads and writes. */
  class Process {
    /** `os.environ`. */
    var environ: map<string, string>
    /** `_LOADED_PATHS`: the env files already applied. */
    var loaded: set<string>

    constructor(environ0: map<string, string>)
      ensures environ == environ0 && loaded == {}
    {
      environ := environ0;
      loaded := {};
    }

    /**
     * `load_local_env`: `found` is the file `_find_env_file` located and
     * `text` its contents.  A file already applied is not applied again.
     */
    method LoadLocalEnv(found: Option<string>, text: string, override: bool) returns (r: Option<string>)
      modifies this
      ensures r == found
      ensures found.None? || found.value in old(loaded) ==> environ == old(environ) && loaded == old(loaded)
      ensures found.Some? && found.value !in old(loaded) ==>
        environ == Merge(old(environ), Assignments(SplitLines(text)), override)
        && loaded == old(loaded) + {found.value}
    {
      if found.None? {
        return None;
      }
      if found.value in loaded {
        return found;
      }
      environ := MergeInto(environ, Assignments(SplitLines(text)), override);
      loaded := loaded + {found.value};
      return found;
    }
  }
}
