/**
 * The one-time `backfill_hf_path` job: PDFs already in the Hugging Face
 * dataset are indexed by the codes their file stems carry, and every
 * upload row without `hf.path` whose record key names exactly one of them
 * gets an `{"record_key", "hf": {"path"}}` update, written through
 * `InfoStore.update_many` in batches.
 */
module BackfillHF {
  import opened Py
  import opened Codes
  import SyncHF
  import Dates
  import LedgerEngine
  import Infos
  import JobUtils

  // -------------------------------------------------------------- repo id

  /**
   * `_extract_repo_id_from_url`: the `huggingface.co/datasets/<ns>/<name>`
   * capture, stripped of `/`; else a bare text with one `/` and no `://`.
   */
  function ExtractRepoIdFromUrl(repoUrl: string): (r: string)
  {
    var text := Strip(repoUrl);
    if text == [] then []
    else
      match SyncHF.SearchRepoId(text, 0)
      case Some(id) => StripSet(id, {'/'})
      case None =>
        if !Contains(text, "://") && CountChar(text, '/') == 1 then StripSet(text, {'/'}) else []
  }

  /** Stripping `/` from the capture changes nothing: this is the sync job's extraction. */
  lemma ExtractRepoIdAgrees(repoUrl: string)
    ensures ExtractRepoIdFromUrl(repoUrl) == SyncHF.ExtractRepoIdFromUrl(repoUrl)
  {
    var text := Strip(repoUrl);
    if text != [] && SyncHF.SearchRepoId(text, 0).Some? {
      SyncHF.SearchRepoIdShape(text, 0);
      StripSetOfClean(SyncHF.SearchRepoId(text, 0).value, {'/'});
    }
  }

  /**
   * `_resolve_repo_id`: the id argument stripped of blanks and then of `/`,
   * else the id in the URL; blank, or without exactly one `/`, is a ValueError.
   */
  function ResolveRepoId(repoId: string, repoUrl: string): (r: Result<string>)
    ensures r.Err? ==> r.error == ValueError
    ensures r.Ok? ==> CountChar(r.value, '/') == 1 && r.value[0] != '/' && r.value[|r.value| - 1] != '/'
  {
    var normalized := StripSet(Strip(repoId), {'/'});
    var resolved := if normalized == [] then ExtractRepoIdFromUrl(repoUrl) else normalized;
    if resolved == [] || CountChar(resolved, '/') != 1 then Err(ValueError)
    else
      assert resolved[0] != '/' && resolved[|resolved| - 1] != '/' by {
        ResolvedStripped(repoId, repoUrl);
        StripSetShape(resolved, {'/'});
      }
      Ok(resolved)
  }

  lemma ResolvedStripped(repoId: string, repoUrl: string)
    ensures var normalized := StripSet(Strip(repoId), {'/'});
      var resolved := if normalized == [] then ExtractRepoIdFromUrl(repoUrl) else normalized;
      resolved == StripSet(resolved, {'/'})
  {
    StripSetIdempotent(Strip(repoId), {'/'});
    var text := Strip(repoUrl);
    if text != [] {
      match SyncHF.SearchRepoId(text, 0)
      case Some(id) => StripSetIdempotent(id, {'/'});
      case None => StripSetIdempotent(text, {'/'});
    }
  }

  /** The id argument wins when it is usable; the URL is read only when it is blank. */
  lemma ResolveRepoIdSources(repoId: string, repoUrl: string)
    ensures StripSet(Strip(repoId), {'/'}) != [] ==> ResolveRepoId(repoId, repoUrl) == ResolveRepoId(repoId, "")
    ensures StripSet(Strip(repoId), {'/'}) == [] ==>
      ResolveRepoId(repoId, repoUrl) == ResolveRepoId("", repoUrl)
  {
    assert Strip("") == [] && StripSet([], {'/'}) == [];
  }

  /** A clean `ns/name` id resolves to itself, whatever the URL. */
  lemma ResolveRepoIdOfId(ns: string, name: string, repoUrl: string)
    requires ns != [] && name != [] && '/' !in ns && '/' !in name
    requires ns[0] !in Whitespace && name[|name| - 1] !in Whitespace
    ensures ResolveRepoId(ns + "/" + name, repoUrl) == Ok(ns + "/" + name)
  {
    var id := ns + "/" + name;
    SyncHF.OneSlash(ns, name);
    assert id[0] == ns[0] && id[|id| - 1] == name[|name| - 1];
    StripSetOfClean(id, Whitespace);
    StripSetOfClean(id, {'/'});
  }

  // ---------------------------------------------------------- candidates

  /** `_code_candidates_from_stem`: the stripped stem, then its long digit run when that differs. */
  function CodeCandidates(stem: string): (r: seq<string>)
    ensures |r| <= 2
  {
    var text := Strip(stem);
    if text == [] then []
    else
      match LongDigits(text)
      case Some(digits) => if digits != text then [text, digits] else [text]
      case None => [text]
  }

  /** A code is a candidate exactly when it is the stripped stem or the digit run in it, and none repeats. */
  lemma CodeCandidatesMembers(stem: string, code: string)
    ensures code in CodeCandidates(stem) <==>
      Strip(stem) != [] && (code == Strip(stem) || LongDigits(Strip(stem)) == Some(code))
    ensures var r := CodeCandidates(stem); forall i, j :: 0 <= i < j < |r| ==> r[i] != r[j]
  {
  }

  /** A PDF named `<code>.pdf`, for a 16 to 22 digit code, is found under that code only. */
  lemma CodeCandidatesOfCodeFile(dir: string, code: string)
    requires AllDigits(code) && 16 <= |code| <= 22
    ensures CodeCandidates(Stem(dir + "/" + code + ".pdf")) == [code]
  {
    DigitsHaveNoDots(code);
    StemOfFile(dir, code, "pdf");
    assert ".pdf" == "." + "pdf";
    assert dir + "/" + code + ".pdf" == dir + "/" + code + "." + "pdf";
    CodeCandidatesOfDigits(code);
  }

  lemma DigitsHaveNoDots(code: string)
    requires AllDigits(code) && code != []
    ensures '/' !in code && '.' !in code && code != "."
  {
    assert code[0] != '.';
    forall c | c in code ensures IsDigit(c) {
      var i :| 0 <= i < |code| && code[i] == c;
    }
  }

  lemma CodeCandidatesOfDigits(code: string)
    requires AllDigits(code) && 16 <= |code| <= 22
    ensures CodeCandidates(code) == [code]
  {
    NotSpace(code[0]);
    NotSpace(code[|code| - 1]);
    StripSetOfClean(code, Whitespace);
    LongDigitsOfDigits(code);
  }

  // ------------------------------------------------------------ the index

  /** What `_build_pdf_index` returns: code to relpath, and the codes that two paths share. */
  datatype PdfIndex = PdfIndex(codes: map<string, string>, ambiguous: set<string>)

  /** One candidate code of one path: first path wins, a second distinct path makes the code ambiguous for good. */
  function AddCode(st: PdfIndex, code: string, relpath: string): PdfIndex
  {
    if code in st.ambiguous then st
    else if code !in st.codes then st.(codes := st.codes[code := relpath])
    else if st.codes[code] != relpath then PdfIndex(st.codes - {code}, st.ambiguous + {code})
    else st
  }

  function AddCodes(st: PdfIndex, codes: seq<string>, relpath: string): PdfIndex
    decreases |codes|
  {
    if codes == [] then st
    else AddCode(AddCodes(st, codes[..|codes| - 1], relpath), codes[|codes| - 1], relpath)
  }

  /** The candidates of a path's stem. */
  function PathCodes(relpath: string): seq<string>
  {
    CodeCandidates(Stem(relpath))
  }

  /**
   * The index after the paths in order, each path adding the codes that
   * `codesOf` gives for it.  The lemmas about the index hold for any
   * `codesOf`; the job's is `PathCodes`.
   */
  function IndexBy(paths: seq<string>, codesOf: string -> seq<string>): PdfIndex
    decreases |paths|
  {
    if paths == [] then PdfIndex(map[], {})
    else
      var last := paths[|paths| - 1];
      AddCodes(IndexBy(paths[..|paths| - 1], codesOf), codesOf(last), last)
  }

  function BuildIndex(paths: seq<string>): PdfIndex
  {
    IndexBy(paths, PathCodes)
  }

  /** The paths among `paths` that `codesOf` gives `code` for. */
  function CarriersBy(paths: seq<string>, code: string, codesOf: string -> seq<string>): (r: set<string>)
    decreases |paths|
  {
    if paths == [] then {}
    else
      var last := paths[|paths| - 1];
      CarriersBy(paths[..|paths| - 1], code, codesOf) + (if code in codesOf(last) then {last} else {})
  }

  /** The listed paths whose stems yield `code`. */
  function Carriers(paths: seq<string>, code: string): set<string>
  {
    CarriersBy(paths, code, PathCodes)
  }

  lemma {:induction false} CarriersMembers(paths: seq<string>, code: string, codesOf: string -> seq<string>, p: string)
    ensures p in CarriersBy(paths, code, codesOf) <==>
      exists i :: 0 <= i < |paths| && paths[i] == p && code in codesOf(paths[i])
    decreases |paths|
  {
    if paths != [] {
      var init := paths[..|paths| - 1];
      var last := |paths| - 1;
      CarriersMembers(init, code, codesOf, p);
      if p in CarriersBy(paths, code, codesOf) {
        if p in CarriersBy(init, code, codesOf) {
          var i :| 0 <= i < |init| && init[i] == p && code in codesOf(init[i]);
          assert paths[i] == p;
        } else {
          assert paths[last] == p && code in codesOf(paths[last]);
        }
      }
      if exists i :: 0 <= i < |paths| && paths[i] == p && code in codesOf(paths[i]) {
        var i :| 0 <= i < |paths| && paths[i] == p && code in codesOf(paths[i]);
        if i < last {
          assert init[i] == p;
        }
      }
    }
  }

  /** A path carries `code` exactly when it is listed and its stem yields `code`. */
  lemma CarriersOfListing(paths: seq<string>, code: string, p: string)
    ensures p in Carriers(paths, code) <==>
      exists i :: 0 <= i < |paths| && paths[i] == p && code in PathCodes(paths[i])
  {
    CarriersMembers(paths, code, PathCodes, p);
  }

  /** What the index records about one code, given the paths that carry it. */
  ghost predicate Describes(st: PdfIndex, code: string, carriers: set<string>)
  {
    && !(code in st.codes && code in st.ambiguous)
    && (code in st.codes ==> carriers == {st.codes[code]})
    && (code in st.ambiguous ==> exists p, q :: p in carriers && q in carriers && p != q)
    && (code !in st.codes && code !in st.ambiguous ==> carriers == {})
  }

  lemma AddCodeDescribes(st: PdfIndex, added: string, relpath: string, code: string, carriers: set<string>)
    requires Describes(st, code, carriers)
    ensures Describes(AddCode(st, added, relpath), code, carriers + (if added == code then {relpath} else {}))
  {
    var next := AddCode(st, added, relpath);
    if added == code && code in st.codes && st.codes[code] != relpath {
      assert st.codes[code] in carriers + {relpath} && relpath in carriers + {relpath};
    }
    if added != code {
      assert code in next.codes <==> code in st.codes;
      assert code in next.codes ==> next.codes[code] == st.codes[code];
      assert code in next.ambiguous <==> code in st.ambiguous;
    }
  }

  lemma {:induction false} AddCodesDescribes(st: PdfIndex, codes: seq<string>, relpath: string, code: string,
                                             carriers: set<string>)
    requires Describes(st, code, carriers)
    ensures Describes(AddCodes(st, codes, relpath), code, carriers + (if code in codes then {relpath} else {}))
    decreases |codes|
  {
    if codes != [] {
      var init := codes[..|codes| - 1];
      var last := codes[|codes| - 1];
      AddCodesDescribes(st, init, relpath, code, carriers);
      var mid := carriers + (if code in init then {relpath} else {});
      AddCodeDescribes(AddCodes(st, init, relpath), last, relpath, code, mid);
      assert code in codes <==> code in init || code == last by {
        assert codes == init + [last];
      }
      assert mid + (if last == code then {relpath} else {}) == carriers + (if code in codes then {relpath} else {});
    }
  }

  /** For every code, the index tells the paths carrying it: one, none, or two distinct ones. */
  lemma {:induction false} IndexDescribes(paths: seq<string>, code: string, codesOf: string -> seq<string>)
    ensures Describes(IndexBy(paths, codesOf), code, CarriersBy(paths, code, codesOf))
    decreases |paths|
  {
    if paths != [] {
      var init := paths[..|paths| - 1];
      var last := paths[|paths| - 1];
      IndexDescribes(init, code, codesOf);
      AddCodesDescribes(IndexBy(init, codesOf), codesOf(last), last, code, CarriersBy(init, code, codesOf));
    }
  }

  /**
   * `_build_pdf_index`: a code is indexed exactly when one path carries
   * it, and then it maps to that path; it is ambiguous exactly when two
   * distinct paths carry it; no code is both.
   */
  lemma BuildIndexMeaning(paths: seq<string>, code: string)
    ensures code in BuildIndex(paths).codes <==> exists p :: Carriers(paths, code) == {p}
    ensures code in BuildIndex(paths).codes ==> Carriers(paths, code) == {BuildIndex(paths).codes[code]}
    ensures code in BuildIndex(paths).ambiguous <==>
      exists p, q :: p in Carriers(paths, code) && q in Carriers(paths, code) && p != q
    ensures !(code in BuildIndex(paths).codes && code in BuildIndex(paths).ambiguous)
  {
    IndexDescribes(paths, code, PathCodes);
    var st := BuildIndex(paths);
    var cs := Carriers(paths, code);
    if code !in st.codes && code !in st.ambiguous {
      assert cs == {};
    }
    if code in st.codes {
      assert forall p, q :: p in cs && q in cs ==> p == q;
    }
    if code in st.ambiguous {
      var p, q :| p in cs && q in cs && p != q;
      assert forall x :: x !in cs || x != p || (q in cs && q != x);
    }
  }

  /** `_build_pdf_index`, with `scanned` counting the paths. */
  method BuildPdfIndex(pdfPaths: seq<string>) returns (codeToRelpath: map<string, string>,
                                                       ambiguousCodes: set<string>, scanned: nat)
    ensures PdfIndex(codeToRelpath, ambiguousCodes) == BuildIndex(pdfPaths)
    ensures scanned == |pdfPaths|
  {
    codeToRelpath, ambiguousCodes, scanned := map[], {}, 0;
    for i := 0 to |pdfPaths|
      invariant PdfIndex(codeToRelpath, ambiguousCodes) == BuildIndex(pdfPaths[..i])
      invariant scanned == i
    {
      var relpath := pdfPaths[i];
      scanned := scanned + 1;
      var candidates := PathCodes(relpath);
      ghost var start := PdfIndex(codeToRelpath, ambiguousCodes);
      for j := 0 to |candidates|
        invariant PdfIndex(codeToRelpath, ambiguousCodes) == AddCodes(start, candidates[..j], relpath)
      {
        var code := candidates[j];
        assert candidates[..j + 1][..j] == candidates[..j];
        if code in ambiguousCodes {
          continue;
        }
        if code !in codeToRelpath {
          codeToRelpath := codeToRelpath[code := relpath];
          continue;
        }
        var existing := codeToRelpath[code];
        if existing != relpath {
          ambiguousCodes := ambiguousCodes + {code};
          codeToRelpath := codeToRelpath - {code};
        }
      }
      assert candidates[..|candidates|] == candidates;
      assert pdfPaths[..i + 1][..i] == pdfPaths[..i];
    }
    assert pdfPaths[..|pdfPaths|] == pdfPaths;
  }

  // ---------------------------------------------------------- upload rows

  /** `_has_hf_path`: `hf` is an object whose `path` is a non-blank string. */
  predicate HasHfPath(row: Row)
  {
    var hf := Get(row, KHf);
    hf.Dict? && Get(hf.fields, KPath).Str? && Strip(Get(hf.fields, KPath).s) != []
  }

  /** What the run does with one upload row. */
  datatype Verdict = NoKey | HasPath | AmbiguousCode | NoPdf | Candidate(key: string, relpath: string)

  function Classify(row: Row, index: PdfIndex): Verdict
  {
    var key := Infos.RecordKeyOf(row);
    if key == [] then NoKey
    else if HasHfPath(row) then HasPath
    else if key in index.ambiguous then AmbiguousCode
    else if key !in index.codes || index.codes[key] == [] then NoPdf
    else Candidate(key, index.codes[key])
  }

  predicate Missing(v: Verdict) { !v.NoKey? && !v.HasPath? }
  predicate IsAmbiguous(v: Verdict) { v.AmbiguousCode? }
  predicate IsNoPdf(v: Verdict) { v.NoPdf? }
  predicate IsCandidate(v: Verdict) { v.Candidate? }

  /**
   * A row is updated exactly when it has a key, has no `hf.path`, and the
   * one listed PDF whose stem yields that key has a non-empty path.
   */
  lemma ClassifyCandidate(row: Row, paths: seq<string>, key: string, relpath: string)
    ensures Classify(row, BuildIndex(paths)) == Candidate(key, relpath) <==>
      key == Infos.RecordKeyOf(row) && key != [] && !HasHfPath(row) && relpath != []
      && Carriers(paths, key) == {relpath}
  {
    BuildIndexMeaning(paths, key);
    if Carriers(paths, key) == {relpath} {
      assert exists p :: Carriers(paths, key) == {p};
    }
  }

  /** The update written for a row: its key, and the PDF's path as `hf.path`. */
  function UpdateOf(key: string, relpath: string): (u: Row)
    ensures Infos.RecordKeyOf(u) == Strip(key)
    ensures Get(u, KHf).Dict? && Get(Get(u, KHf).fields, KPath) == Str(relpath)
  {
    var u := map[KRecordKey := Str(key), KHf := Dict(map[KPath := Str(relpath)])];
    assert key != [] ==> Infos.RecordKeyOf(u) == Strip(key);
    u
  }

  /** The number of rows whose verdict passes `test`. */
  function CountWhere(rows: seq<Row>, index: PdfIndex, test: Verdict -> bool): (n: nat)
    ensures n <= |rows|
    decreases |rows|
  {
    if rows == [] then 0
    else CountWhere(rows[..|rows| - 1], index, test) + (if test(Classify(rows[|rows| - 1], index)) then 1 else 0)
  }

  /** The updates the run queues, in row order. */
  function Updates(rows: seq<Row>, index: PdfIndex): (r: seq<Row>)
    decreases |rows|
  {
    if rows == [] then []
    else
      Updates(rows[..|rows| - 1], index)
      + match Classify(rows[|rows| - 1], index)
        case Candidate(key, relpath) => [UpdateOf(key, relpath)]
        case _ => []
  }

  /** Every missing row is counted once: ambiguous, without a PDF, or queued; one update per queued row. */
  lemma {:induction false} CountsAddUp(rows: seq<Row>, index: PdfIndex)
    ensures CountWhere(rows, index, Missing) ==
      CountWhere(rows, index, IsAmbiguous) + CountWhere(rows, index, IsNoPdf) + CountWhere(rows, index, IsCandidate)
    ensures |Updates(rows, index)| == CountWhere(rows, index, IsCandidate)
    decreases |rows|
  {
    if rows != [] {
      CountsAddUp(rows[..|rows| - 1], index);
    }
  }

  lemma {:induction false} UpdatesConcat(a: seq<Row>, b: seq<Row>, index: PdfIndex)
    ensures Updates(a + b, index) == Updates(a, index) + Updates(b, index)
    decreases |b|
  {
    if b == [] {
      assert a + b == a;
    } else {
      var init := b[..|b| - 1];
      assert (a + b)[..|a + b| - 1] == a + init;
      assert (a + b)[|a + b| - 1] == b[|b| - 1];
      UpdatesConcat(a, init, index);
    }
  }

  // ------------------------------------------------------------ batches

  /** The namespaces after `update_many` of each batch in turn, and the error that stopped them, if any. */
  function ApplyBatches(s: Infos.Spaces, batches: seq<seq<Row>>, runText: string, crawlText: string, now: string)
    : (r: (Infos.Spaces, Option<Error>))
    requires Infos.SpacesValid(s)
    ensures Infos.SpacesValid(r.0)
    decreases |batches|
  {
    if batches == [] then (s, None)
    else
      var prev := ApplyBatches(s, batches[..|batches| - 1], runText, crawlText, now);
      if prev.1.Some? then prev
      else
        match Infos.StageAll(prev.0, batches[|batches| - 1], runText, crawlText, now)
        case Err(e) => (prev.0, Some(e))
        case Ok(w) => (w.0, None)
  }

  /** A failed batch ends the run: the batches after it change nothing. */
  lemma {:induction false} ApplyBatchesStops(s: Infos.Spaces, done: seq<seq<Row>>, rest: seq<seq<Row>>,
                                             runText: string, crawlText: string, now: string)
    requires Infos.SpacesValid(s)
    requires ApplyBatches(s, done, runText, crawlText, now).1.Some?
    ensures ApplyBatches(s, done + rest, runText, crawlText, now) == ApplyBatches(s, done, runText, crawlText, now)
    decreases |rest|
  {
    if rest == [] {
      assert done + rest == done;
    } else {
      assert (done + rest)[..|done + rest| - 1] == done + rest[..|rest| - 1];
      ApplyBatchesStops(s, done, rest[..|rest| - 1], runText, crawlText, now);
    }
  }

  /** A full batch split off the front is the first chunk. */
  lemma ChunksCons<T>(c: seq<T>, t: seq<T>, size: nat)
    requires size >= 1 && |c| == size
    ensures JobUtils.ChunksOf(c + t, size) == [c] + JobUtils.ChunksOf(t, size)
  {
    var items := c + t;
    if t == [] {
      assert items == c && [c] + JobUtils.ChunksOf(t, size) == [c];
    } else {
      assert items[..size] == c && items[size..] == t;
    }
  }

  /** Batches of exactly `size` split off first leave the chunking of the rest. */
  lemma {:induction false} ChunksAfterFull<T>(done: seq<seq<T>>, rest: seq<T>, size: nat)
    requires size >= 1 && forall k :: 0 <= k < |done| ==> |done[k]| == size
    ensures JobUtils.ChunksOf(JobUtils.Flatten(done) + rest, size) == done + JobUtils.ChunksOf(rest, size)
    decreases |done|
  {
    if done == [] {
      assert JobUtils.Flatten(done) + rest == rest;
    } else {
      var tail := JobUtils.Flatten(done[1..]) + rest;
      assert JobUtils.Flatten(done) + rest == done[0] + tail;
      ChunksCons(done[0], tail, size);
      ChunksAfterFull(done[1..], rest, size);
      assert done == [done[0]] + done[1..];
    }
  }

  lemma {:induction false} FlattenSnoc<T>(xs: seq<seq<T>>, x: seq<T>)
    ensures JobUtils.Flatten(xs + [x]) == JobUtils.Flatten(xs) + x
    decreases |xs|
  {
    if xs == [] {
      assert JobUtils.Flatten([x]) == x + JobUtils.Flatten([x][1..]);
    } else {
      assert (xs + [x])[1..] == xs[1..] + [x];
      FlattenSnoc(xs[1..], x);
    }
  }

  /** The queued updates so far: full batches already flushed, and fewer than `size` pending. */
  ghost predicate Queued<T>(flushed: seq<seq<T>>, pending: seq<T>, size: nat, queued: seq<T>)
  {
    && JobUtils.Flatten(flushed) + pending == queued
    && |pending| < size
    && forall k :: 0 <= k < |flushed| ==> |flushed[k]| == size
  }

  /** The counts after the first `i` rows. */
  ghost predicate Counted(rows: seq<Row>, i: nat, index: PdfIndex, missing: nat, withPdf: nat, noPdf: nat,
                          ambiguousRows: nat)
  {
    && i <= |rows|
    && missing == CountWhere(rows[..i], index, Missing)
    && withPdf == CountWhere(rows[..i], index, IsCandidate)
    && noPdf == CountWhere(rows[..i], index, IsNoPdf)
    && ambiguousRows == CountWhere(rows[..i], index, IsAmbiguous)
  }

  /** One upload row more: each count grows by what the row's verdict says. */
  lemma CountStep(rows: seq<Row>, i: nat, index: PdfIndex, missing: nat, withPdf: nat, noPdf: nat,
                  ambiguousRows: nat)
    requires i < |rows| && Counted(rows, i, index, missing, withPdf, noPdf, ambiguousRows)
    ensures var v := Classify(rows[i], index);
      Counted(rows, i + 1, index, missing + (if Missing(v) then 1 else 0), withPdf + (if IsCandidate(v) then 1 else 0),
              noPdf + (if IsNoPdf(v) then 1 else 0), ambiguousRows + (if IsAmbiguous(v) then 1 else 0))
  {
    assert rows[..i + 1][..i] == rows[..i] && rows[..i + 1][i] == rows[i];
  }

  /** One upload row more: a candidate's update joins the queue. */
  lemma UpdatesStep(rows: seq<Row>, i: nat, index: PdfIndex)
    requires i < |rows|
    ensures var v := Classify(rows[i], index);
      Updates(rows[..i + 1], index) == Updates(rows[..i], index) + (if v.Candidate? then [UpdateOf(v.key, v.relpath)] else [])
  {
    assert rows[..i + 1][..i] == rows[..i] && rows[..i + 1][i] == rows[i];
  }

  /**
   * The writes so far: the full batches flushed in turn (on a dry run only
   * counted, the namespaces untouched), and the queue not yet full.
   */
  ghost predicate Written(before: Infos.Spaces, state: Infos.Spaces, flushed: seq<seq<Row>>, pending: seq<Row>,
                          queued: seq<Row>, size: nat, dryRun: bool, applied: nat, written: nat,
                          crawlText: string, now: string)
  {
    && Queued(flushed, pending, size, queued)
    && applied == |JobUtils.Flatten(flushed)|
    && written == (if dryRun then 0 else |flushed|)
    && (dryRun ==> state == before)
    && (!dryRun ==> Infos.SpacesValid(before) && ApplyBatches(before, flushed, RunText, crawlText, now) == (state, None))
  }

  /** An update queued without filling the queue. */
  lemma QueueStep(before: Infos.Spaces, state: Infos.Spaces, flushed: seq<seq<Row>>, pending: seq<Row>,
                  queued: seq<Row>, u: Row, size: nat, dryRun: bool, applied: nat, written: nat,
                  crawlText: string, now: string)
    requires Written(before, state, flushed, pending, queued, size, dryRun, applied, written, crawlText, now)
    requires |pending| + 1 < size
    ensures Written(before, state, flushed, pending + [u], queued + [u], size, dryRun, applied, written, crawlText, now)
  {
    assert JobUtils.Flatten(flushed) + (pending + [u]) == JobUtils.Flatten(flushed) + pending + [u];
  }

  /** An update that fills the queue, and the flush that `update_many` accepts (or a dry run counts). */
  lemma FlushStep(before: Infos.Spaces, state: Infos.Spaces, after: Infos.Spaces, flushed: seq<seq<Row>>,
                  pending: seq<Row>, queued: seq<Row>, u: Row, size: nat, dryRun: bool, applied: nat, written: nat,
                  crawlText: string, now: string)
    requires Written(before, state, flushed, pending, queued, size, dryRun, applied, written, crawlText, now)
    requires |pending| + 1 == size
    requires dryRun ==> after == state
    requires !dryRun ==> Infos.SpacesValid(state)
    requires !dryRun ==> Infos.StageAll(state, pending + [u], RunText, crawlText, now).Ok?
    requires !dryRun ==> after == Infos.After(state, Infos.StageAll(state, pending + [u], RunText, crawlText, now))
    ensures Written(before, after, flushed + [pending + [u]], [], queued + [u], size, dryRun, applied + size,
                    if dryRun then 0 else written + 1, crawlText, now)
  {
    if !dryRun {
      FlushApplied(before, flushed, pending + [u], RunText, crawlText, now);
    }
    FlattenSnoc(flushed, pending + [u]);
    assert JobUtils.Flatten(flushed) + (pending + [u]) + [] == JobUtils.Flatten(flushed) + pending + [u];
  }

  /** A batch that `update_many` accepts is written after the earlier ones. */
  lemma FlushApplied(before: Infos.Spaces, flushed: seq<seq<Row>>, pending: seq<Row>,
                     runText: string, crawlText: string, now: string)
    requires Infos.SpacesValid(before)
    requires ApplyBatches(before, flushed, runText, crawlText, now).1.None?
    ensures var mid := ApplyBatches(before, flushed, runText, crawlText, now).0;
      var w := Infos.StageAll(mid, pending, runText, crawlText, now);
      ApplyBatches(before, flushed + [pending], runText, crawlText, now) == (Infos.After(mid, w), if w.Ok? then None else Some(w.error))
  {
    assert (flushed + [pending])[..|flushed|] == flushed;
  }

  /** The updates of all the rows: those before row `i`, row `i`'s own, and those after it. */
  lemma UpdatesSplit(rows: seq<Row>, i: nat, index: PdfIndex)
    requires i < |rows|
    ensures var v := Classify(rows[i], index);
      Updates(rows, index)
      == Updates(rows[..i], index) + (if v.Candidate? then [UpdateOf(v.key, v.relpath)] else [])
         + Updates(rows[i + 1..], index)
  {
    assert rows[..i + 1] + rows[i + 1..] == rows;
    UpdatesStep(rows, i, index);
    UpdatesConcat(rows[..i + 1], rows[i + 1..], index);
  }

  /**
   * A batch that `update_many` rejects, filled by update `u`, is where the
   * writes of the whole run stop, whatever updates `tail` come after it.
   */
  lemma FlushFailed(before: Infos.Spaces, state: Infos.Spaces, flushed: seq<seq<Row>>, pending: seq<Row>,
                    queued: seq<Row>, u: Row, tail: seq<Row>, size: nat, applied: nat, written: nat,
                    crawlText: string, now: string)
    requires |pending| + 1 == size
    requires Written(before, state, flushed, pending, queued, size, false, applied, written, crawlText, now)
    requires Infos.StageAll(state, pending + [u], RunText, crawlText, now).Err?
    ensures ApplyBatches(before, JobUtils.ChunksOf(queued + [u] + tail, size), RunText, crawlText, now)
      == (state, Some(Infos.StageAll(state, pending + [u], RunText, crawlText, now).error))
  {
    var full := pending + [u];
    var done := flushed + [full];
    FlushApplied(before, flushed, full, RunText, crawlText, now);
    FlattenSnoc(flushed, full);
    assert JobUtils.Flatten(done) + tail == queued + [u] + tail;
    assert forall k :: 0 <= k < |done| ==> |done[k]| == size by {
      assert forall k :: 0 <= k < |flushed| ==> done[k] == flushed[k];
    }
    FailedBatchStops(before, done, tail, size, crawlText, now);
  }

  /** Once a batch of full ones fails, no later batch of the chunking is written. */
  lemma FailedBatchStops(before: Infos.Spaces, done: seq<seq<Row>>, rest: seq<Row>, size: nat,
                         crawlText: string, now: string)
    requires Infos.SpacesValid(before) && size >= 1
    requires forall k :: 0 <= k < |done| ==> |done[k]| == size
    requires ApplyBatches(before, done, RunText, crawlText, now).1.Some?
    ensures ApplyBatches(before, JobUtils.ChunksOf(JobUtils.Flatten(done) + rest, size), RunText, crawlText, now)
      == ApplyBatches(before, done, RunText, crawlText, now)
  {
    ChunksAfterFull(done, rest, size);
    ApplyBatchesStops(before, done, JobUtils.ChunksOf(rest, size), RunText, crawlText, now);
  }

  // ---------------------------------------------------------------- run

  /** `BackfillHFPathReport`. */
  datatype Report = Report(
    pdfFilesScanned: nat,
    pdfCodesIndexed: nat,
    pdfCodesAmbiguous: nat,
    uploadRowsScanned: nat,
    missingHfPathRows: nat,
    candidateRowsWithPdf: nat,
    skippedNoPdf: nat,
    skippedAmbiguousPdfCode: nat,
    updatesApplied: nat,
    batchesWritten: nat)

  /** `update_many` is called with no run type and no crawl date. */
  const RunText: string := LedgerEngine.NormalizeRunType(None)

  function CrawlText(today: Dates.Date): string
    requires Dates.ValidDate(today)
  {
    LedgerEngine.NormalizeCrawlDate(Null, today)
  }

  /** `max(1, batch_size)`. */
  function BatchSize(batchSize: int): nat
  {
    if batchSize < 1 then 1 else batchSize
  }

  /** `_flush_updates` for a non-empty list: a dry run only counts it; else one `update_many` writes it. */
  method Flush(store: Infos.InfoStore, pending: seq<Row>, dryRun: bool, now: string, today: Dates.Date)
    returns (r: Result<nat>)
    requires store.Valid() && Dates.ValidDate(today)
    modifies store
    ensures store.Valid()
    ensures dryRun ==> r == Ok(|pending|) && store.State() == old(store.State())
    ensures !dryRun ==>
      var w := Infos.StageAll(old(store.State()), pending, RunText, CrawlText(today), now);
      store.State() == Infos.After(old(store.State()), w)
      && (w.Ok? ==> r == Ok(|pending|)) && (w.Err? ==> r == Err(w.error))
  {
    if dryRun {
      return Ok(|pending|);
    }
    var results := store.UpdateMany(pending, None, Null, now, today);
    if results.Err? {
      return Err(results.error);
    }
    return Ok(|results.value|);
  }

  /** What the run writes: nothing on a dry run, else the batches in turn until one fails. */
  function RunWrites(s: Infos.Spaces, pdfPaths: seq<string>, rows: seq<Row>, dryRun: bool, batchSize: int,
                     now: string, today: Dates.Date): (r: (Infos.Spaces, Option<Error>))
    requires Infos.SpacesValid(s) && Dates.ValidDate(today)
  {
    if dryRun then (s, None)
    else
      ApplyBatches(s, JobUtils.ChunksOf(Updates(rows, BuildIndex(pdfPaths)), BatchSize(batchSize)),
                   RunText, CrawlText(today), now)
  }

  /**
   * The end of the run: on a dry run nothing is written; else the chunks
   * of all the updates are applied in turn up to the error, if any; a run
   * without error has applied every update, in as many batches as there
   * are chunks.
   */
  ghost predicate Drained(before: Infos.Spaces, after: Infos.Spaces, updates: seq<Row>, size: nat, dryRun: bool,
                          applied: nat, written: nat, crawlText: string, now: string, err: Option<Error>)
    requires size >= 1
  {
    && (dryRun ==> after == before && err.None?)
    && (!dryRun ==>
          Infos.SpacesValid(before) && ApplyBatches(before, JobUtils.ChunksOf(updates, size), RunText, crawlText, now) == (after, err))
    && (err.None? ==> applied == |updates| && written == (if dryRun then 0 else |JobUtils.ChunksOf(updates, size)|))
  }

  /** With the queue empty at the end, every batch has been flushed. */
  lemma NoneLeft(before: Infos.Spaces, state: Infos.Spaces, flushed: seq<seq<Row>>, updates: seq<Row>, size: nat,
                 dryRun: bool, applied: nat, written: nat, crawlText: string, now: string)
    requires size >= 1
    requires Written(before, state, flushed, [], updates, size, dryRun, applied, written, crawlText, now)
    ensures Drained(before, state, updates, size, dryRun, applied, written, crawlText, now, None)
  {
    ChunksAfterFull(flushed, [], size);
    assert JobUtils.Flatten(flushed) + [] == updates;
    assert JobUtils.ChunksOf<Row>([], size) == [] && flushed + [] == flushed;
    assert JobUtils.ChunksOf(updates, size) == flushed;
  }

  /** The last, shorter batch: the final flush ends the run, with its error if `update_many` rejects it. */
  lemma LastFlush(before: Infos.Spaces, state: Infos.Spaces, after: Infos.Spaces, flushed: seq<seq<Row>>,
                  pending: seq<Row>, updates: seq<Row>, size: nat, dryRun: bool, applied: nat, written: nat,
                  crawlText: string, now: string)
    requires size >= 1 && pending != []
    requires Written(before, state, flushed, pending, updates, size, dryRun, applied, written, crawlText, now)
    requires Infos.SpacesValid(state)
    requires dryRun ==> after == state
    requires !dryRun ==> after == Infos.After(state, Infos.StageAll(state, pending, RunText, crawlText, now))
    ensures var w := Infos.StageAll(state, pending, RunText, crawlText, now);
      Drained(before, after, updates, size, dryRun, applied + |pending|, if dryRun then 0 else written + 1,
              crawlText, now, if dryRun || w.Ok? then None else Some(w.error))
  {
    ChunksAfterFull(flushed, pending, size);
    assert JobUtils.ChunksOf(pending, size) == [pending];
    FlattenSnoc(flushed, pending);
    if !dryRun {
      FlushApplied(before, flushed, pending, RunText, crawlText, now);
    }
  }

  /** The report of a run that completes. */
  ghost predicate ReportOf(rep: Report, pdfPaths: seq<string>, rows: seq<Row>, dryRun: bool, batchSize: int)
  {
    var index := BuildIndex(pdfPaths);
    var updates := Updates(rows, index);
    && rep.pdfFilesScanned == |pdfPaths|
    && rep.pdfCodesIndexed == |index.codes|
    && rep.pdfCodesAmbiguous == |index.ambiguous|
    && rep.uploadRowsScanned == |rows|
    && rep.missingHfPathRows == CountWhere(rows, index, Missing)
    && rep.candidateRowsWithPdf == CountWhere(rows, index, IsCandidate)
    && rep.skippedNoPdf == CountWhere(rows, index, IsNoPdf)
    && rep.skippedAmbiguousPdfCode == CountWhere(rows, index, IsAmbiguous)
    && rep.updatesApplied == |updates|
    && rep.batchesWritten == (if dryRun then 0 else |JobUtils.ChunksOf(updates, BatchSize(batchSize))|)
  }

  /** The counts of a run that completes make up its report. */
  lemma ReportOfRun(pdfPaths: seq<string>, rows: seq<Row>, dryRun: bool, batchSize: int, codes: map<string, string>,
                    ambiguous: set<string>, scanned: nat, missing: nat, withPdf: nat, noPdf: nat, ambiguousRows: nat,
                    applied: nat, written: nat)
    requires PdfIndex(codes, ambiguous) == BuildIndex(pdfPaths) && scanned == |pdfPaths|
    requires Counted(rows, |rows|, BuildIndex(pdfPaths), missing, withPdf, noPdf, ambiguousRows)
    requires applied == |Updates(rows, BuildIndex(pdfPaths))|
    requires written == if dryRun then 0 else |JobUtils.ChunksOf(Updates(rows, BuildIndex(pdfPaths)), BatchSize(batchSize))|
    ensures ReportOf(Report(scanned, |codes|, |ambiguous|, |rows|, missing, withPdf, noPdf, ambiguousRows, applied, written),
                     pdfPaths, rows, dryRun, batchSize)
  {
    assert rows[..|rows|] == rows;
  }

  /**
   * The loop over the upload rows: each row is counted by its verdict and
   * a candidate's update queued; a full queue is flushed.  A failing flush
   * ends the loop, and then it has written what the whole run writes.
   */
  method QueueRows(store: Infos.InfoStore, rows: seq<Row>, codes: map<string, string>, ambiguous: set<string>,
                   dryRun: bool, size: nat, now: string, today: Dates.Date)
    returns (err: Option<Error>, missing: nat, withPdf: nat, noPdf: nat, ambiguousRows: nat, applied: nat,
             written: nat, pending: seq<Row>, ghost flushed: seq<seq<Row>>)
    requires store.Valid() && Dates.ValidDate(today) && size >= 1
    modifies store
    ensures store.Valid()
    ensures err.Some? ==>
      && !dryRun
      && ApplyBatches(old(store.State()), JobUtils.ChunksOf(Updates(rows, PdfIndex(codes, ambiguous)), size),
                      RunText, CrawlText(today), now)
         == (store.State(), err)
    ensures err.None? ==>
      && Counted(rows, |rows|, PdfIndex(codes, ambiguous), missing, withPdf, noPdf, ambiguousRows)
      && Written(old(store.State()), store.State(), flushed, pending, Updates(rows, PdfIndex(codes, ambiguous)), size,
                 dryRun, applied, written, CrawlText(today), now)
  {
    assert rows[..|rows|] == rows;
    ghost var index := PdfIndex(codes, ambiguous);
    ghost var before := store.State();
    ghost var crawlText := CrawlText(today);
    err, missing, withPdf, noPdf, ambiguousRows, applied, written := None, 0, 0, 0, 0, 0, 0;
    pending, flushed := [], [];
    for i := 0 to |rows|
      invariant store.Valid() && err.None?
      invariant Counted(rows, i, index, missing, withPdf, noPdf, ambiguousRows)
      invariant Written(before, store.State(), flushed, pending, Updates(rows[..i], index), size, dryRun, applied,
                        written, crawlText, now)
    {
      var v := Classify(rows[i], PdfIndex(codes, ambiguous));
      CountStep(rows, i, index, missing, withPdf, noPdf, ambiguousRows);
      UpdatesStep(rows, i, index);
      missing := missing + (if Missing(v) then 1 else 0);
      withPdf := withPdf + (if IsCandidate(v) then 1 else 0);
      noPdf := noPdf + (if IsNoPdf(v) then 1 else 0);
      ambiguousRows := ambiguousRows + (if IsAmbiguous(v) then 1 else 0);
      if !v.Candidate? {
        continue;
      }
      UpdatesSplit(rows, i, index);
      err, pending, applied, written, flushed :=
        Enqueue(store, before, UpdateOf(v.key, v.relpath), Updates(rows[..i], index), Updates(rows[i + 1..], index),
                pending, flushed, dryRun, size, applied, written, now, today);
      if err.Some? {
        return;
      }
    }
  }

  /**
   * One queued update: it joins the queue, and a queue that reaches the
   * batch size is flushed through `update_many` (on a dry run only
   * counted); a rejected batch ends the writes of the whole run, whatever
   * updates `tail` were still to come.
   */
  method Enqueue(store: Infos.InfoStore, ghost before: Infos.Spaces, u: Row, ghost queued: seq<Row>,
                 ghost tail: seq<Row>, pending: seq<Row>, ghost flushed: seq<seq<Row>>, dryRun: bool, size: nat,
                 applied: nat, written: nat, now: string, today: Dates.Date)
    returns (err: Option<Error>, pending': seq<Row>, applied': nat, written': nat, ghost flushed': seq<seq<Row>>)
    requires store.Valid() && Dates.ValidDate(today)
    requires Written(before, store.State(), flushed, pending, queued, size, dryRun, applied, written, CrawlText(today), now)
    modifies store
    ensures store.Valid()
    ensures err.Some? ==>
      && !dryRun
      && ApplyBatches(before, JobUtils.ChunksOf(queued + [u] + tail, size), RunText, CrawlText(today), now)
         == (store.State(), err)
    ensures err.None? ==>
      Written(before, store.State(), flushed', pending', queued + [u], size, dryRun, applied', written',
              CrawlText(today), now)
  {
    ghost var state := store.State();
    err, pending', applied', written', flushed' := None, pending + [u], applied, written, flushed;
    if |pending'| >= size {
      var result := Flush(store, pending', dryRun, now, today);
      if result.Err? {
        FlushFailed(before, state, flushed, pending, queued, u, tail, size, applied, written, CrawlText(today), now);
        err := Some(result.error);
        return;
      }
      FlushStep(before, state, store.State(), flushed, pending, queued, u, size, dryRun, applied, written,
                CrawlText(today), now);
      applied' := applied + result.value;
      written' := if dryRun then 0 else written + 1;
      flushed' := flushed + [pending'];
      pending' := [];
    } else {
      QueueStep(before, state, flushed, pending, queued, u, size, dryRun, applied, written, CrawlText(today), now);
    }
  }

  /**
   * `run_backfill_hf_path` over the listed PDF paths and the upload rows
   * as read: the queued updates are written in consecutive batches of
   * `max(1, batch_size)`, the last one possibly shorter; a dry run writes
   * nothing; a failing `update_many` stops the run, keeping the batches
   * written before it.
   */
  method RunBackfill(store: Infos.InfoStore, pdfPaths: seq<string>, rows: seq<Row>, dryRun: bool,
                     batchSize: int, now: string, today: Dates.Date)
    returns (r: Result<Report>)
    requires store.Valid() && Dates.ValidDate(today)
    modifies store
    ensures store.Valid()
    ensures var w := RunWrites(old(store.State()), pdfPaths, rows, dryRun, batchSize, now, today);
      store.State() == w.0 && (r.Err? <==> w.1.Some?) && (r.Err? ==> r.error == w.1.value)
    ensures r.Ok? ==> ReportOf(r.value, pdfPaths, rows, dryRun, batchSize)
  {
    var codes, ambiguous, scannedPdfFiles := BuildPdfIndex(pdfPaths);
    ghost var before := store.State();
    ghost var crawlText := CrawlText(today);
    var size := BatchSize(batchSize);
    var err, missing, withPdf, noPdf, ambiguousRows, applied, written, pending, flushed :=
      QueueRows(store, rows, codes, ambiguous, dryRun, size, now, today);
    if err.Some? {
      return Err(err.value);
    }
    ghost var updates := Updates(rows, BuildIndex(pdfPaths));
    ghost var state := store.State();
    if pending != [] {
      var result := Flush(store, pending, dryRun, now, today);
      LastFlush(before, state, store.State(), flushed, pending, updates, size, dryRun, applied, written, crawlText, now);
      if result.Err? {
        return Err(result.error);
      }
      applied := applied + result.value;
      written := if dryRun then 0 else written + 1;
    } else {
      NoneLeft(before, state, flushed, updates, size, dryRun, applied, written, crawlText, now);
    }
    ReportOfRun(pdfPaths, rows, dryRun, batchSize, codes, ambiguous, scannedPdfFiles, missing, withPdf, noPdf,
                ambiguousRows, applied, written);
    return Ok(Report(scannedPdfFiles, |codes|, |ambiguous|, |rows|, missing, withPdf, noPdf, ambiguousRows,
                     applied, written));
  }
}
