/**
 * `build_baseline_records`: the two loops of the baseline build.  The first
 * walks every row of every stage dataset of every source repository and
 * keeps, per unique code, the best row of each stage, the crawl sightings,
 * the run types and the stage attempt counters; the second emits one ledger
 * record per code, in code order, into the partition of its G.R. year.
 *
 * Reading the dataset files (`existing_stage_files`, `read_json_rows`) is
 * not modelled: each source arrives with the rows of its four stages.
 */
module BuildBaselineRecords {
  import opened Py
  import opened Order
  import opened Codes
  import opened LedgerEngine
  import opened BuildBaseline

  /** The four stage datasets, in the order the build reads them. */
  datatype Feed = MergedFeed | WaybackFeed | ArchiveFeed | PdfFeed

  /** A source repository with the rows of its stage datasets. */
  datatype SourceRepo = SourceRepo(runType: string, priority: int, merged: seq<Row>, wayback: seq<Row>,
                                   archive: seq<Row>, pdfs: seq<Row>)

  /** The two repositories of a run: the monthly full crawl (priority 1), then the daily crawl (priority 2). */
  function StandardRepos(allGr: (seq<Row>, seq<Row>, seq<Row>, seq<Row>), gr: (seq<Row>, seq<Row>, seq<Row>, seq<Row>))
    : (r: seq<SourceRepo>)
    ensures |r| == 2 && r[0].runType == "monthly" && r[1].runType == "daily"
    ensures r[0].priority < r[1].priority
  {
    [SourceRepo("monthly", 1, allGr.0, allGr.1, allGr.2, allGr.3), SourceRepo("daily", 2, gr.0, gr.1, gr.2, gr.3)]
  }

  /** One row as the build meets it: its dataset, and the run type and priority of its source. */
  datatype Obs = Obs(feed: Feed, row: Row, runType: string, priority: int)

  /** The rows of one dataset of one source, in order. */
  function ObsOf(feed: Feed, rows: seq<Row>, runType: string, priority: int): (r: seq<Obs>)
    ensures |r| == |rows|
    ensures forall i :: 0 <= i < |rows| ==> r[i] == Obs(feed, rows[i], runType, priority)
  {
    seq(|rows|, i requires 0 <= i < |rows| => Obs(feed, rows[i], runType, priority))
  }

  /** Every row of one source: merged, then wayback, archive and pdfs. */
  function RepoObs(s: SourceRepo): seq<Obs>
  {
    ObsOf(MergedFeed, s.merged, s.runType, s.priority) + ObsOf(WaybackFeed, s.wayback, s.runType, s.priority)
      + ObsOf(ArchiveFeed, s.archive, s.runType, s.priority) + ObsOf(PdfFeed, s.pdfs, s.runType, s.priority)
  }

  /** Every row of every source, in the order the build reads them. */
  function AllObs(sources: seq<SourceRepo>): seq<Obs>
  {
    if sources == [] then [] else AllObs(sources[..|sources| - 1]) + RepoObs(sources[|sources| - 1])
  }

  /**
   * The code a row is filed under: the merged and archive rows fall back
   * on `Download or url`, the wayback and pdf rows on `url`.
   */
  function CodeOf(o: Obs, env: Env): string
  {
    var url := if o.feed == MergedFeed || o.feed == ArchiveFeed then Or(Get(o.row, DownloadCol), Get(o.row, KUrl))
               else Get(o.row, KUrl);
    CanonicalUniqueCode(Get(o.row, UniqueCodeCol), url, env.isFormat, env.unquote)
  }

  /** The score of a row in its dataset. */
  function ScoreOf(o: Obs, env: Env): seq<int>
  {
    match o.feed
    case MergedFeed => ScoreMerged(o.row, o.priority, env)
    case WaybackFeed => ScoreWayback(o.row, o.priority, env)
    case ArchiveFeed => ScoreArchive(o.row, o.priority, env)
    case PdfFeed => ScorePdf(o.row, o.priority, env)
  }

  /** A row with what the loop body computes from it first: its code, its parsed crawl time and its score. */
  datatype Keyed = Keyed(feed: Feed, code: string, row: Row, runType: string, time: Option<Moment>, score: seq<int>)

  function KeyedOf(o: Obs, env: Env): (k: Keyed)
    ensures k.feed == o.feed && k.code == CodeOf(o, env) && k.row == o.row && k.runType == o.runType
  {
    Keyed(o.feed, CodeOf(o, env), o.row, o.runType, env.parseUtc(Get(o.row, DownloadTimeCol)), ScoreOf(o, env))
  }

  function KeyedAll(obs: seq<Obs>, env: Env): (r: seq<Keyed>)
    ensures |r| == |obs| && forall i :: 0 <= i < |obs| ==> r[i] == KeyedOf(obs[i], env)
  {
    seq(|obs|, i requires 0 <= i < |obs| => KeyedOf(obs[i], env))
  }

  lemma KeyedAllConcat(a: seq<Obs>, b: seq<Obs>, env: Env)
    ensures KeyedAll(a + b, env) == KeyedAll(a, env) + KeyedAll(b, env)
  {
    assert forall i :: 0 <= i < |a + b| ==> KeyedAll(a + b, env)[i] == (KeyedAll(a, env) + KeyedAll(b, env))[i];
  }

  // ------------------------------------------------------------- gathering

  /** What the first loop keeps. */
  datatype Gathered = Gathered(
    codes: set<string>,                            // all_unique_codes
    runTypes: map<string, set<string>>,            // seen_run_types
    mergedSightings: map<string, seq<Sighting>>,   // merged_observations
    fallbackSightings: map<string, seq<Sighting>>, // fallback_observations
    attempts: map<(Feed, string), nat>,            // stage_attempts, by the dataset that counts them
    tables: map<Feed, Table>)                      // the best rows and scores of each dataset

  const Empty: Gathered := Gathered({}, map[], map[], map[], map[], map[])

  const EmptyTable: Table := Table(map[], map[])

  /** The best rows and scores of a dataset. */
  function TableOf(g: Gathered, feed: Feed): Table
  {
    if feed in g.tables then g.tables[feed] else EmptyTable
  }

  /** `stage_attempts[stage][code]`: the rows of the dataset counted for `code`. */
  function AttemptsOf(g: Gathered, feed: Feed, code: string): nat
  {
    if (feed, code) in g.attempts then g.attempts[(feed, code)] else 0
  }

  /** `seen_run_types[code]`. */
  function RunTypesOf(g: Gathered, code: string): set<string>
  {
    if code in g.runTypes then g.runTypes[code] else {}
  }

  /** `observations[code].append((dt.date(), run_type))` when the time parsed. */
  function Sight(m: map<string, seq<Sighting>>, code: string, t: Option<Moment>, runType: string)
    : map<string, seq<Sighting>>
  {
    if t.Some? then m[code := SightingsOf(m, code) + [Sighting(t.value.day, runType)]] else m
  }

  /** The datasets whose rows count as stage attempts: wayback, archive, and pdfs for the download stage. */
  predicate Counted(feed: Feed)
  {
    feed != MergedFeed
  }

  /** The datasets whose crawl times are fallback sightings. */
  predicate Fallback(feed: Feed)
  {
    feed == ArchiveFeed || feed == PdfFeed
  }

  /** One pass of the loop body: a row without a code is skipped. */
  function Step(g: Gathered, k: Keyed): Gathered
  {
    var code := k.code;
    if code == "" then g
    else
      Gathered(
        g.codes + {code},
        g.runTypes[code := RunTypesOf(g, code) + {k.runType}],
        if k.feed == MergedFeed then Sight(g.mergedSightings, code, k.time, k.runType) else g.mergedSightings,
        if Fallback(k.feed) then Sight(g.fallbackSightings, code, k.time, k.runType) else g.fallbackSightings,
        if Counted(k.feed) then g.attempts[(k.feed, code) := AttemptsOf(g, k.feed, code) + 1] else g.attempts,
        g.tables[k.feed := BuildBaseline.Updated(TableOf(g, k.feed), code, k.row, k.score)])
  }

  /** The state after the rows of `ks`, one after another, from `g`. */
  function Run(g: Gathered, ks: seq<Keyed>): Gathered
  {
    if ks == [] then g else Step(Run(g, ks[..|ks| - 1]), ks[|ks| - 1])
  }

  /** What the first loop keeps after every source. */
  function GatherAll(sources: seq<SourceRepo>, env: Env): Gathered
  {
    Run(Empty, KeyedAll(AllObs(sources), env))
  }

  lemma {:induction false} RunConcat(g: Gathered, a: seq<Keyed>, b: seq<Keyed>)
    ensures Run(g, a + b) == Run(Run(g, a), b)
    decreases |b|
  {
    if b == [] {
      assert a + b == a;
    } else {
      var n := |b| - 1;
      assert (a + b)[..|a + b| - 1] == a + b[..n];
      RunConcat(g, a, b[..n]);
    }
  }

  lemma ObsOfSnoc(feed: Feed, rows: seq<Row>, i: int, runType: string, priority: int, env: Env)
    requires 0 <= i < |rows|
    ensures KeyedAll(ObsOf(feed, rows[..i + 1], runType, priority), env)
      == KeyedAll(ObsOf(feed, rows[..i], runType, priority), env) + [KeyedOf(Obs(feed, rows[i], runType, priority), env)]
  {
    assert ObsOf(feed, rows[..i + 1], runType, priority)
      == ObsOf(feed, rows[..i], runType, priority) + [Obs(feed, rows[i], runType, priority)];
    KeyedAllConcat(ObsOf(feed, rows[..i], runType, priority), [Obs(feed, rows[i], runType, priority)], env);
  }

  /** The rows of one dataset of one source, one after another. */
  method ReadFeed(g: Gathered, feed: Feed, rows: seq<Row>, runType: string, priority: int, env: Env)
    returns (g': Gathered)
    ensures g' == Run(g, KeyedAll(ObsOf(feed, rows, runType, priority), env))
  {
    g' := g;
    var i := 0;
    while i < |rows|
      invariant 0 <= i <= |rows|
      invariant g' == Run(g, KeyedAll(ObsOf(feed, rows[..i], runType, priority), env))
    {
      var o := Obs(feed, rows[i], runType, priority);
      var code := CodeOf(o, env);
      ObsOfSnoc(feed, rows, i, runType, priority, env);
      ghost var done := KeyedAll(ObsOf(feed, rows[..i], runType, priority), env);
      ghost var prev := g';
      assert (done + [KeyedOf(o, env)])[..|done|] == done;
      if code != "" {
        var table := TableOf(g', feed);
        var best, scores := UpdateBestRow(table.rows, table.scores, code, rows[i], ScoreOf(o, env));
        var t := env.parseUtc(Get(rows[i], DownloadTimeCol));
        g' := Gathered(
          g'.codes + {code},
          g'.runTypes[code := RunTypesOf(g', code) + {runType}],
          if feed == MergedFeed then Sight(g'.mergedSightings, code, t, runType) else g'.mergedSightings,
          if Fallback(feed) then Sight(g'.fallbackSightings, code, t, runType) else g'.fallbackSightings,
          if Counted(feed) then g'.attempts[(feed, code) := AttemptsOf(g', feed, code) + 1] else g'.attempts,
          g'.tables[feed := Table(best, scores)]);
      }
      assert g' == Step(prev, KeyedOf(o, env));
      i := i + 1;
    }
    assert rows[..i] == rows;
  }

  lemma AllObsSnoc(sources: seq<SourceRepo>, i: int)
    requires 0 <= i < |sources|
    ensures AllObs(sources[..i + 1]) == AllObs(sources[..i]) + RepoObs(sources[i])
  {
    assert sources[..i + 1][..i] == sources[..i];
  }

  /** Reading a source's datasets one after another reads its rows in order. */
  lemma RunRepo(g: Gathered, s: SourceRepo, env: Env)
    ensures Run(g, KeyedAll(RepoObs(s), env))
      == Run(Run(Run(Run(g, KeyedAll(ObsOf(MergedFeed, s.merged, s.runType, s.priority), env)),
                     KeyedAll(ObsOf(WaybackFeed, s.wayback, s.runType, s.priority), env)),
                 KeyedAll(ObsOf(ArchiveFeed, s.archive, s.runType, s.priority), env)),
             KeyedAll(ObsOf(PdfFeed, s.pdfs, s.runType, s.priority), env))
  {
    var m, w, a, p := ObsOf(MergedFeed, s.merged, s.runType, s.priority),
      ObsOf(WaybackFeed, s.wayback, s.runType, s.priority), ObsOf(ArchiveFeed, s.archive, s.runType, s.priority),
      ObsOf(PdfFeed, s.pdfs, s.runType, s.priority);
    KeyedAllConcat(m + w + a, p, env);
    KeyedAllConcat(m + w, a, env);
    KeyedAllConcat(m, w, env);
    var km, kw, ka, kp := KeyedAll(m, env), KeyedAll(w, env), KeyedAll(a, env), KeyedAll(p, env);
    RunConcat(g, km + kw + ka, kp);
    RunConcat(g, km + kw, ka);
    RunConcat(g, km, kw);
  }

  /** The first loop of `build_baseline_records`. */
  method Gather(sources: seq<SourceRepo>, env: Env) returns (g: Gathered)
    ensures g == GatherAll(sources, env)
  {
    g := Empty;
    var i := 0;
    while i < |sources|
      invariant 0 <= i <= |sources|
      invariant g == Run(Empty, KeyedAll(AllObs(sources[..i]), env))
    {
      var s := sources[i];
      ghost var before := g;
      g := ReadFeed(g, MergedFeed, s.merged, s.runType, s.priority, env);
      g := ReadFeed(g, WaybackFeed, s.wayback, s.runType, s.priority, env);
      g := ReadFeed(g, ArchiveFeed, s.archive, s.runType, s.priority, env);
      g := ReadFeed(g, PdfFeed, s.pdfs, s.runType, s.priority, env);
      RunRepo(before, s, env);
      AllObsSnoc(sources, i);
      KeyedAllConcat(AllObs(sources[..i]), RepoObs(s), env);
      RunConcat(Empty, KeyedAll(AllObs(sources[..i]), env), KeyedAll(RepoObs(s), env));
      i := i + 1;
    }
    assert sources[..i] == sources;
  }

  // ------------------------------------------------- what the first loop keeps

  /** A row is offered to its dataset's tables only. */
  lemma StepTables(g: Gathered, k: Keyed, f: Feed)
    ensures TableOf(Step(g, k), f)
      == if k.code != "" && f == k.feed then BuildBaseline.Updated(TableOf(g, f), k.code, k.row, k.score) else TableOf(g, f)
  {
  }

  /** A row adds its source's run type to its code's. */
  lemma StepRunTypes(g: Gathered, k: Keyed, x: string)
    ensures RunTypesOf(Step(g, k), x) == if k.code != "" && x == k.code then RunTypesOf(g, x) + {k.runType} else RunTypesOf(g, x)
  {
  }

  /** A row of a counted dataset adds one attempt to its code. */
  lemma StepAttempts(g: Gathered, k: Keyed, f: Feed, x: string)
    ensures AttemptsOf(Step(g, k), f, x)
      == if k.code != "" && f == k.feed && Counted(f) && x == k.code then AttemptsOf(g, f, x) + 1 else AttemptsOf(g, f, x)
  {
  }

  /** The offers a dataset's rows make, in order: a row without a code makes none. */
  function OffersOf(ks: seq<Keyed>, feed: Feed): seq<Offer>
  {
    if ks == [] then []
    else
      var k := ks[|ks| - 1];
      OffersOf(ks[..|ks| - 1], feed) + (if k.feed == feed && k.code != "" then [Offer(k.code, k.row, k.score)] else [])
  }

  /** The tables of each dataset are what offering its rows one after another leaves. */
  lemma {:induction false} TablesAreBest(ks: seq<Keyed>, feed: Feed)
    ensures TableOf(Run(Empty, ks), feed) == Best(OffersOf(ks, feed))
  {
    if ks != [] {
      var init, k := ks[..|ks| - 1], ks[|ks| - 1];
      TablesAreBest(init, feed);
      StepTables(Run(Empty, init), k, feed);
      var offers := OffersOf(init, feed);
      if k.feed == feed && k.code != "" {
        var offer := Offer(k.code, k.row, k.score);
        assert OffersOf(ks, feed) == offers + [offer];
        assert (offers + [offer])[..|offers|] == offers;
        assert Best(offers + [offer]) == BuildBaseline.Updated(Best(offers), k.code, k.row, k.score);
      } else {
        assert OffersOf(ks, feed) == offers;
      }
    }
  }

  /**
   * After the first loop the tables of each dataset hold, for every code
   * some row of the dataset was filed under and for no other, the first row
   * with the highest score.
   */
  lemma GatheredBest(sources: seq<SourceRepo>, feed: Feed, env: Env)
    ensures var offers := OffersOf(KeyedAll(AllObs(sources), env), feed);
      Kept(offers, TableOf(GatherAll(sources, env), feed))
  {
    TablesAreBest(KeyedAll(AllObs(sources), env), feed);
    BestIsFirstHighest(OffersOf(KeyedAll(AllObs(sources), env), feed));
  }

  /** `all_unique_codes` is the set of non-empty codes of the rows read. */
  lemma {:induction false} CodesGathered(ks: seq<Keyed>)
    ensures forall c :: c in Run(Empty, ks).codes <==> (c != "" && exists i :: 0 <= i < |ks| && ks[i].code == c)
  {
    if ks != [] {
      var init := ks[..|ks| - 1];
      CodesGathered(init);
      forall c ensures c in Run(Empty, ks).codes <==> (c != "" && exists i :: 0 <= i < |ks| && ks[i].code == c) {
        if exists i :: 0 <= i < |init| && init[i].code == c {
          var i :| 0 <= i < |init| && init[i].code == c;
          assert ks[i] == init[i];
        }
        if exists i :: 0 <= i < |ks| && ks[i].code == c {
          var i :| 0 <= i < |ks| && ks[i].code == c;
          if i < |init| {
            assert init[i] == ks[i];
          }
        }
      }
    }
  }

  /** Some row of `obs` is filed under `c`. */
  predicate ReadUnder(obs: seq<Obs>, c: string, env: Env)
  {
    exists i :: 0 <= i < |obs| && CodeOf(obs[i], env) == c
  }

  /** The codes of the build are the non-empty canonical codes of the rows of every source. */
  lemma GatheredCodes(sources: seq<SourceRepo>, env: Env)
    ensures forall c :: c in GatherAll(sources, env).codes <==> c != "" && ReadUnder(AllObs(sources), c, env)
  {
    var obs := AllObs(sources);
    var ks := KeyedAll(obs, env);
    CodesGathered(ks);
    forall c | ReadUnder(obs, c, env) ensures exists i :: 0 <= i < |ks| && ks[i].code == c {
      var i :| 0 <= i < |obs| && CodeOf(obs[i], env) == c;
      assert ks[i].code == c;
    }
  }

  /** `seen_run_types[code]` holds the run types of the sources of the rows filed under `code`. */
  lemma {:induction false} RunTypesGathered(ks: seq<Keyed>)
    ensures forall c, rt :: rt in RunTypesOf(Run(Empty, ks), c) <==>
      (c != "" && exists i :: 0 <= i < |ks| && ks[i].code == c && ks[i].runType == rt)
  {
    if ks != [] {
      var init := ks[..|ks| - 1];
      RunTypesGathered(init);
      forall c, rt ensures rt in RunTypesOf(Run(Empty, ks), c) <==>
        (c != "" && exists i :: 0 <= i < |ks| && ks[i].code == c && ks[i].runType == rt)
      {
        StepRunTypes(Run(Empty, init), ks[|ks| - 1], c);
        if exists i :: 0 <= i < |init| && init[i].code == c && init[i].runType == rt {
          var i :| 0 <= i < |init| && init[i].code == c && init[i].runType == rt;
          assert ks[i] == init[i];
        }
        if exists i :: 0 <= i < |ks| && ks[i].code == c && ks[i].runType == rt {
          var i :| 0 <= i < |ks| && ks[i].code == c && ks[i].runType == rt;
          if i < |init| {
            assert init[i] == ks[i];
          }
        }
      }
    }
  }

  /** The codes of a sequence of offers. */
  function OfferCodes(offers: seq<Offer>): (r: seq<string>)
    ensures |r| == |offers| && forall i :: 0 <= i < |offers| ==> r[i] == offers[i].code
  {
    seq(|offers|, i requires 0 <= i < |offers| => offers[i].code)
  }

  /** `stage_attempts[stage][code]` counts the rows of the stage's dataset filed under `code`. */
  lemma {:induction false} AttemptsGathered(ks: seq<Keyed>, feed: Feed, code: string)
    requires Counted(feed)
    ensures AttemptsOf(Run(Empty, ks), feed, code) == multiset(OfferCodes(OffersOf(ks, feed)))[code]
  {
    if ks != [] {
      var init, k := ks[..|ks| - 1], ks[|ks| - 1];
      AttemptsGathered(init, feed, code);
      StepAttempts(Run(Empty, init), k, feed, code);
      var offers := OffersOf(init, feed);
      if k.feed == feed && k.code != "" {
        var offer := Offer(k.code, k.row, k.score);
        assert OffersOf(ks, feed) == offers + [offer];
        assert OfferCodes(offers + [offer]) == OfferCodes(offers) + [k.code];
      } else {
        assert OffersOf(ks, feed) == offers;
      }
    }
  }

  /** The datasets whose crawl times go to the merged sightings, or to the fallback ones. */
  predicate Sights(feed: Feed, merged: bool)
  {
    if merged then feed == MergedFeed else Fallback(feed)
  }

  /** The sightings of `code` in the rows of the datasets `Sights` picks whose time parses, in order. */
  function SightingsFrom(ks: seq<Keyed>, merged: bool, code: string): seq<Sighting>
  {
    if ks == [] then []
    else
      var k := ks[|ks| - 1];
      SightingsFrom(ks[..|ks| - 1], merged, code)
        + (if Sights(k.feed, merged) && code != "" && k.code == code && k.time.Some?
           then [Sighting(k.time.value.day, k.runType)] else [])
  }

  function SightingsKept(g: Gathered, merged: bool): map<string, seq<Sighting>>
  {
    if merged then g.mergedSightings else g.fallbackSightings
  }

  /** `merged_observations[code]` and `fallback_observations[code]` list the parsed crawl dates of the code's rows. */
  lemma {:induction false} SightingsGathered(ks: seq<Keyed>, merged: bool, code: string)
    ensures SightingsOf(SightingsKept(Run(Empty, ks), merged), code) == SightingsFrom(ks, merged, code)
  {
    if ks != [] {
      SightingsGathered(ks[..|ks| - 1], merged, code);
    }
  }

  // -------------------------------------------------------------- emitting

  /** `rows_by_code.get(code, {})`. */
  function RowOf(t: Table, code: string): Row
  {
    if code in t.rows then t.rows[code] else map[]
  }

  /** The chosen merged, wayback, archive and pdf rows of `code`. */
  function SourcesOf(g: Gathered, code: string): Sources
  {
    Sources(RowOf(TableOf(g, MergedFeed), code), RowOf(TableOf(g, WaybackFeed), code),
            RowOf(TableOf(g, ArchiveFeed), code), RowOf(TableOf(g, PdfFeed), code))
  }

  /** The download (pdf rows), wayback and archive attempt counters of `code`. */
  function CountsOf(g: Gathered, code: string): Counts
  {
    Counts(AttemptsOf(g, PdfFeed, code), AttemptsOf(g, WaybackFeed, code), AttemptsOf(g, ArchiveFeed, code))
  }

  /** The state of `code`'s record: never archived without a document. */
  function StateOf(g: Gathered, code: string, env: Env): (s: State)
    ensures s != ArchivedWithoutDocument
  {
    RecordState(FactsOf(SourcesOf(g, code), CountsOf(g, code), env.isFormat))
  }

  /** The partition `code`'s record is filed under: the year of its G.R. date, or `unknown`. */
  function PartitionOf(g: Gathered, code: string, env: Env): string
  {
    PartitionKey(GrDateIso(SourcesOf(g, code), env.isFormat))
  }

  /** The crawl fields of `code`, with `today` for a code never seen with a parsable time. */
  function CrawlOf(g: Gathered, code: string, today: Day): (string, string, string)
  {
    DeriveCrawlFields(code, g.mergedSightings, g.fallbackSightings, g.runTypes, today)
  }

  /** The ledger record of `code`. */
  function RecordOf(g: Gathered, code: string, today: Day, now: string, env: Env): (r: Row)
    ensures Get(r, KUniqueCode) == Str(code)
  {
    BaselineReads(code, SourcesOf(g, code), CountsOf(g, code), CrawlOf(g, code, today), StateOf(g, code, env), now, env);
    RecordRow(BaselineRecord(code, SourcesOf(g, code), CountsOf(g, code), CrawlOf(g, code, today),
                             StateOf(g, code, env), now, env))
  }

  /** What the second loop computes for one code: its partition, its state and its record. */
  datatype Entry = Entry(code: string, key: string, state: State, record: Row)

  function EntryOf(g: Gathered, code: string, today: Day, now: string, env: Env): (e: Entry)
    ensures e.code == code && Get(e.record, KUniqueCode) == Str(code) && e.state != ArchivedWithoutDocument
  {
    Entry(code, PartitionOf(g, code, env), StateOf(g, code, env), RecordOf(g, code, today, now, env))
  }

  /** The loop body's computation, as a function of the code. */
  function EntryFn(g: Gathered, today: Day, now: string, env: Env): string -> Entry
  {
    code => EntryOf(g, code, today, now, env)
  }

  /** The entries of `codes`, in order. */
  function Entries(codes: seq<string>, entry: string -> Entry): (r: seq<Entry>)
    ensures |r| == |codes| && forall i :: 0 <= i < |codes| ==> r[i] == entry(codes[i])
  {
    seq(|codes|, i requires 0 <= i < |codes| => entry(codes[i]))
  }

  /** The entries filed under `key`, in order. */
  function Filed(es: seq<Entry>, key: string): seq<Entry>
  {
    if es == [] then []
    else
      var e := es[|es| - 1];
      Filed(es[..|es| - 1], key) + (if e.key == key then [e] else [])
  }

  /** The records of a sequence of entries. */
  function RecordsOf(es: seq<Entry>): (r: seq<Row>)
    ensures |r| == |es| && forall i :: 0 <= i < |es| ==> r[i] == es[i].record
  {
    seq(|es|, i requires 0 <= i < |es| => es[i].record)
  }

  /** How many entries end in state `s`. */
  function Tally(es: seq<Entry>, s: State): nat
  {
    if es == [] then 0 else Tally(es[..|es| - 1], s) + (if es[|es| - 1].state == s then 1 else 0)
  }

  /** `partitions` lists the records of each partition in order. */
  ghost predicate PartitionsOf(partitions: map<string, seq<Row>>, es: seq<Entry>)
  {
    && (forall key :: key in partitions <==> Filed(es, key) != [])
    && (forall key :: key in partitions ==> partitions[key] == RecordsOf(Filed(es, key)))
  }

  /** `state_counts` counts the entries of each state; a state no entry has is absent. */
  ghost predicate CountsOfStates(stateCounts: map<State, nat>, es: seq<Entry>)
  {
    && (forall s :: s in stateCounts <==> Tally(es, s) > 0)
    && (forall s :: s in stateCounts ==> stateCounts[s] == Tally(es, s))
  }

  /** `partitions[key].append(record)`. */
  function Append(partitions: map<string, seq<Row>>, e: Entry): map<string, seq<Row>>
  {
    partitions[e.key := (if e.key in partitions then partitions[e.key] else []) + [e.record]]
  }

  /** `state_counts[state] += 1`. */
  function Count(stateCounts: map<State, nat>, e: Entry): map<State, nat>
  {
    stateCounts[e.state := (if e.state in stateCounts then stateCounts[e.state] else 0) + 1]
  }

  lemma {:induction false} FiledSnoc(es: seq<Entry>, e: Entry, k: string)
    ensures Filed(es + [e], k) == Filed(es, k) + (if e.key == k then [e] else [])
  {
    assert (es + [e])[..|es|] == es;
  }

  lemma {:induction false} TallySnoc(es: seq<Entry>, e: Entry, s: State)
    ensures Tally(es + [e], s) == Tally(es, s) + (if e.state == s then 1 else 0)
  {
    assert (es + [e])[..|es|] == es;
  }

  /** Filing one more entry appends its record to its own partition and leaves the others alone. */
  lemma {:induction false} PartitionsSnoc(partitions: map<string, seq<Row>>, es: seq<Entry>, e: Entry)
    requires PartitionsOf(partitions, es)
    ensures PartitionsOf(Append(partitions, e), es + [e])
  {
    var p := Append(partitions, e);
    forall key ensures (key in p <==> Filed(es + [e], key) != []) && (key in p ==> p[key] == RecordsOf(Filed(es + [e], key))) {
      FiledSnoc(es, e, key);
      if key == e.key {
        var before := Filed(es, key);
        assert RecordsOf(before + [e]) == RecordsOf(before) + [e.record];
        assert key in partitions ==> partitions[key] == RecordsOf(before);
      }
    }
  }

  /** Counting one more entry adds one to its state. */
  lemma {:induction false} CountsSnoc(stateCounts: map<State, nat>, es: seq<Entry>, e: Entry)
    requires CountsOfStates(stateCounts, es)
    ensures CountsOfStates(Count(stateCounts, e), es + [e])
  {
    var c := Count(stateCounts, e);
    forall s ensures (s in c <==> Tally(es + [e], s) > 0) && (s in c ==> c[s] == Tally(es + [e], s)) {
      TallySnoc(es, e, s);
    }
  }

  /** The second loop: one record per code, appended to its partition, and its state counted. */
  method Emit(codes: seq<string>, entry: string -> Entry)
    returns (partitions: map<string, seq<Row>>, stateCounts: map<State, nat>)
    ensures PartitionsOf(partitions, Entries(codes, entry))
    ensures CountsOfStates(stateCounts, Entries(codes, entry))
  {
    partitions, stateCounts := map[], map[];
    var i := 0;
    while i < |codes|
      invariant 0 <= i <= |codes|
      invariant PartitionsOf(partitions, Entries(codes[..i], entry))
      invariant CountsOfStates(stateCounts, Entries(codes[..i], entry))
    {
      var e := entry(codes[i]);
      assert Entries(codes[..i + 1], entry) == Entries(codes[..i], entry) + [e];
      PartitionsSnoc(partitions, Entries(codes[..i], entry), e);
      CountsSnoc(stateCounts, Entries(codes[..i], entry), e);
      stateCounts := stateCounts[e.state := (if e.state in stateCounts then stateCounts[e.state] else 0) + 1];
      var rows := if e.key in partitions then partitions[e.key] else [];
      partitions := partitions[e.key := rows + [e.record]];
      i := i + 1;
    }
    assert codes[..i] == codes;
  }

  // ------------------------------------------------------ sorting and the build

  /** `sorted(all_unique_codes)`: every code once, ascending. */
  function SortedCodes(codes: set<string>): (r: seq<string>)
    ensures |r| == |codes| && (forall c :: c in r <==> c in codes)
    ensures forall i, j :: 0 <= i < j < |r| ==> StrLe(r[i], r[j]) && r[i] != r[j]
  {
    StrKeyInjective(codes);
    SortedSet(codes, StrKey)
  }

  /** `row["unique_code"]` as a sort key. */
  function CodeKey(row: Row): seq<int>
  {
    var v := Get(row, KUniqueCode);
    if v.Str? then StrKey(v.s) else []
  }

  /** `partition_rows.sort(key=lambda row: row["unique_code"])` for every partition. */
  method SortPartitions(partitions: map<string, seq<Row>>) returns (sorted: map<string, seq<Row>>)
    ensures sorted.Keys == partitions.Keys
    ensures forall key :: key in sorted ==> sorted[key] == SortBy(partitions[key], CodeKey)
  {
    sorted := partitions;
    var keys := partitions.Keys;
    while keys != {}
      invariant keys <= partitions.Keys && sorted.Keys == partitions.Keys
      invariant forall key :: key in sorted ==>
        sorted[key] == if key in keys then partitions[key] else SortBy(partitions[key], CodeKey)
      decreases |keys|
    {
      var key :| key in keys;
      sorted := sorted[key := SortBy(sorted[key], CodeKey)];
      keys := keys - {key};
    }
  }

  /** The entries come in strictly ascending code order. */
  predicate Ascending(es: seq<Entry>)
  {
    forall i, j :: 0 <= i < j < |es| ==> StrLe(es[i].code, es[j].code) && es[i].code != es[j].code
  }

  /** Each record carries its entry's code as `unique_code`. */
  predicate Labelled(es: seq<Entry>)
  {
    forall i :: 0 <= i < |es| ==> Get(es[i].record, KUniqueCode) == Str(es[i].code)
  }

  /** A partition holds the entries filed under its key, and keeps their order. */
  lemma {:induction false} FiledProps(es: seq<Entry>, key: string)
    ensures forall e :: e in Filed(es, key) <==> e in es && e.key == key
    ensures Ascending(es) ==> Ascending(Filed(es, key))
  {
    if es != [] {
      var init, e := es[..|es| - 1], es[|es| - 1];
      FiledProps(init, key);
      assert es == init + [e];
      var f := Filed(init, key);
      if Ascending(es) {
        assert Ascending(init) by {
          forall i, j | 0 <= i < j < |init| ensures StrLe(init[i].code, init[j].code) && init[i].code != init[j].code {
            assert init[i] == es[i] && init[j] == es[j];
          }
        }
        if e.key == key {
          forall i, j | 0 <= i < j < |f + [e]| ensures StrLe((f + [e])[i].code, (f + [e])[j].code) && (f + [e])[i].code != (f + [e])[j].code {
            if j == |f| {
              assert (f + [e])[i] == f[i] && f[i] in init;
              var k :| 0 <= k < |init| && init[k] == f[i];
              assert es[k] == init[k];
            } else {
              assert (f + [e])[i] == f[i] && (f + [e])[j] == f[j];
            }
          }
        }
      }
    }
  }

  /** A labelled, ascending partition is already in `unique_code` order: the final sort leaves it as it is. */
  lemma SortLeavesPartition(es: seq<Entry>, key: string)
    requires Ascending(es) && Labelled(es)
    ensures SortBy(RecordsOf(Filed(es, key)), CodeKey) == RecordsOf(Filed(es, key))
  {
    FiledProps(es, key);
    var f := Filed(es, key);
    var rows := RecordsOf(f);
    forall i | 0 <= i < |f| ensures CodeKey(rows[i]) == StrKey(f[i].code) {
      assert f[i] in es;
      var k :| 0 <= k < |es| && es[k] == f[i];
    }
    assert SortedBy(rows, CodeKey) by {
      forall i, j | 0 <= i < j < |rows| ensures Le(CodeKey(rows[i]), CodeKey(rows[j])) {
        assert StrLe(f[i].code, f[j].code);
      }
    }
    SortBySorted(rows, CodeKey);
  }

  /** The entry of each code carries the code, and its record carries it as `unique_code`. */
  ghost predicate Labels(entry: string -> Entry)
  {
    forall c :: entry(c).code == c && Get(entry(c).record, KUniqueCode) == Str(c)
  }

  lemma EntryFnLabels(g: Gathered, today: Day, now: string, env: Env)
    ensures Labels(EntryFn(g, today, now, env))
  {
    forall c ensures EntryFn(g, today, now, env)(c).code == c
      && Get(EntryFn(g, today, now, env)(c).record, KUniqueCode) == Str(c)
    {
      var e := EntryOf(g, c, today, now, env);
    }
  }

  /** The entries of strictly ascending codes are ascending and labelled. */
  lemma EntriesOrdered(codes: seq<string>, entry: string -> Entry)
    requires forall i, j :: 0 <= i < j < |codes| ==> StrLe(codes[i], codes[j]) && codes[i] != codes[j]
    requires Labels(entry)
    ensures Ascending(Entries(codes, entry)) && Labelled(Entries(codes, entry))
  {
  }

  /** Sorting partitions built from ascending, labelled entries changes nothing. */
  lemma SortKeepsPartitions(partitions: map<string, seq<Row>>, sorted: map<string, seq<Row>>, es: seq<Entry>)
    requires PartitionsOf(partitions, es) && Ascending(es) && Labelled(es)
    requires sorted.Keys == partitions.Keys
    requires forall key :: key in sorted ==> sorted[key] == SortBy(partitions[key], CodeKey)
    ensures sorted == partitions
  {
    forall key | key in partitions ensures sorted[key] == partitions[key] {
      SortLeavesPartition(es, key);
    }
  }

  /** The ledger records of the baseline, as `build_baseline_records` returns them. */
  ghost function Built(sources: seq<SourceRepo>, today: Day, now: string, env: Env): seq<Entry>
  {
    var g := GatherAll(sources, env);
    Entries(SortedCodes(g.codes), EntryFn(g, today, now, env))
  }

  /** The second loop over the sorted codes, then the sort of every partition. */
  method EmitSorted(codes: set<string>, entry: string -> Entry)
    returns (partitions: map<string, seq<Row>>, stateCounts: map<State, nat>)
    requires Labels(entry)
    ensures PartitionsOf(partitions, Entries(SortedCodes(codes), entry))
    ensures CountsOfStates(stateCounts, Entries(SortedCodes(codes), entry))
  {
    var sortedCodes := SortedCodes(codes);
    partitions, stateCounts := Emit(sortedCodes, entry);
    var sorted := SortPartitions(partitions);
    EntriesOrdered(sortedCodes, entry);
    SortKeepsPartitions(partitions, sorted, Entries(sortedCodes, entry));
    partitions := sorted;
  }

  /**
   * `build_baseline_records`: the partitions, the state counts and the
   * number of codes.  `today` and `now` stand for the build's UTC clock.
   */
  method BuildRecords(sources: seq<SourceRepo>, today: Day, now: string, env: Env)
    returns (partitions: map<string, seq<Row>>, stateCounts: map<State, nat>, total: nat)
    ensures PartitionsOf(partitions, Built(sources, today, now, env))
    ensures CountsOfStates(stateCounts, Built(sources, today, now, env))
    ensures total == |GatherAll(sources, env).codes|
  {
    var g := Gather(sources, env);
    EntryFnLabels(g, today, now, env);
    partitions, stateCounts := EmitSorted(g.codes, EntryFn(g, today, now, env));
    total := |g.codes|;
  }

  // ------------------------------------------------------- what the build returns

  /** Every code of `codes` is filed once, under its own key, and nowhere else. */
  lemma {:induction false} FiledOnce(codes: seq<string>, entry: string -> Entry, c: string)
    requires forall i, j :: 0 <= i < j < |codes| ==> StrLe(codes[i], codes[j]) && codes[i] != codes[j]
    requires Labels(entry) && c in codes
    ensures entry(c) in Filed(Entries(codes, entry), entry(c).key)
    ensures forall key, e :: e in Filed(Entries(codes, entry), key) && e.code == c ==> e == entry(c) && key == entry(c).key
  {
    var es := Entries(codes, entry);
    FiledProps(es, entry(c).key);
    var i :| 0 <= i < |codes| && codes[i] == c;
    assert es[i] == entry(c);
    forall key, e | e in Filed(es, key) && e.code == c ensures e == entry(c) && key == entry(c).key {
      FiledProps(es, key);
      var j :| 0 <= j < |es| && es[j] == e;
      assert entry(codes[j]).code == codes[j];
    }
  }

  /**
   * Every partition of the entries of strictly ascending codes lists its
   * records in strictly ascending `unique_code` order. With the codes sorted
   * by SortedCodes and `entry` the build's EntryFn (EntryFnLabels), these are
   * the build's partitions.
   */
  lemma PartitionsAscending(codes: seq<string>, entry: string -> Entry, key: string)
    requires forall i, j :: 0 <= i < j < |codes| ==> StrLe(codes[i], codes[j]) && codes[i] != codes[j]
    requires Labels(entry)
    ensures Ascending(Filed(Entries(codes, entry), key)) && Labelled(Filed(Entries(codes, entry), key))
  {
    EntriesOrdered(codes, entry);
    FiledProps(Entries(codes, entry), key);
    LabelledFiled(Entries(codes, entry), key);
  }

  /** Filing keeps records labelled. */
  lemma LabelledFiled(es: seq<Entry>, key: string)
    requires Labelled(es)
    ensures Labelled(Filed(es, key))
  {
    FiledProps(es, key);
    var f := Filed(es, key);
    forall i | 0 <= i < |f| ensures Get(f[i].record, KUniqueCode) == Str(f[i].code) {
      assert f[i] in es;
    }
  }

  /** The tallies of the eight states add up to the number of entries. */
  lemma {:induction false} TallyTotal(es: seq<Entry>)
    ensures Tally(es, Fetched) + Tally(es, DownloadSuccess) + Tally(es, DownloadFailed) + Tally(es, WaybackUploaded)
      + Tally(es, WaybackUploadFailed) + Tally(es, ArchivedWithWaybackUrl) + Tally(es, ArchivedWithoutWaybackUrl)
      + Tally(es, ArchivedWithoutDocument) == |es|
  {
    if es != [] {
      TallyTotal(es[..|es| - 1]);
    }
  }

  /** No entry of the build ends in `ARCHIVE_UPLOADED_WITHOUT_DOCUMENT`. */
  lemma {:induction false} NoDocumentlessArchive(codes: seq<string>, entry: string -> Entry)
    requires forall c :: entry(c).state != ArchivedWithoutDocument
    ensures Tally(Entries(codes, entry), ArchivedWithoutDocument) == 0
    decreases |codes|
  {
    if codes != [] {
      var n := |codes| - 1;
      assert Entries(codes, entry)[..n] == Entries(codes[..n], entry);
      NoDocumentlessArchive(codes[..n], entry);
    }
  }

  /** No entry of the build's entry function is archived without a document. */
  lemma EntryFnStates(g: Gathered, today: Day, now: string, env: Env)
    ensures forall c :: EntryFn(g, today, now, env)(c).state != ArchivedWithoutDocument
  {
    forall c ensures EntryFn(g, today, now, env)(c).state != ArchivedWithoutDocument {
      var e := EntryOf(g, c, today, now, env);
    }
  }

  /**
   * The state counts of the entries of `codes` add up to the number of codes,
   * and none is archived without a document; EntryFnStates discharges the
   * requirement for the build's entry function.
   */
  lemma StateCountsTotal(codes: seq<string>, entry: string -> Entry)
    requires forall c :: entry(c).state != ArchivedWithoutDocument
    ensures var es := Entries(codes, entry);
      && Tally(es, Fetched) + Tally(es, DownloadSuccess) + Tally(es, DownloadFailed) + Tally(es, WaybackUploaded)
         + Tally(es, WaybackUploadFailed) + Tally(es, ArchivedWithWaybackUrl) + Tally(es, ArchivedWithoutWaybackUrl)
         == |codes|
      && Tally(es, ArchivedWithoutDocument) == 0
  {
    NoDocumentlessArchive(codes, entry);
    TallyTotal(Entries(codes, entry));
  }

  /**
   * The record the build writes for a code passes every error check of the
   * ledger validator in its partition, given a non-blank code the validator
   * has not met before, a G.R. date (if any) with a four-digit year, and a
   * build time the validator can parse.
   */
  lemma BuiltRecordValid(sources: seq<SourceRepo>, today: Day, now: string, env: Env, c: string,
                         firstSeen: map<string, ValidateLedger.Place>, fromIso: string -> Option<ValidateLedger.Stamp>)
    requires Strip(c) != "" && c !in firstSeen
    requires FourDigitYear(GrDateIso(SourcesOf(GatherAll(sources, env), c), env.isFormat))
    requires ValidateLedger.ParseIsoTimestamp(Str(now), fromIso).Some?
    ensures var g := GatherAll(sources, env);
      ValidateLedger.RecordValid(PartitionOf(g, c, env), RecordOf(g, c, today, now, env), firstSeen, fromIso)
  {
    var g := GatherAll(sources, env);
    BaselineRecordValid(c, SourcesOf(g, c), CountsOf(g, c), now, env, g.mergedSightings, g.fallbackSightings,
                        g.runTypes, today, firstSeen, fromIso);
  }
}
