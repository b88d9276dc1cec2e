/**
 * `run_monthly` of the government-resolution site job: the crawled records
 * are reduced to one per code (the most complete, then the most recently
 * crawled), listed by code, cut to `max_records`, and each is either a
 * touch of a record the store knows or an insert of a new one.
 */
module GrMonthly {
  import opened Py
  import opened Order
  import opened Dates
  import opened LedgerEngine
  import opened Infos
  import opened GrSite

  // ----------------------------------------------------- one record per code

  /** How many of title, department name, GR date and source URL are non-blank. */
  function Score(rec: CrawledRecord): (n: nat)
    ensures n <= 4
    ensures n == 4 <==> rec.title != "" && rec.departmentName != "" && rec.grDate != "" && rec.sourceUrl != ""
    ensures n == 0 <==> rec.title == "" && rec.departmentName == "" && rec.grDate == "" && rec.sourceUrl == ""
  {
    (if rec.title != "" then 1 else 0) + (if rec.departmentName != "" then 1 else 0)
    + (if rec.grDate != "" then 1 else 0) + (if rec.sourceUrl != "" then 1 else 0)
  }

  /** The candidate replaces the record kept for its code: a higher score, or an equal one and a later crawl date. */
  predicate Beats(cand: CrawledRecord, existing: CrawledRecord)
  {
    Score(cand) > Score(existing) || (Score(cand) == Score(existing) && !StrLe(cand.crawlDate, existing.crawlDate))
  }

  /** Replacement is a strict order: no record beats itself, and it is transitive. */
  lemma BeatsStrict(a: CrawledRecord, b: CrawledRecord, c: CrawledRecord)
    ensures !Beats(a, a)
    ensures Beats(a, b) && Beats(b, c) ==> Beats(a, c)
    ensures Beats(a, b) ==> !Beats(b, a)
  {
    StrLeTotalOrder(a.crawlDate, a.crawlDate, a.crawlDate);
    StrLeTotalOrder(a.crawlDate, b.crawlDate, c.crawlDate);
    StrLeTotalOrder(a.crawlDate, c.crawlDate, b.crawlDate);
    StrLeTotalOrder(c.crawlDate, b.crawlDate, a.crawlDate);
  }

  /** `record_by_code` after the records in order. */
  function BestByCode(rs: seq<CrawledRecord>): map<string, CrawledRecord>
  {
    if rs == [] then map[]
    else
      var m := BestByCode(rs[..|rs| - 1]);
      var x := rs[|rs| - 1];
      if x.uniqueCode !in m || Beats(x, m[x.uniqueCode]) then m[x.uniqueCode := x] else m
  }

  /** The loop building `record_by_code`. */
  method DedupeByCode(records: seq<CrawledRecord>) returns (best: map<string, CrawledRecord>)
    ensures best == BestByCode(records)
  {
    best := map[];
    for i := 0 to |records|
      invariant best == BestByCode(records[..i])
    {
      assert records[..i + 1][..i] == records[..i];
      var rec := records[i];
      if rec.uniqueCode !in best {
        best := best[rec.uniqueCode := rec];
      } else if Score(rec) > Score(best[rec.uniqueCode]) {
        best := best[rec.uniqueCode := rec];
      } else if Score(rec) == Score(best[rec.uniqueCode]) && !StrLe(rec.crawlDate, best[rec.uniqueCode].crawlDate) {
        best := best[rec.uniqueCode := rec];
      }
    }
    assert records[..|records|] == records;
  }

  /**
   * One record per code read, that record among the input with its code,
   * and no record with the code beats it.
   */
  lemma BestByCodeProps(rs: seq<CrawledRecord>)
    ensures BestByCode(rs).Keys == CodesOf(rs)
    ensures forall c :: c in BestByCode(rs) ==> BestByCode(rs)[c] in rs && BestByCode(rs)[c].uniqueCode == c
    ensures forall x :: x in rs ==> !Beats(x, BestByCode(rs)[x.uniqueCode])
  {
    var m := BestByCode(rs);
    BestKeys(rs, m);
    BestFrom(rs, m);
    BestTop(rs, m);
  }

  lemma {:induction false} BestKeys(rs: seq<CrawledRecord>, m: map<string, CrawledRecord>)
    requires m == BestByCode(rs)
    ensures m.Keys == CodesOf(rs)
    decreases |rs|
  {
    if rs != [] {
      var init, x := rs[..|rs| - 1], rs[|rs| - 1];
      BestKeys(init, BestByCode(init));
      CodesOfSnoc(init, x);
      assert rs == init + [x];
    }
  }

  lemma {:induction false} BestFrom(rs: seq<CrawledRecord>, m: map<string, CrawledRecord>)
    requires m == BestByCode(rs)
    ensures forall c :: c in m ==> m[c] in rs && m[c].uniqueCode == c
    decreases |rs|
  {
    if rs != [] {
      var init, x := rs[..|rs| - 1], rs[|rs| - 1];
      BestFrom(init, BestByCode(init));
      assert rs == init + [x];
      assert forall y :: y in init ==> y in rs;
    }
  }

  lemma {:induction false} BestTop(rs: seq<CrawledRecord>, m: map<string, CrawledRecord>)
    requires m == BestByCode(rs)
    ensures forall x :: x in rs ==> x.uniqueCode in m && !Beats(x, m[x.uniqueCode])
    decreases |rs|
  {
    if rs != [] {
      var init, x := rs[..|rs| - 1], rs[|rs| - 1];
      var m0 := BestByCode(init);
      BestTop(init, m0);
      BestFrom(init, m0);
      assert rs == init + [x];
      assert forall y :: y in rs <==> y in init || y == x;
      BeatsStrict(x, x, x);
      if x.uniqueCode !in m0 || Beats(x, m0[x.uniqueCode]) {
        forall y | y in init && y.uniqueCode == x.uniqueCode ensures !Beats(y, x) {
          BeatsStrict(y, x, m0[x.uniqueCode]);
        }
      }
    }
  }

  /** `sorted(record_by_code.values(), key=unique_code)`. */
  function ByCode(best: map<string, CrawledRecord>): (r: seq<CrawledRecord>)
  {
    StrKeyInjective(best.Keys);
    var codes := SortedSet(best.Keys, StrKey);
    seq(|codes|, i requires 0 <= i < |codes| => best[codes[i]])
  }

  /** The listed records are the kept ones, one per code, in code order. */
  lemma ByCodeProps(best: map<string, CrawledRecord>)
    requires forall c :: c in best ==> best[c].uniqueCode == c
    ensures |ByCode(best)| == |best|
    ensures forall x :: x in ByCode(best) <==> exists c :: c in best && best[c] == x
    ensures forall i, j :: 0 <= i < j < |ByCode(best)| ==>
      StrLe(ByCode(best)[i].uniqueCode, ByCode(best)[j].uniqueCode) && ByCode(best)[i].uniqueCode != ByCode(best)[j].uniqueCode
  {
    StrKeyInjective(best.Keys);
    var codes := SortedSet(best.Keys, StrKey);
    var r := ByCode(best);
    assert forall i :: 0 <= i < |r| ==> r[i] == best[codes[i]] && r[i].uniqueCode == codes[i];
    forall x | exists c :: c in best && best[c] == x ensures x in r {
      var c :| c in best && best[c] == x;
      var i :| 0 <= i < |codes| && codes[i] == c;
      assert r[i] == x;
    }
  }

  // ------------------------------------------------------- insert or touch

  /** The codes `run_monthly` reports: inserted (new to `known`, which then grows) and touched (known). */
  function Classify(rs: seq<CrawledRecord>, known: set<string>): (r: (seq<string>, seq<string>))
    decreases |rs|
  {
    if rs == [] then ([], [])
    else if rs[0].uniqueCode in known then
      var rest := Classify(rs[1..], known);
      (rest.0, [rs[0].uniqueCode] + rest.1)
    else
      var rest := Classify(rs[1..], known + {rs[0].uniqueCode});
      ([rs[0].uniqueCode] + rest.0, rest.1)
  }

  /** The codes of the records, as a set. */
  function SeqCodes(rs: seq<CrawledRecord>): set<string>
  {
    set x | x in rs :: x.uniqueCode
  }

  /**
   * Every record is counted once, as inserted or touched; a code is touched
   * exactly when it was known or inserted before, so with distinct codes
   * the inserted ones are those not known and the touched ones the known.
   */
  lemma {:induction false} ClassifyProps(rs: seq<CrawledRecord>, known: set<string>)
    ensures |Classify(rs, known).0| + |Classify(rs, known).1| == |rs|
    ensures forall c :: c in Classify(rs, known).0 || c in Classify(rs, known).1 <==> c in SeqCodes(rs)
    ensures forall c :: c in Classify(rs, known).0 ==> c !in known
    ensures (forall i, j :: 0 <= i < j < |rs| ==> rs[i].uniqueCode != rs[j].uniqueCode) ==>
      forall c :: (c in Classify(rs, known).1 <==> c in SeqCodes(rs) && c in known)
    decreases |rs|
  {
    if rs != [] {
      var x, tail := rs[0], rs[1..];
      var known' := if x.uniqueCode in known then known else known + {x.uniqueCode};
      ClassifyProps(tail, known');
      assert forall y :: y in rs <==> y == x || y in tail;
      assert SeqCodes(rs) == {x.uniqueCode} + SeqCodes(tail);
      if forall i, j :: 0 <= i < j < |rs| ==> rs[i].uniqueCode != rs[j].uniqueCode {
        assert forall i, j :: 0 <= i < j < |tail| ==> tail[i].uniqueCode != tail[j].uniqueCode by {
          forall i, j | 0 <= i < j < |tail| ensures tail[i].uniqueCode != tail[j].uniqueCode {
            assert tail[i] == rs[i + 1] && tail[j] == rs[j + 1];
          }
        }
        assert x.uniqueCode !in SeqCodes(tail) by {
          forall y | y in tail ensures y.uniqueCode != x.uniqueCode {
            var j :| 0 <= j < |tail| && tail[j] == y;
            assert rs[j + 1] == y;
          }
        }
      }
    }
  }

  /** The run's `update({"unique_code": code})` of a known record. */
  function TouchCrawled(s: Spaces, rec: CrawledRecord, crawlDate: string, today: Date, now: string)
    : Result<(Spaces, UpsertResult)>
    requires SpacesValid(s) && ValidDate(today)
  {
    StageUpdate(s, map[KUniqueCode := Str(rec.uniqueCode)], NormalizeRunType(Some("monthly")),
                NormalizeCrawlDate(Str(CrawlOf(rec, crawlDate)), today), now)
  }

  /** The writes of `run_monthly`: a touch of a known code, an insert of a new one, up to the first that raises. */
  function MonthlyWrites(s: Spaces, rs: seq<CrawledRecord>, known: set<string>, crawlDate: string, today: Date,
                         now: string): (r: (Spaces, Option<Error>))
    requires SpacesValid(s) && ValidDate(today)
    ensures SpacesValid(r.0)
    decreases |rs|
  {
    if rs == [] then (s, None)
    else
      var touch := rs[0].uniqueCode in known;
      var w := if touch then TouchCrawled(s, rs[0], crawlDate, today, now)
               else InsertCrawled(s, rs[0], "monthly", crawlDate, today, now);
      if w.Err? then (s, Some(w.error))
      else MonthlyWrites(w.value.0, rs[1..], if touch then known else known + {rs[0].uniqueCode}, crawlDate, today, now)
  }

  /** A touch keeps the store's keys and fails on a code it does not hold. */
  lemma TouchCrawledKeys(s: Spaces, rec: CrawledRecord, crawlDate: string, today: Date, now: string)
    requires SpacesValid(s) && ValidDate(today)
    ensures var w := TouchCrawled(s, rec, crawlDate, today, now);
      && (Strip(rec.uniqueCode) !in s.url.index ==> w.Err?)
      && (w.Ok? ==> w.value.0.url.index == s.url.index)
  {
    var patch := map[KUniqueCode := Str(rec.uniqueCode)];
    assert RecordKeyOf(patch) == Strip(rec.uniqueCode);
  }

  /** The writes never lose a key. */
  lemma {:induction false} MonthlyWritesGrow(s: Spaces, rs: seq<CrawledRecord>, known: set<string>, crawlDate: string,
                                             today: Date, now: string, r: (Spaces, Option<Error>))
    requires SpacesValid(s) && ValidDate(today) && r == MonthlyWrites(s, rs, known, crawlDate, today, now)
    ensures s.url.index.Keys <= r.0.url.index.Keys
    decreases |rs|
  {
    if rs != [] {
      var touch := rs[0].uniqueCode in known;
      var known' := if touch then known else known + {rs[0].uniqueCode};
      TouchCrawledKeys(s, rs[0], crawlDate, today, now);
      InsertCrawledKeys(s, rs[0], "monthly", crawlDate, today, now);
      var w := if touch then TouchCrawled(s, rs[0], crawlDate, today, now)
               else InsertCrawled(s, rs[0], "monthly", crawlDate, today, now);
      if w.Ok? {
        MonthlyWritesGrow(w.value.0, rs[1..], known', crawlDate, today, now, r);
      }
    }
  }

  /** A run whose writes all succeed holds its old keys and the inserted codes, and no other. */
  lemma {:induction false} MonthlyWritesKeys(s: Spaces, rs: seq<CrawledRecord>, known: set<string>, crawlDate: string,
                                             today: Date, now: string, r: (Spaces, Option<Error>))
    requires SpacesValid(s) && ValidDate(today) && r == MonthlyWrites(s, rs, known, crawlDate, today, now)
    ensures r.1.None? ==> r.0.url.index.Keys == s.url.index.Keys + StrippedCodes(Classify(rs, known).0)
    decreases |rs|
  {
    if rs != [] {
      var touch := rs[0].uniqueCode in known;
      var known' := if touch then known else known + {rs[0].uniqueCode};
      TouchCrawledKeys(s, rs[0], crawlDate, today, now);
      InsertCrawledKeys(s, rs[0], "monthly", crawlDate, today, now);
      var w := if touch then TouchCrawled(s, rs[0], crawlDate, today, now)
               else InsertCrawled(s, rs[0], "monthly", crawlDate, today, now);
      if w.Ok? {
        MonthlyWritesKeys(w.value.0, rs[1..], known', crawlDate, today, now, r);
        if r.1.None? {
          ClassifyHead(rs, known);
          KeysStep(s.url.index.Keys, w.value.0.url.index.Keys, r.0.url.index.Keys, touch, rs[0].uniqueCode,
                   Classify(rs[1..], known').0, Classify(rs, known).0);
        }
      }
    }
  }

  lemma ClassifyHead(rs: seq<CrawledRecord>, known: set<string>)
    requires rs != []
    ensures var touch := rs[0].uniqueCode in known;
      Classify(rs, known).0 == if touch then Classify(rs[1..], known).0
                               else [rs[0].uniqueCode] + Classify(rs[1..], known + {rs[0].uniqueCode}).0
  {
  }

  lemma KeysStep(k0: set<string>, k1: set<string>, kr: set<string>, touch: bool, code: string,
                 restIns: seq<string>, allIns: seq<string>)
    requires touch ==> k1 == k0 && allIns == restIns
    requires !touch ==> k1 == k0 + {Strip(code)} && allIns == [code] + restIns
    requires kr == k1 + StrippedCodes(restIns)
    ensures kr == k0 + StrippedCodes(allIns)
  {
    if !touch {
      StrippedCodesCons(code, restIns);
    }
  }

  /** The stripped codes of a list of codes. */
  function StrippedCodes(codes: seq<string>): set<string>
  {
    set c | c in codes :: Strip(c)
  }

  lemma StrippedCodesCons(c: string, codes: seq<string>)
    ensures StrippedCodes([c] + codes) == {Strip(c)} + StrippedCodes(codes)
  {
    assert forall d :: d in [c] + codes <==> d == c || d in codes;
  }

  // ------------------------------------------------------------ run_monthly

  /** What `run_monthly` reports. */
  datatype MonthlyReport = MonthlyReport(inputRecords: nat, insertedCodes: seq<string>, touchedCodes: seq<string>,
                                         writesEnabled: bool)

  /** The classification from the `i`-th record on: that record's, then the rest's. */
  lemma ClassifyFrom(rs: seq<CrawledRecord>, i: nat, known: set<string>)
    requires i < |rs|
    ensures var touch := rs[i].uniqueCode in known;
      var rest := Classify(rs[i + 1..], if touch then known else known + {rs[i].uniqueCode});
      Classify(rs[i..], known) == if touch then (rest.0, [rs[i].uniqueCode] + rest.1) else ([rs[i].uniqueCode] + rest.0, rest.1)
  {
    assert rs[i..][0] == rs[i] && rs[i..][1..] == rs[i + 1..];
  }

  /** The writes from the `i`-th record on: that record's, then the rest's. */
  lemma MonthlyWritesFrom(s: Spaces, rs: seq<CrawledRecord>, i: nat, known: set<string>, crawlDate: string, today: Date,
                          now: string, w: Result<(Spaces, UpsertResult)>)
    requires SpacesValid(s) && ValidDate(today) && i < |rs|
    requires w == WriteOf(s, rs[i], known, crawlDate, today, now)
    ensures MonthlyWrites(s, rs[i..], known, crawlDate, today, now)
        == if w.Err? then (s, Some(w.error))
           else MonthlyWrites(w.value.0, rs[i + 1..], if rs[i].uniqueCode in known then known else known + {rs[i].uniqueCode},
                              crawlDate, today, now)
  {
    assert rs[i..][0] == rs[i] && rs[i..][1..] == rs[i + 1..];
  }

  /** The dry-run loop of `run_monthly`: the codes it would insert and touch. */
  method ClassifyMonthly(rs: seq<CrawledRecord>, known: set<string>) returns (inserted: seq<string>, touched: seq<string>)
    ensures (inserted, touched) == Classify(rs, known)
  {
    inserted, touched := [], [];
    var seen := known;
    assert rs[0..] == rs;
    for i := 0 to |rs|
      invariant inserted + Classify(rs[i..], seen).0 == Classify(rs, known).0
      invariant touched + Classify(rs[i..], seen).1 == Classify(rs, known).1
    {
      ClassifyFrom(rs, i, seen);
      var code := rs[i].uniqueCode;
      if code in seen {
        assert touched + Classify(rs[i..], seen).1 == (touched + [code]) + Classify(rs[i + 1..], seen).1;
        touched := touched + [code];
      } else {
        var seen' := seen + {code};
        assert inserted + Classify(rs[i..], seen).0 == (inserted + [code]) + Classify(rs[i + 1..], seen').0;
        inserted := inserted + [code];
        seen := seen';
      }
    }
    assert rs[|rs|..] == [];
    assert Classify(rs[|rs|..], seen) == ([], []);
    assert inserted == inserted + [] && touched == touched + [];
  }

  /** One write of `run_monthly`: `update` of a code in `seen`, `insert` of any other. */
  method WriteOne(store: InfoStore, rec: CrawledRecord, seen: set<string>, crawlDate: string, now: string, today: Date)
    returns (err: Option<Error>)
    requires store.Valid() && ValidDate(today)
    modifies store
    ensures store.Valid()
    ensures var w := WriteOf(old(store.State()), rec, seen, crawlDate, today, now);
      && store.State() == After(old(store.State()), w)
      && (w.Err? ==> err == Some(w.error)) && (w.Ok? ==> err.None?)
  {
    if rec.uniqueCode in seen {
      var res := store.Update(map[KUniqueCode := Str(rec.uniqueCode)], Some("monthly"), Str(CrawlOf(rec, crawlDate)),
                              now, today);
      err := if res.Err? then Some(res.error) else None;
    } else {
      var res := store.Insert(RecordPatch(rec), Some("monthly"), Str(CrawlOf(rec, crawlDate)), now, today);
      err := if res.Err? then Some(res.error) else None;
    }
  }

  /** The write of `rec` against the codes `seen`: an update of a code seen, else an insert. */
  function WriteOf(s: Spaces, rec: CrawledRecord, seen: set<string>, crawlDate: string, today: Date, now: string)
    : Result<(Spaces, UpsertResult)>
    requires SpacesValid(s) && ValidDate(today)
  {
    if rec.uniqueCode in seen then TouchCrawled(s, rec, crawlDate, today, now)
    else InsertCrawled(s, rec, "monthly", crawlDate, today, now)
  }

  /**
   * The writing loop after `i` records: what the rest of the writes give is `goal`, and the codes reported so
   * far followed by those the rest reports are `cls`.
   */
  ghost predicate WriteProgress(rs: seq<CrawledRecord>, crawlDate: string, today: Date, now: string,
                                goal: (Spaces, Option<Error>), cls: (seq<string>, seq<string>),
                                i: nat, s: Spaces, seen: set<string>, inserted: seq<string>, touched: seq<string>)
  {
    && i <= |rs| && SpacesValid(s) && ValidDate(today)
    && MonthlyWrites(s, rs[i..], seen, crawlDate, today, now) == goal
    && inserted + Classify(rs[i..], seen).0 == cls.0
    && touched + Classify(rs[i..], seen).1 == cls.1
  }

  lemma WriteStart(s: Spaces, rs: seq<CrawledRecord>, known: set<string>, crawlDate: string, today: Date, now: string)
    requires SpacesValid(s) && ValidDate(today)
    ensures WriteProgress(rs, crawlDate, today, now, MonthlyWrites(s, rs, known, crawlDate, today, now),
                          Classify(rs, known), 0, s, known, [], [])
  {
    assert rs[0..] == rs;
  }

  lemma WriteStep(rs: seq<CrawledRecord>, crawlDate: string, today: Date, now: string,
                  goal: (Spaces, Option<Error>), cls: (seq<string>, seq<string>),
                  i: nat, s: Spaces, seen: set<string>, inserted: seq<string>, touched: seq<string>,
                  w: Result<(Spaces, UpsertResult)>)
    requires WriteProgress(rs, crawlDate, today, now, goal, cls, i, s, seen, inserted, touched) && i < |rs|
    requires w == WriteOf(s, rs[i], seen, crawlDate, today, now)
    ensures w.Err? ==> goal == (s, Some(w.error))
    ensures w.Ok? && rs[i].uniqueCode in seen ==>
      WriteProgress(rs, crawlDate, today, now, goal, cls, i + 1, w.value.0, seen, inserted, touched + [rs[i].uniqueCode])
    ensures w.Ok? && rs[i].uniqueCode !in seen ==>
      WriteProgress(rs, crawlDate, today, now, goal, cls, i + 1, w.value.0, seen + {rs[i].uniqueCode},
                    inserted + [rs[i].uniqueCode], touched)
  {
    MonthlyWritesFrom(s, rs, i, seen, crawlDate, today, now, w);
    ClassifyStep(rs, cls, i, seen, inserted, touched);
  }

  /** The codes reported after one more record. */
  lemma ClassifyStep(rs: seq<CrawledRecord>, cls: (seq<string>, seq<string>), i: nat, seen: set<string>,
                     inserted: seq<string>, touched: seq<string>)
    requires i < |rs|
    requires inserted + Classify(rs[i..], seen).0 == cls.0 && touched + Classify(rs[i..], seen).1 == cls.1
    ensures var code := rs[i].uniqueCode;
      && (code in seen ==>
            inserted + Classify(rs[i + 1..], seen).0 == cls.0
            && (touched + [code]) + Classify(rs[i + 1..], seen).1 == cls.1)
      && (code !in seen ==>
            (inserted + [code]) + Classify(rs[i + 1..], seen + {code}).0 == cls.0
            && touched + Classify(rs[i + 1..], seen + {code}).1 == cls.1)
  {
    ClassifyFrom(rs, i, seen);
    var code := rs[i].uniqueCode;
    if code in seen {
      assert touched + Classify(rs[i..], seen).1 == (touched + [code]) + Classify(rs[i + 1..], seen).1;
    } else {
      assert inserted + Classify(rs[i..], seen).0 == (inserted + [code]) + Classify(rs[i + 1..], seen + {code}).0;
    }
  }

  lemma WriteEnd(rs: seq<CrawledRecord>, crawlDate: string, today: Date, now: string,
                 goal: (Spaces, Option<Error>), cls: (seq<string>, seq<string>),
                 s: Spaces, seen: set<string>, inserted: seq<string>, touched: seq<string>)
    requires WriteProgress(rs, crawlDate, today, now, goal, cls, |rs|, s, seen, inserted, touched)
    ensures goal == (s, None)
    ensures (inserted, touched) == cls
  {
    assert rs[|rs|..] == [];
    assert MonthlyWrites(s, rs[|rs|..], seen, crawlDate, today, now) == (s, None);
    assert Classify(rs[|rs|..], seen) == ([], []);
    assert inserted + [] == inserted && touched + [] == touched;
  }

  /** The writing loop of `run_monthly`: one write per record, until one raises. */
  method WriteMonthly(store: InfoStore, rs: seq<CrawledRecord>, known: set<string>, crawlDate: string, now: string,
                      today: Date)
    returns (err: Option<Error>, inserted: seq<string>, touched: seq<string>)
    requires store.Valid() && ValidDate(today)
    modifies store
    ensures store.Valid()
    ensures (store.State(), err) == MonthlyWrites(old(store.State()), rs, known, crawlDate, today, now)
    ensures err.None? ==> (inserted, touched) == Classify(rs, known)
  {
    ghost var goal := MonthlyWrites(store.State(), rs, known, crawlDate, today, now);
    ghost var cls := Classify(rs, known);
    WriteStart(store.State(), rs, known, crawlDate, today, now);
    inserted, touched := [], [];
    var seen := known;
    var i := 0;
    while i < |rs|
      invariant store.Valid()
      invariant WriteProgress(rs, crawlDate, today, now, goal, cls, i, store.State(), seen, inserted, touched)
      decreases |rs| - i
    {
      ghost var w := WriteOf(store.State(), rs[i], seen, crawlDate, today, now);
      WriteStep(rs, crawlDate, today, now, goal, cls, i, store.State(), seen, inserted, touched, w);
      var code := rs[i].uniqueCode;
      err := WriteOne(store, rs[i], seen, crawlDate, now, today);
      if err.Some? {
        return;
      }
      assert store.State() == w.value.0;
      if code in seen {
        touched := touched + [code];
      } else {
        inserted := inserted + [code];
        seen := seen + {code};
      }
      i := i + 1;
    }
    WriteEnd(rs, crawlDate, today, now, goal, cls, store.State(), seen, inserted, touched);
    return None, inserted, touched;
  }

  /**
   * `run_monthly`: one record per code, listed by code and cut to
   * `max_records`, classified against the codes the store knows, and
   * written unless `dry_run`; a write that raises ends the run with the
   * earlier writes kept.
   */
  method RunMonthly(store: InfoStore, records: seq<CrawledRecord>, crawlDate: string, maxRecords: int, dryRun: bool,
                    now: string, today: Date)
    returns (r: Result<MonthlyReport>)
    requires store.Valid() && ValidDate(today)
    modifies store
    ensures store.Valid()
    ensures var monthly := Limit(ByCode(BestByCode(records)), maxRecords);
      var known := KnownIn(old(store.State()), now);
      var c := Classify(monthly, known);
      var w := MonthlyWrites(old(store.State()), monthly, known, crawlDate, today, now);
      && (dryRun ==> store.State() == old(store.State()) && r == Ok(MonthlyReport(|records|, c.0, c.1, false)))
      && (!dryRun ==> store.State() == w.0 && (r.Err? <==> w.1.Some?) && (r.Err? ==> r.error == w.1.value))
      && (!dryRun && r.Ok? ==> r.value == MonthlyReport(|records|, c.0, c.1, true))
  {
    var best := DedupeByCode(records);
    var monthly := Limit(ByCode(best), maxRecords);
    var rows := store.IterRecords(now);
    KnownCodesOfRecords(store.State(), rows, now);
    var known := KnownCodes(rows);
    var inserted, touched;
    if !dryRun {
      var err;
      err, inserted, touched := WriteMonthly(store, monthly, known, crawlDate, now, today);
      if err.Some? {
        return Err(err.value);
      }
    } else {
      inserted, touched := ClassifyMonthly(monthly, known);
    }
    r := Ok(MonthlyReport(|records|, inserted, touched, !dryRun));
  }
}
