/**
 * A namespace of partitioned rows and its key index, shared by both stores.
 * A namespace maps a partition name (a file stem) to its rows in file order;
 * the index maps each record key to the partition and position holding it.
 * The two stores differ only in how a row's key is read.
 */
module Partitions {
  import opened Py
  import opened Order

  datatype Location = Location(partition: string, index: nat)

  type Parts = map<string, seq<Row>>
  type Index = map<string, Location>

  /**
   * How a store reads a row's key and orders a partition's rows.  The empty
   * key means the row is not indexed.  The lemmas below hold for any rule;
   * the two stores' rules are `RawUniqueCode` and `RecordKey`.
   */
  datatype KeyRule = KeyRule(key: Row -> string, sortKey: Row -> seq<int>)

  function KeyOf(rule: KeyRule, row: Row): string
  {
    rule.key(row)
  }

  /** The ledger store's key: the raw `unique_code` string. */
  function UniqueCodeKey(row: Row): string
  {
    match Get(row, KUniqueCode)
    case Str(s) => s
    case _ => ""
  }

  /** The ledger store's row order: `str(row.get("unique_code", ""))`. */
  function UniqueCodeOrder(row: Row): seq<int>
  {
    Codes(PyStr(GetOr(row, KUniqueCode, Str(""))))
  }

  const RawUniqueCode: KeyRule := KeyRule(UniqueCodeKey, UniqueCodeOrder)

  /** `InfoStore._row_key`: the stripped `record_key`, else the stripped `unique_code`. */
  function RowKey(row: Row): string
  {
    var rk := Get(row, KRecordKey);
    var uc := Get(row, KUniqueCode);
    if rk.Str? && Strip(rk.s) != "" then Strip(rk.s)
    else if uc.Str? && Strip(uc.s) != "" then Strip(uc.s)
    else ""
  }

  /** The info store's row order: by `_row_key(row)`. */
  function RowKeyOrder(row: Row): seq<int>
  {
    Codes(RowKey(row))
  }

  const RecordKey: KeyRule := KeyRule(RowKey, RowKeyOrder)

  function SortRows(rows: seq<Row>, rule: KeyRule): (r: seq<Row>)
    ensures |r| == |rows|
  {
    SortBy(rows, rule.sortKey)
  }

  /** The sorted rows are a permutation of the input, in key order. */
  lemma SortRowsCorrect(rows: seq<Row>, rule: KeyRule)
    ensures multiset(SortRows(rows, rule)) == multiset(rows)
    ensures SortedBy(SortRows(rows, rule), rule.sortKey)
  {
    SortByCorrect(rows, rule.sortKey);
  }

  // ------------------------------------------------------------ positions

  predicate Pos(parts: Parts, q: string, j: int)
  {
    q in parts && 0 <= j < |parts[q]|
  }

  predicate At(parts: Parts, loc: Location, k: string, rule: KeyRule)
  {
    Pos(parts, loc.partition, loc.index) && KeyOf(rule, parts[loc.partition][loc.index]) == k
  }

  /** No key occurs at two positions of the namespace. */
  ghost predicate Unique(parts: Parts, rule: KeyRule)
  {
    forall q, j, q2, j2 ::
      (Pos(parts, q, j) && Pos(parts, q2, j2) && KeyOf(rule, parts[q][j]) != ""
       && KeyOf(rule, parts[q][j]) == KeyOf(rule, parts[q2][j2])) ==> q == q2 && j == j2
  }

  /** No key occurs twice in one row list. */
  predicate NoDup(rows: seq<Row>, rule: KeyRule)
  {
    forall i, j :: (0 <= i < |rows| && 0 <= j < |rows| && KeyOf(rule, rows[i]) != ""
                    && KeyOf(rule, rows[i]) == KeyOf(rule, rows[j])) ==> i == j
  }

  /**
   * The index is exactly the key map of the namespace: every entry points at
   * a row with that key (soundness) and every keyed row is the target of its
   * key's entry (completeness).
   */
  ghost predicate Exact(parts: Parts, idx: Index, rule: KeyRule)
  {
    (forall k :: k in idx ==> k != "" && At(parts, idx[k], k, rule))
    && (forall q, j :: Pos(parts, q, j) && KeyOf(rule, parts[q][j]) != "" ==>
          KeyOf(rule, parts[q][j]) in idx && idx[KeyOf(rule, parts[q][j])] == Location(q, j))
  }

  /** An exact index can only exist when keys are unique. */
  lemma ExactUnique(parts: Parts, idx: Index, rule: KeyRule)
    requires Exact(parts, idx, rule)
    ensures Unique(parts, rule)
  {
  }

  /** The exact index of a namespace is determined by its rows. */
  lemma ExactDeterministic(parts: Parts, i1: Index, i2: Index, rule: KeyRule)
    requires Exact(parts, i1, rule) && Exact(parts, i2, rule)
    ensures i1 == i2
  {
    forall k | k in i1 ensures k in i2 && i2[k] == i1[k] {
      var l := i1[k];
      assert Pos(parts, l.partition, l.index) && KeyOf(rule, parts[l.partition][l.index]) == k;
    }
    forall k | k in i2 ensures k in i1 {
      var l := i2[k];
      assert Pos(parts, l.partition, l.index) && KeyOf(rule, parts[l.partition][l.index]) == k;
    }
  }

  /** The row holding key `k`, if the index is exact. */
  function Lookup(parts: Parts, idx: Index, k: string, rule: KeyRule): (r: Option<Row>)
    requires Exact(parts, idx, rule)
    ensures r.Some? ==> k != "" && KeyOf(rule, r.value) == k
  {
    if k in idx then
      var l := idx[k];
      Some(parts[l.partition][l.index])
    else None
  }

  /** Through an exact index, a key is found exactly when some row carries it. */
  lemma LookupFinds(parts: Parts, idx: Index, k: string, rule: KeyRule)
    requires Exact(parts, idx, rule)
    ensures Lookup(parts, idx, k, rule).Some? <==> exists q, j :: Pos(parts, q, j) && k != "" && KeyOf(rule, parts[q][j]) == k
  {
    if k in idx {
      assert At(parts, idx[k], k, rule);
    }
  }

  // -------------------------------------------------------- refresh_index

  /** `parts` limited to the partitions in `done`, plus the first `i` rows of `p`. */
  function Scanned(parts: Parts, done: set<string>, p: string, i: nat): (r: Parts)
    requires p in parts && i <= |parts[p]|
    ensures forall q :: q in r <==> (q in done && q in parts) || q == p
  {
    (map q | q in done && q in parts :: parts[q])[p := parts[p][..i]]
  }

  /** Two positions of a sub-namespace that share a key are a duplicate of the whole. */
  lemma DuplicateWitness(parts: Parts, done: set<string>, p: string, i: nat, l: Location, rule: KeyRule)
    requires p in parts && i < |parts[p]| && p !in done
    requires At(Scanned(parts, done, p, i), l, KeyOf(rule, parts[p][i]), rule)
    requires KeyOf(rule, parts[p][i]) != ""
    ensures !Unique(parts, rule)
  {
    var s := Scanned(parts, done, p, i);
    assert s[l.partition][l.index] == parts[l.partition][l.index];
    assert Pos(parts, l.partition, l.index) && Pos(parts, p, i);
    assert l.partition != p || l.index < i;
  }

  /** Adding the next unseen key keeps the index exact for the scanned rows. */
  lemma ScanStep(parts: Parts, done: set<string>, p: string, i: nat, idx: Index, rule: KeyRule)
    requires p in parts && i < |parts[p]| && p !in done
    requires Exact(Scanned(parts, done, p, i), idx, rule)
    requires var k := KeyOf(rule, parts[p][i]); k == "" || k !in idx
    ensures var k := KeyOf(rule, parts[p][i]);
      Exact(Scanned(parts, done, p, i + 1), if k == "" then idx else idx[k := Location(p, i)], rule)
  {
    ScanSound(parts, done, p, i, idx, rule);
    ScanComplete(parts, done, p, i, idx, rule);
  }

  /** The entries of the extended index point at rows with their keys. */
  lemma ScanSound(parts: Parts, done: set<string>, p: string, i: nat, idx: Index, rule: KeyRule)
    requires p in parts && i < |parts[p]| && p !in done
    requires Exact(Scanned(parts, done, p, i), idx, rule)
    ensures var k := KeyOf(rule, parts[p][i]);
      var idx1 := if k == "" then idx else idx[k := Location(p, i)];
      forall k2 :: k2 in idx1 ==> k2 != "" && At(Scanned(parts, done, p, i + 1), idx1[k2], k2, rule)
  {
    var k := KeyOf(rule, parts[p][i]);
    var s0, s1 := Scanned(parts, done, p, i), Scanned(parts, done, p, i + 1);
    var idx1 := if k == "" then idx else idx[k := Location(p, i)];
    forall k2 | k2 in idx1 ensures k2 != "" && At(s1, idx1[k2], k2, rule) {
      if k2 != k {
        var l := idx[k2];
        assert At(s0, l, k2, rule);
        assert s1[l.partition][l.index] == s0[l.partition][l.index];
      }
    }
  }

  /** Every keyed row of the scanned prefix is the target of its key's entry. */
  lemma ScanComplete(parts: Parts, done: set<string>, p: string, i: nat, idx: Index, rule: KeyRule)
    requires p in parts && i < |parts[p]| && p !in done
    requires Exact(Scanned(parts, done, p, i), idx, rule)
    requires var k := KeyOf(rule, parts[p][i]); k == "" || k !in idx
    ensures var k := KeyOf(rule, parts[p][i]);
      var idx1, s1 := (if k == "" then idx else idx[k := Location(p, i)]), Scanned(parts, done, p, i + 1);
      forall q, j :: Pos(s1, q, j) && KeyOf(rule, s1[q][j]) != "" ==>
        KeyOf(rule, s1[q][j]) in idx1 && idx1[KeyOf(rule, s1[q][j])] == Location(q, j)
  {
    var k := KeyOf(rule, parts[p][i]);
    var s0, s1 := Scanned(parts, done, p, i), Scanned(parts, done, p, i + 1);
    var idx1 := if k == "" then idx else idx[k := Location(p, i)];
    forall q, j | Pos(s1, q, j) && KeyOf(rule, s1[q][j]) != ""
      ensures KeyOf(rule, s1[q][j]) in idx1 && idx1[KeyOf(rule, s1[q][j])] == Location(q, j)
    {
      if q == p && j == i {
      } else {
        assert Pos(s0, q, j) && s0[q][j] == s1[q][j];
        assert KeyOf(rule, s1[q][j]) in idx;
      }
    }
  }

  /** The partitions already scanned. */
  function Done(parts: Parts, done: set<string>): Parts
  {
    map q | q in done && q in parts :: parts[q]
  }

  /** Finishing partition `p` moves it into the done set. */
  lemma ScanNext(parts: Parts, done: set<string>, p: string)
    requires p in parts
    ensures Scanned(parts, done, p, 0) == Done(parts, done)[p := []]
    ensures Scanned(parts, done, p, |parts[p]|) == Done(parts, done + {p})
  {
    assert parts[p][..|parts[p]|] == parts[p];
  }

  /** The rows of one partition, in file order, as `refresh_index` scans them. */
  method ScanPartition(parts: Parts, done: set<string>, p: string, idx0: Index, rule: KeyRule)
    returns (r: Result<Index>)
    requires p in parts && p !in done
    requires Exact(Done(parts, done)[p := []], idx0, rule)
    ensures r.Ok? ==> Exact(Done(parts, done + {p}), r.value, rule)
    ensures r.Err? ==> !Unique(parts, rule) && r.error.DuplicateUniqueCode?
  {
    ScanNext(parts, done, p);
    var rows := parts[p];
    var idx := idx0;
    var i := 0;
    while i < |rows|
      invariant 0 <= i <= |rows|
      invariant Exact(Scanned(parts, done, p, i), idx, rule)
    {
      var k := KeyOf(rule, rows[i]);
      if k != "" && k in idx {
        DuplicateWitness(parts, done, p, i, idx[k], rule);
        return Err(DuplicateUniqueCode(k));
      }
      ScanStep(parts, done, p, i, idx, rule);
      if k != "" {
        idx := idx[k := Location(p, i)];
      }
      i := i + 1;
    }
    return Ok(idx);
  }

  /**
   * `refresh_index`: scan every partition (in some order) and every row in
   * file order, skipping rows without a key, failing on the first key met
   * twice.  It succeeds exactly when keys are unique, and then yields the
   * exact index.
   */
  method BuildIndex(parts: Parts, rule: KeyRule) returns (r: Result<Index>)
    ensures r.Ok? <==> Unique(parts, rule)
    ensures r.Ok? ==> Exact(parts, r.value, rule)
    ensures r.Err? ==> r.error.DuplicateUniqueCode?
  {
    var idx: Index := map[];
    var done: set<string> := {};
    var todo := parts.Keys;
    while todo != {}
      invariant todo + done == parts.Keys && todo !! done
      invariant Exact(Done(parts, done), idx, rule)
      decreases |todo|
    {
      var p :| p in todo;
      EmptyPartitionExact(Done(parts, done), idx, p, rule);
      r := ScanPartition(parts, done, p, idx, rule);
      if r.Err? {
        return;
      }
      idx := r.value;
      done := done + {p};
      todo := todo - {p};
    }
    assert Done(parts, done) == parts;
    ExactUnique(parts, idx, rule);
    return Ok(idx);
  }

  /** An empty partition holds no key. */
  lemma EmptyPartitionExact(parts: Parts, idx: Index, p: string, rule: KeyRule)
    requires Exact(parts, idx, rule) && p !in parts
    ensures Exact(parts[p := []], idx, rule)
  {
    var s := parts[p := []];
    forall k | k in idx ensures At(s, idx[k], k, rule) {
      assert At(parts, idx[k], k, rule);
    }
  }

  // ---------------------------------------------------- _reindex_partition

  /** The index without the entries pointing into partition `p`. */
  function Clean(idx: Index, p: string): (r: Index)
    ensures forall k :: k in r <==> k in idx && idx[k].partition != p
    ensures forall k :: k in r ==> r[k] == idx[k]
  {
    map k | k in idx && idx[k].partition != p :: idx[k]
  }

  /**
   * Re-adding the rows of `p` from position `i` on: a key the index already
   * sends to another partition is a duplicate; a repeat within `p` points
   * at its later row.
   */
  function ReindexFrom(idx: Index, p: string, rows: seq<Row>, i: nat, rule: KeyRule): Result<Index>
    requires i <= |rows|
    decreases |rows| - i
  {
    if i == |rows| then Ok(idx)
    else
      var k := KeyOf(rule, rows[i]);
      if k == "" then ReindexFrom(idx, p, rows, i + 1, rule)
      else if k in idx && idx[k].partition != p then Err(DuplicateUniqueCode(k))
      else ReindexFrom(idx[k := Location(p, i)], p, rows, i + 1, rule)
  }

  function Reindex(idx: Index, p: string, rows: seq<Row>, rule: KeyRule): Result<Index>
  {
    ReindexFrom(Clean(idx, p), p, rows, 0, rule)
  }

  /** `_reindex_partition(p)` after `p` was rewritten to `rows`. */
  method ReindexPartition(idx: Index, p: string, rows: seq<Row>, rule: KeyRule) returns (r: Result<Index>)
    ensures r == Reindex(idx, p, rows, rule)
  {
    var cur := Clean(idx, p);
    var i := 0;
    while i < |rows|
      invariant 0 <= i <= |rows|
      invariant Reindex(idx, p, rows, rule) == ReindexFrom(cur, p, rows, i, rule)
    {
      var k := KeyOf(rule, rows[i]);
      if k != "" {
        if k in cur && cur[k].partition != p {
          return Err(DuplicateUniqueCode(k));
        }
        cur := cur[k := Location(p, i)];
      }
      i := i + 1;
    }
    return Ok(cur);
  }

  /** No row of `rows` carries a key that another partition holds. */
  ghost predicate FreshFor(parts: Parts, p: string, rows: seq<Row>, rule: KeyRule)
  {
    forall q, j, i :: Pos(parts, q, j) && q != p && 0 <= i < |rows| && KeyOf(rule, rows[i]) != ""
      ==> KeyOf(rule, parts[q][j]) != KeyOf(rule, rows[i])
  }

  /** One more row of the rewritten partition: its key is new, and adding it keeps exactness. */
  lemma ReindexStep(parts: Parts, p: string, rows: seq<Row>, i: nat, cur: Index, rule: KeyRule)
    requires i < |rows| && p in parts && parts[p] == rows
    requires NoDup(rows, rule) && FreshFor(parts, p, rows, rule)
    requires Exact(parts[p := rows[..i]], cur, rule)
    ensures var k := KeyOf(rule, rows[i]); k != "" ==> k !in cur
    ensures var k := KeyOf(rule, rows[i]);
      Exact(parts[p := rows[..i + 1]], if k == "" then cur else cur[k := Location(p, i)], rule)
  {
    ReindexFresh(parts, p, rows, i, cur, rule);
    ReindexSound(parts, p, rows, i, cur, rule);
    ReindexComplete(parts, p, rows, i, cur, rule);
  }

  /** The next row's key is not yet in the index. */
  lemma ReindexFresh(parts: Parts, p: string, rows: seq<Row>, i: nat, cur: Index, rule: KeyRule)
    requires i < |rows| && p in parts && parts[p] == rows
    requires NoDup(rows, rule) && FreshFor(parts, p, rows, rule)
    requires Exact(parts[p := rows[..i]], cur, rule)
    ensures var k := KeyOf(rule, rows[i]); k != "" ==> k !in cur
  {
    var s0 := parts[p := rows[..i]];
    var k := KeyOf(rule, rows[i]);
    if k != "" && k in cur {
      var l := cur[k];
      assert At(s0, l, k, rule);
      if l.partition == p {
        assert false;
      } else {
        assert Pos(parts, l.partition, l.index);
        assert false;
      }
    }
  }

  /** The entries of the extended index point at rows with their keys. */
  lemma ReindexSound(parts: Parts, p: string, rows: seq<Row>, i: nat, cur: Index, rule: KeyRule)
    requires i < |rows| && p in parts && parts[p] == rows
    requires NoDup(rows, rule) && FreshFor(parts, p, rows, rule)
    requires Exact(parts[p := rows[..i]], cur, rule)
    ensures var k := KeyOf(rule, rows[i]);
      var next := if k == "" then cur else cur[k := Location(p, i)];
      forall k2 :: k2 in next ==> k2 != "" && At(parts[p := rows[..i + 1]], next[k2], k2, rule)
  {
    var s0 := parts[p := rows[..i]];
    var k := KeyOf(rule, rows[i]);
    var s1 := parts[p := rows[..i + 1]];
    var next := if k == "" then cur else cur[k := Location(p, i)];
    forall k2 | k2 in next ensures k2 != "" && At(s1, next[k2], k2, rule) {
      if k2 != k {
        var l := cur[k2];
        assert At(s0, l, k2, rule);
        if l.partition == p {
          assert rows[..i][l.index] == rows[..i + 1][l.index];
        }
      }
    }
  }

  /** Every keyed row of the extended prefix is the target of its key's entry. */
  lemma ReindexComplete(parts: Parts, p: string, rows: seq<Row>, i: nat, cur: Index, rule: KeyRule)
    requires i < |rows| && p in parts && parts[p] == rows
    requires NoDup(rows, rule) && FreshFor(parts, p, rows, rule)
    requires Exact(parts[p := rows[..i]], cur, rule)
    requires var k := KeyOf(rule, rows[i]); k != "" ==> k !in cur
    ensures var k := KeyOf(rule, rows[i]);
      var next, s1 := (if k == "" then cur else cur[k := Location(p, i)]), parts[p := rows[..i + 1]];
      forall q, j :: Pos(s1, q, j) && KeyOf(rule, s1[q][j]) != "" ==>
        KeyOf(rule, s1[q][j]) in next && next[KeyOf(rule, s1[q][j])] == Location(q, j)
  {
    var s0 := parts[p := rows[..i]];
    var k := KeyOf(rule, rows[i]);
    var s1 := parts[p := rows[..i + 1]];
    var next := if k == "" then cur else cur[k := Location(p, i)];
    forall q, j | Pos(s1, q, j) && KeyOf(rule, s1[q][j]) != ""
      ensures KeyOf(rule, s1[q][j]) in next && next[KeyOf(rule, s1[q][j])] == Location(q, j)
    {
      if q == p && j == i {
      } else if q == p {
        assert rows[..i + 1][j] == rows[..i][j];
        assert Pos(s0, q, j);
      } else {
        assert Pos(s0, q, j) && s0[q][j] == s1[q][j];
      }
    }
  }

  lemma {:induction false} ReindexFromExact(parts: Parts, p: string, rows: seq<Row>, i: nat, cur: Index, rule: KeyRule)
    requires i <= |rows| && p in parts && parts[p] == rows
    requires NoDup(rows, rule) && FreshFor(parts, p, rows, rule)
    requires Exact(parts[p := rows[..i]], cur, rule)
    ensures ReindexFrom(cur, p, rows, i, rule).Ok?
    ensures Exact(parts, ReindexFrom(cur, p, rows, i, rule).value, rule)
    decreases |rows| - i
  {
    if i == |rows| {
      assert rows[..i] == rows;
      assert parts[p := rows[..i]] == parts;
    } else {
      var k := KeyOf(rule, rows[i]);
      ReindexStep(parts, p, rows, i, cur, rule);
      ReindexFromExact(parts, p, rows, i + 1, if k == "" then cur else cur[k := Location(p, i)], rule);
    }
  }

  /** Dropping a partition's entries leaves the index exact for the rest. */
  lemma CleanExact(parts: Parts, idx: Index, p: string, rule: KeyRule)
    requires Exact(parts, idx, rule)
    ensures Exact(parts[p := []], Clean(idx, p), rule)
  {
    var s, c := parts[p := []], Clean(idx, p);
    forall k | k in c ensures k != "" && At(s, c[k], k, rule) {
      assert At(parts, idx[k], k, rule);
    }
    forall q, j | Pos(s, q, j) && KeyOf(rule, s[q][j]) != ""
      ensures KeyOf(rule, s[q][j]) in c && c[KeyOf(rule, s[q][j])] == Location(q, j)
    {
      assert q != p && Pos(parts, q, j);
    }
  }

  /** Freshness only looks at the other partitions. */
  lemma FreshForUpdate(parts: Parts, p: string, rows: seq<Row>, rule: KeyRule)
    requires FreshFor(parts, p, rows, rule)
    ensures FreshFor(parts[p := rows], p, rows, rule)
  {
    var np := parts[p := rows];
    forall q, j, i | Pos(np, q, j) && q != p && 0 <= i < |rows| && KeyOf(rule, rows[i]) != ""
      ensures KeyOf(rule, np[q][j]) != KeyOf(rule, rows[i])
    {
      assert Pos(parts, q, j);
    }
  }

  /**
   * Rewriting one partition and reindexing it keeps the index exact when
   * the new rows repeat no key, neither among themselves nor from another
   * partition.
   */
  lemma ReindexExact(parts: Parts, idx: Index, p: string, rows: seq<Row>, rule: KeyRule)
    requires Exact(parts, idx, rule)
    requires NoDup(rows, rule) && FreshFor(parts, p, rows, rule)
    ensures Reindex(idx, p, rows, rule).Ok?
    ensures Exact(parts[p := rows], Reindex(idx, p, rows, rule).value, rule)
  {
    var np := parts[p := rows];
    CleanExact(parts, idx, p, rule);
    assert np[p := rows[..0]] == parts[p := []];
    FreshForUpdate(parts, p, rows, rule);
    ReindexFromExact(np, p, rows, 0, Clean(idx, p), rule);
  }

  // ----------------------------------------------------------- row lists

  /** The rows whose key is not `k` (`[row for row in rows if key(row) != k]`). */
  function Without(rows: seq<Row>, k: string, rule: KeyRule): (r: seq<Row>)
    ensures |r| <= |rows|
  {
    if rows == [] then []
    else if KeyOf(rule, rows[0]) != k then [rows[0]] + Without(rows[1..], k, rule)
    else Without(rows[1..], k, rule)
  }

  /** Filtering drops every row with key `k` and keeps the others. */
  lemma {:induction false} WithoutProps(rows: seq<Row>, k: string, rule: KeyRule)
    ensures forall i :: 0 <= i < |Without(rows, k, rule)| ==> KeyOf(rule, Without(rows, k, rule)[i]) != k
    ensures multiset(Without(rows, k, rule)) <= multiset(rows)
  {
    WithoutDrops(rows, k, rule);
    WithoutSub(rows, k, rule);
  }

  lemma {:induction false} WithoutDrops(rows: seq<Row>, k: string, rule: KeyRule)
    ensures forall i :: 0 <= i < |Without(rows, k, rule)| ==> KeyOf(rule, Without(rows, k, rule)[i]) != k
  {
    if rows != [] {
      var t := Without(rows[1..], k, rule);
      WithoutDrops(rows[1..], k, rule);
      if KeyOf(rule, rows[0]) != k {
        var r := [rows[0]] + t;
        assert forall i :: 1 <= i < |r| ==> r[i] == t[i - 1];
      }
    }
  }

  lemma {:induction false} WithoutSub(rows: seq<Row>, k: string, rule: KeyRule)
    ensures multiset(Without(rows, k, rule)) <= multiset(rows)
  {
    if rows != [] {
      WithoutSub(rows[1..], k, rule);
      assert rows == [rows[0]] + rows[1..];
    }
  }

  lemma {:induction false} WithoutKeeps(rows: seq<Row>, k: string, rule: KeyRule, row: Row)
    requires row in rows && KeyOf(rule, row) != k
    ensures row in Without(rows, k, rule)
  {
    if rows[0] != row {
      WithoutKeeps(rows[1..], k, rule, row);
    }
  }

  lemma CountTwo(s: seq<Row>, i: int, j: int)
    requires 0 <= i < j < |s| && s[i] == s[j]
    ensures multiset(s)[s[i]] >= 2
  {
    assert s == s[..j] + [s[j]] + s[j + 1..];
    assert s[i] in multiset(s[..j]) by { assert s[..j][i] == s[i]; }
  }

  lemma TwoPositions(s: seq<Row>, x: Row)
    requires multiset(s)[x] >= 2
    ensures exists i, j :: 0 <= i < j < |s| && s[i] == x && s[j] == x
  {
    assert x in multiset(s);
    var i :| 0 <= i < |s| && s[i] == x;
    assert s == s[..i] + [s[i]] + s[i + 1..];
    assert multiset(s[..i])[x] + multiset(s[i + 1..])[x] >= 1;
    if x in multiset(s[..i]) {
      var i2 :| 0 <= i2 < i && s[..i][i2] == x;
      assert s[i2] == x;
    } else {
      assert x in s[i + 1..];
      var j2 :| 0 <= j2 < |s| - i - 1 && s[i + 1..][j2] == x;
      assert s[i + 1 + j2] == x;
    }
  }

  /** A sub-multiset of a duplicate-free list is duplicate-free. */
  lemma SubNoDup(a: seq<Row>, b: seq<Row>, rule: KeyRule)
    requires multiset(b) <= multiset(a) && NoDup(a, rule)
    ensures NoDup(b, rule)
  {
    forall i, j | 0 <= i < j < |b| && b[i] == b[j] ensures KeyOf(rule, b[i]) == "" {
      CountTwo(b, i, j);
      TwoPositions(a, b[i]);
    }
    forall i, j | 0 <= i < |b| && 0 <= j < |b| && b[i] != b[j] && KeyOf(rule, b[i]) != ""
      ensures KeyOf(rule, b[i]) != KeyOf(rule, b[j])
    {
      assert b[i] in multiset(a) && b[j] in multiset(a);
    }
  }

  // ------------------------------------------------ rewriting a partition

  /** `_read_partition(p)`: a partition without a file reads as empty. */
  function RowsOf(parts: Parts, p: string): seq<Row>
  {
    if p in parts then parts[p] else []
  }

  /** The rows of the partitions `names`, one partition after another, as `iter_records` reads them. */
  function RowsIn(parts: Parts, names: seq<string>): seq<Row>
  {
    if names == [] then [] else RowsIn(parts, names[..|names| - 1]) + RowsOf(parts, names[|names| - 1])
  }

  /** A row is read exactly when it sits in one of the partitions named. */
  lemma {:induction false} RowsInMembers(parts: Parts, names: seq<string>, x: Row)
    ensures x in RowsIn(parts, names) <==> exists q, j :: q in names && Pos(parts, q, j) && parts[q][j] == x
  {
    if names != [] {
      var init, last := names[..|names| - 1], names[|names| - 1];
      RowsInMembers(parts, init, x);
      if x in RowsOf(parts, last) {
        var j :| 0 <= j < |RowsOf(parts, last)| && RowsOf(parts, last)[j] == x;
        assert Pos(parts, last, j) && parts[last][j] == x;
      }
      if exists q, j :: q in names && Pos(parts, q, j) && parts[q][j] == x {
        var q, j :| q in names && Pos(parts, q, j) && parts[q][j] == x;
        if q != last {
          assert q in init;
        } else {
          assert x in RowsOf(parts, last);
        }
      }
    }
  }

  lemma ExactNoDup(parts: Parts, idx: Index, p: string, rule: KeyRule)
    requires Exact(parts, idx, rule)
    ensures NoDup(RowsOf(parts, p), rule)
  {
    if p in parts {
      forall i, j | 0 <= i < |parts[p]| && 0 <= j < |parts[p]| && KeyOf(rule, parts[p][i]) != ""
        && KeyOf(rule, parts[p][i]) == KeyOf(rule, parts[p][j])
        ensures i == j
      {
        assert Pos(parts, p, i) && Pos(parts, p, j);
      }
    }
  }

  lemma ExactFresh(parts: Parts, idx: Index, p: string, rule: KeyRule)
    requires Exact(parts, idx, rule)
    ensures FreshFor(parts, p, RowsOf(parts, p), rule)
  {
    if p in parts {
      forall q, j, i | Pos(parts, q, j) && q != p && 0 <= i < |parts[p]| && KeyOf(rule, parts[p][i]) != ""
        ensures KeyOf(rule, parts[q][j]) != KeyOf(rule, parts[p][i])
      {
        assert Pos(parts, p, i);
      }
    }
  }

  /** A key the exact index lacks occurs nowhere. */
  lemma ExactAbsent(parts: Parts, idx: Index, k: string, rule: KeyRule)
    requires Exact(parts, idx, rule) && k != "" && k !in idx
    ensures forall q, j :: Pos(parts, q, j) ==> KeyOf(rule, parts[q][j]) != k
  {
  }

  lemma FreshSub(parts: Parts, p: string, a: seq<Row>, b: seq<Row>, rule: KeyRule)
    requires FreshFor(parts, p, a, rule) && multiset(b) <= multiset(a)
    ensures FreshFor(parts, p, b, rule)
  {
    forall q, j, i | Pos(parts, q, j) && q != p && 0 <= i < |b| && KeyOf(rule, b[i]) != ""
      ensures KeyOf(rule, parts[q][j]) != KeyOf(rule, b[i])
    {
      assert b[i] in multiset(a);
      var i2 :| 0 <= i2 < |a| && a[i2] == b[i];
    }
  }

  lemma NoDupAppend(a: seq<Row>, row: Row, rule: KeyRule)
    requires NoDup(a, rule)
    requires forall i :: 0 <= i < |a| ==> KeyOf(rule, a[i]) != KeyOf(rule, row)
    ensures NoDup(a + [row], rule)
  {
    var b := a + [row];
    assert forall i :: 0 <= i < |a| ==> b[i] == a[i];
    assert b[|a|] == row;
  }

  lemma FreshAppend(parts: Parts, p: string, a: seq<Row>, row: Row, rule: KeyRule)
    requires FreshFor(parts, p, a, rule)
    requires forall q, j :: Pos(parts, q, j) && q != p ==> KeyOf(rule, parts[q][j]) != KeyOf(rule, row)
    ensures FreshFor(parts, p, a + [row], rule)
  {
    var b := a + [row];
    forall q, j, i | Pos(parts, q, j) && q != p && 0 <= i < |b| && KeyOf(rule, b[i]) != ""
      ensures KeyOf(rule, parts[q][j]) != KeyOf(rule, b[i])
    {
      if i < |a| { assert b[i] == a[i]; } else { assert b[i] == row; }
    }
  }

  /** After an exact reindex, the key's entry is the row's new place. */
  lemma ExactHolds(parts: Parts, idx: Index, p: string, row: Row, rule: KeyRule)
    requires Exact(parts, idx, rule) && p in parts && row in parts[p] && KeyOf(rule, row) != ""
    ensures Lookup(parts, idx, KeyOf(rule, row), rule) == Some(row)
    ensures KeyOf(rule, row) in idx && idx[KeyOf(rule, row)].partition == p
  {
    var i :| 0 <= i < |parts[p]| && parts[p][i] == row;
    assert Pos(parts, p, i);
  }

  /**
   * Insertion (`rows.append(row)`, sort, write, `_reindex_partition`) of a
   * row whose key is new keeps the index exact.
   */
  lemma InsertExact(parts: Parts, idx: Index, p: string, row: Row, rule: KeyRule)
    requires Exact(parts, idx, rule)
    requires KeyOf(rule, row) != "" && KeyOf(rule, row) !in idx
    ensures var rows := SortRows(RowsOf(parts, p) + [row], rule);
      Reindex(idx, p, rows, rule).Ok? && Exact(parts[p := rows], Reindex(idx, p, rows, rule).value, rule)
  {
    var a := RowsOf(parts, p) + [row];
    var rows := SortRows(a, rule);
    ExactAbsent(parts, idx, KeyOf(rule, row), rule);
    ExactNoDup(parts, idx, p, rule);
    forall i | 0 <= i < |RowsOf(parts, p)| ensures KeyOf(rule, RowsOf(parts, p)[i]) != KeyOf(rule, row) {
      assert Pos(parts, p, i);
    }
    NoDupAppend(RowsOf(parts, p), row, rule);
    ExactFresh(parts, idx, p, rule);
    FreshAppend(parts, p, RowsOf(parts, p), row, rule);
    SortRowsCorrect(a, rule);
    SubNoDup(a, rows, rule);
    FreshSub(parts, p, a, rows, rule);
    ReindexExact(parts, idx, p, rows, rule);
  }

  /**
   * Replacing the row at an index entry by a row with the same key, then
   * sorting and reindexing the partition, keeps the index exact.
   */
  lemma ReplaceExact(parts: Parts, idx: Index, k: string, row: Row, rule: KeyRule)
    requires Exact(parts, idx, rule) && k in idx && KeyOf(rule, row) == k
    ensures var l := idx[k];
      var rows := SortRows(parts[l.partition][l.index := row], rule);
      Reindex(idx, l.partition, rows, rule).Ok?
      && Exact(parts[l.partition := rows], Reindex(idx, l.partition, rows, rule).value, rule)
  {
    var l := idx[k];
    var p := l.partition;
    assert At(parts, l, k, rule);
    var a := parts[p][l.index := row];
    var rows := SortRows(a, rule);
    ExactNoDup(parts, idx, p, rule);
    ExactFresh(parts, idx, p, rule);
    assert NoDup(a, rule) by {
      forall i, j | 0 <= i < |a| && 0 <= j < |a| && KeyOf(rule, a[i]) != "" && KeyOf(rule, a[i]) == KeyOf(rule, a[j])
        ensures i == j
      {
        assert KeyOf(rule, a[i]) == KeyOf(rule, parts[p][i]) && KeyOf(rule, a[j]) == KeyOf(rule, parts[p][j]);
      }
    }
    assert FreshFor(parts, p, a, rule) by {
      forall q, j, i | Pos(parts, q, j) && q != p && 0 <= i < |a| && KeyOf(rule, a[i]) != ""
        ensures KeyOf(rule, parts[q][j]) != KeyOf(rule, a[i])
      {
        assert KeyOf(rule, a[i]) == KeyOf(rule, parts[p][i]);
      }
    }
    SortRowsCorrect(a, rule);
    SubNoDup(a, rows, rule);
    FreshSub(parts, p, a, rows, rule);
    ReindexExact(parts, idx, p, rows, rule);
  }

  /**
   * Moving the row with key `k` out of its partition into partition `t`:
   * the source loses every row with key `k`, the target loses them too and
   * gains `row`; both are sorted and reindexed, source first.
   */
  lemma MoveExact(parts: Parts, idx: Index, k: string, t: string, row: Row, rule: KeyRule)
    requires Exact(parts, idx, rule) && k in idx && KeyOf(rule, row) == k && t != idx[k].partition
    ensures var s := idx[k].partition;
      var src := SortRows(Without(parts[s], k, rule), rule);
      var tgt := SortRows(Without(RowsOf(parts, t), k, rule) + [row], rule);
      Reindex(idx, s, src, rule).Ok?
      && Reindex(Reindex(idx, s, src, rule).value, t, tgt, rule).Ok?
      && Exact(parts[s := src][t := tgt], Reindex(Reindex(idx, s, src, rule).value, t, tgt, rule).value, rule)
  {
    var s := idx[k].partition;
    var src := SortRows(Without(parts[s], k, rule), rule);
    MoveOut(parts, idx, k, rule);
    var parts1 := parts[s := src];
    var idx1 := Reindex(idx, s, src, rule).value;
    ExactAbsent(parts1, idx1, k, rule);
    forall i | 0 <= i < |RowsOf(parts1, t)| ensures KeyOf(rule, RowsOf(parts1, t)[i]) != k {
      assert Pos(parts1, t, i);
    }
    WithoutNone(RowsOf(parts1, t), k, rule);
    assert RowsOf(parts1, t) == RowsOf(parts, t);
    InsertExact(parts1, idx1, t, row, rule);
  }

  /** Filtering the row with key `k` out of its partition, then sorting and reindexing it. */
  lemma MoveOut(parts: Parts, idx: Index, k: string, rule: KeyRule)
    requires Exact(parts, idx, rule) && k in idx
    ensures var s := idx[k].partition;
      var src := SortRows(Without(parts[s], k, rule), rule);
      Reindex(idx, s, src, rule).Ok? && Exact(parts[s := src], Reindex(idx, s, src, rule).value, rule)
      && k !in Reindex(idx, s, src, rule).value
  {
    var l := idx[k];
    var s := l.partition;
    assert At(parts, l, k, rule);
    var w := Without(parts[s], k, rule);
    var src := SortRows(w, rule);
    WithoutProps(parts[s], k, rule);
    SortRowsCorrect(w, rule);
    ExactNoDup(parts, idx, s, rule);
    ExactFresh(parts, idx, s, rule);
    SubNoDup(parts[s], src, rule);
    FreshSub(parts, s, parts[s], src, rule);
    ReindexExact(parts, idx, s, src, rule);
    var parts1 := parts[s := src];
    var idx1 := Reindex(idx, s, src, rule).value;
    forall q, j | Pos(parts1, q, j) ensures KeyOf(rule, parts1[q][j]) != k {
      if q == s {
        assert src[j] in multiset(w);
        var j2 :| 0 <= j2 < |w| && w[j2] == src[j];
      } else {
        assert Pos(parts, q, j);
      }
    }
  }

  /** Filtering a key no row carries changes nothing. */
  lemma {:induction false} WithoutNone(rows: seq<Row>, k: string, rule: KeyRule)
    requires forall i :: 0 <= i < |rows| ==> KeyOf(rule, rows[i]) != k
    ensures Without(rows, k, rule) == rows
  {
    if rows != [] {
      WithoutNone(rows[1..], k, rule);
    }
  }

  /** After an insertion the key finds the inserted row, and the partition is sorted. */
  lemma InsertLands(parts: Parts, idx: Index, p: string, row: Row, rule: KeyRule)
    requires Exact(parts, idx, rule)
    requires KeyOf(rule, row) != "" && KeyOf(rule, row) !in idx
    ensures var rows := SortRows(RowsOf(parts, p) + [row], rule);
      Reindex(idx, p, rows, rule).Ok?
      && Exact(parts[p := rows], Reindex(idx, p, rows, rule).value, rule)
      && Lookup(parts[p := rows], Reindex(idx, p, rows, rule).value, KeyOf(rule, row), rule) == Some(row)
      && Reindex(idx, p, rows, rule).value[KeyOf(rule, row)].partition == p
      && SortedBy(rows, rule.sortKey)
  {
    var a := RowsOf(parts, p) + [row];
    var rows := SortRows(a, rule);
    InsertExact(parts, idx, p, row, rule);
    SortRowsCorrect(a, rule);
    assert row in multiset(rows) by { assert a[|a| - 1] == row; }
    ExactHolds(parts[p := rows], Reindex(idx, p, rows, rule).value, p, row, rule);
  }

  /** After a replacement the key finds the new row, and the partition is sorted. */
  lemma ReplaceLands(parts: Parts, idx: Index, k: string, row: Row, rule: KeyRule)
    requires Exact(parts, idx, rule) && k in idx && KeyOf(rule, row) == k
    ensures var l := idx[k];
      var rows := SortRows(parts[l.partition][l.index := row], rule);
      Reindex(idx, l.partition, rows, rule).Ok?
      && Exact(parts[l.partition := rows], Reindex(idx, l.partition, rows, rule).value, rule)
      && Lookup(parts[l.partition := rows], Reindex(idx, l.partition, rows, rule).value, k, rule) == Some(row)
      && Reindex(idx, l.partition, rows, rule).value[k].partition == l.partition
      && SortedBy(rows, rule.sortKey)
  {
    var l := idx[k];
    assert At(parts, l, k, rule);
    var a := parts[l.partition][l.index := row];
    var rows := SortRows(a, rule);
    ReplaceExact(parts, idx, k, row, rule);
    SortRowsCorrect(a, rule);
    assert row in multiset(rows) by { assert a[l.index] == row; }
    ExactHolds(parts[l.partition := rows], Reindex(idx, l.partition, rows, rule).value, l.partition, row, rule);
  }

  /** After a move the key finds the moved row in the target, and the target is sorted. */
  lemma MoveLands(parts: Parts, idx: Index, k: string, t: string, row: Row, rule: KeyRule)
    requires Exact(parts, idx, rule) && k in idx && KeyOf(rule, row) == k && t != idx[k].partition
    ensures var s := idx[k].partition;
      var src := SortRows(Without(parts[s], k, rule), rule);
      var tgt := SortRows(Without(RowsOf(parts, t), k, rule) + [row], rule);
      Reindex(idx, s, src, rule).Ok?
      && Reindex(Reindex(idx, s, src, rule).value, t, tgt, rule).Ok?
      && Exact(parts[s := src][t := tgt], Reindex(Reindex(idx, s, src, rule).value, t, tgt, rule).value, rule)
      && Lookup(parts[s := src][t := tgt], Reindex(Reindex(idx, s, src, rule).value, t, tgt, rule).value, k, rule) == Some(row)
      && Reindex(Reindex(idx, s, src, rule).value, t, tgt, rule).value[k].partition == t
      && SortedBy(tgt, rule.sortKey)
  {
    var s := idx[k].partition;
    var src := SortRows(Without(parts[s], k, rule), rule);
    var a := Without(RowsOf(parts, t), k, rule) + [row];
    var tgt := SortRows(a, rule);
    MoveExact(parts, idx, k, t, row, rule);
    SortRowsCorrect(a, rule);
    assert row in multiset(tgt) by { assert a[|a| - 1] == row; }
    var np := parts[s := src][t := tgt];
    ExactHolds(np, Reindex(Reindex(idx, s, src, rule).value, t, tgt, rule).value, t, row, rule);
  }

  /** Every partition other than `s` and `t` is unchanged. */
  predicate OthersKept(before: Parts, after: Parts, s: string, t: string)
  {
    forall p :: p in before && p != s && p != t ==> p in after && after[p] == before[p]
  }

  lemma OthersKeptByWrites(parts: Parts, s: string, a: seq<Row>, t: string, b: seq<Row>)
    ensures OthersKept(parts, parts[s := a], s, s)
    ensures OthersKept(parts, parts[s := a][t := b], s, t)
  {
  }

  /** Overwriting a row in place by one with the same key keeps the index exact. */
  lemma ReplaceSameKeyExact(parts: Parts, idx: Index, p: string, i: nat, row: Row, rule: KeyRule)
    requires Exact(parts, idx, rule) && Pos(parts, p, i) && KeyOf(rule, row) == KeyOf(rule, parts[p][i])
    ensures Exact(parts[p := parts[p][i := row]], idx, rule)
  {
    var np := parts[p := parts[p][i := row]];
    forall k | k in idx ensures At(np, idx[k], k, rule) {
      assert At(parts, idx[k], k, rule);
    }
    forall q, j | Pos(np, q, j) && KeyOf(rule, np[q][j]) != ""
      ensures KeyOf(rule, np[q][j]) in idx && idx[KeyOf(rule, np[q][j])] == Location(q, j)
    {
      assert Pos(parts, q, j) && KeyOf(rule, np[q][j]) == KeyOf(rule, parts[q][j]);
    }
  }

  /** Appending a row with a new key, and pointing the key at it, keeps the index exact. */
  lemma AppendFreshExact(parts: Parts, idx: Index, p: string, row: Row, rule: KeyRule)
    requires Exact(parts, idx, rule) && KeyOf(rule, row) != "" && KeyOf(rule, row) !in idx
    ensures var rows := RowsOf(parts, p);
      Exact(parts[p := rows + [row]], idx[KeyOf(rule, row) := Location(p, |rows|)], rule)
  {
    var rows := RowsOf(parts, p);
    var k := KeyOf(rule, row);
    var np := parts[p := rows + [row]];
    var ni := idx[k := Location(p, |rows|)];
    forall k2 | k2 in ni ensures k2 != "" && At(np, ni[k2], k2, rule) {
      if k2 != k {
        assert At(parts, idx[k2], k2, rule);
        assert idx[k2].partition == p ==> idx[k2].index < |rows|;
      }
    }
    forall q, j | Pos(np, q, j) && KeyOf(rule, np[q][j]) != ""
      ensures KeyOf(rule, np[q][j]) in ni && ni[KeyOf(rule, np[q][j])] == Location(q, j)
    {
      if !(q == p && j == |rows|) {
        assert Pos(parts, q, j) && np[q][j] == parts[q][j];
      }
    }
  }

  // ------------------------------------------------------ other keys kept

  /** Every row of `a` carrying key `k` also occurs somewhere in `b`. */
  ghost predicate KeyRowsIn(a: Parts, b: Parts, k: string, rule: KeyRule)
  {
    forall q, j :: Pos(a, q, j) && KeyOf(rule, a[q][j]) == k ==>
      exists q2, j2 :: Pos(b, q2, j2) && b[q2][j2] == a[q][j]
  }

  /** Two row lists hold the same rows carrying key `k`. */
  ghost predicate SameKeyRows(s: seq<Row>, t: seq<Row>, k: string, rule: KeyRule)
  {
    forall x :: KeyOf(rule, x) == k ==> (x in s <==> x in t)
  }

  /** Two exact namespaces holding the same rows with key `k` look `k` up alike. */
  lemma LookupAgrees(a: Parts, ia: Index, b: Parts, ib: Index, k: string, rule: KeyRule)
    requires Exact(a, ia, rule) && Exact(b, ib, rule)
    requires KeyRowsIn(a, b, k, rule) && KeyRowsIn(b, a, k, rule)
    ensures Lookup(b, ib, k, rule) == Lookup(a, ia, k, rule)
  {
    if k in ia {
      var l := ia[k];
      assert At(a, l, k, rule);
      var q2, j2 :| Pos(b, q2, j2) && b[q2][j2] == a[l.partition][l.index];
      assert KeyOf(rule, b[q2][j2]) == k;
    }
    if k in ib {
      var l := ib[k];
      assert At(b, l, k, rule);
      var q, j :| Pos(a, q, j) && a[q][j] == b[l.partition][l.index];
      assert KeyOf(rule, a[q][j]) == k;
    }
  }

  /** Rewriting one partition keeps the rows with key `k` when the new list holds the same ones. */
  lemma RewriteKeeps(a: Parts, p: string, rows: seq<Row>, k: string, rule: KeyRule)
    requires SameKeyRows(rows, RowsOf(a, p), k, rule)
    ensures KeyRowsIn(a, a[p := rows], k, rule) && KeyRowsIn(a[p := rows], a, k, rule)
  {
    var b := a[p := rows];
    forall q, j | Pos(a, q, j) && KeyOf(rule, a[q][j]) == k
      ensures exists q2, j2 :: Pos(b, q2, j2) && b[q2][j2] == a[q][j]
    {
      if q == p {
        assert a[q][j] in RowsOf(a, p);
        var j2 :| 0 <= j2 < |rows| && rows[j2] == a[q][j];
        assert Pos(b, p, j2) && b[p][j2] == a[q][j];
      } else {
        assert Pos(b, q, j) && b[q][j] == a[q][j];
      }
    }
    forall q, j | Pos(b, q, j) && KeyOf(rule, b[q][j]) == k
      ensures exists q2, j2 :: Pos(a, q2, j2) && a[q2][j2] == b[q][j]
    {
      if q == p {
        assert rows[j] in RowsOf(a, p);
        var j2 :| 0 <= j2 < |RowsOf(a, p)| && RowsOf(a, p)[j2] == rows[j];
        assert Pos(a, p, j2) && a[p][j2] == b[q][j];
      } else {
        assert Pos(a, q, j) && a[q][j] == b[q][j];
      }
    }
  }

  lemma KeyRowsInTrans(a: Parts, b: Parts, c: Parts, k: string, rule: KeyRule)
    requires KeyRowsIn(a, b, k, rule) && KeyRowsIn(b, c, k, rule)
    ensures KeyRowsIn(a, c, k, rule)
  {
    forall q, j | Pos(a, q, j) && KeyOf(rule, a[q][j]) == k
      ensures exists q3, j3 :: Pos(c, q3, j3) && c[q3][j3] == a[q][j]
    {
      var q2, j2 :| Pos(b, q2, j2) && b[q2][j2] == a[q][j];
      assert KeyOf(rule, b[q2][j2]) == k;
    }
  }

  /** Sorting keeps every row. */
  lemma SortKeeps(s: seq<Row>, k: string, rule: KeyRule)
    ensures SameKeyRows(SortRows(s, rule), s, k, rule)
  {
    SortRowsCorrect(s, rule);
    forall x | KeyOf(rule, x) == k ensures x in SortRows(s, rule) <==> x in s {
      assert x in multiset(SortRows(s, rule)) <==> x in multiset(s);
    }
  }

  /** Appending a row with another key keeps the rows with key `k`. */
  lemma AppendKeeps(s: seq<Row>, row: Row, k: string, rule: KeyRule)
    requires KeyOf(rule, row) != k
    ensures SameKeyRows(s + [row], s, k, rule)
  {
  }

  /** Overwriting a row with another key by one with another key keeps the rows with key `k`. */
  lemma SetKeeps(s: seq<Row>, i: nat, row: Row, k: string, rule: KeyRule)
    requires i < |s| && KeyOf(rule, s[i]) != k && KeyOf(rule, row) != k
    ensures SameKeyRows(s[i := row], s, k, rule)
  {
    forall x | KeyOf(rule, x) == k ensures x in s[i := row] <==> x in s {
      if x in s {
        var j :| 0 <= j < |s| && s[j] == x;
        assert s[i := row][j] == x;
      }
      if x in s[i := row] {
        var j :| 0 <= j < |s| && s[i := row][j] == x;
        assert s[j] == x;
      }
    }
  }

  /** Dropping the rows with another key keeps the rows with key `k`. */
  lemma WithoutKeepsOthers(s: seq<Row>, key: string, k: string, rule: KeyRule)
    requires key != k
    ensures SameKeyRows(Without(s, key, rule), s, k, rule)
  {
    WithoutProps(s, key, rule);
    forall x | KeyOf(rule, x) == k ensures x in Without(s, key, rule) <==> x in s {
      if x in s {
        WithoutKeeps(s, key, rule, x);
      }
      if x in Without(s, key, rule) {
        assert x in multiset(Without(s, key, rule));
      }
    }
  }

  /** An insertion of a row with another key keeps the rows with key `k`. */
  lemma InsertKeepsRows(a: Parts, p: string, row: Row, k: string, rule: KeyRule)
    requires KeyOf(rule, row) != k
    ensures var b := a[p := SortRows(RowsOf(a, p) + [row], rule)];
      KeyRowsIn(a, b, k, rule) && KeyRowsIn(b, a, k, rule)
  {
    AppendKeeps(RowsOf(a, p), row, k, rule);
    SortKeeps(RowsOf(a, p) + [row], k, rule);
    RewriteKeeps(a, p, SortRows(RowsOf(a, p) + [row], rule), k, rule);
  }

  /** A replacement of a row with another key keeps the rows with key `k`. */
  lemma ReplaceKeepsRows(a: Parts, p: string, i: nat, row: Row, k: string, rule: KeyRule)
    requires Pos(a, p, i) && KeyOf(rule, a[p][i]) != k && KeyOf(rule, row) != k
    ensures var b := a[p := SortRows(a[p][i := row], rule)];
      KeyRowsIn(a, b, k, rule) && KeyRowsIn(b, a, k, rule)
  {
    SetKeeps(a[p], i, row, k, rule);
    SortKeeps(a[p][i := row], k, rule);
    RewriteKeeps(a, p, SortRows(a[p][i := row], rule), k, rule);
  }

  /** A move of the rows with another key keeps the rows with key `k`. */
  lemma MoveKeepsRows(a: Parts, s: string, t: string, key: string, row: Row, k: string, rule: KeyRule)
    requires s in a && s != t && key != k && KeyOf(rule, row) != k
    ensures var b := a[s := SortRows(Without(a[s], key, rule), rule)]
                      [t := SortRows(Without(RowsOf(a, t), key, rule) + [row], rule)];
      KeyRowsIn(a, b, k, rule) && KeyRowsIn(b, a, k, rule)
  {
    var w := Without(a[s], key, rule);
    WithoutKeepsOthers(a[s], key, k, rule);
    SortKeeps(w, k, rule);
    var a1 := a[s := SortRows(w, rule)];
    RewriteKeeps(a, s, SortRows(w, rule), k, rule);
    assert RowsOf(a1, t) == RowsOf(a, t);
    var w2 := Without(RowsOf(a, t), key, rule);
    WithoutKeepsOthers(RowsOf(a, t), key, k, rule);
    AppendKeeps(w2, row, k, rule);
    SortKeeps(w2 + [row], k, rule);
    var b := a1[t := SortRows(w2 + [row], rule)];
    RewriteKeeps(a1, t, SortRows(w2 + [row], rule), k, rule);
    KeyRowsInTrans(a, a1, b, k, rule);
    KeyRowsInTrans(b, a1, a, k, rule);
  }

  // ------------------------------------------------------------ the table

  /** What a namespace shows: the row of each indexed key. */
  ghost function Table(parts: Parts, idx: Index, rule: KeyRule): (m: map<string, Row>)
    requires Exact(parts, idx, rule)
  {
    map k | k in idx :: Lookup(parts, idx, k, rule).value
  }

  /** A write that lands `row` under `key` and looks every other key up as before changes the table at `key` only. */
  lemma TableAfterWrite(a: Parts, ia: Index, b: Parts, ib: Index, key: string, row: Row, rule: KeyRule)
    requires Exact(a, ia, rule) && Exact(b, ib, rule)
    requires Lookup(b, ib, key, rule) == Some(row)
    requires forall k :: k != key ==> Lookup(b, ib, k, rule) == Lookup(a, ia, k, rule)
    ensures Table(b, ib, rule) == Table(a, ia, rule)[key := row]
  {
    var tb, ta := Table(b, ib, rule), Table(a, ia, rule)[key := row];
    forall k
      ensures (k in tb <==> k in ta) && (k in tb ==> tb[k] == ta[k])
    {
      if k != key {
        assert Lookup(b, ib, k, rule) == Lookup(a, ia, k, rule);
      }
    }
  }

  /** An insert of a new key leaves every other key's lookup as it was. */
  lemma InsertKeepsLookups(parts: Parts, idx: Index, p: string, row: Row, rule: KeyRule)
    requires Exact(parts, idx, rule)
    requires KeyOf(rule, row) != "" && KeyOf(rule, row) !in idx
    ensures var rows := SortRows(RowsOf(parts, p) + [row], rule);
      Reindex(idx, p, rows, rule).Ok? && Exact(parts[p := rows], Reindex(idx, p, rows, rule).value, rule)
      && forall k :: k != KeyOf(rule, row) ==>
           Lookup(parts[p := rows], Reindex(idx, p, rows, rule).value, k, rule) == Lookup(parts, idx, k, rule)
  {
    var rows := SortRows(RowsOf(parts, p) + [row], rule);
    InsertLands(parts, idx, p, row, rule);
    var ix := Reindex(idx, p, rows, rule).value;
    forall k | k != KeyOf(rule, row)
      ensures Lookup(parts[p := rows], ix, k, rule) == Lookup(parts, idx, k, rule)
    {
      InsertKeepsRows(parts, p, row, k, rule);
      LookupAgrees(parts, idx, parts[p := rows], ix, k, rule);
    }
  }

  /** A replacement of the row of `k0` in place leaves every other key's lookup as it was. */
  lemma ReplaceKeepsLookups(parts: Parts, idx: Index, k0: string, row: Row, rule: KeyRule)
    requires Exact(parts, idx, rule) && k0 in idx && KeyOf(rule, row) == k0
    ensures var l := idx[k0];
      var rows := SortRows(parts[l.partition][l.index := row], rule);
      Reindex(idx, l.partition, rows, rule).Ok?
      && Exact(parts[l.partition := rows], Reindex(idx, l.partition, rows, rule).value, rule)
      && forall k :: k != k0 ==>
           Lookup(parts[l.partition := rows], Reindex(idx, l.partition, rows, rule).value, k, rule) == Lookup(parts, idx, k, rule)
  {
    var l := idx[k0];
    var rows := SortRows(parts[l.partition][l.index := row], rule);
    ReplaceLands(parts, idx, k0, row, rule);
    assert At(parts, l, k0, rule);
    var ix := Reindex(idx, l.partition, rows, rule).value;
    forall k | k != k0
      ensures Lookup(parts[l.partition := rows], ix, k, rule) == Lookup(parts, idx, k, rule)
    {
      ReplaceKeepsRows(parts, l.partition, l.index, row, k, rule);
      LookupAgrees(parts, idx, parts[l.partition := rows], ix, k, rule);
    }
  }

  /** A move of the row of `k0` to partition `t` leaves every other key's lookup as it was. */
  lemma MoveKeepsLookups(parts: Parts, idx: Index, k0: string, t: string, row: Row, rule: KeyRule)
    requires Exact(parts, idx, rule) && k0 in idx && KeyOf(rule, row) == k0 && t != idx[k0].partition
    ensures var s := idx[k0].partition;
      var src := SortRows(Without(parts[s], k0, rule), rule);
      var tgt := SortRows(Without(RowsOf(parts, t), k0, rule) + [row], rule);
      Reindex(idx, s, src, rule).Ok?
      && Reindex(Reindex(idx, s, src, rule).value, t, tgt, rule).Ok?
      && Exact(parts[s := src][t := tgt], Reindex(Reindex(idx, s, src, rule).value, t, tgt, rule).value, rule)
      && forall k :: k != k0 ==>
           Lookup(parts[s := src][t := tgt], Reindex(Reindex(idx, s, src, rule).value, t, tgt, rule).value, k, rule)
           == Lookup(parts, idx, k, rule)
  {
    var s := idx[k0].partition;
    var src := SortRows(Without(parts[s], k0, rule), rule);
    var tgt := SortRows(Without(RowsOf(parts, t), k0, rule) + [row], rule);
    MoveLands(parts, idx, k0, t, row, rule);
    assert At(parts, idx[k0], k0, rule);
    var ix := Reindex(Reindex(idx, s, src, rule).value, t, tgt, rule).value;
    forall k | k != k0
      ensures Lookup(parts[s := src][t := tgt], ix, k, rule) == Lookup(parts, idx, k, rule)
    {
      MoveKeepsRows(parts, s, t, k0, row, k, rule);
      LookupAgrees(parts, idx, parts[s := src][t := tgt], ix, k, rule);
    }
  }

  /** Inserting a new key changes the table at that key alone. */
  lemma InsertTable(parts: Parts, idx: Index, p: string, row: Row, rule: KeyRule)
    requires Exact(parts, idx, rule)
    requires KeyOf(rule, row) != "" && KeyOf(rule, row) !in idx
    ensures var rows := SortRows(RowsOf(parts, p) + [row], rule);
      Reindex(idx, p, rows, rule).Ok? && Exact(parts[p := rows], Reindex(idx, p, rows, rule).value, rule)
      && Table(parts[p := rows], Reindex(idx, p, rows, rule).value, rule) == Table(parts, idx, rule)[KeyOf(rule, row) := row]
  {
    var rows := SortRows(RowsOf(parts, p) + [row], rule);
    InsertLands(parts, idx, p, row, rule);
    InsertKeepsLookups(parts, idx, p, row, rule);
    TableAfterWrite(parts, idx, parts[p := rows], Reindex(idx, p, rows, rule).value, KeyOf(rule, row), row, rule);
  }

  /** Replacing a row in place changes the table at its key alone. */
  lemma ReplaceTable(parts: Parts, idx: Index, k0: string, row: Row, rule: KeyRule)
    requires Exact(parts, idx, rule) && k0 in idx && KeyOf(rule, row) == k0
    ensures var l := idx[k0];
      var rows := SortRows(parts[l.partition][l.index := row], rule);
      Reindex(idx, l.partition, rows, rule).Ok?
      && Exact(parts[l.partition := rows], Reindex(idx, l.partition, rows, rule).value, rule)
      && Table(parts[l.partition := rows], Reindex(idx, l.partition, rows, rule).value, rule) == Table(parts, idx, rule)[k0 := row]
  {
    var l := idx[k0];
    var rows := SortRows(parts[l.partition][l.index := row], rule);
    ReplaceLands(parts, idx, k0, row, rule);
    ReplaceKeepsLookups(parts, idx, k0, row, rule);
    TableAfterWrite(parts, idx, parts[l.partition := rows], Reindex(idx, l.partition, rows, rule).value, k0, row, rule);
  }

  /** Moving a row to partition `t` changes the table at its key alone. */
  lemma MoveTable(parts: Parts, idx: Index, k0: string, t: string, row: Row, rule: KeyRule)
    requires Exact(parts, idx, rule) && k0 in idx && KeyOf(rule, row) == k0 && t != idx[k0].partition
    ensures var s := idx[k0].partition;
      var src := SortRows(Without(parts[s], k0, rule), rule);
      var tgt := SortRows(Without(RowsOf(parts, t), k0, rule) + [row], rule);
      Reindex(idx, s, src, rule).Ok?
      && Reindex(Reindex(idx, s, src, rule).value, t, tgt, rule).Ok?
      && Exact(parts[s := src][t := tgt], Reindex(Reindex(idx, s, src, rule).value, t, tgt, rule).value, rule)
      && Table(parts[s := src][t := tgt], Reindex(Reindex(idx, s, src, rule).value, t, tgt, rule).value, rule)
         == Table(parts, idx, rule)[k0 := row]
  {
    var s := idx[k0].partition;
    var src := SortRows(Without(parts[s], k0, rule), rule);
    var tgt := SortRows(Without(RowsOf(parts, t), k0, rule) + [row], rule);
    MoveLands(parts, idx, k0, t, row, rule);
    MoveKeepsLookups(parts, idx, k0, t, row, rule);
    TableAfterWrite(parts, idx, parts[s := src][t := tgt], Reindex(Reindex(idx, s, src, rule).value, t, tgt, rule).value, k0, row, rule);
  }
}
