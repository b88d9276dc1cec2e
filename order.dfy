/**
 * Python's ordering of strings and tuples, and `list.sort(key=...)`.
 * A sort key is a sequence of integers compared lexicographically: a string
 * becomes its code points, and a tuple key is the concatenation of its
 * fixed-width integer parts and the string's code points.
 */
module Order {

  function Codes(s: string): (r: seq<int>)
    ensures |r| == |s|
    ensures forall i :: 0 <= i < |s| ==> r[i] == s[i] as int
  {
    seq(|s|, i requires 0 <= i < |s| => s[i] as int)
  }

  /** Lexicographic `<=` on integer sequences; a proper prefix is smaller. */
  predicate Le(a: seq<int>, b: seq<int>)
  {
    if a == [] then true
    else if b == [] then false
    else if a[0] != b[0] then a[0] < b[0]
    else Le(a[1..], b[1..])
  }

  /** `s <= t` on Python strings. */
  predicate StrLe(s: string, t: string)
  {
    Le(Codes(s), Codes(t))
  }

  lemma {:induction false} LeTotal(a: seq<int>, b: seq<int>)
    ensures Le(a, b) || Le(b, a)
  {
    if a != [] && b != [] && a[0] == b[0] { LeTotal(a[1..], b[1..]); }
  }

  lemma {:induction false} LeTrans(a: seq<int>, b: seq<int>, c: seq<int>)
    requires Le(a, b) && Le(b, c)
    ensures Le(a, c)
  {
    if a != [] && b != [] && c != [] && a[0] == b[0] && b[0] == c[0] {
      LeTrans(a[1..], b[1..], c[1..]);
    }
  }

  lemma {:induction false} LeAntisym(a: seq<int>, b: seq<int>)
    requires Le(a, b) && Le(b, a)
    ensures a == b
  {
    if a != [] && b != [] {
      LeAntisym(a[1..], b[1..]);
      assert a == [a[0]] + a[1..] && b == [b[0]] + b[1..];
    }
  }

  lemma CodesInjective(s: string, t: string)
    requires Codes(s) == Codes(t)
    ensures s == t
  {
    assert |s| == |t|;
    forall i | 0 <= i < |s| ensures s[i] == t[i] {
      assert Codes(s)[i] == Codes(t)[i];
    }
  }

  /** Python's string order is a total order. */
  lemma StrLeTotalOrder(s: string, t: string, u: string)
    ensures StrLe(s, t) || StrLe(t, s)
    ensures StrLe(s, t) && StrLe(t, s) ==> s == t
    ensures StrLe(s, t) && StrLe(t, u) ==> StrLe(s, u)
  {
    LeTotal(Codes(s), Codes(t));
    if StrLe(s, t) && StrLe(t, s) {
      LeAntisym(Codes(s), Codes(t));
      CodesInjective(s, t);
    }
    if StrLe(s, t) && StrLe(t, u) { LeTrans(Codes(s), Codes(t), Codes(u)); }
  }

  predicate SortedBy<T>(xs: seq<T>, key: T -> seq<int>)
  {
    forall i, j :: 0 <= i < j < |xs| ==> Le(key(xs[i]), key(xs[j]))
  }

  /** Insert `x` before the first element whose key is not below its own. */
  function Insert<T>(x: T, xs: seq<T>, key: T -> seq<int>): (r: seq<T>)
    ensures |r| == |xs| + 1
  {
    if xs == [] || Le(key(x), key(xs[0])) then [x] + xs
    else [xs[0]] + Insert(x, xs[1..], key)
  }

  /** `sorted(xs, key=key)`: a stable insertion sort. */
  function SortBy<T>(xs: seq<T>, key: T -> seq<int>): (r: seq<T>)
    ensures |r| == |xs|
  {
    if xs == [] then [] else Insert(xs[0], SortBy(xs[1..], key), key)
  }

  /** Every element's key is at least `b`. */
  predicate AllAbove<T>(xs: seq<T>, key: T -> seq<int>, b: seq<int>)
  {
    forall i :: 0 <= i < |xs| ==> Le(b, key(xs[i]))
  }

  lemma {:induction false} InsertLowerBound<T>(x: T, xs: seq<T>, key: T -> seq<int>, b: seq<int>)
    requires Le(b, key(x))
    requires AllAbove(xs, key, b)
    ensures AllAbove(Insert(x, xs, key), key, b)
  {
    var r := Insert(x, xs, key);
    if xs != [] && !Le(key(x), key(xs[0])) {
      var tail := Insert(x, xs[1..], key);
      assert r == [xs[0]] + tail;
      assert AllAbove(xs[1..], key, b) by {
        forall i | 0 <= i < |xs[1..]| ensures Le(b, key(xs[1..][i])) { assert xs[1..][i] == xs[i + 1]; }
      }
      InsertLowerBound(x, xs[1..], key, b);
      forall i | 0 <= i < |r| ensures Le(b, key(r[i])) {
        if i > 0 { assert r[i] == tail[i - 1]; }
      }
    } else {
      assert r == [x] + xs;
      forall i | 0 <= i < |r| ensures Le(b, key(r[i])) {
        if i > 0 { assert r[i] == xs[i - 1]; }
      }
    }
  }

  lemma {:induction false} InsertSorted<T>(x: T, xs: seq<T>, key: T -> seq<int>)
    requires SortedBy(xs, key)
    ensures SortedBy(Insert(x, xs, key), key)
  {
    var r := Insert(x, xs, key);
    if xs == [] {
    } else if Le(key(x), key(xs[0])) {
      forall i, j | 0 <= i < j < |r| ensures Le(key(r[i]), key(r[j])) {
        if i == 0 && j > 1 { LeTrans(key(x), key(xs[0]), key(xs[j - 1])); }
      }
    } else {
      var tail := Insert(x, xs[1..], key);
      assert r == [xs[0]] + tail;
      InsertSorted(x, xs[1..], key);
      LeTotal(key(x), key(xs[0]));
      assert AllAbove(xs[1..], key, key(xs[0])) by {
        forall i | 0 <= i < |xs[1..]| ensures Le(key(xs[0]), key(xs[1..][i])) { assert xs[1..][i] == xs[i + 1]; }
      }
      InsertLowerBound(x, xs[1..], key, key(xs[0]));
      forall i, j | 0 <= i < j < |r| ensures Le(key(r[i]), key(r[j])) {
        if i == 0 {
          assert r[0] == xs[0] && r[j] == tail[j - 1];
        } else {
          assert r[i] == tail[i - 1] && r[j] == tail[j - 1];
        }
      }
    }
  }

  lemma {:induction false} InsertMultiset<T>(x: T, xs: seq<T>, key: T -> seq<int>)
    ensures multiset(Insert(x, xs, key)) == multiset(xs) + multiset{x}
  {
    if xs != [] && !Le(key(x), key(xs[0])) {
      InsertMultiset(x, xs[1..], key);
      assert xs == [xs[0]] + xs[1..];
    }
  }

  /** The sort returns its input reordered by key. */
  lemma {:induction false} SortByCorrect<T>(xs: seq<T>, key: T -> seq<int>)
    ensures SortedBy(SortBy(xs, key), key)
    ensures multiset(SortBy(xs, key)) == multiset(xs)
  {
    if xs != [] {
      SortByCorrect(xs[1..], key);
      InsertSorted(xs[0], SortBy(xs[1..], key), key);
      InsertMultiset(xs[0], SortBy(xs[1..], key), key);
      assert xs == [xs[0]] + xs[1..];
    }
  }

  /** The sort is stable: an input already in key order comes back unchanged. */
  lemma {:induction false} SortBySorted<T>(xs: seq<T>, key: T -> seq<int>)
    requires SortedBy(xs, key)
    ensures SortBy(xs, key) == xs
  {
    if xs != [] {
      var rest := xs[1..];
      assert SortedBy(rest, key) by {
        forall i, j | 0 <= i < j < |rest| ensures Le(key(rest[i]), key(rest[j])) {
          assert rest[i] == xs[i + 1] && rest[j] == xs[j + 1];
        }
      }
      SortBySorted(rest, key);
      if rest != [] {
        assert Le(key(xs[0]), key(xs[1]));
        assert rest[0] == xs[1];
      }
      assert [xs[0]] + rest == xs;
    }
  }

  /** The sort neither loses nor invents elements. */
  lemma SortByElements<T>(xs: seq<T>, key: T -> seq<int>)
    ensures forall y :: y in SortBy(xs, key) <==> y in xs
  {
    SortByCorrect(xs, key);
    forall y ensures y in SortBy(xs, key) <==> y in xs {
      assert y in SortBy(xs, key) <==> y in multiset(SortBy(xs, key));
      assert y in xs <==> y in multiset(xs);
    }
  }

  /** The code-point key of a string, for sorting by `str` values. */
  function StrKey(s: string): seq<int>
  {
    Codes(s)
  }

  /** `sorted(names, key=key)`: every name once, in key order. */
  method SortedNames(names: set<string>, key: string -> seq<int>) returns (r: seq<string>)
    ensures |r| == |names| && (forall p :: p in r <==> p in names)
    ensures SortedBy(r, key)
    ensures forall i, j :: 0 <= i < j < |r| ==> r[i] != r[j]
  {
    var acc: seq<string> := [];
    var rest := names;
    while rest != {}
      invariant rest <= names && |acc| + |rest| == |names|
      invariant forall p :: p in acc <==> p in names && p !in rest
      decreases |rest|
    {
      var p :| p in rest;
      acc := acc + [p];
      rest := rest - {p};
    }
    r := SortBy(acc, key);
    SortByCorrect(acc, key);
    SortByElements(acc, key);
    assert (set x | x in r) == names;
    DistinctByCount(r);
  }

  /** `m` comes first under `key` among the elements of `s`. */
  predicate IsMinBy<T>(s: set<T>, key: T -> seq<int>, m: T)
  {
    m in s && forall x :: x in s ==> Le(key(m), key(x))
  }

  /** No two elements of `s` share a key. */
  predicate KeyInjective<T>(s: set<T>, key: T -> seq<int>)
  {
    forall a, b :: a in s && b in s && key(a) == key(b) ==> a == b
  }

  lemma {:induction false} MinByExists<T>(s: set<T>, key: T -> seq<int>)
    requires s != {}
    ensures exists m :: IsMinBy(s, key, m)
    decreases |s|
  {
    var x :| x in s;
    if s == {x} {
      LeTotal(key(x), key(x));
      assert IsMinBy(s, key, x);
    } else {
      MinByExists(s - {x}, key);
      var m :| IsMinBy(s - {x}, key, m);
      LeTotal(key(m), key(x));
      if Le(key(m), key(x)) {
        assert IsMinBy(s, key, m);
      } else {
        forall y | y in s ensures Le(key(x), key(y)) {
          if y != x {
            LeTrans(key(x), key(m), key(y));
          } else {
            LeTotal(key(x), key(x));
          }
        }
        assert IsMinBy(s, key, x);
      }
    }
  }

  lemma MinByUnique<T>(s: set<T>, key: T -> seq<int>)
    requires KeyInjective(s, key)
    ensures forall a, b :: IsMinBy(s, key, a) && IsMinBy(s, key, b) ==> a == b
  {
    forall a, b | IsMinBy(s, key, a) && IsMinBy(s, key, b) ensures a == b {
      LeAntisym(key(a), key(b));
    }
  }

  /** The element of `s` that comes first under `key`. */
  function MinBy<T>(s: set<T>, key: T -> seq<int>): (m: T)
    requires s != {} && KeyInjective(s, key)
    ensures IsMinBy(s, key, m)
  {
    MinByExists(s, key);
    MinByUnique(s, key);
    var m :| IsMinBy(s, key, m);
    m
  }

  /** `sorted(s, key=key)` for a set whose keys differ: every element once, ascending. */
  function SortedSet<T(!new)>(s: set<T>, key: T -> seq<int>): (r: seq<T>)
    requires KeyInjective(s, key)
    ensures |r| == |s| && (forall x :: x in r <==> x in s)
    ensures SortedBy(r, key)
    ensures forall i, j :: 0 <= i < j < |r| ==> r[i] != r[j]
    decreases |s|
  {
    if s == {} then []
    else
      var m := MinBy(s, key);
      var rest := SortedSet(s - {m}, key);
      assert forall j :: 0 <= j < |rest| ==> Le(key(m), key(rest[j])) && rest[j] != m;
      [m] + rest
  }

  lemma StrKeyInjective(s: set<string>)
    ensures KeyInjective(s, StrKey)
  {
    forall a, b | a in s && b in s && StrKey(a) == StrKey(b) ensures a == b {
      CodesInjective(a, b);
    }
  }

  /** `min(s)` on strings: the least in Python's string order. */
  function MinStr(s: set<string>): (m: string)
    requires s != {}
    ensures m in s && forall x :: x in s ==> StrLe(m, x)
  {
    StrKeyInjective(s);
    MinBy(s, StrKey)
  }

  /** A sequence with a repeated element has fewer distinct elements than its length. */
  lemma {:induction false} SetOfSeqSmaller<T>(xs: seq<T>, i: int, j: int)
    requires 0 <= i < j < |xs| && xs[i] == xs[j]
    ensures |set x | x in xs| < |xs|
    decreases |xs|
  {
    var last := |xs| - 1;
    var init := xs[..last];
    assert (set x | x in xs) == (set x | x in init) + {xs[last]};
    if j == last {
      assert xs[last] in init;
      assert (set x | x in xs) == (set x | x in init);
      SetOfSeqAtMost(init);
    } else {
      SetOfSeqSmaller(init, i, j);
    }
  }

  lemma {:induction false} SetOfSeqAtMost<T>(xs: seq<T>)
    ensures |set x | x in xs| <= |xs|
    decreases |xs|
  {
    if xs != [] {
      var init := xs[..|xs| - 1];
      assert (set x | x in xs) == (set x | x in init) + {xs[|xs| - 1]};
      SetOfSeqAtMost(init);
    }
  }

  /** A sequence as long as its set of elements repeats nothing. */
  lemma DistinctByCount<T>(xs: seq<T>)
    requires |set x | x in xs| == |xs|
    ensures forall i, j :: 0 <= i < j < |xs| ==> xs[i] != xs[j]
  {
    forall i, j | 0 <= i < j < |xs| ensures xs[i] != xs[j] {
      if xs[i] == xs[j] {
        SetOfSeqSmaller(xs, i, j);
      }
    }
  }
}
