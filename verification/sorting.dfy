/** Stable sorting by a two-level key. Both the database's `ORDER BY` (whose ties the
    database may return in any order; keeping them in table order is this model's
    choice) and JavaScript's `Array.prototype.sort` (stable since ECMAScript 2019)
    are modelled by one insertion sort: an element goes before the first element whose
    key is not smaller, so elements with equal keys keep their input order. */
module Sorting {
  import opened Seqs

  /** A sort key: `tier` first, then `value`. */
  datatype Rank = Rank(tier: int, value: int)

  predicate Le(a: Rank, b: Rank)
  {
    a.tier < b.tier || (a.tier == b.tier && a.value <= b.value)
  }

  predicate SortedBy<T>(xs: seq<T>, key: T -> Rank)
  {
    forall i, j :: 0 <= i < j < |xs| ==> Le(key(xs[i]), key(xs[j]))
  }

  function HasKey<T>(key: T -> Rank, k: Rank): T -> bool
  {
    (x: T) => key(x) == k
  }

  /** Places `x` before the first element whose key is not smaller than its own. */
  function InsertByKey<T>(x: T, xs: seq<T>, key: T -> Rank): (r: seq<T>)
    ensures |r| == |xs| + 1
    ensures multiset(r) == multiset(xs) + multiset{x}
  {
    if |xs| == 0 then [x]
    else if Le(key(x), key(xs[0])) then [x] + xs
    else
      var rest := InsertByKey(x, xs[1..], key);
      assert xs == [xs[0]] + xs[1..];
      [xs[0]] + rest
  }

  /** The elements of `xs` ordered by `key`, equal keys in input order. */
  function SortByKey<T>(xs: seq<T>, key: T -> Rank): (r: seq<T>)
    ensures |r| == |xs|
    ensures multiset(r) == multiset(xs)
    ensures SortedBy(r, key)
  {
    if |xs| == 0 then []
    else
      var rest := SortByKey(xs[1..], key);
      InsertKeepsSorted(xs[0], rest, key);
      assert xs == [xs[0]] + xs[1..];
      InsertByKey(xs[0], rest, key)
  }

  lemma {:induction false} InsertKeepsSorted<T>(x: T, xs: seq<T>, key: T -> Rank)
    requires SortedBy(xs, key)
    ensures SortedBy(InsertByKey(x, xs, key), key)
  {
    if |xs| > 0 && !Le(key(x), key(xs[0])) {
      var rest := InsertByKey(x, xs[1..], key);
      SortedTail(xs, key);
      InsertKeepsSorted(x, xs[1..], key);
      var r := [xs[0]] + rest;
      forall j | 1 <= j < |r| ensures Le(key(r[0]), key(r[j])) {
        assert r[j] in multiset(rest);
        assert r[j] in multiset(xs[1..]) + multiset{x};
        if r[j] != x {
          assert r[j] in xs[1..];
          var k :| 0 <= k < |xs[1..]| && xs[1..][k] == r[j];
          assert xs[k + 1] == r[j];
        }
      }
    }
  }

  /** Dropping the first element keeps a sequence sorted. */
  lemma SortedTail<T>(xs: seq<T>, key: T -> Rank)
    requires |xs| > 0 && SortedBy(xs, key)
    ensures SortedBy(xs[1..], key)
  {
    forall i, j | 0 <= i < j < |xs[1..]| ensures Le(key(xs[1..][i]), key(xs[1..][j])) {
      assert xs[1..][i] == xs[i + 1] && xs[1..][j] == xs[j + 1];
    }
  }

  /** Inserting `x` adds it in front of the elements that share its key and leaves the
      other keys' elements as they were. */
  lemma {:induction false} InsertFilterKey<T>(x: T, xs: seq<T>, key: T -> Rank, k: Rank)
    ensures Filter(InsertByKey(x, xs, key), HasKey(key, k))
         == (if key(x) == k then [x] else []) + Filter(xs, HasKey(key, k))
  {
    if |xs| == 0 {
    } else if Le(key(x), key(xs[0])) {
      assert ([x] + xs)[1..] == xs;
    } else {
      InsertFilterKey(x, xs[1..], key, k);
      var r := [xs[0]] + InsertByKey(x, xs[1..], key);
      assert r[1..] == InsertByKey(x, xs[1..], key);
    }
  }

  /** Stability: for every key, the elements with that key appear in the output in the
      same order as in the input. */
  lemma {:induction false} SortStable<T>(xs: seq<T>, key: T -> Rank, k: Rank)
    ensures Filter(SortByKey(xs, key), HasKey(key, k)) == Filter(xs, HasKey(key, k))
  {
    if |xs| > 0 {
      SortStable(xs[1..], key, k);
      InsertFilterKey(xs[0], SortByKey(xs[1..], key), key, k);
    }
  }

  /** An input already in key order comes out unchanged. */
  lemma {:induction false} SortSorted<T>(xs: seq<T>, key: T -> Rank)
    requires SortedBy(xs, key)
    ensures SortByKey(xs, key) == xs
  {
    if |xs| > 0 {
      SortedTail(xs, key);
      SortSorted(xs[1..], key);
      if |xs| > 1 {
        assert Le(key(xs[0]), key(xs[1]));
      }
      assert xs == [xs[0]] + xs[1..];
    }
  }
}
