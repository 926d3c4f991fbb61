/** Order-preserving selection over sequences: the shape of JavaScript's
    `Array.prototype.filter` and of a SQL `WHERE` over a table scanned in order. */
module Seqs {

  /** `a` can be obtained from `b` by deleting elements, keeping the rest in order. */
  predicate IsSubsequence<T(==)>(a: seq<T>, b: seq<T>)
    decreases |b|
  {
    if |a| == 0 then true
    else if |b| == 0 then false
    else if a[0] == b[0] then IsSubsequence(a[1..], b[1..])
    else IsSubsequence(a, b[1..])
  }

  /** Number of elements of `xs` satisfying `p`. */
  function CountWhere<T>(xs: seq<T>, p: T -> bool): nat
  {
    if |xs| == 0 then 0 else (if p(xs[0]) then 1 else 0) + CountWhere(xs[1..], p)
  }

  /** The elements of `xs` satisfying `p`, in their original order. */
  function Filter<T(==)>(xs: seq<T>, p: T -> bool): (r: seq<T>)
    ensures |r| == CountWhere(xs, p)
    ensures forall i :: 0 <= i < |r| ==> r[i] in xs && p(r[i])
    ensures forall i :: 0 <= i < |xs| && p(xs[i]) ==> xs[i] in r
    ensures IsSubsequence(r, xs)
  {
    if |xs| == 0 then []
    else if p(xs[0]) then [xs[0]] + Filter(xs[1..], p)
    else
      var rest := Filter(xs[1..], p);
      SubsequenceOfTail(rest, xs);
      rest
  }

  /** A subsequence of the tail is a subsequence of the whole. */
  lemma {:induction false} SubsequenceOfTail<T>(a: seq<T>, b: seq<T>)
    requires |b| > 0 && IsSubsequence(a, b[1..])
    ensures IsSubsequence(a, b)
    decreases |a| + |b|
  {
    if |a| > 0 && a[0] == b[0] {
      SubsequenceDropFirst(a, b[1..]);
    }
  }

  /** Dropping the first element of a subsequence keeps it a subsequence. */
  lemma {:induction false} SubsequenceDropFirst<T>(a: seq<T>, b: seq<T>)
    requires |a| > 0 && IsSubsequence(a, b)
    ensures IsSubsequence(a[1..], b)
    decreases |a| + |b|
  {
    assert |b| > 0;
    if a[0] == b[0] {
      SubsequenceOfTail(a[1..], b);
    } else {
      SubsequenceDropFirst(a, b[1..]);
      SubsequenceOfTail(a[1..], b);
    }
  }

  /** Filtering distributes over concatenation. */
  lemma {:induction false} FilterAppend<T>(a: seq<T>, b: seq<T>, p: T -> bool)
    ensures Filter(a + b, p) == Filter(a, p) + Filter(b, p)
  {
    if |a| == 0 {
      assert a + b == b;
    } else {
      assert (a + b)[0] == a[0];
      assert (a + b)[1..] == a[1..] + b;
      FilterAppend(a[1..], b, p);
    }
  }

  /** Every element is counted on exactly one side of a predicate. */
  lemma {:induction false} CountComplement<T>(xs: seq<T>, p: T -> bool, q: T -> bool)
    requires forall x :: q(x) == !p(x)
    ensures CountWhere(xs, p) + CountWhere(xs, q) == |xs|
  {
    if |xs| > 0 {
      CountComplement(xs[1..], p, q);
    }
  }

  /** Filtering with a predicate no element satisfies yields nothing, and one every
      element satisfies yields the sequence itself. */
  lemma {:induction false} FilterAllOrNothing<T>(xs: seq<T>, p: T -> bool)
    ensures (forall i :: 0 <= i < |xs| ==> p(xs[i])) ==> Filter(xs, p) == xs
    ensures (forall i :: 0 <= i < |xs| ==> !p(xs[i])) ==> Filter(xs, p) == []
  {
    if |xs| > 0 {
      FilterAllOrNothing(xs[1..], p);
      if forall i :: 0 <= i < |xs| ==> p(xs[i]) {
        assert forall i :: 0 <= i < |xs[1..]| ==> p(xs[1..][i]) by {
          forall i | 0 <= i < |xs[1..]| ensures p(xs[1..][i]) { assert xs[1..][i] == xs[i + 1]; }
        }
        assert [xs[0]] + xs[1..] == xs;
      }
      if forall i :: 0 <= i < |xs| ==> !p(xs[i]) {
        assert forall i :: 0 <= i < |xs[1..]| ==> !p(xs[1..][i]) by {
          forall i | 0 <= i < |xs[1..]| ensures !p(xs[1..][i]) { assert xs[1..][i] == xs[i + 1]; }
        }
      }
    }
  }

  /** No two elements share a key. */
  predicate Distinct<T>(xs: seq<T>, key: T -> int)
  {
    forall i, j :: 0 <= i < j < |xs| ==> key(xs[i]) != key(xs[j])
  }

  /** Filtering keeps keys distinct. */
  lemma {:induction false} FilterKeepsDistinct<T>(xs: seq<T>, p: T -> bool, key: T -> int)
    requires Distinct(xs, key)
    ensures Distinct(Filter(xs, p), key)
  {
    if |xs| > 0 {
      DistinctTail(xs, key);
      FilterKeepsDistinct(xs[1..], p, key);
      var rest := Filter(xs[1..], p);
      if p(xs[0]) {
        HeadKeyFresh(xs, rest, key);
        ConsDistinct(xs[0], rest, key);
      }
    }
  }

  lemma DistinctTail<T>(xs: seq<T>, key: T -> int)
    requires |xs| > 0 && Distinct(xs, key)
    ensures Distinct(xs[1..], key)
  {
    forall i, j | 0 <= i < j < |xs[1..]| ensures key(xs[1..][i]) != key(xs[1..][j]) {
      assert xs[1..][i] == xs[i + 1] && xs[1..][j] == xs[j + 1];
    }
  }

  /** No element drawn from the tail shares the head's key. */
  lemma HeadKeyFresh<T>(xs: seq<T>, rest: seq<T>, key: T -> int)
    requires |xs| > 0 && Distinct(xs, key)
    requires forall j :: 0 <= j < |rest| ==> rest[j] in xs[1..]
    ensures forall j :: 0 <= j < |rest| ==> key(rest[j]) != key(xs[0])
  {
    forall j | 0 <= j < |rest| ensures key(rest[j]) != key(xs[0]) {
      var k :| 0 <= k < |xs[1..]| && xs[1..][k] == rest[j];
      assert xs[k + 1] == rest[j];
    }
  }

  /** An element whose key is new can be put in front. */
  lemma ConsDistinct<T>(x: T, rest: seq<T>, key: T -> int)
    requires Distinct(rest, key)
    requires forall j :: 0 <= j < |rest| ==> key(rest[j]) != key(x)
    ensures Distinct([x] + rest, key)
  {
    var r := [x] + rest;
    forall i, j | 0 <= i < j < |r| ensures key(r[i]) != key(r[j]) {
      assert r[j] == rest[j - 1];
      if i > 0 {
        assert r[i] == rest[i - 1];
      }
    }
  }

  /** When keys are distinct, at most one element satisfies a predicate that pins
      the key to one value. */
  lemma {:induction false} AtMostOneWithKey<T>(xs: seq<T>, p: T -> bool, key: T -> int, k: int)
    requires Distinct(xs, key)
    requires forall x :: p(x) ==> key(x) == k
    ensures CountWhere(xs, p) <= 1
  {
    if |xs| > 0 {
      assert Distinct(xs[1..], key) by {
        forall i, j | 0 <= i < j < |xs[1..]| ensures key(xs[1..][i]) != key(xs[1..][j]) {
          assert xs[1..][i] == xs[i + 1] && xs[1..][j] == xs[j + 1];
        }
      }
      AtMostOneWithKey(xs[1..], p, key, k);
      if p(xs[0]) {
        forall i | 0 <= i < |xs[1..]| ensures !p(xs[1..][i]) {
          assert xs[1..][i] == xs[i + 1];
        }
        NoneSatisfyCountsZero(xs[1..], p);
      }
    }
  }

  lemma {:induction false} NoneSatisfyCountsZero<T>(xs: seq<T>, p: T -> bool)
    requires forall i :: 0 <= i < |xs| ==> !p(xs[i])
    ensures CountWhere(xs, p) == 0
  {
    if |xs| > 0 {
      assert forall i :: 0 <= i < |xs[1..]| ==> !p(xs[1..][i]) by {
        forall i | 0 <= i < |xs[1..]| ensures !p(xs[1..][i]) { assert xs[1..][i] == xs[i + 1]; }
      }
      NoneSatisfyCountsZero(xs[1..], p);
    }
  }

  /** The count is zero exactly when no element satisfies the predicate. */
  lemma {:induction false} CountZeroIff<T>(xs: seq<T>, p: T -> bool)
    ensures CountWhere(xs, p) == 0 <==> forall i :: 0 <= i < |xs| ==> !p(xs[i])
  {
    if |xs| > 0 {
      CountZeroIff(xs[1..], p);
      assert forall i :: 1 <= i < |xs| ==> xs[i] == xs[1..][i - 1];
    }
  }

  /** Filtering depends only on which elements the predicate accepts. */
  lemma {:induction false} FilterSamePredicate<T>(xs: seq<T>, p: T -> bool, q: T -> bool)
    requires forall i :: 0 <= i < |xs| ==> p(xs[i]) == q(xs[i])
    ensures Filter(xs, p) == Filter(xs, q)
  {
    if |xs| > 0 {
      assert forall i :: 0 <= i < |xs[1..]| ==> xs[1..][i] == xs[i + 1];
      FilterSamePredicate(xs[1..], p, q);
    }
  }

  /** Filtering twice with the same predicate changes nothing the second time. */
  lemma {:induction false} FilterTwice<T>(xs: seq<T>, p: T -> bool)
    ensures Filter(Filter(xs, p), p) == Filter(xs, p)
  {
    if |xs| > 0 {
      FilterTwice(xs[1..], p);
    }
  }

  /** Counting distributes over concatenation. */
  lemma {:induction false} CountAppend<T>(a: seq<T>, b: seq<T>, p: T -> bool)
    ensures CountWhere(a + b, p) == CountWhere(a, p) + CountWhere(b, p)
  {
    if |a| == 0 {
      assert a + b == b;
    } else {
      assert (a + b)[1..] == a[1..] + b;
      CountAppend(a[1..], b, p);
    }
  }
}
