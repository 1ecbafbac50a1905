/**
 * Generic facts about filtering a table and about columns whose values are
 * pairwise distinct (primary keys and UNIQUE columns).
 */
module Sequences {

  /** The rows of `xs` that satisfy `keep`, in their original order (`SELECT ... WHERE`). */
  function Filter<T(!new)>(xs: seq<T>, keep: T -> bool): (r: seq<T>)
    ensures |r| <= |xs|
    ensures forall x :: x in r <==> x in xs && keep(x)
  {
    if xs == [] then [] else (if keep(xs[0]) then [xs[0]] else []) + Filter(xs[1..], keep)
  }

  /** No two rows of `xs` agree on the column `key`. */
  ghost predicate DistinctBy<T, K>(xs: seq<T>, key: T -> K)
  {
    forall i, j :: 0 <= i < j < |xs| ==> key(xs[i]) != key(xs[j])
  }

  /** Every row of `xs` has a `key` below `bound`. */
  ghost predicate KeysBelow<T>(xs: seq<T>, key: T -> int, bound: int)
  {
    forall x :: x in xs ==> key(x) < bound
  }

  lemma {:induction false} FilterAppend<T(!new)>(a: seq<T>, b: seq<T>, keep: T -> bool)
    ensures Filter(a + b, keep) == Filter(a, keep) + Filter(b, keep)
  {
    if a == [] {
      assert a + b == b;
    } else {
      assert (a + b)[1..] == a[1..] + b;
      FilterAppend(a[1..], b, keep);
    }
  }

  /** Filtering with two conditions that agree on every row gives the same rows. */
  lemma {:induction false} FilterSame<T(!new)>(xs: seq<T>, p: T -> bool, q: T -> bool)
    requires forall x :: x in xs ==> p(x) == q(x)
    ensures Filter(xs, p) == Filter(xs, q)
  {
    if xs != [] {
      FilterSame(xs[1..], p, q);
    }
  }

  /** Filtering twice is filtering once with both conditions. */
  lemma {:induction false} FilterFilter<T(!new)>(xs: seq<T>, p: T -> bool, q: T -> bool, both: T -> bool)
    requires forall x :: x in xs ==> both(x) == (p(x) && q(x))
    ensures Filter(Filter(xs, p), q) == Filter(xs, both)
  {
    if xs != [] {
      var head: seq<T> := if p(xs[0]) then [xs[0]] else [];
      assert Filter(xs, p) == head + Filter(xs[1..], p);
      FilterAppend(head, Filter(xs[1..], p), q);
      FilterFilter(xs[1..], p, q, both);
      assert Filter(head, q) == if both(xs[0]) then [xs[0]] else [];
    }
  }

  /** Rows split by a condition and its negation account for every row once. */
  lemma {:induction false} FilterSplit<T(!new)>(xs: seq<T>, keep: T -> bool, drop: T -> bool)
    requires forall x :: x in xs ==> drop(x) == !keep(x)
    ensures |Filter(xs, keep)| + |Filter(xs, drop)| == |xs|
  {
    if xs != [] {
      FilterSplit(xs[1..], keep, drop);
    }
  }

  /** A filter that keeps every row is the identity. */
  lemma {:induction false} FilterKeepsAll<T(!new)>(xs: seq<T>, keep: T -> bool)
    requires forall x :: x in xs ==> keep(x)
    ensures Filter(xs, keep) == xs
  {
    if xs != [] {
      FilterKeepsAll(xs[1..], keep);
    }
  }

  /** A filter that keeps no row gives the empty table. */
  lemma {:induction false} FilterKeepsNone<T(!new)>(xs: seq<T>, keep: T -> bool)
    requires forall x :: x in xs ==> !keep(x)
    ensures Filter(xs, keep) == []
  {
    if xs != [] {
      FilterKeepsNone(xs[1..], keep);
    }
  }

  lemma DistinctCons<T, K>(xs: seq<T>, key: T -> K)
    requires xs != []
    ensures DistinctBy(xs, key) <==>
              (forall y :: y in xs[1..] ==> key(y) != key(xs[0])) && DistinctBy(xs[1..], key)
  {
    if (forall y :: y in xs[1..] ==> key(y) != key(xs[0])) && DistinctBy(xs[1..], key) {
      forall i, j | 0 <= i < j < |xs| ensures key(xs[i]) != key(xs[j]) {
        if i == 0 {
          assert xs[j] == xs[1..][j - 1];
        } else {
          assert xs[i] == xs[1..][i - 1] && xs[j] == xs[1..][j - 1];
        }
      }
    }
  }

  /** Deleting rows keeps a key column distinct. */
  lemma {:induction false} FilterDistinct<T(!new), K>(xs: seq<T>, keep: T -> bool, key: T -> K)
    requires DistinctBy(xs, key)
    ensures DistinctBy(Filter(xs, keep), key)
  {
    if xs != [] {
      DistinctCons(xs, key);
      FilterDistinct(xs[1..], keep, key);
      var rest := Filter(xs[1..], keep);
      if keep(xs[0]) {
        assert Filter(xs, keep) == [xs[0]] + rest;
        DistinctCons([xs[0]] + rest, key);
        assert ([xs[0]] + rest)[1..] == rest;
      }
    }
  }

  /** In a table with a distinct key, two rows with the same key are the same row. */
  lemma SameKeySameRow<T, K>(xs: seq<T>, key: T -> K, x: T, y: T)
    requires DistinctBy(xs, key) && x in xs && y in xs && key(x) == key(y)
    ensures x == y
  {
    var i :| 0 <= i < |xs| && xs[i] == x;
    var j :| 0 <= j < |xs| && xs[j] == y;
    assert key(xs[i]) == key(xs[j]);
  }

  /** Appending a row whose key is above every existing key keeps the key distinct. */
  lemma AppendFresh<T>(xs: seq<T>, key: T -> int, bound: int, x: T)
    requires DistinctBy(xs, key) && KeysBelow(xs, key, bound) && key(x) == bound
    ensures DistinctBy(xs + [x], key) && KeysBelow(xs + [x], key, bound + 1)
  {
    var ys := xs + [x];
    forall i, j | 0 <= i < j < |ys| ensures key(ys[i]) != key(ys[j]) {
      if j == |xs| {
        assert ys[i] == xs[i] && xs[i] in xs;
      } else {
        assert ys[i] == xs[i] && ys[j] == xs[j];
      }
    }
  }

  /** Appending a row whose key no existing row has keeps the key distinct. */
  lemma AppendUnique<T, K>(xs: seq<T>, key: T -> K, x: T)
    requires DistinctBy(xs, key) && forall y :: y in xs ==> key(y) != key(x)
    ensures DistinctBy(xs + [x], key)
  {
    var ys := xs + [x];
    forall i, j | 0 <= i < j < |ys| ensures key(ys[i]) != key(ys[j]) {
      if j == |xs| {
        assert ys[i] == xs[i] && xs[i] in xs;
      } else {
        assert ys[i] == xs[i] && ys[j] == xs[j];
      }
    }
  }
}
