/**
 * Sorting and distinctness of integer sequences.
 *
 * sudoku.c calls `merge_sort` from sort.h, whose source is not part of this
 * model. Only its contract matters to the caller: afterwards the array is
 * sorted and is a permutation of what it held before. `SortInPlace` has that
 * contract; it is implemented here with a functional insertion sort.
 */
module Sorting {

  /** Every element is at most every later element. */
  predicate Sorted(s: seq<int>) {
    forall i, j :: 0 <= i < j < |s| ==> s[i] <= s[j]
  }

  /** No value occurs at two different positions. */
  predicate PairwiseDistinct(s: seq<int>) {
    forall i, j :: 0 <= i < j < |s| ==> s[i] != s[j]
  }

  /** Inserts `x` before the first element of `s` that is not smaller than it. */
  function Insert(x: int, s: seq<int>): (r: seq<int>)
    ensures multiset(r) == multiset{x} + multiset(s)
    decreases |s|
  {
    if s == [] || x <= s[0] then
      [x] + s
    else
      assert s == [s[0]] + s[1..];
      [s[0]] + Insert(x, s[1..])
  }

  /** A lower bound of `x` and of all of `s` bounds all of `Insert(x, s)`. */
  lemma {:induction false} InsertLowerBound(x: int, s: seq<int>, b: int)
    requires b <= x
    requires forall k :: 0 <= k < |s| ==> b <= s[k]
    ensures forall k :: 0 <= k < |Insert(x, s)| ==> b <= Insert(x, s)[k]
    decreases |s|
  {
    if s != [] && x > s[0] {
      InsertLowerBound(x, s[1..], b);
    }
  }

  /** Inserting into a sorted sequence keeps it sorted. */
  lemma {:induction false} InsertSorted(x: int, s: seq<int>)
    requires Sorted(s)
    ensures Sorted(Insert(x, s))
    decreases |s|
  {
    if s != [] && x > s[0] {
      var rest := Insert(x, s[1..]);
      InsertSorted(x, s[1..]);
      InsertLowerBound(x, s[1..], s[0]);
      var r := [s[0]] + rest;
      assert r == Insert(x, s);
      forall i, j | 0 <= i < j < |r| ensures r[i] <= r[j] {
        if i > 0 {
          assert r[i] == rest[i - 1] && r[j] == rest[j - 1];
        } else {
          assert r[j] == rest[j - 1];
        }
      }
    }
  }

  /** Insertion sort: the result is sorted and a permutation of `s`. */
  function InsertionSort(s: seq<int>): (r: seq<int>)
    ensures Sorted(r)
    ensures multiset(r) == multiset(s)
    decreases |s|
  {
    if s == [] then []
    else
      assert s == [s[0]] + s[1..];
      InsertSorted(s[0], InsertionSort(s[1..]));
      Insert(s[0], InsertionSort(s[1..]))
  }

  /** Stands in for `merge_sort(a, len)`: sorts `a` in place. */
  method SortInPlace(a: array<int>)
    modifies a
    ensures Sorted(a[..])
    ensures multiset(a[..]) == multiset(old(a[..]))
  {
    var s := InsertionSort(a[..]);
    assert |s| == a.Length by {
      assert |multiset(s)| == |multiset(a[..])|;
    }
    forall i | 0 <= i < a.Length {
      a[i] := s[i];
    }
    assert a[..] == s;
  }

  /** A sequence is pairwise distinct exactly when no value occurs twice in it. */
  lemma {:induction false} DistinctByCount(s: seq<int>)
    ensures PairwiseDistinct(s) <==> forall x :: multiset(s)[x] <= 1
    decreases |s|
  {
    if s != [] {
      var p, l := s[..|s| - 1], s[|s| - 1];
      assert s == p + [l];
      assert multiset(s) == multiset(p) + multiset{l};
      DistinctByCount(p);
      if PairwiseDistinct(s) {
        assert PairwiseDistinct(p);
        assert l !in p;
        forall x ensures multiset(s)[x] <= 1 {
          assert multiset(s)[x] == multiset(p)[x] + (if x == l then 1 else 0);
        }
      } else {
        var i, j :| 0 <= i < j < |s| && s[i] == s[j];
        if j < |s| - 1 {
          assert p[i] == p[j];
          assert !PairwiseDistinct(p);
          var x :| multiset(p)[x] > 1;
          assert multiset(s)[x] >= multiset(p)[x];
        } else {
          assert p[i] == l;
          assert l in multiset(p);
          assert multiset(s)[l] == multiset(p)[l] + 1;
        }
      }
    }
  }

  /** Rearranging a sequence does not change whether it is pairwise distinct. */
  lemma DistinctPermutation(s: seq<int>, t: seq<int>)
    requires multiset(s) == multiset(t)
    ensures PairwiseDistinct(s) <==> PairwiseDistinct(t)
  {
    DistinctByCount(s);
    DistinctByCount(t);
  }

  /**
   * A sorted sequence is pairwise distinct exactly when no two neighbours are
   * equal; this is what the adjacent scan of `distinct` relies on.
   */
  lemma {:induction false} SortedDistinctAdjacent(s: seq<int>)
    requires Sorted(s)
    ensures PairwiseDistinct(s) <==> forall k :: 0 <= k < |s| - 1 ==> s[k] != s[k + 1]
  {
    if forall k :: 0 <= k < |s| - 1 ==> s[k] != s[k + 1] {
      forall i, j | 0 <= i < j < |s| ensures s[i] != s[j] {
        assert s[i] <= s[i + 1] && s[i] != s[i + 1];
        assert s[i + 1] <= s[j];
      }
    }
  }
}
