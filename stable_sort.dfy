/** `Array.prototype.sort` with a comparator, as the scheduler and the date
    utilities call it. ECMAScript requires the sort to be stable, so for a
    comparator that orders by a rank the result is fully determined: it is the
    stable insertion sort below. A comparator returning a negative number puts
    its first argument first; both comparators in the source compare a rank
    lexicographically, the `Rank` here. */
module StableSort {

  /** A sort key compared first on `major`, then on `minor`. */
  datatype Rank = Rank(major: int, minor: int)

  predicate RankLe(a: Rank, b: Rank) {
    a.major < b.major || (a.major == b.major && a.minor <= b.minor)
  }

  /** Non-decreasing by rank. */
  predicate Sorted<T>(s: seq<T>, rank: T -> Rank) {
    forall i, j :: 0 <= i < j < |s| ==> RankLe(rank(s[i]), rank(s[j]))
  }

  /** Inserts `x` after every element of `s` whose rank is at most its own,
      scanning from the right as an insertion sort does. */
  function Insert<T>(x: T, s: seq<T>, rank: T -> Rank): (r: seq<T>)
    ensures |r| == |s| + 1
  {
    if s == [] then [x]
    else if RankLe(rank(s[|s| - 1]), rank(x)) then s + [x]
    else Insert(x, s[..|s| - 1], rank) + [s[|s| - 1]]
  }

  /** Insertion adds `x` and loses nothing. */
  lemma {:induction false} InsertPermutation<T>(x: T, s: seq<T>, rank: T -> Rank)
    ensures multiset(Insert(x, s, rank)) == multiset(s) + multiset{x}
    decreases |s|
  {
    if s != [] && !RankLe(rank(s[|s| - 1]), rank(x)) {
      InsertPermutation(x, s[..|s| - 1], rank);
      assert s == s[..|s| - 1] + [s[|s| - 1]];
    }
  }

  /** The stable sort of `s` by `rank`. */
  function Sort<T>(s: seq<T>, rank: T -> Rank): (r: seq<T>)
    ensures |r| == |s|
  {
    if s == [] then []
    else Insert(s[|s| - 1], Sort(s[..|s| - 1], rank), rank)
  }

  /** The sort returns a permutation of its input, ordered by rank. */
  lemma {:induction false} SortSortedPermutation<T>(s: seq<T>, rank: T -> Rank)
    ensures multiset(Sort(s, rank)) == multiset(s)
    ensures Sorted(Sort(s, rank), rank)
    decreases |s|
  {
    if s != [] {
      var init, last := s[..|s| - 1], s[|s| - 1];
      assert s == init + [last];
      SortSortedPermutation(init, rank);
      InsertSorted(last, Sort(init, rank), rank);
      InsertPermutation(last, Sort(init, rank), rank);
    }
  }

  lemma {:induction false} InsertSorted<T>(x: T, s: seq<T>, rank: T -> Rank)
    requires Sorted(s, rank)
    ensures Sorted(Insert(x, s, rank), rank)
    decreases |s|
  {
    if s != [] && !RankLe(rank(s[|s| - 1]), rank(x)) {
      var init, last := s[..|s| - 1], s[|s| - 1];
      InsertSorted(x, init, rank);
      InsertPermutation(x, init, rank);
      var r := Insert(x, init, rank);
      forall y | y in r ensures RankLe(rank(y), rank(last)) {
        assert y in multiset(r);
        if y != x {
          assert y in multiset(init);
          var i :| 0 <= i < |init| && init[i] == y;
          assert s[i] == y;
        }
      }
      assert forall i :: 0 <= i < |r| ==> r[i] in r;
    }
  }

  /** The elements of `s` whose rank is `k`, in order. */
  function WithRank<T>(s: seq<T>, rank: T -> Rank, k: Rank): (r: seq<T>)
    ensures forall x :: x in r ==> x in s && rank(x) == k
  {
    if s == [] then []
    else WithRank(s[..|s| - 1], rank, k) + (if rank(s[|s| - 1]) == k then [s[|s| - 1]] else [])
  }

  lemma {:induction false} WithRankAppend<T>(a: seq<T>, b: seq<T>, rank: T -> Rank, k: Rank)
    ensures WithRank(a + b, rank, k) == WithRank(a, rank, k) + WithRank(b, rank, k)
    decreases |b|
  {
    if b == [] {
      assert a + b == a;
    } else {
      assert (a + b)[..|a + b| - 1] == a + b[..|b| - 1];
      WithRankAppend(a, b[..|b| - 1], rank, k);
    }
  }

  lemma {:induction false} InsertStable<T>(x: T, s: seq<T>, rank: T -> Rank, k: Rank)
    ensures WithRank(Insert(x, s, rank), rank, k)
            == WithRank(s, rank, k) + (if rank(x) == k then [x] else [])
    decreases |s|
  {
    if s == [] {
    } else if RankLe(rank(s[|s| - 1]), rank(x)) {
      WithRankAppend(s, [x], rank, k);
    } else {
      var init, last := s[..|s| - 1], s[|s| - 1];
      assert s == init + [last];
      InsertStable(x, init, rank, k);
      WithRankAppend(Insert(x, init, rank), [last], rank, k);
      WithRankAppend(init, [last], rank, k);
    }
  }

  /** Stability: elements of equal rank keep their input order. */
  lemma {:induction false} SortStable<T>(s: seq<T>, rank: T -> Rank, k: Rank)
    ensures WithRank(Sort(s, rank), rank, k) == WithRank(s, rank, k)
    decreases |s|
  {
    if s != [] {
      var init, last := s[..|s| - 1], s[|s| - 1];
      SortStable(init, rank, k);
      InsertStable(last, Sort(init, rank), rank, k);
    }
  }
}
