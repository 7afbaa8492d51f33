/** `sortByDate` of `src/utils/date.ts`: a copy of the items ordered by publish
    date, newest first by default. The date is read through `date`, the
    `publishDate.getTime()` of an item. */
module DateSort {
  import opened StableSort

  datatype Order = Asc | Desc

  /** The comparator `b - a` (newest first) or `a - b` (oldest first), as a rank
      to sort by in ascending order. */
  function DateRank<T>(date: T -> int, order: Order): T -> Rank {
    (x: T) => if order == Desc then Rank(-date(x), 0) else Rank(date(x), 0)
  }

  /** The order `[...items].sort(comparator)` produces. */
  function SortedByDate<T>(items: seq<T>, date: T -> int, order: Order): seq<T> {
    Sort(items, DateRank(date, order))
  }

  /** `sortByDate`: a new array; the input array is left as it was. */
  method SortByDate<T>(items: array<T>, date: T -> int, order: Order := Desc) returns (sorted: array<T>)
    ensures fresh(sorted)
    ensures sorted[..] == SortedByDate(items[..], date, order)
    ensures items[..] == old(items[..])
  {
    var copy := items[..];
    var s := SortedByDate(copy, date, order);
    sorted := new T[|s|](i requires 0 <= i < |s| => s[i]);
  }

  /** The result is a permutation of the input, newest first for `Desc`
      and oldest first for `Asc`. */
  lemma SortByDateOrdered<T>(items: seq<T>, date: T -> int, order: Order)
    ensures multiset(SortedByDate(items, date, order)) == multiset(items)
    ensures order == Desc ==> forall i, j :: 0 <= i < j < |items| ==>
              date(SortedByDate(items, date, order)[i]) >= date(SortedByDate(items, date, order)[j])
    ensures order == Asc ==> forall i, j :: 0 <= i < j < |items| ==>
              date(SortedByDate(items, date, order)[i]) <= date(SortedByDate(items, date, order)[j])
  {
    var rank := DateRank(date, order);
    var r := SortedByDate(items, date, order);
    SortSortedPermutation(items, rank);
    forall i, j | 0 <= i < j < |items|
      ensures order == Desc ==> date(r[i]) >= date(r[j])
      ensures order == Asc ==> date(r[i]) <= date(r[j])
    {
      assert RankLe(rank(r[i]), rank(r[j]));
    }
  }

  /** Items with the same date keep their input order. */
  lemma SortByDateStable<T>(items: seq<T>, date: T -> int, order: Order, k: Rank)
    ensures WithRank(SortedByDate(items, date, order), DateRank(date, order), k)
         == WithRank(items, DateRank(date, order), k)
  {
    SortStable(items, DateRank(date, order), k);
  }

  /** Empty and one-item inputs come back unchanged. */
  lemma SortByDateSmall<T>(items: seq<T>, date: T -> int, order: Order)
    requires |items| <= 1
    ensures SortedByDate(items, date, order) == items
  {
    if |items| == 1 {
      assert items[..0] == [];
    }
  }
}
