/** The round-robin scheduler: one queue per discipline, ordered by level then
    list position; each week the rotation starts at the discipline given by the
    number of reviewed books and takes the first eligible book. The current
    year, frozen when the module loads in the source, is a parameter here. The
    scheduler reads only the `status` of a progress entry, so the progress map
    is modelled as a map from book id to status. */
module Scheduler {
  import opened Wrappers
  import opened Text
  import opened StableSort
  import opened BookDeduplicator
  import opened ProgressTracker

  const DISCIPLINE_ORDER: seq<string> := ["PM", "Design", "Engineering"]
  const LEVEL_ORDER: seq<string> := ["Junior", "Mid-Level", "Senior"]

  /** `SCHEMA_MAX_YEAR`: the latest publication year the review schema accepts. */
  function SchemaMaxYear(currentYear: int): int { currentYear - 5 }

  // ---------------------------------------------------------------- deferral

  datatype Deferral = Deferral(deferred: bool, reason: Option<string>)

  /** The deferral test itself: published after the schema's latest year. */
  predicate TooRecent(year: int, currentYear: int) { year > SchemaMaxYear(currentYear) }

  function DeferralReason(year: int, currentYear: int): string {
    ("publicationYear " + IntToString(year))
    + (" > " + IntToString(SchemaMaxYear(currentYear)) + " (schema max). Will become eligible in ")
    + (IntToString(year + 5) + ".")
  }

  /** `checkDeferral`, which looks only at the book's year. */
  function CheckDeferral(year: int, currentYear: int): (r: Deferral)
    ensures r.deferred <==> year > currentYear - 5
    ensures r.deferred == TooRecent(year, currentYear)
    ensures r.deferred <==> r.reason.Some?
  {
    if TooRecent(year, currentYear) then Deferral(true, Some(DeferralReason(year, currentYear)))
    else Deferral(false, None)
  }

  lemma ConcatEnds<T>(x: seq<T>, y: seq<T>, z: seq<T>)
    ensures (x + y + z)[..|x|] == x && (x + y + z)[|x| + |y|..] == z
  {
    assert (x + y + z)[..|x|] == x;
  }

  /** The reason opens with the book's year and closes with the year it becomes
      eligible, five years later, written so that `parseInt` reads it back. */
  lemma DeferralReasonNamesYears(year: int, currentYear: int)
    requires year > currentYear - 5
    ensures var reason := CheckDeferral(year, currentYear).reason.value;
      var head := "publicationYear " + IntToString(year);
      var tail := IntToString(year + 5) + ".";
      |reason| >= |head| + |tail| &&
      reason[..|head|] == head && reason[|reason| - |tail|..] == tail &&
      ParseInt(IntToString(year + 5)) == Some(year + 5)
  {
    var head := "publicationYear " + IntToString(year);
    var middle := " > " + IntToString(SchemaMaxYear(currentYear)) + " (schema max). Will become eligible in ";
    var tail := IntToString(year + 5) + ".";
    ConcatEnds(head, middle, tail);
    IntToStringRoundTrip(year + 5);
  }

  // ---------------------------------------------------------------- queues

  /** `xs.indexOf(x)`: the first position of `x`, or -1. */
  function IndexOf(xs: seq<string>, x: string): int {
    if xs == [] then -1
    else if xs[0] == x then 0
    else
      var k := IndexOf(xs[1..], x);
      if k == -1 then -1 else k + 1
  }

  /** The index is the first position holding `x`, or -1 exactly when there is none. */
  lemma {:induction false} IndexOfFirst(xs: seq<string>, x: string)
    ensures -1 <= IndexOf(xs, x) < |xs|
    ensures IndexOf(xs, x) >= 0 ==> xs[IndexOf(xs, x)] == x && x !in xs[..IndexOf(xs, x)]
    ensures IndexOf(xs, x) == -1 <==> x !in xs
    decreases |xs|
  {
    if xs != [] && xs[0] != x {
      IndexOfFirst(xs[1..], x);
      var k := IndexOf(xs[1..], x);
      assert xs[1..][..if k < 0 then 0 else k] == xs[1..if k < 0 then 1 else k + 1];
      assert xs == [xs[0]] + xs[1..];
    }
  }

  function LevelIndex(level: string): int { IndexOf(LEVEL_ORDER, level) }

  /** The comparator's key: level index first, then list position. */
  function QueueRank(b: UniqueBook): Rank { Rank(LevelIndex(b.level), b.listPosition) }

  /** The books whose primary discipline is `d`, in input order. */
  function InDiscipline(books: seq<UniqueBook>, d: string): (r: seq<UniqueBook>)
    ensures |r| <= |books|
  {
    if books == [] then []
    else
      var init := InDiscipline(books[..|books| - 1], d);
      var last := books[|books| - 1];
      if last.primaryDiscipline == d then init + [last] else init
  }

  lemma {:induction false} InDisciplineMembers(books: seq<UniqueBook>, d: string)
    ensures forall b :: b in InDiscipline(books, d) <==> b in books && b.primaryDiscipline == d
  {
    if books != [] {
      var init := books[..|books| - 1];
      InDisciplineMembers(init, d);
      assert books == init + [books[|books| - 1]];
    }
  }

  /** The queue of discipline `d` once sorted. */
  function Queue(books: seq<UniqueBook>, d: string): seq<UniqueBook> {
    Sort(InDiscipline(books, d), QueueRank)
  }

  /** A queue is a permutation of the books of its discipline, so it holds every
      one of them and no book of any other discipline. */
  lemma QueueMembers(books: seq<UniqueBook>, d: string)
    ensures multiset(Queue(books, d)) == multiset(InDiscipline(books, d))
    ensures forall b :: b in Queue(books, d) <==> b in books && b.primaryDiscipline == d
  {
    var q := Queue(books, d);
    SortSortedPermutation(InDiscipline(books, d), QueueRank);
    InDisciplineMembers(books, d);
    forall b ensures b in q <==> b in InDiscipline(books, d) {
      assert b in q <==> b in multiset(q);
    }
  }

  /** A queue is ordered by level index, then by list position; an unknown level
      has index -1 and so comes before every known one. */
  lemma QueueOrder(books: seq<UniqueBook>, d: string, i: nat, j: nat)
    requires i < j < |Queue(books, d)|
    ensures var a, b := Queue(books, d)[i], Queue(books, d)[j];
      LevelIndex(a.level) < LevelIndex(b.level) ||
      (LevelIndex(a.level) == LevelIndex(b.level) && a.listPosition <= b.listPosition)
    ensures Queue(books, d)[j].level !in LEVEL_ORDER ==> Queue(books, d)[i].level !in LEVEL_ORDER
  {
    var q := Queue(books, d);
    SortSortedPermutation(InDiscipline(books, d), QueueRank);
    assert RankLe(QueueRank(q[i]), QueueRank(q[j]));
    IndexOfFirst(LEVEL_ORDER, q[i].level);
    IndexOfFirst(LEVEL_ORDER, q[j].level);
  }

  /** Books of equal level and position keep their input order. */
  lemma QueueStable(books: seq<UniqueBook>, d: string, k: Rank)
    ensures WithRank(Queue(books, d), QueueRank, k) == WithRank(InDiscipline(books, d), QueueRank, k)
  {
    SortStable(InDiscipline(books, d), QueueRank, k);
  }

  /** The first loop of `buildDisciplineQueues`: an empty queue per
      discipline, then each book pushed onto the queue of its primary
      discipline, if there is one. */
  method FillQueues(books: seq<UniqueBook>) returns (queues: map<string, seq<UniqueBook>>)
    ensures queues.Keys == {"PM", "Design", "Engineering"}
    ensures forall d :: d in queues ==> queues[d] == InDiscipline(books, d)
  {
    queues := map["PM" := [], "Design" := [], "Engineering" := []];
    var i := 0;
    while i < |books|
      invariant 0 <= i <= |books|
      invariant queues.Keys == {"PM", "Design", "Engineering"}
      invariant forall d :: d in queues ==> queues[d] == InDiscipline(books[..i], d)
    {
      var book := books[i];
      assert books[..i + 1][..i] == books[..i];
      if book.primaryDiscipline in queues {
        queues := queues[book.primaryDiscipline := queues[book.primaryDiscipline] + [book]];
      }
      i := i + 1;
    }
    assert books[..i] == books;
  }

  /** `buildDisciplineQueues`: exactly the three queues, each filled in input
      order and then sorted. */
  method BuildDisciplineQueues(books: seq<UniqueBook>) returns (queues: map<string, seq<UniqueBook>>)
    ensures queues.Keys == {"PM", "Design", "Engineering"}
    ensures forall d :: d in queues ==> queues[d] == Queue(books, d)
  {
    queues := FillQueues(books);
    var todo := queues.Keys;
    while todo != {}
      invariant todo <= queues.Keys == {"PM", "Design", "Engineering"}
      invariant forall d :: d in queues ==> queues[d] == if d in todo then InDiscipline(books, d) else Queue(books, d)
      decreases |todo|
    {
      var d :| d in todo;
      queues := queues[d := Sort(queues[d], QueueRank)];
      todo := todo - {d};
    }
  }

  // ---------------------------------------------------------------- the rotation

  /** Statuses that take a book out of the rotation. */
  predicate Blocked(s: Status) {
    s == Reviewed || s == InProgress || s == Deferred || s == Skipped
  }

  /** A book may be picked: its entry, if any, is pending or failed, and
      `CheckDeferral` does not defer it. */
  predicate Eligible(b: UniqueBook, progress: map<string, Status>, currentYear: int) {
    !(b.id in progress && Blocked(progress[b.id])) && !TooRecent(b.year, currentYear)
  }

  function ReviewedIds(progress: map<string, Status>): set<string> {
    set k | k in progress && progress[k] == Reviewed
  }

  /** The number of entries whose status is `reviewed`. */
  function ReviewedCount(progress: map<string, Status>): nat { |ReviewedIds(progress)| }

  /** The counting loop over the progress map's entries. */
  method CountReviewed(progress: map<string, Status>) returns (reviewed: nat)
    ensures reviewed == ReviewedCount(progress)
  {
    reviewed := 0;
    var todo := progress.Keys;
    ghost var done: set<string> := {};
    ghost var counted: set<string> := {};
    while todo != {}
      invariant todo !! done && todo + done == progress.Keys
      invariant counted <= done && reviewed == |counted|
      invariant forall k :: k in done ==> (k in counted <==> progress[k] == Reviewed)
      decreases |todo|
    {
      var k :| k in todo;
      if progress[k] == Reviewed {
        reviewed := reviewed + 1;
        counted := counted + {k};
      }
      todo := todo - {k};
      done := done + {k};
    }
    assert counted == ReviewedIds(progress);
  }

  /** The position of the first eligible book of a queue. */
  function FirstEligible(queue: seq<UniqueBook>, progress: map<string, Status>, currentYear: int): (r: Option<nat>)
    ensures r.Some? ==> r.value < |queue|
  {
    if queue == [] then None
    else if Eligible(queue[0], progress, currentYear) then Some(0)
    else match FirstEligible(queue[1..], progress, currentYear)
      case None => None
      case Some(k) => Some(k + 1)
  }

  /** The position found is that of the first eligible book, and there is none
      exactly when no book of the queue is eligible. */
  lemma {:induction false} FirstEligibleFirst(queue: seq<UniqueBook>, progress: map<string, Status>, currentYear: int)
    ensures var r := FirstEligible(queue, progress, currentYear);
      r.Some? ==> Eligible(queue[r.value], progress, currentYear)
    ensures var r := FirstEligible(queue, progress, currentYear);
      r.Some? ==> forall j :: 0 <= j < r.value ==> !Eligible(queue[j], progress, currentYear)
    ensures FirstEligible(queue, progress, currentYear).None?
      <==> forall j :: 0 <= j < |queue| ==> !Eligible(queue[j], progress, currentYear)
    decreases |queue|
  {
    if queue != [] && !Eligible(queue[0], progress, currentYear) {
      FirstEligibleFirst(queue[1..], progress, currentYear);
      assert forall j :: 1 <= j < |queue| ==> queue[j] == queue[1..][j - 1];
    }
  }

  /** The first eligible position is the one before which no book is eligible. */
  lemma {:induction false} FirstEligibleAt(queue: seq<UniqueBook>, progress: map<string, Status>, currentYear: int, j: nat)
    requires j < |queue| && Eligible(queue[j], progress, currentYear)
    requires forall k :: 0 <= k < j ==> !Eligible(queue[k], progress, currentYear)
    ensures FirstEligible(queue, progress, currentYear) == Some(j)
    decreases j
  {
    if j > 0 {
      assert !Eligible(queue[0], progress, currentYear);
      FirstEligibleAt(queue[1..], progress, currentYear, j - 1);
    }
  }

  datatype Pick = Pick(book: UniqueBook, weekNumber: int, discipline: string)

  /** The disciplines in the order a scan starting at index `start` visits them. */
  function RotationFrom(start: nat): seq<string>
    requires start < |DISCIPLINE_ORDER|
  {
    if start == 0 then DISCIPLINE_ORDER
    else if start == 1 then [DISCIPLINE_ORDER[1], DISCIPLINE_ORDER[2], DISCIPLINE_ORDER[0]]
    else [DISCIPLINE_ORDER[2], DISCIPLINE_ORDER[0], DISCIPLINE_ORDER[1]]
  }

  /** Attempt `a` of the scan looks at discipline `(start + a) mod 3`, and the
      scan visits every discipline once. */
  lemma RotationAt(start: nat, a: nat)
    requires start < 3 && a < 3
    ensures |RotationFrom(start)| == 3
    ensures RotationFrom(start)[a] == DISCIPLINE_ORDER[(start + a) % 3]
    ensures forall d :: d in RotationFrom(start) <==> d in DISCIPLINE_ORDER
  {
    var r := RotationFrom(start);
    if start == 0 {
      assert r == DISCIPLINE_ORDER;
    } else if start == 1 {
      assert r == [DISCIPLINE_ORDER[1], DISCIPLINE_ORDER[2], DISCIPLINE_ORDER[0]];
    } else {
      assert r == [DISCIPLINE_ORDER[2], DISCIPLINE_ORDER[0], DISCIPLINE_ORDER[1]];
    }
  }

  /** The sorted queue of each discipline, as a function. */
  function QueueOf(books: seq<UniqueBook>): string -> seq<UniqueBook> {
    d => Queue(books, d)
  }

  /** The scan over the disciplines `ds`, in order: the first eligible book of
      the first queue that has one. */
  function Scan(queue: string -> seq<UniqueBook>, progress: map<string, Status>, currentYear: int,
                ds: seq<string>, week: int): Option<Pick>
  {
    if ds == [] then None
    else
      var q := queue(ds[0]);
      match FirstEligible(q, progress, currentYear)
      case Some(k) => Some(Pick(q[k], week, ds[0]))
      case None => Scan(queue, progress, currentYear, ds[1..], week)
  }

  /** What `getNextBook` returns: the rotation starts at `reviewed mod 3` and the
      week is `reviewed + 1`. */
  function NextBook(books: seq<UniqueBook>, progress: map<string, Status>, currentYear: int): Option<Pick> {
    var r := ReviewedCount(progress);
    Scan(QueueOf(books), progress, currentYear, RotationFrom(r % 3), r + 1)
  }

  /** The inner loop of `getNextBook` over one queue: skip books whose entry
      blocks them, then books `checkDeferral` defers; stop at the first other one. */
  method ScanQueue(queue: seq<UniqueBook>, progress: map<string, Status>, currentYear: int)
    returns (found: Option<nat>)
    ensures found == FirstEligible(queue, progress, currentYear)
  {
    var j := 0;
    while j < |queue|
      invariant 0 <= j <= |queue|
      invariant forall k :: 0 <= k < j ==> !Eligible(queue[k], progress, currentYear)
    {
      var book := queue[j];
      if book.id in progress && Blocked(progress[book.id]) {
        j := j + 1;
        continue;
      }
      var deferral := CheckDeferral(book.year, currentYear);
      if deferral.deferred {
        j := j + 1;
        continue;
      }
      FirstEligibleAt(queue, progress, currentYear, j);
      return Some(j);
    }
    FirstEligibleFirst(queue, progress, currentYear);
    return None;
  }

  lemma NextBookStart(books: seq<UniqueBook>, progress: map<string, Status>, currentYear: int, reviewed: nat)
    requires reviewed == ReviewedCount(progress)
    ensures NextBook(books, progress, currentYear)
         == Scan(QueueOf(books), progress, currentYear, RotationFrom(reviewed % |DISCIPLINE_ORDER|), reviewed + 1)
  {
  }

  /** `getNextBook`. */
  method GetNextBook(books: seq<UniqueBook>, progress: map<string, Status>, currentYear: int)
    returns (next: Option<Pick>)
    ensures next == NextBook(books, progress, currentYear)
  {
    var queues := BuildDisciplineQueues(books);
    var reviewed := CountReviewed(progress);
    var start := reviewed % |DISCIPLINE_ORDER|;
    var weekNumber := reviewed + 1;
    ghost var rotation := RotationFrom(start);
    NextBookStart(books, progress, currentYear, reviewed);
    var attempt := 0;
    assert rotation[attempt..] == rotation;
    while attempt < |DISCIPLINE_ORDER|
      invariant 0 <= attempt <= 3
      invariant NextBook(books, progress, currentYear)
             == Scan(QueueOf(books), progress, currentYear, rotation[attempt..], weekNumber)
    {
      var discipline := DISCIPLINE_ORDER[(start + attempt) % |DISCIPLINE_ORDER|];
      RotationAt(start, attempt);
      var queue := queues[discipline];
      assert queue == QueueOf(books)(rotation[attempt..][0]);
      var found := ScanQueue(queue, progress, currentYear);
      if found.Some? {
        return Some(Pick(queue[found.value], weekNumber, discipline));
      }
      assert rotation[attempt..][1..] == rotation[attempt + 1..];
      attempt := attempt + 1;
    }
    return None;
  }

  // ---------------------------------------------------------------- what a pick means

  /** A pick names the discipline scanned at some position `a`, is the first
      eligible book of that discipline's queue, and the disciplines scanned
      before it have none. */
  lemma {:induction false} ScanPick(queue: string -> seq<UniqueBook>, progress: map<string, Status>, currentYear: int,
                                    ds: seq<string>, week: int)
    returns (a: nat, k: nat)
    requires Scan(queue, progress, currentYear, ds, week).Some?
    ensures a < |ds| && k < |queue(ds[a])|
    ensures Scan(queue, progress, currentYear, ds, week).value == Pick(queue(ds[a])[k], week, ds[a])
    ensures Eligible(queue(ds[a])[k], progress, currentYear)
    ensures forall j :: 0 <= j < k ==> !Eligible(queue(ds[a])[j], progress, currentYear)
    ensures forall a', j :: 0 <= a' < a && 0 <= j < |queue(ds[a'])| ==> !Eligible(queue(ds[a'])[j], progress, currentYear)
    decreases |ds|
  {
    var q := queue(ds[0]);
    FirstEligibleFirst(q, progress, currentYear);
    if FirstEligible(q, progress, currentYear).Some? {
      a, k := 0, FirstEligible(q, progress, currentYear).value;
    } else {
      var a0, k0 := ScanPick(queue, progress, currentYear, ds[1..], week);
      a, k := a0 + 1, k0;
    }
  }

  /** The scan finds nothing exactly when none of its queues has an eligible book. */
  lemma {:induction false} ScanNone(queue: string -> seq<UniqueBook>, progress: map<string, Status>, currentYear: int,
                                    ds: seq<string>, week: int)
    ensures Scan(queue, progress, currentYear, ds, week).None?
        <==> forall d, j :: d in ds && 0 <= j < |queue(d)| ==> !Eligible(queue(d)[j], progress, currentYear)
    decreases |ds|
  {
    if ds != [] {
      ScanNone(queue, progress, currentYear, ds[1..], week);
      FirstEligibleFirst(queue(ds[0]), progress, currentYear);
      assert forall d :: d in ds <==> d == ds[0] || d in ds[1..];
    }
  }

  /** The properties of `getNextBook`'s result: week `R + 1` for `R` reviewed
      entries; the book is eligible, in the queue of its own primary
      discipline, the first eligible book of that queue, and every discipline
      before it in the rotation from `R mod 3` has no eligible book. */
  lemma NextBookPick(books: seq<UniqueBook>, progress: map<string, Status>, currentYear: int)
    returns (a: nat)
    requires NextBook(books, progress, currentYear).Some?
    ensures var p := NextBook(books, progress, currentYear).value;
      var r := ReviewedCount(progress);
      var q := Queue(books, p.discipline);
      a < 3 && p.discipline == RotationFrom(r % 3)[a] &&
      p.weekNumber == r + 1 &&
      Eligible(p.book, progress, currentYear) &&
      p.book in books && p.book.primaryDiscipline == p.discipline &&
      (exists k :: 0 <= k < |q| && q[k] == p.book && forall j :: 0 <= j < k ==> !Eligible(q[j], progress, currentYear)) &&
      forall a' :: 0 <= a' < a ==> forall b :: b in Queue(books, RotationFrom(r % 3)[a']) ==> !Eligible(b, progress, currentYear)
  {
    var r := ReviewedCount(progress);
    var ds := RotationFrom(r % 3);
    RotationAt(r % 3, 0);
    NextBookStart(books, progress, currentYear, r);
    var k;
    a, k := ScanPick(QueueOf(books), progress, currentYear, ds, r + 1);
    var p := NextBook(books, progress, currentYear).value;
    var q := Queue(books, p.discipline);
    assert q == QueueOf(books)(ds[a]);
    QueueMembers(books, p.discipline);
    assert q[k] in q;
    forall a', b | 0 <= a' < a && b in Queue(books, ds[a'])
      ensures !Eligible(b, progress, currentYear)
    {
      var q' := Queue(books, ds[a']);
      assert q' == QueueOf(books)(ds[a']);
      var j :| 0 <= j < |q'| && q'[j] == b;
    }
  }

  /** `getNextBook` returns null exactly when no book of the three disciplines is eligible. */
  lemma NextBookNoneIff(books: seq<UniqueBook>, progress: map<string, Status>, currentYear: int)
    ensures NextBook(books, progress, currentYear).None?
        <==> forall b :: b in books && b.primaryDiscipline in DISCIPLINE_ORDER ==> !Eligible(b, progress, currentYear)
  {
    if NextBook(books, progress, currentYear).None? {
      NextBookNone(books, progress, currentYear);
      NoneEligible(books, progress, currentYear);
    } else {
      var a := NextBookPick(books, progress, currentYear);
    }
  }

  lemma NextBookNone(books: seq<UniqueBook>, progress: map<string, Status>, currentYear: int)
    requires NextBook(books, progress, currentYear).None?
    ensures forall d, j :: d in DISCIPLINE_ORDER && 0 <= j < |Queue(books, d)| ==> !Eligible(Queue(books, d)[j], progress, currentYear)
  {
    var r := ReviewedCount(progress);
    RotationAt(r % 3, 0);
    NextBookStart(books, progress, currentYear, r);
    ScanNone(QueueOf(books), progress, currentYear, RotationFrom(r % 3), r + 1);
    forall d | d in DISCIPLINE_ORDER ensures QueueOf(books)(d) == Queue(books, d) { }
  }

  /** A discipline whose queue has no eligible book has no eligible book at all. */
  lemma NoneEligible(books: seq<UniqueBook>, progress: map<string, Status>, currentYear: int)
    requires forall d, j :: d in DISCIPLINE_ORDER && 0 <= j < |Queue(books, d)| ==> !Eligible(Queue(books, d)[j], progress, currentYear)
    ensures forall b :: b in books && b.primaryDiscipline in DISCIPLINE_ORDER ==> !Eligible(b, progress, currentYear)
  {
    forall b | b in books && b.primaryDiscipline in DISCIPLINE_ORDER
      ensures !Eligible(b, progress, currentYear)
    {
      var d := b.primaryDiscipline;
      QueueMembers(books, d);
      var q := Queue(books, d);
      var j :| 0 <= j < |q| && q[j] == b;
    }
  }

  // ---------------------------------------------------------------- preview

  /** `getNextBook` as a function of the progress map. */
  function NextOf(books: seq<UniqueBook>, currentYear: int): map<string, Status> -> Option<Pick> {
    m => NextBook(books, m, currentYear)
  }

  /** Successive picks of `next`, each one marked reviewed in the simulated map
      before the next, at most `limit` of them. */
  function PreviewWith(next: map<string, Status> -> Option<Pick>, progress: map<string, Status>, limit: int)
    : seq<Pick>
    decreases limit
  {
    if limit <= 0 then []
    else match next(progress)
      case None => []
      case Some(p) => [p] + PreviewWith(next, progress[p.book.id := Reviewed], limit - 1)
  }

  /** The schedule `previewSchedule` produces. */
  function Preview(books: seq<UniqueBook>, progress: map<string, Status>, limit: int, currentYear: int): seq<Pick> {
    PreviewWith(NextOf(books, currentYear), progress, limit)
  }

  /** `previewSchedule`. The caller's map is a value here, so the simulation
      cannot reach it. */
  method PreviewSchedule(books: seq<UniqueBook>, progress: map<string, Status>, currentYear: int, limit: int := 10)
    returns (schedule: seq<Pick>)
    ensures schedule == Preview(books, progress, limit, currentYear)
  {
    NextOfIsNextBook(books, currentYear);
    schedule := SimulateWeeks(books, progress, limit, currentYear, NextOf(books, currentYear));
  }

  lemma NextOfIsNextBook(books: seq<UniqueBook>, currentYear: int)
    ensures forall m {:trigger NextBook(books, m, currentYear)} :: NextOf(books, currentYear)(m) == NextBook(books, m, currentYear)
  {
  }

  /** The loop of `previewSchedule`: up to `limit` times, take the next book
      and mark it reviewed in the simulated map; stop early when there is none.
      `next` stands for `getNextBook` on these books. */
  method SimulateWeeks(books: seq<UniqueBook>, progress: map<string, Status>, limit: int, currentYear: int,
                       ghost next: map<string, Status> -> Option<Pick>)
    returns (schedule: seq<Pick>)
    requires forall m {:trigger NextBook(books, m, currentYear)} :: next(m) == NextBook(books, m, currentYear)
    ensures schedule == PreviewWith(next, progress, limit)
  {
    var simulated := progress;
    schedule := [];
    var i := 0;
    assert limit - i == limit && schedule + PreviewWith(next, simulated, limit) == PreviewWith(next, progress, limit);
    while i < limit
      invariant schedule + PreviewWith(next, simulated, limit - i) == PreviewWith(next, progress, limit)
      decreases limit - i
    {
      var pick := GetNextBook(books, simulated, currentYear);
      PreviewStep(next, simulated, limit - i);
      if pick.None? {
        break;
      }
      schedule := schedule + [pick.value];
      simulated := simulated[pick.value.book.id := Reviewed];
      i := i + 1;
    }
  }

  /** One step of the preview: it stops when no book is found, and otherwise
      takes the pick and goes on with its book marked reviewed. */
  lemma PreviewStep(next: map<string, Status> -> Option<Pick>, progress: map<string, Status>, limit: int)
    requires limit > 0
    ensures next(progress).None? ==> PreviewWith(next, progress, limit) == []
    ensures next(progress).Some? ==>
      PreviewWith(next, progress, limit)
        == [next(progress).value] + PreviewWith(next, progress[next(progress).value.book.id := Reviewed], limit - 1)
  {
  }

  /** What the preview needs of each pick: it is drawn from `books`, is not yet
      reviewed, and carries the week after the reviewed count. */
  ghost predicate PicksFresh(next: map<string, Status> -> Option<Pick>, books: seq<UniqueBook>) {
    forall m :: next(m).Some? ==>
      next(m).value.book in books &&
      next(m).value.weekNumber == ReviewedCount(m) + 1 &&
      !(next(m).value.book.id in m && m[next(m).value.book.id] == Reviewed)
  }

  lemma NextOfPicksFresh(books: seq<UniqueBook>, currentYear: int)
    ensures PicksFresh(NextOf(books, currentYear), books)
  {
    forall m | NextOf(books, currentYear)(m).Some?
      ensures var p := NextOf(books, currentYear)(m).value;
        p.book in books && p.weekNumber == ReviewedCount(m) + 1 && !(p.book.id in m && m[p.book.id] == Reviewed)
    {
      var a := NextBookPick(books, m, currentYear);
    }
  }

  /** Marking an entry reviewed that was not raises the reviewed count by one. */
  lemma MarkOneReviewed(progress: map<string, Status>, id: string)
    requires !(id in progress && progress[id] == Reviewed)
    ensures ReviewedCount(progress[id := Reviewed]) == ReviewedCount(progress) + 1
  {
    assert id !in ReviewedIds(progress);
    assert ReviewedIds(progress[id := Reviewed]) == ReviewedIds(progress) + {id};
  }

  /** At most `limit` picks. */
  lemma {:induction false} PreviewLength(next: map<string, Status> -> Option<Pick>, progress: map<string, Status>, limit: int)
    ensures |PreviewWith(next, progress, limit)| <= if limit < 0 then 0 else limit
    decreases limit
  {
    if limit > 0 && next(progress).Some? {
      PreviewLength(next, progress[next(progress).value.book.id := Reviewed], limit - 1);
    }
  }

  /** Week numbers run on from the current count of reviewed entries, one per pick. */
  lemma {:induction false} PreviewWeeks(next: map<string, Status> -> Option<Pick>, books: seq<UniqueBook>,
                                        progress: map<string, Status>, limit: int)
    requires PicksFresh(next, books)
    ensures forall i :: 0 <= i < |PreviewWith(next, progress, limit)| ==>
      PreviewWith(next, progress, limit)[i].weekNumber == ReviewedCount(progress) + 1 + i
    decreases limit
  {
    if limit > 0 && next(progress).Some? {
      var p := next(progress).value;
      var m := progress[p.book.id := Reviewed];
      assert p.weekNumber == ReviewedCount(progress) + 1 && !(p.book.id in progress && progress[p.book.id] == Reviewed);
      MarkOneReviewed(progress, p.book.id);
      PreviewWeeks(next, books, m, limit - 1);
      var rest := PreviewWith(next, m, limit - 1);
      var s := PreviewWith(next, progress, limit);
      assert s == [p] + rest;
      forall i | 0 < i < |s| ensures s[i].weekNumber == ReviewedCount(progress) + 1 + i {
        assert s[i] == rest[i - 1];
        assert rest[i - 1].weekNumber == ReviewedCount(m) + 1 + (i - 1);
      }
    }
  }

  /** A book already reviewed in the map is never picked again. */
  lemma {:induction false} PreviewSkipsReviewed(next: map<string, Status> -> Option<Pick>, books: seq<UniqueBook>,
                                                progress: map<string, Status>, limit: int, id: string)
    requires PicksFresh(next, books)
    requires id in progress && progress[id] == Reviewed
    ensures forall p :: p in PreviewWith(next, progress, limit) ==> p.book.id != id
    decreases limit
  {
    if limit > 0 && next(progress).Some? {
      var p := next(progress).value;
      PreviewSkipsReviewed(next, books, progress[p.book.id := Reviewed], limit - 1, id);
    }
  }

  /** The picks are distinct books (their ids differ), each drawn from the input. */
  lemma {:induction false} PreviewDistinct(next: map<string, Status> -> Option<Pick>, books: seq<UniqueBook>,
                                           progress: map<string, Status>, limit: int)
    requires PicksFresh(next, books)
    ensures forall i :: 0 <= i < |PreviewWith(next, progress, limit)| ==> PreviewWith(next, progress, limit)[i].book in books
    ensures forall i, j :: 0 <= i < j < |PreviewWith(next, progress, limit)| ==>
      PreviewWith(next, progress, limit)[i].book.id != PreviewWith(next, progress, limit)[j].book.id
    decreases limit
  {
    if limit > 0 && next(progress).Some? {
      var p := next(progress).value;
      var m := progress[p.book.id := Reviewed];
      PreviewDistinct(next, books, m, limit - 1);
      PreviewSkipsReviewed(next, books, m, limit - 1, p.book.id);
      var rest := PreviewWith(next, m, limit - 1);
      var s := PreviewWith(next, progress, limit);
      assert s == [p] + rest;
      assert p.book in books;
      forall i | 0 < i < |s| ensures s[i].book in books {
        assert s[i] == rest[i - 1];
        assert rest[i - 1].book in books;
      }
      forall i, j | 0 <= i < j < |s| ensures s[i].book.id != s[j].book.id {
        if i == 0 {
          assert s[j] == rest[j - 1] && s[j] in rest;
        } else {
          assert s[i] == rest[i - 1] && s[j] == rest[j - 1];
        }
      }
    }
  }

  /** `previewSchedule`'s promises together: at most `limit` picks, distinct
      books from the input, and week numbers rising by one from the week
      `getNextBook` would give now. */
  lemma PreviewProperties(books: seq<UniqueBook>, progress: map<string, Status>, limit: int, currentYear: int)
    ensures var s := Preview(books, progress, limit, currentYear);
      |s| <= (if limit < 0 then 0 else limit) &&
      (forall i :: 0 <= i < |s| ==> s[i].book in books && s[i].weekNumber == ReviewedCount(progress) + 1 + i) &&
      (forall i, j :: 0 <= i < j < |s| ==> s[i].book.id != s[j].book.id)
  {
    var next := NextOf(books, currentYear);
    NextOfPicksFresh(books, currentYear);
    PreviewLength(next, progress, limit);
    PreviewWeeks(next, books, progress, limit);
    PreviewDistinct(next, books, progress, limit);
  }
}
