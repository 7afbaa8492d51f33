/** The review-progress store: one status entry per unique book, the list of
    books deferred at init, and a summary tally recomputed on every save.
    Reading and writing the JSON file (with its backup and atomic rename) is
    not modelled; the clock is the `now` parameter, an ISO timestamp. */
module ProgressTracker {
  import opened Wrappers
  import opened Text

  const SCHEMA_VERSION: int := 1

  datatype Status = Pending | InProgress | Reviewed | Deferred | Skipped | Failed

  /** The string stored in the file for each status. */
  function StatusName(s: Status): (r: string)
    ensures r != []
  {
    match s
    case Pending => "pending"
    case InProgress => "in_progress"
    case Reviewed => "reviewed"
    case Deferred => "deferred"
    case Skipped => "skipped"
    case Failed => "failed"
  }

  /** One book's entry; the optional fields are absent until a mutation sets them. */
  datatype ProgressEntry = ProgressEntry(
    id: string,
    title: string,
    author: string,
    year: int,
    discipline: string,
    level: string,
    allDisciplines: seq<string>,
    csvRows: seq<nat>,
    listPosition: int,
    status: Status,
    reviewFile: Option<string>,
    reviewDate: Option<string>,
    weekNumber: Option<int>,
    failureReason: Option<string>)

  datatype DeferredEntry = DeferredEntry(
    id: string,
    title: string,
    author: string,
    year: int,
    deferUntilYear: int,
    reason: string)

  datatype Summary = Summary(reviewed: nat, pending: nat, deferred: nat, failed: nat, skipped: nat, total: nat)

  // ---------------------------------------------------------------- summary

  /** The number of entries in status `s`. */
  function Count(books: seq<ProgressEntry>, s: Status): nat {
    if books == [] then 0
    else Count(books[..|books| - 1], s) + (if books[|books| - 1].status == s then 1 else 0)
  }

  /** The tally `computeSummary` produces: `in_progress` has no counter of its own. */
  function SummaryOf(books: seq<ProgressEntry>): Summary {
    Summary(Count(books, Reviewed), Count(books, Pending), Count(books, Deferred),
            Count(books, Failed), Count(books, Skipped), |books|)
  }

  /** Every entry is counted exactly once among the six statuses. */
  lemma {:induction false} CountsPartition(books: seq<ProgressEntry>)
    ensures Count(books, Reviewed) + Count(books, Pending) + Count(books, Deferred)
            + Count(books, Failed) + Count(books, Skipped) + Count(books, InProgress) == |books|
  {
    if books != [] {
      CountsPartition(books[..|books| - 1]);
    }
  }

  /** The five counters never exceed the total; they reach it exactly when no
      entry is in progress. */
  lemma SummaryAccounts(books: seq<ProgressEntry>)
    ensures var s := SummaryOf(books);
      s.total == |books| &&
      s.reviewed + s.pending + s.deferred + s.failed + s.skipped + Count(books, InProgress) == s.total &&
      s.reviewed + s.pending + s.deferred + s.failed + s.skipped <= s.total
  {
    CountsPartition(books);
  }

  /** `Count` agrees with a direct membership test: zero exactly when no entry has the status. */
  lemma {:induction false} CountZeroIff(books: seq<ProgressEntry>, s: Status)
    ensures Count(books, s) == 0 <==> forall j :: 0 <= j < |books| ==> books[j].status != s
  {
    if books != [] {
      var init := books[..|books| - 1];
      CountZeroIff(init, s);
      assert forall j :: 0 <= j < |init| ==> init[j] == books[j];
    }
  }

  /** Replacing one entry moves it from the counter of its old status to that of its new one. */
  lemma {:induction false} CountUpdate(books: seq<ProgressEntry>, i: nat, e: ProgressEntry, s: Status)
    requires i < |books|
    ensures Count(books[i := e], s)
         == Count(books, s) - (if books[i].status == s then 1 else 0) + (if e.status == s then 1 else 0)
  {
    var n := |books| - 1;
    var updated := books[i := e];
    if i == n {
      assert updated[..n] == books[..n];
    } else {
      assert updated[..n] == books[..n][i := e];
      CountUpdate(books[..n], i, e, s);
      assert books[..n][i] == books[i];
    }
  }

  /** `computeSummary`: one pass over the entries, bumping the counter of each
      entry's status when the summary has one. */
  method ComputeSummary(books: seq<ProgressEntry>) returns (summary: Summary)
    ensures summary == SummaryOf(books)
  {
    var reviewed, pending, deferred, failed, skipped := 0, 0, 0, 0, 0;
    var i := 0;
    while i < |books|
      invariant 0 <= i <= |books|
      invariant reviewed == Count(books[..i], Reviewed)
      invariant pending == Count(books[..i], Pending)
      invariant deferred == Count(books[..i], Deferred)
      invariant failed == Count(books[..i], Failed)
      invariant skipped == Count(books[..i], Skipped)
    {
      assert books[..i + 1][..i] == books[..i];
      match books[i].status {
        case Reviewed => reviewed := reviewed + 1;
        case Pending => pending := pending + 1;
        case Deferred => deferred := deferred + 1;
        case Failed => failed := failed + 1;
        case Skipped => skipped := skipped + 1;
        case InProgress =>
      }
      i := i + 1;
    }
    assert books[..i] == books;
    summary := Summary(reviewed, pending, deferred, failed, skipped, |books|);
  }

  // ---------------------------------------------------------------- lookup

  /** `books.find(b => b.id === id)`, as the index of the first match. */
  function FirstIndex(books: seq<ProgressEntry>, id: string): (r: Option<nat>)
    ensures r.Some? ==> r.value < |books| && books[r.value].id == id
    ensures r.Some? ==> forall j :: 0 <= j < r.value ==> books[j].id != id
    ensures r.None? <==> forall j :: 0 <= j < |books| ==> books[j].id != id
  {
    if books == [] then None
    else if books[0].id == id then Some(0)
    else match FirstIndex(books[1..], id)
      case None => None
      case Some(k) => Some(k + 1)
  }

  /** The map `buildProgressMap` builds: each entry inserted under its id in
      order, so a later entry replaces an earlier one with the same id. */
  function ProgressMapOf(books: seq<ProgressEntry>): map<string, ProgressEntry> {
    if books == [] then map[]
    else ProgressMapOf(books[..|books| - 1])[books[|books| - 1].id := books[|books| - 1]]
  }

  /** The keys are exactly the ids, and every id maps to an entry carrying it. */
  lemma {:induction false} ProgressMapKeys(books: seq<ProgressEntry>)
    ensures ProgressMapOf(books).Keys == set b | b in books :: b.id
    ensures forall k :: k in ProgressMapOf(books) ==> ProgressMapOf(books)[k] in books && ProgressMapOf(books)[k].id == k
  {
    if books != [] {
      var init := books[..|books| - 1];
      ProgressMapKeys(init);
      assert books == init + [books[|books| - 1]];
    }
  }

  /** Last one wins: an entry whose id does not recur later is the one the map holds. */
  lemma {:induction false} ProgressMapLastWins(books: seq<ProgressEntry>, i: nat)
    requires i < |books|
    requires forall j :: i < j < |books| ==> books[j].id != books[i].id
    ensures books[i].id in ProgressMapOf(books) && ProgressMapOf(books)[books[i].id] == books[i]
  {
    if i < |books| - 1 {
      var init := books[..|books| - 1];
      assert forall j :: i < j < |init| ==> init[j] == books[j];
      ProgressMapLastWins(init, i);
    }
  }

  // ---------------------------------------------------------------- the store

  /** The progress file held in memory. */
  class ProgressFile {
    var schemaVersion: int
    var createdAt: string
    var updatedAt: string
    var summary: Summary
    var books: seq<ProgressEntry>
    var deferred: seq<DeferredEntry>

    /** The object literal built at init; its summary starts empty (all zero)
        until the first save. */
    constructor (now: string, books: seq<ProgressEntry>, deferred: seq<DeferredEntry>)
      ensures schemaVersion == SCHEMA_VERSION && createdAt == now && updatedAt == now
      ensures summary == Summary(0, 0, 0, 0, 0, 0)
      ensures this.books == books && this.deferred == deferred
    {
      schemaVersion := SCHEMA_VERSION;
      createdAt := now;
      updatedAt := now;
      summary := Summary(0, 0, 0, 0, 0, 0);
      this.books := books;
      this.deferred := deferred;
    }

    /** The state every save leaves behind: stamped and with a fresh tally. */
    predicate SavedAt(now: string)
      reads this
    {
      updatedAt == now && summary == SummaryOf(books)
    }

    /** The in-memory part of `saveProgress`: the timestamp and the summary are
        overwritten whatever they held before; nothing else changes. */
    method Save(now: string)
      modifies this
      ensures SavedAt(now)
      ensures books == old(books) && deferred == old(deferred)
      ensures schemaVersion == old(schemaVersion) && createdAt == old(createdAt)
    {
      updatedAt := now;
      summary := ComputeSummary(books);
    }

    /** `buildProgressMap`. */
    method BuildProgressMap() returns (m: map<string, ProgressEntry>)
      ensures m == ProgressMapOf(books)
    {
      m := map[];
      var i := 0;
      while i < |books|
        invariant 0 <= i <= |books|
        invariant m == ProgressMapOf(books[..i])
      {
        assert books[..i + 1][..i] == books[..i];
        m := m[books[i].id := books[i]];
        i := i + 1;
      }
      assert books[..i] == books;
    }

    /** `markInProgress`: only the status of the first entry with the id changes. */
    method MarkInProgress(id: string, now: string) returns (o: Outcome)
      modifies this
      ensures FirstIndex(old(books), id).None? ==> o == Fail("Book not found: " + id) && unchanged(this)
      ensures FirstIndex(old(books), id).Some? ==>
        var i := FirstIndex(old(books), id).value;
        o == Pass && books == old(books)[i := old(books)[i].(status := InProgress)] && SavedAt(now)
      ensures deferred == old(deferred) && schemaVersion == old(schemaVersion) && createdAt == old(createdAt)
    {
      var found := FirstIndex(books, id);
      if found.None? {
        return Fail("Book not found: " + id);
      }
      var i := found.value;
      books := books[i := books[i].(status := InProgress)];
      Save(now);
      o := Pass;
    }

    /** `markReviewed`: status, review file, the date part of `now` and the
        caller's week number. */
    method MarkReviewed(id: string, reviewFile: string, weekNumber: int, now: string) returns (o: Outcome)
      modifies this
      ensures FirstIndex(old(books), id).None? ==> o == Fail("Book not found: " + id) && unchanged(this)
      ensures FirstIndex(old(books), id).Some? ==>
        var i := FirstIndex(old(books), id).value;
        o == Pass && SavedAt(now) &&
        books == old(books)[i := old(books)[i].(status := Reviewed, reviewFile := Some(reviewFile),
                                                reviewDate := Some(Split(now, 'T')[0]),
                                                weekNumber := Some(weekNumber))]
      ensures deferred == old(deferred) && schemaVersion == old(schemaVersion) && createdAt == old(createdAt)
    {
      var found := FirstIndex(books, id);
      if found.None? {
        return Fail("Book not found: " + id);
      }
      var i := found.value;
      books := books[i := books[i].(status := Reviewed, reviewFile := Some(reviewFile),
                                    reviewDate := Some(Split(now, 'T')[0]),
                                    weekNumber := Some(weekNumber))];
      Save(now);
      o := Pass;
    }

    /** `markFailed`: status and failure reason. */
    method MarkFailed(id: string, reason: string, now: string) returns (o: Outcome)
      modifies this
      ensures FirstIndex(old(books), id).None? ==> o == Fail("Book not found: " + id) && unchanged(this)
      ensures FirstIndex(old(books), id).Some? ==>
        var i := FirstIndex(old(books), id).value;
        o == Pass && SavedAt(now) &&
        books == old(books)[i := old(books)[i].(status := Failed, failureReason := Some(reason))]
      ensures deferred == old(deferred) && schemaVersion == old(schemaVersion) && createdAt == old(createdAt)
    {
      var found := FirstIndex(books, id);
      if found.None? {
        return Fail("Book not found: " + id);
      }
      var i := found.value;
      books := books[i := books[i].(status := Failed, failureReason := Some(reason))];
      Save(now);
      o := Pass;
    }

    /** `resetToPending`: legal only from `failed` or `in_progress`; the status
        becomes `pending` and the failure reason is removed. */
    method ResetToPending(id: string, now: string) returns (o: Outcome)
      modifies this
      ensures FirstIndex(old(books), id).None? ==> o == Fail("Book not found: " + id) && unchanged(this)
      ensures FirstIndex(old(books), id).Some? ==>
        var i := FirstIndex(old(books), id).value;
        var s := old(books)[i].status;
        if s != Failed && s != InProgress then
          o == Fail("Can only reset failed/in_progress books, got: " + StatusName(s)) && unchanged(this)
        else
          o == Pass && SavedAt(now) &&
          books == old(books)[i := old(books)[i].(status := Pending, failureReason := None)]
      ensures deferred == old(deferred) && schemaVersion == old(schemaVersion) && createdAt == old(createdAt)
    {
      var found := FirstIndex(books, id);
      if found.None? {
        return Fail("Book not found: " + id);
      }
      var i := found.value;
      var s := books[i].status;
      if s != Failed && s != InProgress {
        return Fail("Can only reset failed/in_progress books, got: " + StatusName(s));
      }
      books := books[i := books[i].(status := Pending, failureReason := None)];
      Save(now);
      o := Pass;
    }
  }

  /** A status mutation on entry `i` moves the summary by one between two counters;
      in particular marking a not-yet-reviewed entry reviewed raises `reviewed` by one. */
  lemma MarkReviewedCount(books: seq<ProgressEntry>, i: nat, e: ProgressEntry)
    requires i < |books| && books[i].status != Reviewed && e.status == Reviewed
    ensures SummaryOf(books[i := e]).reviewed == SummaryOf(books).reviewed + 1
    ensures SummaryOf(books[i := e]).total == SummaryOf(books).total
  {
    CountUpdate(books, i, e, Reviewed);
  }
}
