/** The pure fragments of the review generator `scripts/generate-book-review.mjs`:
    the slug a title gets, the slug read back from an existing review's file
    name, the progress entries and deferred list written at `--init`, and the
    guard of `--csv-row`. The directory listing and the clock are parameters. */
module GenerateBookReview {
  import opened Wrappers
  import opened Text
  import opened CsvParser
  import opened BookDeduplicator
  import opened ProgressTracker
  import opened Scheduler

  // ---------------------------------------------------------------- titleToSlug

  predicate NotApostrophe(c: char) { c != '\'' }

  /** The characters `replace(/[^\w\s-]/g, '')` keeps. */
  predicate SlugSourceChar(c: char) { IsWordChar(c) || IsSpace(c) || c == '-' }

  predicate IsHyphen(c: char) { c == '-' }

  /** The characters a slug is made of: lower-case ASCII letters, digits, `_` and `-`. */
  predicate SlugChar(c: char) { ('a' <= c <= 'z') || IsDigit(c) || c == '_' || c == '-' }

  /** A well-formed slug: slug characters only, no `--`, no `-` at either end. */
  predicate IsSlug(s: string) {
    && (forall c :: c in s ==> SlugChar(c))
    && NoAdjacent(s, IsHyphen)
    && (s == [] || (s[0] != '-' && s[|s| - 1] != '-'))
  }

  /** `replace(/^-|-$/g, '')`: one leading and one trailing hyphen removed. */
  function StripHyphenEnds(s: string): string {
    var t := if s != [] && s[0] == '-' then s[1..] else s;
    if t != [] && t[|t| - 1] == '-' then t[..|t| - 1] else t
  }

  /** The replace chain up to, not including, the removal of end hyphens:
      subtitle cut, lower case, apostrophes and other punctuation removed,
      white-space runs and then hyphen runs turned into one hyphen. */
  function Hyphenated(title: string): string {
    var kept := Keep(Keep(Lower(BeforeColon(title)), NotApostrophe), SlugSourceChar);
    ReplaceRuns(ReplaceRuns(kept, IsSpace, '-'), IsHyphen, '-')
  }

  /** `titleToSlug`. */
  function TitleToSlug(title: string): string {
    StripHyphenEnds(Hyphenated(title))
  }

  /** Before the ends are stripped, only slug characters remain and no two
      hyphens are neighbours. */
  lemma HyphenatedShape(title: string)
    ensures forall c :: c in Hyphenated(title) ==> SlugChar(c)
    ensures NoAdjacent(Hyphenated(title), IsHyphen)
  {
    var l := Lower(BeforeColon(title));
    var k1 := Keep(l, NotApostrophe);
    var k2 := Keep(k1, SlugSourceChar);
    assert forall c :: c in l ==> !IsUpper(c);
    assert forall c :: c in k2 ==> !IsUpper(c) && SlugSourceChar(c);
    var r1 := ReplaceRuns(k2, IsSpace, '-');
    ReplaceRunsChars(k2, IsSpace, '-');
    assert forall c :: c in r1 ==> SlugChar(c);
    ReplaceRunsChars(r1, IsHyphen, '-');
    ReplaceRunsNoAdjacent(r1, IsHyphen, '-');
  }

  /** Stripping the end hyphens of a string without `--` leaves a slice with
      no hyphen at either end. */
  lemma StripHyphenEndsShape(s: string)
    requires forall c :: c in s ==> SlugChar(c)
    requires NoAdjacent(s, IsHyphen)
    ensures IsSlug(StripHyphenEnds(s))
  {
    var a := if s != [] && s[0] == '-' then 1 else 0;
    var t := s[a..];
    var b := if t != [] && t[|t| - 1] == '-' then |s| - 1 else |s|;
    var r := StripHyphenEnds(s);
    assert r == s[a..b];
    forall c | c in r ensures SlugChar(c) {
      assert c in s;
    }
    forall i | 0 <= i < |r| - 1 ensures !(IsHyphen(r[i]) && IsHyphen(r[i + 1])) {
      assert r[i] == s[a + i] && r[i + 1] == s[a + i + 1];
    }
    if r != [] {
      if a == 1 {
        assert r[0] == s[1];
      }
      if b == |s| - 1 {
        assert r[|r| - 1] == s[|s| - 2];
      }
    }
  }

  /** A slug has no white space, no two consecutive hyphens, and neither starts
      nor ends with a hyphen. */
  lemma TitleToSlugShape(title: string)
    ensures IsSlug(TitleToSlug(title))
    ensures forall c :: c in TitleToSlug(title) ==> !IsSpace(c) && !IsUpper(c) && c != ':' && c != '\''
  {
    HyphenatedShape(title);
    StripHyphenEndsShape(Hyphenated(title));
    forall c | c in TitleToSlug(title) ensures !IsSpace(c) && !IsUpper(c) && c != ':' && c != '\'' {
      assert SlugChar(c);
    }
  }

  /** A well-formed slug is its own slug. */
  lemma TitleToSlugFixed(slug: string)
    requires IsSlug(slug)
    ensures TitleToSlug(slug) == slug
  {
    SlugCharsKept(slug);
    SlugRunsKept(slug);
    assert Hyphenated(slug) == slug;
  }

  /** Slug characters survive the colon, case and punctuation steps. */
  lemma SlugCharsKept(slug: string)
    requires forall c :: c in slug ==> SlugChar(c)
    ensures Keep(Keep(Lower(BeforeColon(slug)), NotApostrophe), SlugSourceChar) == slug
  {
    assert ':' !in slug by {
      assert !SlugChar(':');
    }
    BeforeColonFixed(slug);
    LowerFixed(slug);
    assert forall c :: c in slug ==> NotApostrophe(c);
    assert Keep(slug, NotApostrophe) == slug;
    assert forall c :: c in slug ==> SlugSourceChar(c);
  }

  /** A slug has no white space to replace and no hyphen run to shorten. */
  lemma SlugRunsKept(slug: string)
    requires IsSlug(slug)
    ensures ReplaceRuns(ReplaceRuns(slug, IsSpace, '-'), IsHyphen, '-') == slug
  {
    assert forall i :: 0 <= i < |slug| ==> !IsSpace(slug[i]) by {
      forall i | 0 <= i < |slug| ensures !IsSpace(slug[i]) {
        assert SlugChar(slug[i]);
      }
    }
    ReplaceRunsFixed(slug, IsSpace, '-');
    ReplaceRunsFixed(slug, IsHyphen, '-');
  }

  /** Making a slug of a slug changes nothing. */
  lemma TitleToSlugIdempotent(title: string)
    ensures TitleToSlug(TitleToSlug(title)) == TitleToSlug(title)
  {
    TitleToSlugShape(title);
    TitleToSlugFixed(TitleToSlug(title));
  }

  /** Only the text before the first colon is used. */
  lemma TitleToSlugIgnoresSubtitle(title: string, subtitle: string)
    requires ':' !in title
    ensures TitleToSlug(title + ":" + subtitle) == TitleToSlug(title)
  {
    BeforeColonAppend(title, subtitle);
    BeforeColonFixed(title);
  }

  // ---------------------------------------------------------------- existing reviews

  /** The characters `.` does not match. */
  predicate IsLineTerminator(c: char) {
    c == '\n' || c == '\r' || c == '\U{2028}' || c == '\U{2029}'
  }

  /** `YYYY-MM-DD`, digits being ASCII. */
  predicate IsDate(d: string) {
    |d| == 10 && forall i :: 0 <= i < 10 ==> if i == 4 || i == 7 then d[i] == '-' else IsDigit(d[i])
  }

  /** `f.endsWith('.md')`. */
  predicate IsMarkdown(file: string) {
    |file| >= 3 && file[|file| - 3..] == ".md"
  }

  /** `file.match(/^\d{4}-\d{2}-\d{2}-(.+)\.md$/)`, as its captured group. */
  function ReviewSlug(file: string): Option<string> {
    if |file| >= 15 && IsDate(file[..10]) && file[10] == '-' && IsMarkdown(file)
       && forall k :: 11 <= k < |file| - 3 ==> !IsLineTerminator(file[k])
    then Some(file[11..|file| - 3])
    else None
  }

  /** A review file name built from a date and a slug yields that slug back. */
  lemma ReviewSlugRoundTrip(date: string, slug: string)
    requires IsDate(date) && slug != []
    requires forall c :: c in slug ==> !IsLineTerminator(c)
    ensures ReviewSlug(date + "-" + slug + ".md") == Some(slug)
  {
    var f := date + "-" + slug + ".md";
    assert f[..10] == date;
    assert f[10] == '-';
    assert f[|f| - 3..] == ".md";
    assert f[11..|f| - 3] == slug;
    forall k | 11 <= k < |f| - 3 ensures !IsLineTerminator(f[k]) {
      assert f[k] == slug[k - 11];
    }
  }

  /** Conversely, a file name yields a slug only when it is a date, a hyphen,
      that non-empty slug and `.md`. */
  lemma ReviewSlugShape(file: string)
    requires ReviewSlug(file).Some?
    ensures IsDate(file[..10]) && ReviewSlug(file).value != []
    ensures file == file[..10] + "-" + ReviewSlug(file).value + ".md"
    ensures forall c :: c in ReviewSlug(file).value ==> !IsLineTerminator(c)
  {
    var s := ReviewSlug(file).value;
    assert file == file[..10] + [file[10]] + file[11..|file| - 3] + file[|file| - 3..];
    forall c | c in s ensures !IsLineTerminator(c) {
      var k :| 0 <= k < |s| && s[k] == c;
      assert s[k] == file[11 + k];
    }
  }

  /** The map `detectExistingReviews` builds from a listing: slug to file name,
      a later file replacing an earlier one with the same slug. */
  function ReviewsOf(files: seq<string>): map<string, string> {
    if files == [] then map[]
    else
      var f := files[|files| - 1];
      var m := ReviewsOf(files[..|files| - 1]);
      if IsMarkdown(f) && ReviewSlug(f).Some? then m[ReviewSlug(f).value := f] else m
  }

  /** A slug is detected exactly when some listed file carries it, and it maps
      to such a file. */
  lemma {:induction false} ReviewsOfKeys(files: seq<string>)
    ensures forall s :: s in ReviewsOf(files) <==> exists f :: f in files && ReviewSlug(f) == Some(s)
    ensures forall s :: s in ReviewsOf(files) ==> ReviewsOf(files)[s] in files && ReviewSlug(ReviewsOf(files)[s]) == Some(s)
  {
    if files != [] {
      var init := files[..|files| - 1];
      ReviewsOfKeys(init);
      assert files == init + [files[|files| - 1]];
    }
  }

  /** Of several files with one slug, the last listed is the one kept. */
  lemma {:induction false} ReviewsOfLastWins(files: seq<string>, i: nat)
    requires i < |files| && ReviewSlug(files[i]).Some?
    requires forall j :: i < j < |files| ==> ReviewSlug(files[j]) != ReviewSlug(files[i])
    ensures ReviewSlug(files[i]).value in ReviewsOf(files)
    ensures ReviewsOf(files)[ReviewSlug(files[i]).value] == files[i]
  {
    var init := files[..|files| - 1];
    if i < |files| - 1 {
      assert forall j :: i < j < |init| ==> init[j] == files[j];
      ReviewsOfLastWins(init, i);
    }
  }

  /** `detectExistingReviews`, over the listing of the reviews directory, or
      `None` when the directory does not exist. */
  method DetectExistingReviews(dir: Option<seq<string>>) returns (reviews: map<string, string>)
    ensures dir.None? ==> reviews == map[]
    ensures dir.Some? ==> reviews == ReviewsOf(dir.value)
  {
    reviews := map[];
    if dir.None? {
      return;
    }
    var files := dir.value;
    var i := 0;
    while i < |files|
      invariant 0 <= i <= |files|
      invariant reviews == ReviewsOf(files[..i])
    {
      assert files[..i + 1][..i] == files[..i];
      var file := files[i];
      if IsMarkdown(file) {
        var slug := ReviewSlug(file);
        if slug.Some? {
          reviews := reviews[slug.value := file];
        }
      }
      i := i + 1;
    }
    assert files[..i] == files;
  }

  // ---------------------------------------------------------------- init

  const BOOKS_DIR_PATH: string := "src/content/books/"

  /** `substring(0, 10)`. */
  function Substring10(s: string): string {
    if |s| <= 10 then s else s[..10]
  }

  /** The progress entry `--init` writes for one unique book: reviewed when a
      review file carries its slug, else deferred when too recent, else pending. */
  function InitEntry(book: UniqueBook, reviews: map<string, string>, currentYear: int): ProgressEntry {
    var slug := TitleToSlug(book.title);
    var reviewed := slug in reviews;
    ProgressEntry(
      book.id, book.title, book.author, book.year, book.primaryDiscipline, book.level,
      book.allDisciplines, book.csvRows, book.listPosition,
      if reviewed then Reviewed else if CheckDeferral(book.year, currentYear).deferred then Deferred else Pending,
      if reviewed then Some(BOOKS_DIR_PATH + reviews[slug]) else None,
      if reviewed then Some(Substring10(reviews[slug])) else None,
      if reviewed then Some(0) else None,
      None)
  }

  /** `unique.map(...)` at init. */
  function InitEntries(books: seq<UniqueBook>, reviews: map<string, string>, currentYear: int): seq<ProgressEntry> {
    seq(|books|, i requires 0 <= i < |books| => InitEntry(books[i], reviews, currentYear))
  }

  /** The status precedence: an existing review wins over deferral, deferral
      over pending; only pre-existing reviews carry a file, a date and week 0. */
  lemma InitEntryStatus(book: UniqueBook, reviews: map<string, string>, currentYear: int)
    ensures var e := InitEntry(book, reviews, currentYear);
      && (e.status == Reviewed <==> TitleToSlug(book.title) in reviews)
      && (e.status == Deferred <==> TitleToSlug(book.title) !in reviews && TooRecent(book.year, currentYear))
      && (e.status == Pending <==> TitleToSlug(book.title) !in reviews && !TooRecent(book.year, currentYear))
      && (e.status == Reviewed ==> e.weekNumber == Some(0) && e.reviewFile.Some? && e.reviewDate.Some?)
      && (e.status != Reviewed ==> e.weekNumber.None? && e.reviewFile.None? && e.reviewDate.None?)
      && e.failureReason.None? && e.id == book.id && e.discipline == book.primaryDiscipline
  {
  }

  /** A pre-existing review named `<YYYY-MM-DD>-<slug>.md` records that date and
      the file's path under the reviews directory. */
  lemma InitEntryReviewDate(book: UniqueBook, date: string, reviews: map<string, string>, currentYear: int)
    requires IsDate(date)
    requires TitleToSlug(book.title) in reviews
    requires reviews[TitleToSlug(book.title)] == date + "-" + TitleToSlug(book.title) + ".md"
    ensures InitEntry(book, reviews, currentYear).reviewDate == Some(date)
    ensures InitEntry(book, reviews, currentYear).reviewFile
         == Some(BOOKS_DIR_PATH + (date + "-" + TitleToSlug(book.title) + ".md"))
  {
    var slug := TitleToSlug(book.title);
    var f := date + "-" + slug + ".md";
    var e := InitEntry(book, reviews, currentYear);
    assert e.reviewFile == Some(BOOKS_DIR_PATH + f) && e.reviewDate == Some(Substring10(f));
    assert f[..10] == date;
  }

  /** A book counts as reviewed at init exactly when the listing holds a file
      named `<date>-<its slug>.md`. */
  lemma InitReviewedIff(book: UniqueBook, files: seq<string>, currentYear: int)
    ensures InitEntry(book, ReviewsOf(files), currentYear).status == Reviewed
        <==> exists f :: f in files && ReviewSlug(f) == Some(TitleToSlug(book.title))
  {
    ReviewsOfKeys(files);
  }

  /** In particular the file the generator itself writes, `<today>-<slug>.md`,
      marks the book reviewed on a later init. */
  lemma InitReviewedByFile(book: UniqueBook, files: seq<string>, date: string, currentYear: int)
    requires IsDate(date) && TitleToSlug(book.title) != []
    requires date + "-" + TitleToSlug(book.title) + ".md" in files
    ensures InitEntry(book, ReviewsOf(files), currentYear).status == Reviewed
  {
    var slug := TitleToSlug(book.title);
    TitleToSlugShape(book.title);
    assert forall c :: c in slug ==> !IsLineTerminator(c) by {
      forall c | c in slug ensures !IsLineTerminator(c) {
        assert SlugChar(c);
      }
    }
    ReviewSlugRoundTrip(date, slug);
    InitReviewedIff(book, files, currentYear);
  }

  /** The init list keeps the books' order and ids. */
  lemma InitEntriesOrder(books: seq<UniqueBook>, reviews: map<string, string>, currentYear: int)
    ensures |InitEntries(books, reviews, currentYear)| == |books|
    ensures forall i :: 0 <= i < |books| ==>
              InitEntries(books, reviews, currentYear)[i].id == books[i].id
              && InitEntries(books, reviews, currentYear)[i].csvRows == books[i].csvRows
  {
  }

  /** Init uses only the statuses pending, deferred and reviewed: the first
      summary counts nothing failed, skipped or in progress. */
  lemma InitSummary(books: seq<UniqueBook>, reviews: map<string, string>, currentYear: int)
    ensures SummaryOf(InitEntries(books, reviews, currentYear)).failed == 0
    ensures SummaryOf(InitEntries(books, reviews, currentYear)).skipped == 0
    ensures Count(InitEntries(books, reviews, currentYear), InProgress) == 0
    ensures SummaryOf(InitEntries(books, reviews, currentYear)).reviewed
          + SummaryOf(InitEntries(books, reviews, currentYear)).pending
          + SummaryOf(InitEntries(books, reviews, currentYear)).deferred == |books|
  {
    var es := InitEntries(books, reviews, currentYear);
    forall j | 0 <= j < |es|
      ensures es[j].status != Failed && es[j].status != Skipped && es[j].status != InProgress
    {
      InitEntryStatus(books[j], reviews, currentYear);
    }
    CountZeroIff(es, Failed);
    CountZeroIff(es, Skipped);
    CountZeroIff(es, InProgress);
    CountsPartition(es);
  }

  /** The entry of the init `deferred` list for a book too recent to review. */
  function DeferredEntryOf(book: UniqueBook, currentYear: int): DeferredEntry
    requires TooRecent(book.year, currentYear)
  {
    DeferredEntry(book.id, book.title, book.author, book.year, book.year + 5,
                  CheckDeferral(book.year, currentYear).reason.value)
  }

  /** The init `deferred` list: the deferred books, in order. */
  function DeferredOf(books: seq<UniqueBook>, currentYear: int): seq<DeferredEntry> {
    if books == [] then []
    else
      var b := books[|books| - 1];
      DeferredOf(books[..|books| - 1], currentYear)
      + (if CheckDeferral(b.year, currentYear).deferred then [DeferredEntryOf(b, currentYear)] else [])
  }

  /** The list holds exactly the books `checkDeferral` defers, each eligible
      five years after publication. */
  lemma {:induction false} DeferredOfExactly(books: seq<UniqueBook>, currentYear: int)
    ensures forall b :: b in books && TooRecent(b.year, currentYear) ==> DeferredEntryOf(b, currentYear) in DeferredOf(books, currentYear)
    ensures forall d :: d in DeferredOf(books, currentYear) ==>
              exists b :: b in books && TooRecent(b.year, currentYear) && d == DeferredEntryOf(b, currentYear)
    ensures forall d :: d in DeferredOf(books, currentYear) ==> d.deferUntilYear == d.year + 5 && d.year > currentYear - 5
  {
    if books != [] {
      var init := books[..|books| - 1];
      DeferredOfExactly(init, currentYear);
      assert books == init + [books[|books| - 1]];
    }
  }

  /** The deferral loop of `init`. */
  method CollectDeferred(books: seq<UniqueBook>, currentYear: int) returns (deferred: seq<DeferredEntry>)
    ensures deferred == DeferredOf(books, currentYear)
  {
    deferred := [];
    var i := 0;
    while i < |books|
      invariant 0 <= i <= |books|
      invariant deferred == DeferredOf(books[..i], currentYear)
    {
      assert books[..i + 1][..i] == books[..i];
      var book := books[i];
      var deferral := CheckDeferral(book.year, currentYear);
      if deferral.deferred {
        deferred := deferred + [DeferredEntry(book.id, book.title, book.author, book.year,
                                              book.year + 5, deferral.reason.value)];
      }
      i := i + 1;
    }
    assert books[..i] == books;
  }

  /** Every book entered as deferred at init is on the deferred list. */
  lemma InitDeferredListed(books: seq<UniqueBook>, reviews: map<string, string>, currentYear: int, i: nat)
    requires i < |books| && InitEntries(books, reviews, currentYear)[i].status == Deferred
    ensures DeferredEntryOf(books[i], currentYear) in DeferredOf(books, currentYear)
  {
    DeferredOfExactly(books, currentYear);
  }

  /** `init` without its console output: deduplicate the parsed entries, detect
      existing reviews, collect deferrals, build the entries and save. */
  method Init(entries: seq<BookEntry>, dir: Option<seq<string>>, currentYear: int, now: string)
    returns (progress: ProgressFile)
    ensures fresh(progress)
    ensures progress.books == InitEntries(Unique(entries), if dir.Some? then ReviewsOf(dir.value) else map[], currentYear)
    ensures progress.deferred == DeferredOf(Unique(entries), currentYear)
    ensures progress.schemaVersion == SCHEMA_VERSION && progress.createdAt == now && progress.SavedAt(now)
  {
    var unique, duplicateCount, duplicateGroups := DeduplicateBooks(entries);
    var reviews := DetectExistingReviews(dir);
    var deferred := CollectDeferred(unique, currentYear);
    var books := InitEntries(unique, reviews, currentYear);
    progress := new ProgressFile(now, books, deferred);
    progress.Save(now);
  }

  // ---------------------------------------------------------------- --csv-row

  /** `progress.books.find(b => b.csvRows.includes(row))`, as an index. */
  function FirstWithRow(books: seq<ProgressEntry>, row: int): (r: Option<nat>)
    ensures r.Some? ==> r.value < |books| && row in books[r.value].csvRows
    ensures r.Some? ==> forall j :: 0 <= j < r.value ==> row !in books[j].csvRows
    ensures r.None? <==> forall j :: 0 <= j < |books| ==> row !in books[j].csvRows
  {
    if books == [] then None
    else if row in books[0].csvRows then Some(0)
    else match FirstWithRow(books[1..], row)
      case None => None
      case Some(k) => Some(k + 1)
  }

  /** The book and week number `--csv-row` picks. */
  datatype Target = Target(index: nat, weekNumber: int)

  /** The `--csv-row` guard of `generate`: the first book listing the row, refused
      when there is none or it is already reviewed or deferred; its week number is
      one past the saved count of reviews. */
  function CsvRowTarget(books: seq<ProgressEntry>, summary: Summary, csvRow: int, currentYear: int): (r: Result<Target>)
    ensures r.Success? ==> r.value.index < |books| && csvRow in books[r.value.index].csvRows
    ensures r.Success? ==> forall j :: 0 <= j < r.value.index ==> csvRow !in books[j].csvRows
    ensures r.Success? ==> books[r.value.index].status != Reviewed && books[r.value.index].status != Deferred
    ensures r.Success? ==> r.value.weekNumber == summary.reviewed + 1
    ensures (forall j :: 0 <= j < |books| ==> csvRow !in books[j].csvRows) ==> r.Failure?
    ensures forall i :: 0 <= i < |books| && csvRow in books[i].csvRows
                        && (forall j :: 0 <= j < i ==> csvRow !in books[j].csvRows) ==>
              (r.Success? <==> books[i].status != Reviewed && books[i].status != Deferred)
  {
    match FirstWithRow(books, csvRow)
    case None => Failure("No book found at CSV row " + IntToString(csvRow))
    case Some(i) =>
      var m := books[i];
      if m.status == Reviewed then
        Failure("\"" + m.title + "\" already reviewed ("
                + (if m.reviewFile.Some? then m.reviewFile.value else "undefined") + ")")
      else if m.status == Deferred then
        Failure("\"" + m.title + "\" is deferred (year " + IntToString(m.year)
                + " > " + IntToString(SchemaMaxYear(currentYear)) + ")")
      else Success(Target(i, summary.reviewed + 1))
  }
}
