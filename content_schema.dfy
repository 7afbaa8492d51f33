/** The frontmatter schemas of `src/schemas/content.ts`: which article and book
    review frontmatter the site accepts, the issues it reports otherwise, and
    the defaults it fills in. Inputs are already of the right JSON types; the
    date coercion and the URL check are library behaviour, so a date arrives
    already coerced (or as invalid) and the URL test is a parameter. */
module ContentSchema {
  import opened Wrappers
  import Scheduler

  const DISCIPLINES: seq<string> := ["PM", "Design", "Engineering"]
  const LEVELS: seq<string> := ["Junior", "Mid-Level", "Senior"]
  const DEFAULT_AUTHOR: string := "Tshepo Machele"
  const TITLE_MAX: nat := 60
  const DESCRIPTION_MAX: nat := 155
  const MIN_TAKEAWAYS: nat := 3
  const MAX_TAKEAWAYS: nat := 5

  // ---------------------------------------------------------------- string length

  /** JavaScript's `length`: UTF-16 code units, two for a character outside
      the Basic Multilingual Plane. */
  function Utf16Length(s: string): nat {
    if s == [] then 0
    else Utf16Length(s[..|s| - 1]) + (if s[|s| - 1] as int > 0xFFFF then 2 else 1)
  }

  /** The UTF-16 length lies between the number of characters and twice it, and
      equals the number of characters for text in the Basic Multilingual Plane. */
  lemma {:induction false} Utf16LengthBounds(s: string)
    ensures |s| <= Utf16Length(s) <= 2 * |s|
    ensures (forall i :: 0 <= i < |s| ==> s[i] as int <= 0xFFFF) ==> Utf16Length(s) == |s|
  {
    if s != [] {
      Utf16LengthBounds(s[..|s| - 1]);
    }
  }

  // ---------------------------------------------------------------- inputs

  /** A date field after `z.coerce.date()`: a time value, or an invalid date. */
  datatype DateInput = ValidDate(time: int) | InvalidDate

  /** What `z.number().int()` asks of a JavaScript number. */
  predicate IsInteger(x: real) { x.Floor as real == x }

  datatype Issue =
    | TitleTooLong
    | DescriptionTooLong
    | InvalidPublishDate
    | InvalidUpdatedDate
    | NoDisciplines
    | UnknownDiscipline(index: nat)
    | InvalidDiscipline
    | UnknownLevel
    | RatingNotInteger
    | RatingTooLow
    | RatingTooHigh
    | YearNotInteger
    | PublishedTooRecently
    | NoCrossFunctionalValue
    | TooFewTakeaways
    | TooManyTakeaways
    | InvalidUrl

  /** `safeParse`: the parsed data, or every issue found, in field order. */
  datatype Parsed<T> = Valid(value: T) | Invalid(issues: seq<Issue>)

  function OrElse<T>(o: Option<T>, default: T): T {
    if o.Some? then o.value else default
  }

  // ---------------------------------------------------------------- articleSchema

  datatype ArticleInput = ArticleInput(
    title: string,
    description: string,
    author: Option<string>,
    publishDate: DateInput,
    updatedDate: Option<DateInput>,
    disciplines: seq<string>,
    tags: Option<seq<string>>,
    featured: Option<bool>,
    draft: Option<bool>,
    heroImage: Option<string>,
    heroImageAlt: Option<string>)

  datatype Article = Article(
    title: string,
    description: string,
    author: string,
    publishDate: int,
    updatedDate: Option<int>,
    disciplines: seq<string>,
    tags: seq<string>,
    featured: bool,
    draft: bool,
    heroImage: Option<string>,
    heroImageAlt: Option<string>)

  /** The issues of the element check `z.enum(...)` of an array, from index `from` on. */
  function UnknownDisciplines(ds: seq<string>, from: nat): seq<Issue>
    decreases |ds| - from
  {
    if from >= |ds| then []
    else (if ds[from] in DISCIPLINES then [] else [UnknownDiscipline(from)]) + UnknownDisciplines(ds, from + 1)
  }

  /** No element issue exactly when every element is a known discipline. */
  lemma {:induction false} UnknownDisciplinesEmpty(ds: seq<string>, from: nat)
    ensures UnknownDisciplines(ds, from) == [] <==> forall i :: from <= i < |ds| ==> ds[i] in DISCIPLINES
    decreases |ds| - from
  {
    if from < |ds| {
      UnknownDisciplinesEmpty(ds, from + 1);
    }
  }

  function ArticleIssues(x: ArticleInput): seq<Issue> {
    (if Utf16Length(x.title) > TITLE_MAX then [TitleTooLong] else [])
    + (if Utf16Length(x.description) > DESCRIPTION_MAX then [DescriptionTooLong] else [])
    + (if x.publishDate.InvalidDate? then [InvalidPublishDate] else [])
    + (if x.updatedDate == Some(InvalidDate) then [InvalidUpdatedDate] else [])
    + (if |x.disciplines| < 1 then [NoDisciplines] else [])
    + UnknownDisciplines(x.disciplines, 0)
  }

  /** Every rule of `articleSchema` together. */
  predicate ArticleRules(x: ArticleInput) {
    && Utf16Length(x.title) <= TITLE_MAX
    && Utf16Length(x.description) <= DESCRIPTION_MAX
    && x.publishDate.ValidDate?
    && (x.updatedDate.Some? ==> x.updatedDate.value.ValidDate?)
    && |x.disciplines| >= 1
    && forall d :: d in x.disciplines ==> d in DISCIPLINES
  }

  /** `articleSchema.safeParse`: the absent optional fields take their defaults. */
  function ParseArticle(x: ArticleInput): Parsed<Article> {
    var issues := ArticleIssues(x);
    if issues != [] then Invalid(issues)
    else
      Valid(Article(
        x.title, x.description, OrElse(x.author, DEFAULT_AUTHOR), x.publishDate.time,
        if x.updatedDate.Some? then Some(x.updatedDate.value.time) else None,
        x.disciplines, OrElse(x.tags, []), OrElse(x.featured, false), OrElse(x.draft, false),
        x.heroImage, x.heroImageAlt))
  }

  /** The schema accepts exactly the frontmatter that meets every rule. */
  lemma ParseArticleAcceptsIff(x: ArticleInput)
    ensures ParseArticle(x).Valid? <==> ArticleRules(x)
  {
    UnknownDisciplinesEmpty(x.disciplines, 0);
  }

  /** Accepted frontmatter keeps what it gives and gets 'Tshepo Machele', [],
      false and false for an absent author, tags, featured and draft. */
  lemma ParseArticleDefaults(x: ArticleInput)
    requires ArticleRules(x)
    ensures ParseArticle(x).Valid?
    ensures var a := ParseArticle(x).value;
      && a.title == x.title && a.description == x.description && a.disciplines == x.disciplines
      && a.author == (if x.author.None? then DEFAULT_AUTHOR else x.author.value)
      && a.tags == (if x.tags.None? then [] else x.tags.value)
      && a.featured == (x.featured == Some(true))
      && a.draft == (x.draft == Some(true))
  {
    ParseArticleAcceptsIff(x);
  }

  /** The title limit is 60 characters: 60 pass and 61 fail (for text in the
      Basic Multilingual Plane, where a character is one code unit). */
  lemma TitleLimit(x: ArticleInput)
    requires forall i :: 0 <= i < |x.title| ==> x.title[i] as int <= 0xFFFF
    ensures |x.title| <= 60 ==> TitleTooLong !in ArticleIssues(x)
    ensures |x.title| >= 61 ==> TitleTooLong in ArticleIssues(x)
  {
    Utf16LengthBounds(x.title);
    assert TitleTooLong !in UnknownDisciplines(x.disciplines, 0) by {
      UnknownDisciplinesOnly(x.disciplines, 0);
    }
  }

  /** The description limit is 155 characters: 155 pass and 156 fail. */
  lemma DescriptionLimit(x: ArticleInput)
    requires forall i :: 0 <= i < |x.description| ==> x.description[i] as int <= 0xFFFF
    ensures |x.description| <= 155 ==> DescriptionTooLong !in ArticleIssues(x)
    ensures |x.description| >= 156 ==> DescriptionTooLong in ArticleIssues(x)
  {
    Utf16LengthBounds(x.description);
    assert DescriptionTooLong !in UnknownDisciplines(x.disciplines, 0) by {
      UnknownDisciplinesOnly(x.disciplines, 0);
    }
  }

  /** The element check reports unknown disciplines and nothing else. */
  lemma {:induction false} UnknownDisciplinesOnly(ds: seq<string>, from: nat)
    ensures forall i :: 0 <= i < |UnknownDisciplines(ds, from)| ==> UnknownDisciplines(ds, from)[i].UnknownDiscipline?
    decreases |ds| - from
  {
    if from < |ds| {
      UnknownDisciplinesOnly(ds, from + 1);
    }
  }

  /** The frontmatter a parsed article would be written back as. */
  function ArticleAsInput(a: Article): ArticleInput {
    ArticleInput(a.title, a.description, Some(a.author), ValidDate(a.publishDate),
                 if a.updatedDate.Some? then Some(ValidDate(a.updatedDate.value)) else None,
                 a.disciplines, Some(a.tags), Some(a.featured), Some(a.draft), a.heroImage, a.heroImageAlt)
  }

  /** Parsing is stable: parsed data, written back, parses to itself. */
  lemma ParseArticleRoundTrip(x: ArticleInput)
    requires ParseArticle(x).Valid?
    ensures ParseArticle(ArticleAsInput(ParseArticle(x).value)) == ParseArticle(x)
  {
    ParseArticleAcceptsIff(x);
    ParseArticleAcceptsIff(ArticleAsInput(ParseArticle(x).value));
  }

  // ---------------------------------------------------------------- bookReviewSchema

  datatype BookReviewInput = BookReviewInput(
    title: string,
    bookAuthor: string,
    discipline: string,
    level: string,
    rating: real,
    publicationYear: real,
    tags: Option<seq<string>>,
    crossFunctionalValue: string,
    keyTakeaways: seq<string>,
    whoShouldRead: string,
    affiliateLink: Option<string>,
    draft: Option<bool>)

  datatype BookReview = BookReview(
    title: string,
    bookAuthor: string,
    discipline: string,
    level: string,
    rating: int,
    publicationYear: int,
    tags: seq<string>,
    crossFunctionalValue: string,
    keyTakeaways: seq<string>,
    whoShouldRead: string,
    affiliateLink: Option<string>,
    draft: bool)

  /** The publication-year bound: `new Date().getFullYear() - 5`. */
  function YearMax(currentYear: int): int { currentYear - 5 }

  function BookReviewIssues(x: BookReviewInput, currentYear: int, isUrl: string -> bool): seq<Issue> {
    (if x.discipline !in DISCIPLINES then [InvalidDiscipline] else [])
    + (if x.level !in LEVELS then [UnknownLevel] else [])
    + (if !IsInteger(x.rating) then [RatingNotInteger] else [])
    + (if x.rating < 1.0 then [RatingTooLow] else [])
    + (if x.rating > 5.0 then [RatingTooHigh] else [])
    + (if !IsInteger(x.publicationYear) then [YearNotInteger] else [])
    + (if x.publicationYear > YearMax(currentYear) as real then [PublishedTooRecently] else [])
    + (if Utf16Length(x.crossFunctionalValue) < 1 then [NoCrossFunctionalValue] else [])
    + (if |x.keyTakeaways| < MIN_TAKEAWAYS then [TooFewTakeaways] else [])
    + (if |x.keyTakeaways| > MAX_TAKEAWAYS then [TooManyTakeaways] else [])
    + (if x.affiliateLink.Some? && !isUrl(x.affiliateLink.value) then [InvalidUrl] else [])
  }

  /** Every rule of `bookReviewSchema` together. */
  predicate BookReviewRules(x: BookReviewInput, currentYear: int, isUrl: string -> bool) {
    && x.discipline in DISCIPLINES
    && x.level in LEVELS
    && IsInteger(x.rating) && 1.0 <= x.rating <= 5.0
    && IsInteger(x.publicationYear) && x.publicationYear <= YearMax(currentYear) as real
    && x.crossFunctionalValue != []
    && MIN_TAKEAWAYS <= |x.keyTakeaways| <= MAX_TAKEAWAYS
    && (x.affiliateLink.Some? ==> isUrl(x.affiliateLink.value))
  }

  /** `bookReviewSchema.safeParse` in year `currentYear`. */
  function ParseBookReview(x: BookReviewInput, currentYear: int, isUrl: string -> bool): Parsed<BookReview> {
    var issues := BookReviewIssues(x, currentYear, isUrl);
    if issues != [] then Invalid(issues)
    else
      Valid(BookReview(
        x.title, x.bookAuthor, x.discipline, x.level, x.rating.Floor, x.publicationYear.Floor,
        OrElse(x.tags, []), x.crossFunctionalValue, x.keyTakeaways, x.whoShouldRead,
        x.affiliateLink, OrElse(x.draft, false)))
  }

  /** The schema accepts exactly the frontmatter that meets every rule; it
      then defaults absent tags to [] and an absent draft flag to false. */
  lemma ParseBookReviewAcceptsIff(x: BookReviewInput, currentYear: int, isUrl: string -> bool)
    ensures ParseBookReview(x, currentYear, isUrl).Valid? <==> BookReviewRules(x, currentYear, isUrl)
    ensures ParseBookReview(x, currentYear, isUrl).Valid? ==>
      && ParseBookReview(x, currentYear, isUrl).value.tags == (if x.tags.None? then [] else x.tags.value)
      && ParseBookReview(x, currentYear, isUrl).value.draft == (x.draft == Some(true))
      && ParseBookReview(x, currentYear, isUrl).value.rating as real == x.rating
      && ParseBookReview(x, currentYear, isUrl).value.publicationYear as real == x.publicationYear
  {
    Utf16LengthBounds(x.crossFunctionalValue);
  }

  /** A rating passes exactly when it is one of 1, 2, 3, 4 and 5: 0, 6 and 4.5 fail. */
  lemma RatingValues(r: real)
    ensures (IsInteger(r) && 1.0 <= r <= 5.0) <==> r in {1.0, 2.0, 3.0, 4.0, 5.0}
  {
    if IsInteger(r) && 1.0 <= r <= 5.0 {
      var n := r.Floor;
      assert 1 <= n <= 5;
      assert n == 1 || n == 2 || n == 3 || n == 4 || n == 5;
    }
  }

  /** The schema's year bound is the scheduler's: an integer year is accepted
      exactly when `checkDeferral` does not defer the book. */
  lemma YearRuleIsDeferral(year: int, currentYear: int)
    ensures (year as real <= YearMax(currentYear) as real) <==> !Scheduler.CheckDeferral(year, currentYear).deferred
  {
  }

  /** Key takeaways: 2 and 6 fail, 3, 4 and 5 pass. */
  lemma TakeawaysLimit(x: BookReviewInput, currentYear: int, isUrl: string -> bool)
    ensures |x.keyTakeaways| < 3 ==> TooFewTakeaways in BookReviewIssues(x, currentYear, isUrl)
    ensures |x.keyTakeaways| > 5 ==> TooManyTakeaways in BookReviewIssues(x, currentYear, isUrl)
    ensures 3 <= |x.keyTakeaways| <= 5 ==>
      TooFewTakeaways !in BookReviewIssues(x, currentYear, isUrl) && TooManyTakeaways !in BookReviewIssues(x, currentYear, isUrl)
  {
  }
}
