# Weekly book-review pipeline and site content utilities, in Dafny

This project models the offline pipeline that picks one book a week for the
productbuilders.io site. It also models the small pure helpers the site uses
to validate and present its content. The verifier proves properties of each.

The pipeline has five parts:

- **Catalog parser** (`CsvParser`). A quote-aware CSV line splitter, written
  as the character loop of the source. The row loop turns the catalog into
  book entries. Each entry keeps its row number, and its category is mapped
  to a discipline (PM, Design or Engineering).
- **Deduplicator** (`BookDeduplicator`). Titles are normalised and entries are
  grouped by the normalised key in order of first appearance. Each group is
  merged into one unique book. The key is its id. The first entry supplies
  the title, author, primary discipline, level, list position and notes. The
  year is the minimum over the group. The lists of all disciplines and all
  categories (each value once, in order of first appearance) and of all CSV
  rows come from the whole group.
- **Progress store** (`ProgressTracker`). The class `ProgressFile` holds one
  status entry per unique book and the list of books deferred at init. It
  also holds a summary tally that every save recomputes. The mutations mark a
  book in progress, reviewed or failed, or reset it to pending; each finds
  the first entry with the id.
- **Round-robin scheduler** (`Scheduler`). There is one queue per discipline,
  sorted by level and then list position. A book published in the last five
  years is deferred. Each week the rotation starts at discipline
  `reviewed mod 3` and picks the first eligible book. A preview simulates
  successive weeks.
- **Generator fragments** (`GenerateBookReview`). These are the title slug,
  the slug read from an existing review file name, the progress file built at
  init, and the `--csv-row` guard.

The site helpers are:

- the article and book-review frontmatter schemas (`ContentSchema`);
- the discipline, draft and featured filters and the label and colour
  lookups (`ContentFilters`);
- reading time and word count (`ReadingTime`);
- sorting by publish date (`DateSort`).

Shared modules:

- `Wrappers`: `Option`, `Result` and `Outcome`.
- `Text`: JavaScript's white-space class (`\s`, the set `trim` uses,
  Unicode spaces included), the ASCII classes `\w` and upper case, and the
  string operations the source calls (`trim`, `toLowerCase`, `split`,
  `join`, `parseInt`).
- `StableSort`: a stable insertion sort by a two-part rank. It stands for
  `Array.prototype.sort`, which is stable.

Every method that changes state or loops, as the source does, is proved
against a function that specifies it. The lemmas state what the source
promises about that function. The clock, the current year and the file
system are parameters: `now` is an ISO timestamp string, `currentYear` an
integer, and a directory listing is a sequence of names (`None` when the
directory is missing).

## Model

| member | source | states |
|---|---|---|
| Text.BeforeColon | scripts/lib/book-deduplicator.mjs:14 | `split(':')[0]` is the longest prefix without a colon: no `:` in the result, and when it is shorter than the input the next character is `:` |
| Text.Lower | scripts/lib/book-deduplicator.mjs:15 | `toLowerCase` keeps the length and lowers each character on its own |
| Text.Keep | scripts/lib/book-deduplicator.mjs:17 | a character-class `replace(…, '')` keeps only characters of the input that pass, and changes nothing when all pass |
| Text.KeepAppend | scripts/lib/book-deduplicator.mjs:17 | the replacement works character by character: on a concatenation it is the concatenation of the parts' results, so the kept characters stay in input order |
| Text.KeepCounts | scripts/lib/book-deduplicator.mjs:17 | every passing character is kept as many times as it occurs, and no failing character is kept |
| Text.TrimIsSlice | scripts/lib/csv-parser.mjs:36 | `trim()` is a slice of the input with only white space cut off at both ends |
| Text.TrimEmptyIff | src/utils/reading-time.ts:18-19 | the trimmed text is empty exactly when every character is white space |
| Text.ReplaceRunsNoAdjacent | scripts/lib/book-deduplicator.mjs:18 | after `replace(/\s+/g, r)` no two neighbouring characters are in the class |
| Text.ReplaceRunsFixed | scripts/lib/book-deduplicator.mjs:18 | the run replacement leaves text unchanged when it already has no adjacent run characters and uses only the replacement |
| Text.Split | scripts/lib/csv-parser.mjs:68 | `split(sep)` gives at least one piece and no piece contains the separator |
| Text.SplitJoin | scripts/lib/csv-parser.mjs:68 | joining the pieces of `split(sep)` with `sep` gives back the input |
| Text.JoinSplit | scripts/lib/csv-parser.mjs:68 | splitting pieces joined with `sep` gives back those pieces when none holds `sep`; with SplitJoin, `split` is the inverse of `join` |
| Text.SplitCount | scripts/lib/csv-parser.mjs:68 | `split(sep)` gives one piece more than there are separators in the input |
| Text.ParseNumeral | scripts/lib/csv-parser.mjs:94 | `parseInt(s, 10)` of an optionally negative string of digits is its decimal value |
| Text.IntToStringRoundTrip | scripts/lib/scheduler.mjs:66 | a year written in decimal parses back to itself |
| StableSort.SortSortedPermutation | scripts/lib/scheduler.mjs:47-51 | the sort returns a permutation of its input, ordered by rank |
| StableSort.SortStable | scripts/lib/scheduler.mjs:47-51 | the sort is stable: items of equal rank keep their input order |
| CsvParser.ParseCsvLine | scripts/lib/csv-parser.mjs:20-44 | the character loop returns the trimmed fields between the commas outside quotes, one more field than there are such commas |
| CsvParser.QuotedRowRoundTrip | scripts/lib/csv-parser.mjs:25-43 | fields written quoted, with `"` doubled inside, parse back to the same fields trimmed, whatever commas and quotes they hold |
| CsvParser.UnquotedLineSplitsAtCommas | scripts/lib/csv-parser.mjs:35-39 | a line without quotes is split at every comma |
| CsvParser.ParseBooksCsv | scripts/lib/csv-parser.mjs:68-104 | fails with "CSV file is empty or has no data rows" exactly when there are fewer than two non-blank lines; otherwise returns the header fields and the entries of the data rows |
| CsvParser.ParseRow | scripts/lib/csv-parser.mjs:78-100 | one data row yields the entry that its parsed fields and row number give |
| CsvParser.ParseRows | scripts/lib/csv-parser.mjs:77-101 | the row loop collects, in order, the entries of the non-blank lines after the header |
| CsvParser.EntryOf | scripts/lib/csv-parser.mjs:78-88 | a row yields an entry exactly when it has at least six fields and a mapped category, and the entry carries the row's number |
| CsvParser.EntriesRowsIncrease | scripts/lib/csv-parser.mjs:68-77 | entry row numbers lie between 1 and the last line and strictly increase |
| CsvParser.EntriesAreRows | scripts/lib/csv-parser.mjs:77-101 | every entry is what the row at its own number yields |
| CsvParser.RowsAreEntries | scripts/lib/csv-parser.mjs:77-101 | every row that yields an entry is in the result: skipped rows do not renumber later ones |
| CsvParser.EntryFields | scripts/lib/csv-parser.mjs:9-13 | title, author, category and level come from their fields, the discipline is the category's mapping, and notes are `''` without a seventh field |
| BookDeduplicator.NormalizeTitleShape | scripts/lib/book-deduplicator.mjs:12-19 | the key holds only lower-case word characters, spaces and apostrophes, does not start or end with a space, and has no two spaces in a row |
| BookDeduplicator.NormalizeTitleIgnoresSubtitle | scripts/lib/book-deduplicator.mjs:14 | a subtitle after the first colon does not change the key |
| BookDeduplicator.NormalizeTitleFixed | scripts/lib/book-deduplicator.mjs:12-19 | a string already in key shape is its own key |
| BookDeduplicator.NormalizeTitleIdempotent | scripts/lib/book-deduplicator.mjs:12-19 | normalising twice is normalising once |
| BookDeduplicator.DistinctFacts | scripts/lib/book-deduplicator.mjs:67-68 | `[...new Set(xs)]` holds each value of the input exactly once |
| BookDeduplicator.FirstPos | scripts/lib/book-deduplicator.mjs:67-68 | the first position of a value is an occurrence with none before it, and is the length exactly when the value is absent |
| BookDeduplicator.DistinctFirstAppearance | scripts/lib/book-deduplicator.mjs:67-68 | `[...new Set(xs)]` lists the values in strictly increasing order of their first position in the input |
| BookDeduplicator.KeysFirstAppearance | scripts/lib/book-deduplicator.mjs:48-53 | the group keys are pairwise distinct and ordered by the first entry that has each, as a `Map` keeps insertion order |
| BookDeduplicator.GroupMembers | scripts/lib/book-deduplicator.mjs:48-54 | a key's group holds exactly the entries with that key, as a sub-multiset of the input |
| BookDeduplicator.KeyListMembers | scripts/lib/book-deduplicator.mjs:49 | a key is listed exactly when some entry's title normalises to it |
| BookDeduplicator.GroupNonEmptyIff | scripts/lib/book-deduplicator.mjs:50-53 | a group is non-empty exactly when its key is one of the distinct keys |
| BookDeduplicator.GroupsPartition | scripts/lib/book-deduplicator.mjs:48-54 | the group sizes over the distinct keys add up to the number of entries |
| BookDeduplicator.MinYearIsMin | scripts/lib/book-deduplicator.mjs:64 | `Math.min` over the group's years is one of them and no larger than any |
| BookDeduplicator.MergeFields | scripts/lib/book-deduplicator.mjs:61-83 | the merged book has the key as id and the minimum year; its other scalar fields come from the first entry; it lists every discipline and category of the group once each, in order of first appearance in the group, and every row in order |
| BookDeduplicator.DisciplinesOfGroup | scripts/lib/book-deduplicator.mjs:67 | `allDisciplines` holds exactly the disciplines of the group |
| BookDeduplicator.CategoriesOfGroup | scripts/lib/book-deduplicator.mjs:68 | `allCategories` holds exactly the categories of the group |
| BookDeduplicator.UniqueAt | scripts/lib/book-deduplicator.mjs:56-83 | there is one unique book per distinct key, in key order (first appearance, by KeysFirstAppearance), each the merge of its group |
| BookDeduplicator.UniqueIds | scripts/lib/book-deduplicator.mjs:60-72 | unique book ids are distinct, and every entry's key is the id of some unique book |
| BookDeduplicator.SurplusIsMergedAway | scripts/lib/book-deduplicator.mjs:57-87 | the sum over groups of (size − 1) equals entries minus unique books |
| BookDeduplicator.DuplicateGroupsExact | scripts/lib/book-deduplicator.mjs:85-88 | duplicate groups hold exactly the keys with more than one entry, each mapped to its whole group in input order |
| BookDeduplicator.GroupEntries | scripts/lib/book-deduplicator.mjs:46-54 | the grouping loop yields the distinct keys in first-appearance order and each key's group |
| BookDeduplicator.MergeGroups | scripts/lib/book-deduplicator.mjs:56-89 | the merge loop yields the merged books, the surplus count and the duplicate groups of its pair list |
| BookDeduplicator.DeduplicateBooks | scripts/lib/book-deduplicator.mjs:44-92 | returns the unique books, `duplicateCount` = entries − unique books, and exactly the duplicate groups |
| ProgressTracker.CountsPartition | scripts/lib/progress-tracker.mjs:124-132 | the six status counts add up to the number of entries |
| ProgressTracker.SummaryAccounts | scripts/lib/progress-tracker.mjs:124-132 | `total` is the number of entries; the five tallies plus the in-progress count equal it, so the tallies sum to at most `total` |
| ProgressTracker.CountZeroIff | scripts/lib/progress-tracker.mjs:126-129 | a tally is zero exactly when no entry has that status |
| ProgressTracker.CountUpdate | scripts/lib/progress-tracker.mjs:126-129 | replacing one entry moves each tally by the old and new statuses only |
| ProgressTracker.ComputeSummary | scripts/lib/progress-tracker.mjs:124-132 | the counting loop yields each status tally and the total |
| ProgressTracker.FirstIndex | scripts/lib/progress-tracker.mjs:154 | `find` returns the first entry with the id, and none exactly when no entry has it |
| ProgressTracker.ProgressMapKeys | scripts/lib/progress-tracker.mjs:139-145 | the map's keys are exactly the ids, each mapped to an entry with that id |
| ProgressTracker.ProgressMapLastWins | scripts/lib/progress-tracker.mjs:141-143 | with repeated ids the last entry wins |
| ProgressTracker.ProgressFile.constructor | scripts/generate-book-review.mjs:131-138 | a new progress object has schema version 1, both stamps set to `now`, an empty summary, and the given books and deferred list |
| ProgressTracker.ProgressFile.Save | scripts/lib/progress-tracker.mjs:99-101 | a save overwrites the timestamp and the summary with the tally of the current books, whatever the summary held; nothing else changes |
| ProgressTracker.ProgressFile.BuildProgressMap | scripts/lib/progress-tracker.mjs:139-145 | the loop builds the id-to-entry map |
| ProgressTracker.ProgressFile.MarkInProgress | scripts/lib/progress-tracker.mjs:153-158 | fails with "Book not found: id" and changes nothing when no entry has the id; otherwise only the first match's status becomes in_progress, then the file is saved |
| ProgressTracker.ProgressFile.MarkReviewed | scripts/lib/progress-tracker.mjs:168-176 | not found as above; otherwise the first match becomes reviewed with the review file, the date part of `now` and the caller's week number; nothing else changes |
| ProgressTracker.ProgressFile.MarkFailed | scripts/lib/progress-tracker.mjs:185-191 | not found as above; otherwise the first match becomes failed with the reason; nothing else changes |
| ProgressTracker.ProgressFile.ResetToPending | scripts/lib/progress-tracker.mjs:199-208 | not found as above; a status other than failed or in_progress fails with a message naming it and changes nothing; otherwise the status becomes pending and the failure reason is removed |
| ProgressTracker.MarkReviewedCount | scripts/lib/progress-tracker.mjs:171 | marking a not-yet-reviewed entry reviewed raises the saved `reviewed` tally by one and keeps `total` |
| Scheduler.CheckDeferral | scripts/lib/scheduler.mjs:62-70 | a book is deferred exactly when its year is after `currentYear − 5`, and only then has a reason |
| Scheduler.DeferralReasonNamesYears | scripts/lib/scheduler.mjs:66 | the reason starts with "publicationYear" and the year, and ends with the eligibility year `year + 5` |
| Scheduler.IndexOfFirst | scripts/lib/scheduler.mjs:48 | `indexOf` finds the first occurrence, and gives −1 exactly for an absent value |
| Scheduler.InDisciplineMembers | scripts/lib/scheduler.mjs:38-43 | a discipline's bucket holds exactly the books whose primary discipline it is |
| Scheduler.QueueMembers | scripts/lib/scheduler.mjs:32-52 | each queue is a permutation of the books with that primary discipline; books of any other discipline are in no queue |
| Scheduler.QueueOrder | scripts/lib/scheduler.mjs:46-52 | queues run by level index (an unknown level is −1 and comes first), then by list position |
| Scheduler.QueueStable | scripts/lib/scheduler.mjs:47-51 | books with equal level and position keep their input order |
| Scheduler.FillQueues | scripts/lib/scheduler.mjs:33-43 | the loop makes exactly the three queues PM, Design and Engineering, each holding its books in input order |
| Scheduler.BuildDisciplineQueues | scripts/lib/scheduler.mjs:32-55 | the three queues, each the sorted queue of its discipline |
| Scheduler.CountReviewed | scripts/lib/scheduler.mjs:83-86 | the counting loop yields the number of entries whose status is reviewed |
| Scheduler.FirstEligible | scripts/lib/scheduler.mjs:97-112 | a found position lies within the queue |
| Scheduler.FirstEligibleFirst | scripts/lib/scheduler.mjs:97-112 | the found book is eligible and every book before it is not; none is found exactly when no book is eligible |
| Scheduler.FirstEligibleAt | scripts/lib/scheduler.mjs:97-112 | the first eligible position is the one found |
| Scheduler.RotationAt | scripts/lib/scheduler.mjs:92-94 | attempt `a` from start `s` visits discipline `(s + a) mod 3`, and the rotation visits all three |
| Scheduler.ScanQueue | scripts/lib/scheduler.mjs:97-112 | the inner loop finds the first book that is neither blocked by its status nor deferred |
| Scheduler.NextBookStart | scripts/lib/scheduler.mjs:83-90 | the scan starts at discipline `reviewed mod 3` with week `reviewed + 1` |
| Scheduler.GetNextBook | scripts/lib/scheduler.mjs:79-116 | the counting and nested scan loops return exactly the next pick |
| Scheduler.ScanPick | scripts/lib/scheduler.mjs:92-113 | a pick is the first eligible book of its queue, and every earlier queue in the scan has no eligible book |
| Scheduler.ScanNone | scripts/lib/scheduler.mjs:92-115 | with no eligible book in any scanned queue, the scan finds nothing |
| Scheduler.NextBookPick | scripts/lib/scheduler.mjs:83-113 | the pick's week is reviewed + 1 and its discipline is the book's own, at a position of the rotation from `reviewed mod 3`; the book is eligible and first eligible in its queue, and earlier disciplines in the rotation have none |
| Scheduler.NextBookNone | scripts/lib/scheduler.mjs:115 | when nothing is returned, no book of any queue is eligible |
| Scheduler.NoneEligible | scripts/lib/scheduler.mjs:115 | with no eligible book in the three queues, no book of the three disciplines is eligible |
| Scheduler.NextBookNoneIff | scripts/lib/scheduler.mjs:92-115 | nothing is returned exactly when no book of the three disciplines is eligible |
| Scheduler.NextOfIsNextBook | scripts/lib/scheduler.mjs:131 | the preview's step function is `getNextBook` on the simulated map |
| Scheduler.PreviewSchedule | scripts/lib/scheduler.mjs:125-145 | returns the simulated schedule (`limit` defaults to 10); the caller's map is a value and is not changed |
| Scheduler.SimulateWeeks | scripts/lib/scheduler.mjs:127-143 | the bounded loop picks, records and marks each pick reviewed on the copy |
| Scheduler.PreviewStep | scripts/lib/scheduler.mjs:130-141 | one preview step: stop when nothing is returned, else record the pick and go on with it marked reviewed |
| Scheduler.NextOfPicksFresh | scripts/lib/scheduler.mjs:97-111 | every pick is a given book, not yet reviewed, for week reviewed + 1 |
| Scheduler.MarkOneReviewed | scripts/lib/scheduler.mjs:137-141 | marking a not-yet-reviewed id reviewed raises the reviewed count by one |
| Scheduler.PreviewLength | scripts/lib/scheduler.mjs:130 | the preview holds at most `limit` picks, none for a negative limit |
| Scheduler.PreviewWeeks | scripts/lib/scheduler.mjs:130-141 | preview weeks rise by exactly one from reviewed + 1 |
| Scheduler.PreviewSkipsReviewed | scripts/lib/scheduler.mjs:101 | a reviewed book is never previewed |
| Scheduler.PreviewDistinct | scripts/lib/scheduler.mjs:130-141 | previewed books are given books with pairwise distinct ids |
| Scheduler.PreviewProperties | scripts/lib/scheduler.mjs:125-145 | the preview is bounded by the limit, with distinct books and weeks rising by one from reviewed + 1 |
| GenerateBookReview.HyphenatedShape | scripts/generate-book-review.mjs:415-422 | before the end hyphens are cut, the slug holds only lower-case letters, digits, `_` and `-`, with no two hyphens in a row |
| GenerateBookReview.StripHyphenEndsShape | scripts/generate-book-review.mjs:423 | cutting one hyphen at each end of such a string leaves a slug |
| GenerateBookReview.TitleToSlugShape | scripts/generate-book-review.mjs:415-424 | a slug has only slug characters, no two hyphens in a row and no hyphen at either end; in particular no white space, upper case, colon or apostrophe |
| GenerateBookReview.TitleToSlugFixed | scripts/generate-book-review.mjs:415-424 | a slug is its own slug |
| GenerateBookReview.TitleToSlugIdempotent | scripts/generate-book-review.mjs:415-424 | slugging twice is slugging once |
| GenerateBookReview.TitleToSlugIgnoresSubtitle | scripts/generate-book-review.mjs:417 | a subtitle after the first colon does not change the slug |
| GenerateBookReview.ReviewSlugRoundTrip | scripts/generate-book-review.mjs:401-403 | a file `YYYY-MM-DD-<slug>.md` yields its slug |
| GenerateBookReview.ReviewSlugShape | scripts/generate-book-review.mjs:398-403 | a name yields a slug only when it is a date, `-`, a non-empty single-line slug and `.md` |
| GenerateBookReview.ReviewsOfKeys | scripts/generate-book-review.mjs:399-405 | the review map has exactly the slugs of matching names, each mapped to a name with that slug |
| GenerateBookReview.ReviewsOfLastWins | scripts/generate-book-review.mjs:403 | when two names share a slug, the later one is kept |
| GenerateBookReview.DetectExistingReviews | scripts/generate-book-review.mjs:393-408 | a missing directory gives no reviews; otherwise the slug-to-file map of its names |
| GenerateBookReview.InitEntryStatus | scripts/generate-book-review.mjs:106-127 | the status is reviewed when the slug has a review file, else deferred when the book is too recent, else pending; only a reviewed entry has week 0, a review file and a date |
| GenerateBookReview.InitEntryReviewDate | scripts/generate-book-review.mjs:122-126 | a reviewed entry records the file under `src/content/books/` and the date from its name |
| GenerateBookReview.InitReviewedIff | scripts/generate-book-review.mjs:108-109 | a book starts reviewed exactly when some file name yields its title's slug |
| GenerateBookReview.InitReviewedByFile | scripts/generate-book-review.mjs:108-109 | a file `<date>-<slug>.md` for the book marks it reviewed |
| GenerateBookReview.InitEntriesOrder | scripts/generate-book-review.mjs:106-120 | one entry per unique book, in order, with its id and rows |
| GenerateBookReview.InitSummary | scripts/generate-book-review.mjs:121 | init produces no failed, skipped or in-progress entries, so reviewed + pending + deferred = books |
| GenerateBookReview.DeferredOfExactly | scripts/generate-book-review.mjs:85-98 | the deferred list holds exactly the too-recent unique books, each with `deferUntilYear = year + 5` |
| GenerateBookReview.CollectDeferred | scripts/generate-book-review.mjs:85-98 | the loop builds the deferred list |
| GenerateBookReview.InitDeferredListed | scripts/generate-book-review.mjs:87-121 | every entry that starts deferred is on the deferred list |
| GenerateBookReview.Init | scripts/generate-book-review.mjs:58-140 | init saves a fresh progress object holding the entries of the deduplicated catalog, the deferred list, version 1 and the tally |
| GenerateBookReview.FirstWithRow | scripts/generate-book-review.mjs:289 | the first entry whose rows include the row, and none exactly when no entry has it |
| GenerateBookReview.CsvRowTarget | scripts/generate-book-review.mjs:287-303 | refused when no entry has the row, or when the first such entry is reviewed or deferred; otherwise that entry with week `summary.reviewed + 1` |
| ContentSchema.Utf16LengthBounds | src/schemas/content.ts:6-7 | a string's `length` lies between its characters and twice that, and equals its characters in the Basic Multilingual Plane |
| ContentSchema.UnknownDisciplinesEmpty | src/schemas/content.ts:11-13 | there is no element issue exactly when every discipline is PM, Design or Engineering |
| ContentSchema.UnknownDisciplinesOnly | src/schemas/content.ts:12 | the element check reports only unknown-discipline issues |
| ContentSchema.ParseArticleAcceptsIff | src/schemas/content.ts:5-19 | an article is accepted exactly when title ≤ 60, description ≤ 155, the dates are valid, and there is at least one discipline, all known |
| ContentSchema.ParseArticleDefaults | src/schemas/content.ts:8-16 | an accepted article keeps its fields; an absent author becomes 'Tshepo Machele', tags [], featured and draft false |
| ContentSchema.TitleLimit | src/schemas/content.ts:6 | a title of 60 characters passes and one of 61 fails |
| ContentSchema.DescriptionLimit | src/schemas/content.ts:7 | a description of 155 characters passes and one of 156 fails |
| ContentSchema.ParseArticleRoundTrip | src/schemas/content.ts:5-19 | a parsed article written back parses to itself |
| ContentSchema.ParseBookReviewAcceptsIff | src/schemas/content.ts:23-42 | a review is accepted exactly when discipline and level are known, rating is an integer in 1..5, year is an integer ≤ currentYear − 5, the cross-functional value is non-empty, there are 3 to 5 takeaways and any link is a URL; tags then default to [] and draft to false |
| ContentSchema.RatingValues | src/schemas/content.ts:28 | the ratings that pass are exactly 1, 2, 3, 4 and 5 |
| ContentSchema.YearRuleIsDeferral | src/schemas/content.ts:29-32 | an integer year passes exactly when the scheduler does not defer it |
| ContentSchema.TakeawaysLimit | src/schemas/content.ts:35-38 | fewer than 3 or more than 5 takeaways are reported; 3 to 5 are not |
| ContentFilters.FilterExactly | src/utils/content.ts:15 | `filter` keeps exactly the items that pass, as a subsequence of its input |
| ContentFilters.FilterAppend | src/utils/content.ts:15 | filtering a concatenation concatenates the results |
| ContentFilters.FilterAll | src/utils/content.ts:15 | when every item passes, the input comes back unchanged |
| ContentFilters.FilterIdempotent | src/utils/content.ts:15 | filtering twice with one test is filtering once |
| ContentFilters.SubsequenceOfSelf | src/utils/content.ts:35 | an input returned unchanged is a subsequence of itself |
| ContentFilters.FilterByDisciplineAll | src/utils/content.ts:13 | no discipline, or the empty one, returns the input unchanged |
| ContentFilters.FilterByDisciplineKeeps | src/utils/content.ts:15-22 | keeps, in order, exactly the items whose `disciplines` list has it or, without that list, whose `discipline` equals it; filtering again changes nothing |
| ContentFilters.FilterDraftsKeeps | src/utils/content.ts:31-37 | with `includeDrafts` the input is kept; otherwise exactly the items whose draft is not true, in order; idempotent |
| ContentFilters.GetFeaturedArticlesKeeps | src/utils/content.ts:44-48 | keeps exactly the featured articles, in order; idempotent |
| ContentFilters.InheritedNameLookups | src/utils/content.ts:56-78 | as written, the label of "toString" is the inherited function rather than "toString", and the colour of "constructor" is not 'gray' |
| ContentFilters.GetDisciplineLabel | src/utils/content.ts:56-63 | the own label of a known code, else the code itself |
| ContentFilters.GetDisciplineColor | src/utils/content.ts:71-78 | the own colour of a known code, else 'gray' |
| ContentFilters.LookupValues | src/utils/content.ts:56-78 | PM reads 'Product Management'; Design, Engineering and every other code read as themselves; colours are 'pm', 'design', 'engineering', else 'gray' |
| ContentFilters.LookupsAgreeOffPrototype | src/utils/content.ts:56-78 | the corrected lookups agree with the code as written on every string that is not an `Object.prototype` member name |
| ReadingTime.ReadingTimeIsCeiling | src/utils/reading-time.ts:7-10 | 0 words read in 0 minutes; otherwise 200 words a minute cover the words and one minute fewer does not |
| ReadingTime.ReadingTimeLeast | src/utils/reading-time.ts:9 | no smaller number of minutes covers the words |
| ReadingTime.ReadingTimeMonotone | src/utils/reading-time.ts:9 | more words never read faster |
| ReadingTime.ReadingTimeValues | src/utils/reading-time.ts:8-9 | 1 to 200 words read in 1 minute; 199, 201, 400 and 401 words read in 1, 2, 2 and 3 |
| ReadingTime.SplitWhitespace | src/utils/reading-time.ts:20 | `split(/\s+/)` gives at least one piece |
| ReadingTime.SplitWhitespaceCount | src/utils/reading-time.ts:20 | the split gives one piece more than there are white-space runs |
| ReadingTime.NoWordsInSpace | src/utils/reading-time.ts:19 | white space alone holds no word |
| ReadingTime.WordsOfTrim | src/utils/reading-time.ts:18 | trimming removes no word |
| ReadingTime.GetWordCountIsWords | src/utils/reading-time.ts:17-21 | the word count is the number of maximal runs of non-white-space characters, whatever white space separates, leads or trails them; 0 for blank text |
| DateSort.SortByDate | src/utils/date.ts:23-31 | returns a new array holding the items sorted by date (`desc` by default) and leaves the input array as it was |
| DateSort.SortByDateOrdered | src/utils/date.ts:27-30 | the result is a permutation of the input, non-increasing by date for `desc` and non-decreasing for `asc` |
| DateSort.SortByDateStable | src/utils/date.ts:27-30 | items with the same date keep their input order |
| DateSort.SortByDateSmall | src/utils/date.ts:27 | empty and one-item inputs come back unchanged |

## Left out

- File I/O is not modelled: reading the catalog, loading the progress file with its backup fallback and version warning, the atomic write with backup, and listing the reviews directory. The model starts from the content, the stored object or the list of names.
- The clock is a parameter: `currentYear` (frozen when the scheduler module loads), and the `now` timestamp used for `updatedAt`, `createdAt` and `reviewDate`.
- The command line and the external process of the generator are not modelled. This covers argument parsing, console output, running the review generator and its timeout, `findReviewFile`, `process.exit` and the timeline estimates. The dry-run, status and generate modes rebuild the unique books from the progress file; that is not modelled either.
- `parseBooksCSV` reads a number field with `parseInt`; a field without leading digits (NaN in the source) reads as 0 in `CsvParser.NumberField`.
- `toLowerCase` is modelled on ASCII letters only; Unicode case mapping is not modelled. `\w` is ASCII in JavaScript as well, and `\s` is modelled with its full Unicode set.
- BookDeduplicator.NormalizeTitle: the apostrophe class on line 16 holds two straight quotes, so that replacement changes nothing, and typographic apostrophes are then removed as punctuation. The comment on line 8 also mentions a dash; the code cuts only at a colon, and the model follows the code.
- ProgressTracker.Status has the six documented statuses. A hand-edited status string is not modelled. `computeSummary` would count such a string under a counter of the same name (`total` included).
- Scheduler.GetNextBook reads only the status of a progress entry, so the progress map is modelled as id-to-status.
- StableSort.Sort models `Array.prototype.sort` as a stable insertion sort on values. The in-place sort of each queue and the array copy in `sortByDate` are values here.
- DateSort.SortByDate does not model invalid dates: a NaN difference makes the comparator inconsistent.
- `ContentSchema` takes inputs of the right JSON types. `z.coerce.date()` arrives as a time value or an invalid date. `z.string().url()` is the parameter `isUrl`. JavaScript numbers are exact reals, not floating point. Issue messages and the order of zod's report are not modelled.
- CsvParser.CategoryToDiscipline reads only the three own keys of `CATEGORY_TO_DISCIPLINE`. In the source, a category cell spelled like an inherited member name (for example `constructor`) would pass the truthiness test with a non-string discipline. This is the same lookup pattern as the one under Findings, and the model keeps such a row out.
- `scheduledDate`, `formatDate`, the RSS page, the newsletter function and the configuration files are not part of this model.

## Findings

| source | as written | input that shows it | evidently intended | confidence | as-written member | corrected member |
|---|---|---|---|---|---|---|
| src/utils/content.ts:56-63, 71-78 | `labels[discipline] \|\| discipline` and `colors[discipline] \|\| 'gray'` index an object literal, so a name inherited from `Object.prototype` is found | `getDisciplineLabel('toString')` returns the inherited function, not `'toString'`; `getDisciplineColor('constructor')` returns the `Object` constructor, not `'gray'` | unknown codes fall back to the code itself and to `'gray'` (own keys only) | not executed | ContentFilters.InheritedNameLookups | ContentFilters.LookupValues |
