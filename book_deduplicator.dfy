/** The deduplicator of `scripts/lib/book-deduplicator.mjs`: catalog entries whose
    titles normalise to the same key are one book, listed once with the data of
    its first entry and the earliest publication year of all of them. */
module BookDeduplicator {

  import opened Text
  import opened CsvParser

  // ---------------------------------------------------------------- normalizeTitle

  /** The characters the punctuation step keeps: `\w`, `\s` and the apostrophe. */
  predicate TitleChar(c: char) {
    IsWordChar(c) || IsSpace(c) || c == '\''
  }

  /** `normalizeTitle`: the text before the first colon, lower-cased, without
      punctuation other than apostrophes, white-space runs collapsed to one
      space and both ends trimmed. The apostrophe step of the source replaces
      `'` by `'` and so changes nothing. */
  function NormalizeTitle(title: string): string {
    Trim(ReplaceRuns(Keep(Lower(BeforeColon(title)), TitleChar), IsSpace, ' '))
  }

  /** The characters a normalised title is made of. */
  predicate KeyChar(c: char) {
    ('a' <= c <= 'z') || ('0' <= c <= '9') || c == '_' || c == '\'' || c == ' '
  }

  /** The steps before trimming leave only lower-case word characters,
      apostrophes and single spaces. */
  lemma CollapsedShape(title: string)
    ensures var s := ReplaceRuns(Keep(Lower(BeforeColon(title)), TitleChar), IsSpace, ' ');
      && (forall c :: c in s ==> KeyChar(c))
      && NoAdjacent(s, IsSpace)
  {
    var l := Lower(BeforeColon(title));
    var k := Keep(l, TitleChar);
    assert forall c :: c in k ==> c in l && TitleChar(c);
    assert forall c :: c in l ==> !IsUpper(c);
    ReplaceRunsChars(k, IsSpace, ' ');
    ReplaceRunsNoAdjacent(k, IsSpace, ' ');
  }

  /** A normalised title holds only lower-case ASCII letters, digits, `_`, `'` and
      single spaces between words: no colon, no upper case, no other punctuation,
      no white space at either end. */
  lemma NormalizeTitleShape(title: string)
    ensures var key := NormalizeTitle(title);
      && (forall c :: c in key ==> KeyChar(c))
      && (key == [] || (key[0] != ' ' && key[|key| - 1] != ' '))
      && NoAdjacent(key, IsSpace)
  {
    var s := ReplaceRuns(Keep(Lower(BeforeColon(title)), TitleChar), IsSpace, ' ');
    CollapsedShape(title);
    var i, j := TrimIsSlice(s);
    var key := NormalizeTitle(title);
    assert key == s[i..j];
    forall c | c in key ensures KeyChar(c) {
      assert c in s;
    }
    forall m | 0 <= m < |key| - 1 ensures !(IsSpace(key[m]) && IsSpace(key[m + 1])) {
      assert key[m] == s[i + m] && key[m + 1] == s[i + m + 1];
    }
  }

  /** Everything before the first colon counts; the rest of the title does not. */
  lemma NormalizeTitleIgnoresSubtitle(title: string, subtitle: string)
    requires ':' !in title
    ensures NormalizeTitle(title + ":" + subtitle) == NormalizeTitle(title)
  {
    BeforeColonAppend(title, subtitle);
    BeforeColonFixed(title);
  }

  lemma {:induction false} BeforeColonAppend(title: string, subtitle: string)
    requires ':' !in title
    ensures BeforeColon(title + ":" + subtitle) == title
  {
    if title != [] {
      assert (title + ":" + subtitle)[1..] == title[1..] + ":" + subtitle;
      BeforeColonAppend(title[1..], subtitle);
    }
  }

  /** A string already in normalised shape is its own normalisation. */
  lemma NormalizeTitleFixed(key: string)
    requires forall c :: c in key ==> KeyChar(c)
    requires key == [] || (key[0] != ' ' && key[|key| - 1] != ' ')
    requires NoAdjacent(key, IsSpace)
    ensures NormalizeTitle(key) == key
  {
    KeyCharsKept(key);
    KeyRunsKept(key);
    assert Trim(key) == key by {
      if key != [] {
        assert KeyChar(key[0]) && KeyChar(key[|key| - 1]);
      }
      TrimFixed(key);
    }
  }

  /** Key characters survive the colon, case and punctuation steps. */
  lemma KeyCharsKept(key: string)
    requires forall c :: c in key ==> KeyChar(c)
    ensures Keep(Lower(BeforeColon(key)), TitleChar) == key
  {
    assert ':' !in key by {
      assert !KeyChar(':');
    }
    BeforeColonFixed(key);
    LowerFixed(key);
    assert forall c :: c in key ==> TitleChar(c);
  }

  /** Single spaces are what the run collapsing writes. */
  lemma KeyRunsKept(key: string)
    requires forall c :: c in key ==> KeyChar(c)
    requires NoAdjacent(key, IsSpace)
    ensures ReplaceRuns(key, IsSpace, ' ') == key
  {
    forall m | 0 <= m < |key| && IsSpace(key[m]) ensures key[m] == ' ' {
      assert KeyChar(key[m]);
    }
    ReplaceRunsFixed(key, IsSpace, ' ');
  }

  /** Normalising a normalised title changes nothing. */
  lemma NormalizeTitleIdempotent(title: string)
    ensures NormalizeTitle(NormalizeTitle(title)) == NormalizeTitle(title)
  {
    NormalizeTitleShape(title);
    NormalizeTitleFixed(NormalizeTitle(title));
  }

  // ---------------------------------------------------------------- grouping
  //
  // Grouping is stated for any title normaliser `norm`; `deduplicateBooks` uses
  // `NormalizeTitle`. None of the grouping facts depends on how keys are made.

  /** `[...new Set(xs)]`: each value once, in order of first appearance. */
  function Distinct<T(==)>(xs: seq<T>): (r: seq<T>)
    ensures |r| <= |xs|
  {
    if xs == [] then []
    else
      var init := Distinct(xs[..|xs| - 1]);
      var x := xs[|xs| - 1];
      if x in init then init else init + [x]
  }

  /** `Distinct` keeps every value of its input and repeats none. */
  lemma {:induction false} DistinctFacts<T>(xs: seq<T>)
    ensures forall x :: x in Distinct(xs) <==> x in xs
    ensures forall i :: 0 <= i < |Distinct(xs)| ==> Distinct(xs)[i] in xs
    ensures forall i, j :: 0 <= i < j < |Distinct(xs)| ==> Distinct(xs)[i] != Distinct(xs)[j]
  {
    if xs != [] {
      DistinctFacts(xs[..|xs| - 1]);
      assert xs == xs[..|xs| - 1] + [xs[|xs| - 1]];
    }
  }

  /** `xs.indexOf(x)`, with `|xs|` for a value that does not occur. */
  function FirstPos<T(==)>(xs: seq<T>, x: T): (p: nat)
    ensures p <= |xs|
    ensures p < |xs| <==> x in xs
    ensures p < |xs| ==> xs[p] == x
    ensures forall k :: 0 <= k < p ==> xs[k] != x
  {
    if xs == [] then 0 else if xs[0] == x then 0 else 1 + FirstPos(xs[1..], x)
  }

  /** Appending leaves the first position of an earlier value unchanged. */
  lemma FirstPosSnoc<T>(xs: seq<T>, y: T, x: T)
    requires x in xs
    ensures FirstPos(xs + [y], x) == FirstPos(xs, x)
  {
    var p := FirstPos(xs + [y], x);
    var q := FirstPos(xs, x);
    assert (xs + [y])[q] == x;
    if p < q {
      assert xs[p] == (xs + [y])[p];
    }
  }

  /** `Distinct` lists its values in order of their first appearance in `xs`. */
  lemma {:induction false} DistinctFirstAppearance<T>(xs: seq<T>)
    ensures forall i, j :: 0 <= i < j < |Distinct(xs)| ==>
              FirstPos(xs, Distinct(xs)[i]) < FirstPos(xs, Distinct(xs)[j]) < |xs|
  {
    if xs != [] {
      var t := xs[..|xs| - 1];
      var x := xs[|xs| - 1];
      var init := Distinct(t);
      DistinctFirstAppearance(t);
      DistinctFacts(t);
      assert xs == t + [x];
      forall i | 0 <= i < |init| ensures FirstPos(xs, init[i]) == FirstPos(t, init[i]) < |t| {
        FirstPosSnoc(t, x, init[i]);
      }
      if x !in init {
        assert FirstPos(xs, x) == |t|;
      }
    }
  }

  /** The key of every entry, in input order. */
  function KeyList(entries: seq<BookEntry>, norm: string -> string): (r: seq<string>)
    ensures |r| == |entries|
  {
    if entries == [] then []
    else KeyList(entries[..|entries| - 1], norm) + [norm(entries[|entries| - 1].title)]
  }

  /** The distinct keys of `entries` in order of first appearance: the insertion
      order of the `groups` map. */
  function Keys(entries: seq<BookEntry>, norm: string -> string): seq<string> {
    Distinct(KeyList(entries, norm))
  }

  /** The keys are pairwise distinct and come in the order of the first entry
      that has each. */
  lemma KeysFirstAppearance(entries: seq<BookEntry>, norm: string -> string)
    ensures forall i, j :: 0 <= i < j < |Keys(entries, norm)| ==>
              Keys(entries, norm)[i] != Keys(entries, norm)[j]
              && FirstPos(KeyList(entries, norm), Keys(entries, norm)[i])
                 < FirstPos(KeyList(entries, norm), Keys(entries, norm)[j])
  {
    DistinctFacts(KeyList(entries, norm));
    DistinctFirstAppearance(KeyList(entries, norm));
  }

  /** The entries with key `key`, in input order. */
  function Group(entries: seq<BookEntry>, norm: string -> string, key: string): (r: seq<BookEntry>)
    ensures |r| <= |entries|
  {
    if entries == [] then []
    else
      var last := entries[|entries| - 1];
      Group(entries[..|entries| - 1], norm, key) + (if norm(last.title) == key then [last] else [])
  }

  /** A group holds exactly the entries with its key, as a sub-multiset of the input. */
  lemma {:induction false} GroupMembers(entries: seq<BookEntry>, norm: string -> string, key: string)
    ensures forall e :: e in Group(entries, norm, key) <==> e in entries && norm(e.title) == key
    ensures multiset(Group(entries, norm, key)) <= multiset(entries)
  {
    if entries != [] {
      var init := entries[..|entries| - 1];
      GroupMembers(init, norm, key);
      assert entries == init + [entries[|entries| - 1]];
    }
  }

  /** A key is listed exactly when some entry has it. */
  lemma {:induction false} KeyListMembers(entries: seq<BookEntry>, norm: string -> string, key: string)
    ensures key in KeyList(entries, norm) <==> exists e :: e in entries && norm(e.title) == key
  {
    if entries != [] {
      var init := entries[..|entries| - 1];
      var last := entries[|entries| - 1];
      KeyListMembers(init, norm, key);
      assert entries == init + [last];
      assert KeyList(entries, norm) == KeyList(init, norm) + [norm(last.title)];
      if key in KeyList(init, norm) {
        var e :| e in init && norm(e.title) == key;
        assert e in entries;
      }
    }
  }

  /** A key has a non-empty group exactly when it is one of the keys. */
  lemma GroupNonEmptyIff(entries: seq<BookEntry>, norm: string -> string, key: string)
    ensures Group(entries, norm, key) != [] <==> key in Keys(entries, norm)
  {
    GroupMembers(entries, norm, key);
    KeyListMembers(entries, norm, key);
    DistinctFacts(KeyList(entries, norm));
    var g := Group(entries, norm, key);
    if key in Keys(entries, norm) {
      var e :| e in entries && norm(e.title) == key;
      assert e in g;
    }
    if g != [] {
      assert g[0] in g;
    }
  }

  /** One more entry joins its own key's group and no other. */
  lemma GroupSnoc(entries: seq<BookEntry>, norm: string -> string, x: BookEntry, key: string)
    ensures Group(entries + [x], norm, key)
         == Group(entries, norm, key) + (if norm(x.title) == key then [x] else [])
  {
    assert (entries + [x])[..|entries|] == entries;
  }

  /** One more entry adds its key at the end of the key order, unless already there. */
  lemma KeysSnoc(entries: seq<BookEntry>, norm: string -> string, x: BookEntry)
    ensures Keys(entries + [x], norm)
         == Keys(entries, norm) + (if norm(x.title) in Keys(entries, norm) then [] else [norm(x.title)])
  {
    assert (entries + [x])[..|entries|] == entries;
    var ks := KeyList(entries + [x], norm);
    assert ks == KeyList(entries, norm) + [norm(x.title)];
    assert ks[..|ks| - 1] == KeyList(entries, norm);
  }

  // ---------------------------------------------------------------- merging

  /** One book after deduplication. */
  datatype UniqueBook = UniqueBook(
    id: string,
    title: string,
    author: string,
    year: int,
    primaryDiscipline: string,
    level: string,
    allDisciplines: seq<string>,
    allCategories: seq<string>,
    csvRows: seq<nat>,
    listPosition: int,
    notes: string)

  /** `Math.min` of the years of a non-empty group. */
  function MinYear(group: seq<BookEntry>): int
    requires group != []
  {
    if |group| == 1 then group[0].year
    else
      var m := MinYear(group[..|group| - 1]);
      var last := group[|group| - 1];
      if last.year < m then last.year else m
  }

  /** `MinYear` is the year of some entry of the group and no later than any. */
  lemma {:induction false} MinYearIsMin(group: seq<BookEntry>)
    requires group != []
    ensures exists e :: e in group && e.year == MinYear(group)
    ensures forall e :: e in group ==> MinYear(group) <= e.year
  {
    if |group| > 1 {
      var init := group[..|group| - 1];
      var last := group[|group| - 1];
      MinYearIsMin(init);
      assert group == init + [last];
      if last.year < MinYear(init) {
        assert last in group;
      } else {
        var e :| e in init && e.year == MinYear(init);
        assert e in group;
      }
    } else {
      assert group[0] in group;
    }
  }

  /** `group.map((e) => e.discipline)` */
  function Disciplines(group: seq<BookEntry>): (r: seq<string>)
    ensures |r| == |group|
  {
    if group == [] then [] else Disciplines(group[..|group| - 1]) + [group[|group| - 1].discipline]
  }

  /** `group.map((e) => e.category)` */
  function Categories(group: seq<BookEntry>): (r: seq<string>)
    ensures |r| == |group|
  {
    if group == [] then [] else Categories(group[..|group| - 1]) + [group[|group| - 1].category]
  }

  /** `group.map((e) => e.csvRow)` */
  function Rows(group: seq<BookEntry>): (r: seq<nat>)
    ensures |r| == |group|
  {
    if group == [] then [] else Rows(group[..|group| - 1]) + [group[|group| - 1].csvRow]
  }

  lemma {:induction false} ProjectionsAt(group: seq<BookEntry>, i: nat)
    requires i < |group|
    ensures Disciplines(group)[i] == group[i].discipline
    ensures Categories(group)[i] == group[i].category
    ensures Rows(group)[i] == group[i].csvRow
  {
    if i < |group| - 1 {
      ProjectionsAt(group[..|group| - 1], i);
    }
  }

  /** The `UniqueBook` a group becomes. */
  function Merge(key: string, group: seq<BookEntry>): (b: UniqueBook)
    requires group != []
  {
    var first := group[0];
    UniqueBook(key, first.title, first.author, MinYear(group), first.discipline, first.level,
               Distinct(Disciplines(group)), Distinct(Categories(group)), Rows(group),
               first.listPosition, first.notes)
  }

  /** A merged book takes its identity and display fields from the group's first
      entry and its year from the earliest entry; it lists each discipline and
      category of the group once and every row of the group in order. */
  lemma MergeFields(key: string, group: seq<BookEntry>)
    requires group != []
    ensures var b := Merge(key, group);
      && b.id == key
      && (forall e :: e in group ==> b.year <= e.year) && (exists e :: e in group && e.year == b.year)
      && b.title == group[0].title && b.author == group[0].author
      && b.primaryDiscipline == group[0].discipline && b.level == group[0].level
      && b.listPosition == group[0].listPosition && b.notes == group[0].notes
      && (forall d :: d in b.allDisciplines <==> exists e :: e in group && e.discipline == d)
      && (forall c :: c in b.allCategories <==> exists e :: e in group && e.category == c)
      && |b.csvRows| == |group| && (forall i :: 0 <= i < |group| ==> b.csvRows[i] == group[i].csvRow)
      && (forall i, j :: 0 <= i < j < |b.allDisciplines| ==>
            b.allDisciplines[i] != b.allDisciplines[j]
            && FirstPos(Disciplines(group), b.allDisciplines[i]) < FirstPos(Disciplines(group), b.allDisciplines[j]))
      && (forall i, j :: 0 <= i < j < |b.allCategories| ==>
            b.allCategories[i] != b.allCategories[j]
            && FirstPos(Categories(group), b.allCategories[i]) < FirstPos(Categories(group), b.allCategories[j]))
  {
    DistinctFacts(Disciplines(group));
    DistinctFacts(Categories(group));
    DistinctFirstAppearance(Disciplines(group));
    DistinctFirstAppearance(Categories(group));
    MinYearIsMin(group);
    DisciplinesOfGroup(group);
    CategoriesOfGroup(group);
    forall i | 0 <= i < |group| ensures Rows(group)[i] == group[i].csvRow {
      ProjectionsAt(group, i);
    }
  }

  lemma DisciplinesOfGroup(group: seq<BookEntry>)
    ensures forall d :: d in Distinct(Disciplines(group)) <==> exists e :: e in group && e.discipline == d
  {
    var ds := Disciplines(group);
    DistinctFacts(ds);
    forall d ensures d in ds <==> exists e :: e in group && e.discipline == d {
      if d in ds {
        var i :| 0 <= i < |ds| && ds[i] == d;
        ProjectionsAt(group, i);
        assert group[i] in group;
      }
      if e :| e in group && e.discipline == d {
        var i :| 0 <= i < |group| && group[i] == e;
        ProjectionsAt(group, i);
      }
    }
  }

  lemma CategoriesOfGroup(group: seq<BookEntry>)
    ensures forall c :: c in Distinct(Categories(group)) <==> exists e :: e in group && e.category == c
  {
    var cs := Categories(group);
    DistinctFacts(cs);
    forall c ensures c in cs <==> exists e :: e in group && e.category == c {
      if c in cs {
        var i :| 0 <= i < |cs| && cs[i] == c;
        ProjectionsAt(group, i);
        assert group[i] in group;
      }
      if e :| e in group && e.category == c {
        var i :| 0 <= i < |group| && group[i] == e;
        ProjectionsAt(group, i);
      }
    }
  }


  /** The `groups` map as `for (const [key, group] of groups)` visits it: one
      pair per key, in insertion order. */
  function Grouped(entries: seq<BookEntry>, norm: string -> string): seq<(string, seq<BookEntry>)> {
    GroupedBy(entries, norm, Keys(entries, norm))
  }

  function GroupedBy(entries: seq<BookEntry>, norm: string -> string, keys: seq<string>)
    : (r: seq<(string, seq<BookEntry>)>)
    ensures |r| == |keys|
  {
    if keys == [] then []
    else
      var k := keys[|keys| - 1];
      GroupedBy(entries, norm, keys[..|keys| - 1]) + [(k, Group(entries, norm, k))]
  }

  lemma {:induction false} GroupedAt(entries: seq<BookEntry>, norm: string -> string, keys: seq<string>, j: nat)
    requires j < |keys|
    ensures GroupedBy(entries, norm, keys)[j] == (keys[j], Group(entries, norm, keys[j]))
  {
    if j < |keys| - 1 {
      GroupedAt(entries, norm, keys[..|keys| - 1], j);
    }
  }

  predicate NonEmptyGroups(pairs: seq<(string, seq<BookEntry>)>) {
    forall i :: 0 <= i < |pairs| ==> pairs[i].1 != []
  }

  /** Every group of the map holds at least the entry that created it. */
  lemma GroupedNonEmpty(entries: seq<BookEntry>, norm: string -> string)
    ensures NonEmptyGroups(Grouped(entries, norm))
  {
    var ks := Keys(entries, norm);
    forall i | 0 <= i < |ks| ensures Grouped(entries, norm)[i].1 != [] {
      GroupedAt(entries, norm, ks, i);
      GroupNonEmptyIff(entries, norm, ks[i]);
    }
  }

  /** One merged book per pair, in order. */
  function MergeList(pairs: seq<(string, seq<BookEntry>)>): (r: seq<UniqueBook>)
    requires NonEmptyGroups(pairs)
    ensures |r| == |pairs|
  {
    if pairs == [] then []
    else
      var p := pairs[|pairs| - 1];
      MergeList(pairs[..|pairs| - 1]) + [Merge(p.0, p.1)]
  }

  lemma {:induction false} MergeListAt(pairs: seq<(string, seq<BookEntry>)>, j: nat)
    requires NonEmptyGroups(pairs) && j < |pairs|
    ensures MergeList(pairs)[j] == Merge(pairs[j].0, pairs[j].1)
  {
    if j < |pairs| - 1 {
      MergeListAt(pairs[..|pairs| - 1], j);
    }
  }

  /** The `unique` list of `deduplicateBooks` under normaliser `norm`. */
  function UniqueBy(entries: seq<BookEntry>, norm: string -> string): seq<UniqueBook> {
    GroupedNonEmpty(entries, norm);
    MergeList(Grouped(entries, norm))
  }

  /** The `unique` list of `deduplicateBooks`. */
  function Unique(entries: seq<BookEntry>): seq<UniqueBook> {
    UniqueBy(entries, NormalizeTitle)
  }

  /** The `j`-th unique book is the merge of the group of the `j`-th key in order
      of first appearance. */
  lemma UniqueAt(entries: seq<BookEntry>, norm: string -> string, j: nat)
    requires j < |Keys(entries, norm)|
    ensures |UniqueBy(entries, norm)| == |Keys(entries, norm)|
    ensures Group(entries, norm, Keys(entries, norm)[j]) != []
    ensures UniqueBy(entries, norm)[j] == Merge(Keys(entries, norm)[j], Group(entries, norm, Keys(entries, norm)[j]))
  {
    GroupedNonEmpty(entries, norm);
    GroupedAt(entries, norm, Keys(entries, norm), j);
    MergeListAt(Grouped(entries, norm), j);
  }

  /** Ids are pairwise distinct, and every entry's key is the id of a unique book. */
  lemma UniqueIds(entries: seq<BookEntry>, norm: string -> string)
    ensures forall i, j :: 0 <= i < j < |UniqueBy(entries, norm)| ==>
              UniqueBy(entries, norm)[i].id != UniqueBy(entries, norm)[j].id
    ensures forall e :: e in entries ==>
              exists i :: 0 <= i < |UniqueBy(entries, norm)| && UniqueBy(entries, norm)[i].id == norm(e.title)
  {
    var u := UniqueBy(entries, norm);
    var ks := Keys(entries, norm);
    DistinctFacts(KeyList(entries, norm));
    forall i | 0 <= i < |u| ensures u[i].id == ks[i] {
      UniqueAt(entries, norm, i);
    }
    forall e | e in entries ensures exists i :: 0 <= i < |u| && u[i].id == norm(e.title) {
      KeyListMembers(entries, norm, norm(e.title));
      var i :| 0 <= i < |ks| && ks[i] == norm(e.title);
      assert u[i].id == norm(e.title);
    }
  }

  // ---------------------------------------------------------------- counting

  /** The total size of the groups of `keys`. */
  function GroupSizes(entries: seq<BookEntry>, norm: string -> string, keys: seq<string>): nat {
    if keys == [] then 0 else |Group(entries, norm, keys[0])| + GroupSizes(entries, norm, keys[1..])
  }

  lemma {:induction false} GroupSizesAppend(entries: seq<BookEntry>, norm: string -> string, a: seq<string>, b: seq<string>)
    ensures GroupSizes(entries, norm, a + b) == GroupSizes(entries, norm, a) + GroupSizes(entries, norm, b)
  {
    if a != [] {
      assert (a + b)[0] == a[0];
      assert (a + b)[1..] == a[1..] + b;
      GroupSizesAppend(entries, norm, a[1..], b);
    } else {
      assert a + b == b;
    }
  }

  /** One more entry adds one to its key's group size for each time that key is listed. */
  lemma {:induction false} GroupSizesSnoc(entries: seq<BookEntry>, norm: string -> string, x: BookEntry, keys: seq<string>)
    ensures GroupSizes(entries + [x], norm, keys) == GroupSizes(entries, norm, keys) + multiset(keys)[norm(x.title)]
  {
    if keys != [] {
      GroupSizesSnoc(entries, norm, x, keys[1..]);
      assert (entries + [x])[..|entries|] == entries;
      assert keys == [keys[0]] + keys[1..];
    }
  }

  lemma {:induction false} DistinctOnce(keys: seq<string>, k: string)
    requires forall i, j :: 0 <= i < j < |keys| ==> keys[i] != keys[j]
    ensures multiset(keys)[k] == if k in keys then 1 else 0
  {
    if keys != [] {
      DistinctOnce(keys[1..], k);
      assert keys == [keys[0]] + keys[1..];
      if k == keys[0] {
        assert k !in keys[1..];
      }
    }
  }

  /** The groups partition the input: their sizes add up to the number of entries. */
  lemma {:induction false} GroupsPartition(entries: seq<BookEntry>, norm: string -> string)
    ensures GroupSizes(entries, norm, Keys(entries, norm)) == |entries|
  {
    if entries != [] {
      var init := entries[..|entries| - 1];
      var x := entries[|entries| - 1];
      var k := norm(x.title);
      assert entries == init + [x];
      GroupsPartition(init, norm);
      var ks := Keys(init, norm);
      GroupSizesSnoc(init, norm, x, ks);
      DistinctFacts(KeyList(init, norm));
      DistinctOnce(ks, k);
      assert KeyList(entries, norm) == KeyList(init, norm) + [k];
      if k !in ks {
        GroupNonEmptyIff(init, norm, k);
        assert Group(entries, norm, k) == [x];
        GroupSizesAppend(entries, norm, ks, [k]);
      }
    }
  }

  /** The number of entries beyond the first in each group: what the second loop
      adds to `duplicateCount`. */
  function SurplusOf(pairs: seq<(string, seq<BookEntry>)>): int {
    if pairs == [] then 0
    else SurplusOf(pairs[..|pairs| - 1]) + |pairs[|pairs| - 1].1| - 1
  }

  lemma {:induction false} SurplusOfGroupedBy(entries: seq<BookEntry>, norm: string -> string, keys: seq<string>)
    ensures SurplusOf(GroupedBy(entries, norm, keys)) == GroupSizes(entries, norm, keys) - |keys|
  {
    if keys != [] {
      var init := keys[..|keys| - 1];
      var k := keys[|keys| - 1];
      SurplusOfGroupedBy(entries, norm, init);
      assert keys == init + [k];
      GroupSizesAppend(entries, norm, init, [k]);
      var pairs := GroupedBy(entries, norm, keys);
      assert pairs[..|pairs| - 1] == GroupedBy(entries, norm, init);
    }
  }

  /** `duplicateCount` is the number of entries merged away: `entries.length − unique.length`. */
  lemma SurplusIsMergedAway(entries: seq<BookEntry>, norm: string -> string)
    ensures SurplusOf(Grouped(entries, norm)) == |entries| - |UniqueBy(entries, norm)|
  {
    GroupsPartition(entries, norm);
    SurplusOfGroupedBy(entries, norm, Keys(entries, norm));
  }

  // ---------------------------------------------------------------- deduplicateBooks

  /** The pairs whose group has more than one entry, as a map. */
  function DuplicatesOf(pairs: seq<(string, seq<BookEntry>)>): map<string, seq<BookEntry>> {
    if pairs == [] then map[]
    else
      var p := pairs[|pairs| - 1];
      var m := DuplicatesOf(pairs[..|pairs| - 1]);
      if |p.1| > 1 then m[p.0 := p.1] else m
  }

  /** The `duplicateGroups` map of `deduplicateBooks`. */
  function DuplicateGroups(entries: seq<BookEntry>, norm: string -> string): map<string, seq<BookEntry>> {
    DuplicatesOf(Grouped(entries, norm))
  }

  lemma {:induction false} DuplicatesOfGroupedBy(entries: seq<BookEntry>, norm: string -> string, keys: seq<string>)
    ensures forall k :: k in DuplicatesOf(GroupedBy(entries, norm, keys)) <==> k in keys && |Group(entries, norm, k)| > 1
    ensures forall k :: k in DuplicatesOf(GroupedBy(entries, norm, keys)) ==>
              DuplicatesOf(GroupedBy(entries, norm, keys))[k] == Group(entries, norm, k)
  {
    if keys != [] {
      var init := keys[..|keys| - 1];
      DuplicatesOfGroupedBy(entries, norm, init);
      assert keys == init + [keys[|keys| - 1]];
      var pairs := GroupedBy(entries, norm, keys);
      assert pairs[..|pairs| - 1] == GroupedBy(entries, norm, init);
    }
  }

  /** `duplicateGroups` holds exactly the keys whose group has more than one
      entry, each mapped to its whole group in input order. */
  lemma DuplicateGroupsExact(entries: seq<BookEntry>, norm: string -> string)
    ensures forall k :: k in DuplicateGroups(entries, norm) <==> k in Keys(entries, norm) && |Group(entries, norm, k)| > 1
    ensures forall k :: k in DuplicateGroups(entries, norm) ==> DuplicateGroups(entries, norm)[k] == Group(entries, norm, k)
  {
    DuplicatesOfGroupedBy(entries, norm, Keys(entries, norm));
  }

  /** `deduplicateBooks`: group by key in first-appearance order, then merge each
      group and record the groups with more than one entry. */
  method DeduplicateBooks(entries: seq<BookEntry>)
    returns (unique: seq<UniqueBook>, duplicateCount: int, duplicateGroups: map<string, seq<BookEntry>>)
    ensures unique == Unique(entries)
    ensures duplicateCount == |entries| - |unique|
    ensures duplicateGroups == DuplicateGroups(entries, NormalizeTitle)
  {
    var groups, order := GroupEntries(entries, NormalizeTitle);
    var pairs := seq(|order|, i requires 0 <= i < |order| => (order[i], groups[order[i]]));
    assert pairs == Grouped(entries, NormalizeTitle) by {
      forall i | 0 <= i < |order| ensures pairs[i] == Grouped(entries, NormalizeTitle)[i] {
        GroupedAt(entries, NormalizeTitle, order, i);
      }
    }
    GroupedNonEmpty(entries, NormalizeTitle);
    unique, duplicateCount, duplicateGroups := MergeGroups(pairs);
    SurplusIsMergedAway(entries, NormalizeTitle);
  }

  /** The first loop of `deduplicateBooks`: the `groups` map and its insertion order. */
  method GroupEntries(entries: seq<BookEntry>, norm: string -> string)
    returns (groups: map<string, seq<BookEntry>>, order: seq<string>)
    ensures order == Keys(entries, norm)
    ensures forall k :: k in groups <==> k in order
    ensures forall k :: k in groups ==> groups[k] == Group(entries, norm, k)
  {
    groups := map[];
    order := [];
    var i := 0;
    while i < |entries|
      invariant 0 <= i <= |entries|
      invariant order == Keys(entries[..i], norm)
      invariant forall k :: k in groups <==> k in order
      invariant forall k :: k in groups ==> groups[k] == Group(entries[..i], norm, k)
    {
      var key := norm(entries[i].title);
      assert entries[..i + 1] == entries[..i] + [entries[i]];
      KeysSnoc(entries[..i], norm, entries[i]);
      GroupNonEmptyIff(entries[..i], norm, key);
      forall k ensures Group(entries[..i + 1], norm, k)
                    == Group(entries[..i], norm, k) + (if key == k then [entries[i]] else []) {
        GroupSnoc(entries[..i], norm, entries[i], k);
      }
      if key !in groups {
        groups := groups[key := []];
        order := order + [key];
      }
      groups := groups[key := groups[key] + [entries[i]]];
      i := i + 1;
    }
    assert entries[..i] == entries;
  }

  /** One more pair: its merged book is appended, its surplus added and, when
      it has duplicates, its group recorded. */
  lemma MergeGroupsStep(pairs: seq<(string, seq<BookEntry>)>, j: nat)
    requires NonEmptyGroups(pairs) && j < |pairs|
    ensures NonEmptyGroups(pairs[..j]) && NonEmptyGroups(pairs[..j + 1])
    ensures MergeList(pairs[..j + 1]) == MergeList(pairs[..j]) + [Merge(pairs[j].0, pairs[j].1)]
    ensures SurplusOf(pairs[..j + 1]) == SurplusOf(pairs[..j]) + |pairs[j].1| - 1
    ensures DuplicatesOf(pairs[..j + 1])
         == if |pairs[j].1| > 1 then DuplicatesOf(pairs[..j])[pairs[j].0 := pairs[j].1] else DuplicatesOf(pairs[..j])
  {
    assert pairs[..j + 1][..j] == pairs[..j];
  }

  /** The second loop of `deduplicateBooks`: one merged book per group, and the
      count and map of duplicates. */
  method MergeGroups(pairs: seq<(string, seq<BookEntry>)>)
    returns (unique: seq<UniqueBook>, duplicateCount: int, duplicateGroups: map<string, seq<BookEntry>>)
    requires NonEmptyGroups(pairs)
    ensures unique == MergeList(pairs)
    ensures duplicateCount == SurplusOf(pairs)
    ensures duplicateGroups == DuplicatesOf(pairs)
  {
    unique := [];
    duplicateCount := 0;
    duplicateGroups := map[];
    var j := 0;
    while j < |pairs|
      invariant 0 <= j <= |pairs|
      invariant unique == MergeList(pairs[..j])
      invariant duplicateCount == SurplusOf(pairs[..j])
      invariant duplicateGroups == DuplicatesOf(pairs[..j])
    {
      var (key, group) := pairs[j];
      MergeGroupsStep(pairs, j);
      unique := unique + [Merge(key, group)];
      if |group| > 1 {
        duplicateCount := duplicateCount + |group| - 1;
        duplicateGroups := duplicateGroups[key := group];
      }
      j := j + 1;
    }
    assert pairs[..j] == pairs;
  }
}
