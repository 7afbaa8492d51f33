/** The collection helpers of `src/utils/content.ts`: the discipline, draft and
    featured filters over content entries, and the discipline label and colour
    lookups. Each filter is `Array.prototype.filter` with its own test. */
module ContentFilters {
  import opened Wrappers

  /** The frontmatter fields the helpers read; articles carry `disciplines`,
      book reviews a single `discipline`. */
  datatype EntryData = EntryData(
    disciplines: Option<seq<string>>,
    discipline: Option<string>,
    draft: Option<bool>,
    featured: Option<bool>)

  datatype Entry = Entry(id: string, data: EntryData)

  // ---------------------------------------------------------------- filter

  /** `items.filter(keep)`. */
  function Filter(items: seq<Entry>, keep: Entry -> bool): seq<Entry> {
    if items == [] then []
    else (if keep(items[0]) then [items[0]] else []) + Filter(items[1..], keep)
  }

  /** `a` is `b` with some elements left out and the rest in their order. */
  predicate IsSubsequence(a: seq<Entry>, b: seq<Entry>)
    decreases |b|
  {
    a == [] || (b != [] && ((a[0] == b[0] && IsSubsequence(a[1..], b[1..])) || IsSubsequence(a, b[1..])))
  }

  /** `filter` keeps exactly the items that pass, as a subsequence of its input. */
  lemma {:induction false} FilterExactly(items: seq<Entry>, keep: Entry -> bool)
    ensures forall x :: x in Filter(items, keep) <==> x in items && keep(x)
    ensures IsSubsequence(Filter(items, keep), items)
  {
    if items != [] {
      FilterExactly(items[1..], keep);
      assert items == [items[0]] + items[1..];
      var r := Filter(items, keep);
      if keep(items[0]) {
        assert r[0] == items[0] && r[1..] == Filter(items[1..], keep);
      } else {
        assert r == Filter(items[1..], keep);
      }
    }
  }

  /** `filter` works item by item: the result for a concatenation is the
      concatenation of the results. */
  lemma {:induction false} FilterAppend(a: seq<Entry>, b: seq<Entry>, keep: Entry -> bool)
    ensures Filter(a + b, keep) == Filter(a, keep) + Filter(b, keep)
  {
    if a == [] {
      assert a + b == b;
    } else {
      assert (a + b)[1..] == a[1..] + b;
      FilterAppend(a[1..], b, keep);
    }
  }

  /** Everything passes: the input comes back unchanged. */
  lemma {:induction false} FilterAll(items: seq<Entry>, keep: Entry -> bool)
    requires forall x :: x in items ==> keep(x)
    ensures Filter(items, keep) == items
  {
    if items != [] {
      assert forall x :: x in items[1..] ==> x in items;
      FilterAll(items[1..], keep);
    }
  }

  /** Filtering twice with the same test is filtering once. */
  lemma FilterIdempotent(items: seq<Entry>, keep: Entry -> bool)
    ensures Filter(Filter(items, keep), keep) == Filter(items, keep)
  {
    FilterExactly(items, keep);
    FilterAll(Filter(items, keep), keep);
  }

  // ---------------------------------------------------------------- filterByDiscipline

  /** An article matches when its `disciplines` list contains `d`; an entry
      without that list matches when its single `discipline` is `d`. */
  predicate MatchesDiscipline(item: Entry, d: string) {
    if item.data.disciplines.Some? then d in item.data.disciplines.value
    else item.data.discipline == Some(d)
  }

  /** `filterByDiscipline`: no discipline, or the empty one, filters nothing. */
  function FilterByDiscipline(items: seq<Entry>, discipline: Option<string>): seq<Entry> {
    if discipline.None? || discipline.value == "" then items
    else Filter(items, (item: Entry) => MatchesDiscipline(item, discipline.value))
  }

  /** Without a discipline the input comes back unchanged. */
  lemma FilterByDisciplineAll(items: seq<Entry>)
    ensures FilterByDiscipline(items, None) == items
    ensures FilterByDiscipline(items, Some("")) == items
  {
  }

  /** With a discipline, exactly the matching entries are kept, in order, and
      filtering again changes nothing. */
  lemma FilterByDisciplineKeeps(items: seq<Entry>, d: string)
    requires d != ""
    ensures forall x :: x in FilterByDiscipline(items, Some(d)) <==> x in items && MatchesDiscipline(x, d)
    ensures IsSubsequence(FilterByDiscipline(items, Some(d)), items)
    ensures FilterByDiscipline(FilterByDiscipline(items, Some(d)), Some(d)) == FilterByDiscipline(items, Some(d))
  {
    var keep := (item: Entry) => MatchesDiscipline(item, d);
    FilterExactly(items, keep);
    FilterIdempotent(items, keep);
  }

  // ---------------------------------------------------------------- filterDrafts, getFeaturedArticles

  /** `!item.data.draft`: an absent flag counts as published. */
  predicate IsPublished(item: Entry) { item.data.draft != Some(true) }

  /** `filterDrafts(items, includeDrafts)`; `includeDrafts` defaults to false. */
  function FilterDrafts(items: seq<Entry>, includeDrafts: bool := false): seq<Entry> {
    if includeDrafts then items else Filter(items, IsPublished)
  }

  /** Drafts are kept on request; otherwise exactly the published entries are
      kept, in order, and filtering again changes nothing. */
  lemma FilterDraftsKeeps(items: seq<Entry>, includeDrafts: bool)
    ensures includeDrafts ==> FilterDrafts(items, includeDrafts) == items
    ensures !includeDrafts ==>
      forall x :: x in FilterDrafts(items, includeDrafts) <==> x in items && x.data.draft != Some(true)
    ensures IsSubsequence(FilterDrafts(items, includeDrafts), items)
    ensures FilterDrafts(FilterDrafts(items, includeDrafts), includeDrafts) == FilterDrafts(items, includeDrafts)
  {
    FilterExactly(items, IsPublished);
    FilterIdempotent(items, IsPublished);
    if includeDrafts {
      SubsequenceOfSelf(items);
    }
  }

  lemma {:induction false} SubsequenceOfSelf(items: seq<Entry>)
    ensures IsSubsequence(items, items)
  {
    if items != [] {
      SubsequenceOfSelf(items[1..]);
    }
  }

  /** `article.data.featured`. */
  predicate IsFeatured(item: Entry) { item.data.featured == Some(true) }

  /** `getFeaturedArticles`. */
  function GetFeaturedArticles(articles: seq<Entry>): seq<Entry> {
    Filter(articles, IsFeatured)
  }

  /** Exactly the featured articles, in order; filtering again changes nothing. */
  lemma GetFeaturedArticlesKeeps(articles: seq<Entry>)
    ensures forall x :: x in GetFeaturedArticles(articles) <==> x in articles && x.data.featured == Some(true)
    ensures IsSubsequence(GetFeaturedArticles(articles), articles)
    ensures GetFeaturedArticles(GetFeaturedArticles(articles)) == GetFeaturedArticles(articles)
  {
    FilterExactly(articles, IsFeatured);
    FilterIdempotent(articles, IsFeatured);
  }

  // ---------------------------------------------------------------- lookups

  const LABELS: map<string, string> :=
    map["PM" := "Product Management", "Design" := "Design", "Engineering" := "Engineering"]

  const COLORS: map<string, string> :=
    map["PM" := "pm", "Design" := "design", "Engineering" := "engineering"]

  /** The names every object literal inherits from `Object.prototype`. */
  const OBJECT_PROTOTYPE_KEYS: set<string> := {
    "constructor", "__proto__", "__defineGetter__", "__defineSetter__", "__lookupGetter__",
    "__lookupSetter__", "hasOwnProperty", "isPrototypeOf", "propertyIsEnumerable",
    "toString", "toLocaleString", "valueOf" }

  /** A JavaScript value as the lookups can produce it: a string, or a member
      inherited from `Object.prototype` (a function or an object, never falsy). */
  datatype JsValue = Str(s: string) | Inherited(name: string)

  /** `record[key]` on an object literal: its own property, else an inherited
      one, else `undefined`. */
  function RecordGet(own: map<string, string>, key: string): Option<JsValue> {
    if key in own then Some(Str(own[key]))
    else if key in OBJECT_PROTOTYPE_KEYS then Some(Inherited(key))
    else None
  }

  /** `record[key] || fallback`. */
  function OrFallback(v: Option<JsValue>, fallback: string): JsValue {
    if v.Some? && v.value != Str("") then v.value else Str(fallback)
  }

  /** `getDisciplineLabel` as written: `labels[discipline] || discipline`. */
  function GetDisciplineLabelAsWritten(discipline: string): JsValue {
    OrFallback(RecordGet(LABELS, discipline), discipline)
  }

  /** `getDisciplineColor` as written: `colors[discipline] || 'gray'`. */
  function GetDisciplineColorAsWritten(discipline: string): JsValue {
    OrFallback(RecordGet(COLORS, discipline), "gray")
  }

  /** An inherited name is found on the prototype: the label of "toString" is
      the inherited function, not the string "toString", and its colour is not
      "gray". */
  lemma InheritedNameLookups()
    ensures GetDisciplineLabelAsWritten("toString") == Inherited("toString")
    ensures GetDisciplineLabelAsWritten("toString") != Str("toString")
    ensures GetDisciplineColorAsWritten("constructor") != Str("gray")
  {
    assert "toString" !in LABELS && "toString" in OBJECT_PROTOTYPE_KEYS;
    assert "constructor" !in COLORS && "constructor" in OBJECT_PROTOTYPE_KEYS;
  }

  /** The label lookup as intended: own keys only. */
  function GetDisciplineLabel(discipline: string): (r: string)
    ensures discipline in LABELS ==> r == LABELS[discipline]
    ensures discipline !in LABELS ==> r == discipline
  {
    if discipline in LABELS then LABELS[discipline] else discipline
  }

  /** The colour lookup as intended: own keys only. */
  function GetDisciplineColor(discipline: string): (r: string)
    ensures discipline in COLORS ==> r == COLORS[discipline]
    ensures discipline !in COLORS ==> r == "gray"
  {
    if discipline in COLORS then COLORS[discipline] else "gray"
  }

  /** PM reads 'Product Management', Design and Engineering read as themselves,
      and so does every other string; the colours are 'pm', 'design',
      'engineering' and otherwise 'gray'. */
  lemma LookupValues(discipline: string)
    ensures GetDisciplineLabel("PM") == "Product Management"
    ensures GetDisciplineLabel("Design") == "Design" && GetDisciplineLabel("Engineering") == "Engineering"
    ensures discipline != "PM" ==> GetDisciplineLabel(discipline) == discipline
    ensures GetDisciplineColor("PM") == "pm" && GetDisciplineColor("Design") == "design"
    ensures GetDisciplineColor("Engineering") == "engineering"
    ensures discipline !in {"PM", "Design", "Engineering"} ==> GetDisciplineColor(discipline) == "gray"
  {
  }

  /** The corrected lookups agree with the code as written on every string
      that is not an `Object.prototype` member name. */
  lemma LookupsAgreeOffPrototype(discipline: string)
    requires discipline !in OBJECT_PROTOTYPE_KEYS
    ensures GetDisciplineLabelAsWritten(discipline) == Str(GetDisciplineLabel(discipline))
    ensures GetDisciplineColorAsWritten(discipline) == Str(GetDisciplineColor(discipline))
  {
  }
}
