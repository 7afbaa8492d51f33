/** The catalog parser of `scripts/lib/csv-parser.mjs`: a quote-aware CSV line
    splitter and the row loop that turns the catalog into `BookEntry` records.
    Reading the file is left to the caller: the model starts from its content. */
module CsvParser {

  import opened Wrappers
  import opened Text

  /** One catalog row that passed the filters. */
  datatype BookEntry = BookEntry(
    csvRow: nat,        // index among the non-blank lines, header = 0
    title: string,
    author: string,
    year: int,
    category: string,   // the raw category column
    discipline: string, // CategoryToDiscipline(category)
    level: string,
    listPosition: int,
    notes: string)

  datatype ParsedCatalog = ParsedCatalog(entries: seq<BookEntry>, headers: seq<string>)

  /** `CATEGORY_TO_DISCIPLINE`: the three catalog categories the site knows. */
  function CategoryToDiscipline(category: string): Option<string> {
    if category == "Product Management" then Some("PM")
    else if category == "UX Design" then Some("Design")
    else if category == "Product Engineering" then Some("Engineering")
    else None
  }

  // ---------------------------------------------------------------- the line lexer

  /** What the quote state machine makes of a line: separator commas and the
      characters copied into the current field. */
  datatype Token = Separator | Content(c: char)

  /** The state machine of `parseCsvLine` from a given quote state: a `"` that is
      followed by another `"` inside quotes yields one literal `"`; any other `"`
      toggles the state and is dropped; a comma outside quotes separates fields;
      every other character is field content. */
  function Lex(line: string, inQuotes: bool): seq<Token>
    decreases |line|
  {
    if line == [] then []
    else if line[0] == '"' then
      if inQuotes && |line| > 1 && line[1] == '"' then [Content('"')] + Lex(line[2..], inQuotes)
      else Lex(line[1..], !inQuotes)
    else if line[0] == ',' && !inQuotes then [Separator] + Lex(line[1..], inQuotes)
    else [Content(line[0])] + Lex(line[1..], inQuotes)
  }

  function Separators(ts: seq<Token>): nat {
    if ts == [] then 0 else Separators(ts[..|ts| - 1]) + (if ts[|ts| - 1] == Separator then 1 else 0)
  }

  /** The raw (untrimmed) fields between separators. */
  function SplitFields(ts: seq<Token>): (r: seq<string>)
    ensures |r| == Separators(ts) + 1
  {
    if ts == [] then [[]]
    else
      var init := SplitFields(ts[..|ts| - 1]);
      match ts[|ts| - 1]
      case Separator => init + [[]]
      case Content(c) => init[..|init| - 1] + [init[|init| - 1] + [c]]
  }

  /** Every field trimmed. */
  function TrimAll(fs: seq<string>): (r: seq<string>)
    ensures |r| == |fs|
  {
    if fs == [] then [] else TrimAll(fs[..|fs| - 1]) + [Trim(fs[|fs| - 1])]
  }

  lemma TrimAllAt(fs: seq<string>, k: nat)
    requires k < |fs|
    ensures TrimAll(fs)[k] == Trim(fs[k])
  {
    if k < |fs| - 1 {
      TrimAllAt(fs[..|fs| - 1], k);
    }
  }

  /** The fields of a line: split at unquoted commas, unescaped, trimmed. */
  function Fields(line: string): seq<string> {
    TrimAll(SplitFields(Lex(line, false)))
  }

  lemma SplitAfterSeparator(ts: seq<Token>)
    ensures SplitFields(ts + [Separator]) == SplitFields(ts) + [[]]
  {
    assert (ts + [Separator])[..|ts|] == ts;
  }

  lemma SplitAfterContent(ts: seq<Token>, c: char)
    ensures var init := SplitFields(ts);
      SplitFields(ts + [Content(c)]) == init[..|init| - 1] + [init[|init| - 1] + [c]]
  {
    assert (ts + [Content(c)])[..|ts|] == ts;
  }

  /** One step of the state machine at position `i`: the tokens it emits and the
      quote state and position it continues from. */
  lemma LexStep(line: string, i: nat, q: bool, done: seq<Token>)
    requires i < |line|
    ensures line[i] == '"' && q && i + 1 < |line| && line[i + 1] == '"' ==>
      (done + [Content('"')]) + Lex(line[i + 2..], q) == done + Lex(line[i..], q)
    ensures line[i] == '"' && !(q && i + 1 < |line| && line[i + 1] == '"') ==>
      done + Lex(line[i + 1..], !q) == done + Lex(line[i..], q)
    ensures line[i] == ',' && !q ==>
      (done + [Separator]) + Lex(line[i + 1..], q) == done + Lex(line[i..], q)
    ensures line[i] != '"' && !(line[i] == ',' && !q) ==>
      (done + [Content(line[i])]) + Lex(line[i + 1..], q) == done + Lex(line[i..], q)
  {
    var rest := line[i..];
    assert rest[1..] == line[i + 1..];
    if i + 1 < |line| {
      assert rest[2..] == line[i + 2..];
    }
  }

  lemma TrimAllAppend(raw: seq<string>, x: string)
    ensures TrimAll(raw + [x]) == TrimAll(raw) + [Trim(x)]
  {
    assert (raw + [x])[..|raw|] == raw;
  }

  /** `parseCsvLine`: one pass over the characters with the quote flag, the field
      being built and the fields done so far. */
  method ParseCsvLine(line: string) returns (fields: seq<string>)
    ensures fields == Fields(line)
    ensures |fields| == Separators(Lex(line, false)) + 1
  {
    fields := [];
    var current := "";
    var inQuotes := false;
    ghost var done: seq<Token> := [];
    ghost var raw: seq<string> := [];
    var i := 0;
    assert line[0..] == line;
    while i < |line|
      invariant 0 <= i <= |line|
      invariant done + Lex(line[i..], inQuotes) == Lex(line, false)
      invariant SplitFields(done) == raw + [current]
      invariant fields == TrimAll(raw)
      decreases |line| - i
    {
      var c := line[i];
      LexStep(line, i, inQuotes, done);
      if c == '"' {
        if inQuotes && i + 1 < |line| && line[i + 1] == '"' {
          SplitAfterContent(done, '"');
          current := current + "\"";
          done := done + [Content('"')];
          i := i + 1;
        } else {
          inQuotes := !inQuotes;
        }
      } else if c == ',' && !inQuotes {
        SplitAfterSeparator(done);
        TrimAllAppend(raw, current);
        fields := fields + [Trim(current)];
        raw := raw + [current];
        current := "";
        done := done + [Separator];
      } else {
        SplitAfterContent(done, c);
        current := current + [c];
        done := done + [Content(c)];
      }
      i := i + 1;
    }
    assert done == Lex(line, false);
    TrimAllAppend(raw, current);
    fields := fields + [Trim(current)];
  }

  // ------------------------------------------------------- what the lexer promises

  /** The tokens of plain field content. */
  function Contents(f: string): (r: seq<Token>)
    ensures |r| == |f|
    ensures forall k :: 0 <= k < |f| ==> r[k] == Content(f[k])
  {
    seq(|f|, k requires 0 <= k < |f| => Content(f[k]))
  }

  /** A field written the CSV way: in quotes, each inner `"` doubled. */
  function Escape(f: string): string {
    if f == [] then [] else (if f[0] == '"' then "\"\"" else [f[0]]) + Escape(f[1..])
  }

  function Quote(f: string): string {
    "\"" + Escape(f) + "\""
  }

  /** A row written with every field quoted. */
  function JoinQuoted(fs: seq<string>): string
    requires |fs| >= 1
  {
    if |fs| == 1 then Quote(fs[0]) else Quote(fs[0]) + "," + JoinQuoted(fs[1..])
  }

  lemma {:induction false} LexInsideQuotes(f: string, rest: string)
    requires rest == [] || rest[0] != '"'
    ensures Lex(Escape(f) + "\"" + rest, true) == Contents(f) + Lex(rest, false)
  {
    var line := Escape(f) + "\"" + rest;
    if f == [] {
      assert line == "\"" + rest && line[1..] == rest;
    } else {
      var tail := Escape(f[1..]) + "\"" + rest;
      calc {
        Lex(line, true);
        == { EscapeCons(f); assert line == Escape([f[0]]) + tail; }
        Lex(Escape([f[0]]) + tail, true);
        == { LexEscapedChar(f[0], tail); }
        [Content(f[0])] + Lex(tail, true);
        == { LexInsideQuotes(f[1..], rest); }
        [Content(f[0])] + (Contents(f[1..]) + Lex(rest, false));
        ([Content(f[0])] + Contents(f[1..])) + Lex(rest, false);
        == { ContentsCons(f); }
        Contents(f) + Lex(rest, false);
      }
    }
  }

  lemma EscapeCons(f: string)
    requires f != []
    ensures Escape(f) == Escape([f[0]]) + Escape(f[1..])
  {
    assert [f[0]][1..] == [];
  }

  lemma ContentsCons(f: string)
    requires f != []
    ensures Contents(f) == [Content(f[0])] + Contents(f[1..])
  {
  }

  /** Inside quotes, one escaped character lexes back to itself. */
  lemma LexEscapedChar(c: char, tail: string)
    ensures Lex(Escape([c]) + tail, true) == [Content(c)] + Lex(tail, true)
  {
    var line := Escape([c]) + tail;
    if c == '"' {
      assert Escape([c]) == "\"\"";
      assert line[2..] == tail;
    } else {
      assert Escape([c]) == [c];
      assert line[1..] == tail;
    }
  }

  /** A quoted field, commas and doubled quotes included, lexes to exactly its
      content, after which the machine is outside quotes again. */
  lemma LexQuoted(f: string, rest: string)
    requires rest == [] || rest[0] != '"'
    ensures Lex(Quote(f) + rest, false) == Contents(f) + Lex(rest, false)
  {
    var line := Quote(f) + rest;
    assert line[1..] == Escape(f) + "\"" + rest;
    LexInsideQuotes(f, rest);
  }

  lemma {:induction false} SplitContents(f: string)
    ensures SplitFields(Contents(f)) == [f]
    decreases |f|
  {
    if f != [] {
      var init := f[..|f| - 1];
      assert Contents(f)[..|f| - 1] == Contents(init);
      SplitContents(init);
      assert f == init + [f[|f| - 1]];
    }
  }

  lemma {:induction false} SplitAfterField(f: string, ts: seq<Token>)
    ensures SplitFields(Contents(f) + [Separator] + ts) == [f] + SplitFields(ts)
    decreases |ts|
  {
    var head := Contents(f) + [Separator];
    if ts == [] {
      assert head + ts == Contents(f) + [Separator];
      SplitAfterSeparator(Contents(f));
      SplitContents(f);
    } else {
      var init, t := ts[..|ts| - 1], ts[|ts| - 1];
      assert head + ts == (head + init) + [t];
      assert (head + ts)[..|head + ts| - 1] == head + init;
      SplitAfterField(f, init);
    }
  }

  /** Round trip: a row whose fields are written quoted parses back to those
      fields (trimmed), however many commas and quotes they contain. */
  lemma {:induction false} QuotedRowRoundTrip(fs: seq<string>)
    requires |fs| >= 1
    ensures Fields(JoinQuoted(fs)) == TrimAll(fs)
  {
    SplitRoundTrip(fs);
  }

  lemma {:induction false} SplitRoundTrip(fs: seq<string>)
    requires |fs| >= 1
    ensures SplitFields(Lex(JoinQuoted(fs), false)) == fs
  {
    if |fs| == 1 {
      LexQuoted(fs[0], []);
      assert Quote(fs[0]) + [] == Quote(fs[0]);
      assert Contents(fs[0]) + [] == Contents(fs[0]);
      SplitContents(fs[0]);
    } else {
      var rest := JoinQuoted(fs[1..]);
      var tail := "," + rest;
      assert JoinQuoted(fs) == Quote(fs[0]) + tail;
      LexQuoted(fs[0], tail);
      assert tail[1..] == rest;
      assert Lex(tail, false) == [Separator] + Lex(rest, false);
      SplitRoundTrip(fs[1..]);
      assert Contents(fs[0]) + ([Separator] + Lex(rest, false))
          == Contents(fs[0]) + [Separator] + Lex(rest, false);
      SplitAfterField(fs[0], Lex(rest, false));
      assert [fs[0]] + fs[1..] == fs;
    }
  }

  /** The tokens of a line without quote characters: commas separate, all else is content. */
  function PlainTokens(line: string): (r: seq<Token>)
    ensures |r| == |line|
  {
    seq(|line|, k requires 0 <= k < |line| => if line[k] == ',' then Separator else Content(line[k]))
  }

  lemma {:induction false} LexPlain(line: string)
    requires '"' !in line
    ensures Lex(line, false) == PlainTokens(line)
    decreases |line|
  {
    if line != [] {
      LexPlain(line[1..]);
      assert PlainTokens(line) == PlainTokens(line[..1]) + PlainTokens(line[1..]);
    }
  }

  lemma {:induction false} SplitPlain(line: string)
    ensures SplitFields(PlainTokens(line)) == Split(line, ',')
    decreases |line|
  {
    if line != [] {
      var init := line[..|line| - 1];
      assert PlainTokens(line)[..|line| - 1] == PlainTokens(init);
      SplitPlain(init);
    }
  }

  /** A line without quotes is split at every comma. */
  lemma UnquotedLineSplitsAtCommas(line: string)
    requires '"' !in line
    ensures Fields(line) == TrimAll(Split(line, ','))
  {
    LexPlain(line);
    SplitPlain(line);
  }

  // --------------------------------------------------------------- the row loop

  /** `content.split('\n').filter((line) => line.trim())`. */
  function NonBlank(lines: seq<string>): (r: seq<string>)
    ensures |r| <= |lines|
  {
    if lines == [] then []
    else NonBlank(lines[..|lines| - 1]) + (if Trim(lines[|lines| - 1]) != [] then [lines[|lines| - 1]] else [])
  }

  function CatalogLines(content: string): seq<string> {
    NonBlank(Split(content, '\n'))
  }

  /** `parseInt(field, 10)`; a field without leading digits (`NaN` in the source) reads as 0. */
  function NumberField(field: string): int {
    match ParseInt(field)
    case Some(n) => n
    case None => 0
  }

  /** The fields of each non-blank line. */
  function RowFields(lines: seq<string>): (r: seq<seq<string>>)
    ensures |r| == |lines|
  {
    if lines == [] then [] else RowFields(lines[..|lines| - 1]) + [Fields(lines[|lines| - 1])]
  }

  lemma {:induction false} RowFieldsAt(lines: seq<string>, k: nat)
    requires k < |lines|
    ensures RowFields(lines)[k] == Fields(lines[k])
  {
    if k < |lines| - 1 {
      RowFieldsAt(lines[..|lines| - 1], k);
    }
  }

  /** The entry that a row with fields `f` at row number `row` yields, if any:
      none for fewer than six fields or an unknown category. */
  function EntryOf(f: seq<string>, row: nat): (r: Option<BookEntry>)
    ensures r.Some? <==> |f| >= 6 && CategoryToDiscipline(f[3]).Some?
    ensures r.Some? ==> r.value.csvRow == row
  {
    if |f| < 6 then None
    else
      match CategoryToDiscipline(f[3])
      case None => None
      case Some(d) =>
        Some(BookEntry(row, f[0], f[1], NumberField(f[2]), f[3], d, f[4], NumberField(f[5]),
                       if |f| > 6 then f[6] else ""))
  }

  /** The entries of data rows `1 .. n - 1`, in order. */
  function EntriesBefore(rows: seq<seq<string>>, n: nat): seq<BookEntry>
    requires 1 <= n <= |rows|
  {
    if n == 1 then []
    else EntriesBefore(rows, n - 1) + Listed(EntryOf(rows[n - 1], n - 1))
  }

  lemma EntriesStep(rows: seq<seq<string>>, n: nat, entry: Option<BookEntry>)
    requires 1 <= n < |rows| && entry == EntryOf(rows[n], n)
    ensures EntriesBefore(rows, n + 1) == EntriesBefore(rows, n) + Listed(entry)
  {
  }

  function Listed(o: Option<BookEntry>): seq<BookEntry> {
    match o
    case Some(e) => [e]
    case None => []
  }

  /** What `parseBooksCSV` returns for the file content, or the error it throws. */
  function ParseCatalog(content: string): Result<ParsedCatalog> {
    var lines := CatalogLines(content);
    if |lines| < 2 then Failure("CSV file is empty or has no data rows")
    else Success(ParsedCatalog(EntriesBefore(RowFields(lines), |lines|), Fields(lines[0])))
  }

  /** `parseBooksCSV` over the content already read from the file. */
  method ParseBooksCsv(content: string) returns (r: Result<ParsedCatalog>)
    ensures r == ParseCatalog(content)
    ensures r.Failure? <==> |CatalogLines(content)| < 2
  {
    var lines := NonBlank(Split(content, '\n'));
    if |lines| < 2 {
      return Failure("CSV file is empty or has no data rows");
    }
    var headers := ParseCsvLine(lines[0]);
    var entries := ParseRows(lines);
    r := Success(ParsedCatalog(entries, headers));
  }

  /** One data row: none for a malformed row or an unknown category (whose
      warning is console output). */
  method ParseRow(line: string, row: nat) returns (entry: Option<BookEntry>)
    ensures entry == EntryOf(Fields(line), row)
  {
    var fields := ParseCsvLine(line);
    entry := EntryOf(fields, row);
  }

  /** The row loop of `parseBooksCSV`: data rows are the lines after the header. */
  method ParseRows(lines: seq<string>) returns (entries: seq<BookEntry>)
    requires |lines| >= 1
    ensures entries == EntriesBefore(RowFields(lines), |lines|)
  {
    ghost var rows := RowFields(lines);
    entries := [];
    var i := 1;
    while i < |lines|
      invariant 1 <= i <= |lines|
      invariant entries == EntriesBefore(rows, i)
    {
      var entry := ParseRow(lines[i], i);
      RowFieldsAt(lines, i);
      EntriesStep(rows, i, entry);
      if entry.Some? {
        entries := entries + [entry.value];
      }
      i := i + 1;
    }
  }

  /** Row numbers: entries come in strictly increasing row order. */
  lemma {:induction false} EntriesRowsIncrease(rows: seq<seq<string>>, n: nat)
    requires 1 <= n <= |rows|
    ensures forall e :: e in EntriesBefore(rows, n) ==> 1 <= e.csvRow < n
    ensures forall a, b :: 0 <= a < b < |EntriesBefore(rows, n)| ==>
              EntriesBefore(rows, n)[a].csvRow < EntriesBefore(rows, n)[b].csvRow
  {
    if n > 1 {
      EntriesRowsIncrease(rows, n - 1);
      var prev := EntriesBefore(rows, n - 1);
      var es := EntriesBefore(rows, n);
      assert forall a :: 0 <= a < |prev| ==> prev[a] in prev;
      assert forall a :: 0 <= a < |prev| ==> es[a] == prev[a];
    }
  }

  /** Each entry is what its own row yields. */
  lemma {:induction false} EntriesAreRows(rows: seq<seq<string>>, n: nat)
    requires 1 <= n <= |rows|
    ensures forall e :: e in EntriesBefore(rows, n) ==> e.csvRow < n && EntryOf(rows[e.csvRow], e.csvRow) == Some(e)
  {
    forall e | e in EntriesBefore(rows, n)
      ensures e.csvRow < n && EntryOf(rows[e.csvRow], e.csvRow) == Some(e)
    {
      EntryIsRow(rows, n, e);
    }
  }

  lemma {:induction false} EntryIsRow(rows: seq<seq<string>>, n: nat, e: BookEntry)
    requires 1 <= n <= |rows| && e in EntriesBefore(rows, n)
    ensures e.csvRow < n && EntryOf(rows[e.csvRow], e.csvRow) == Some(e)
  {
    var o := EntryOf(rows[n - 1], n - 1);
    var prev := EntriesBefore(rows, n - 1);
    assert EntriesBefore(rows, n) == prev + Listed(o);
    if e in prev {
      EntryIsRow(rows, n - 1, e);
    } else {
      ListedLast(prev, o, e);
    }
  }

  lemma ListedLast(prev: seq<BookEntry>, o: Option<BookEntry>, e: BookEntry)
    requires e in prev + Listed(o) && e !in prev
    ensures o == Some(e)
  {
  }

  /** Every row that yields an entry is represented: skipped rows do not shift
      the row numbers of later ones. */
  lemma {:induction false} RowsAreEntries(rows: seq<seq<string>>, n: nat, row: nat)
    requires 1 <= row < n <= |rows|
    requires EntryOf(rows[row], row).Some?
    ensures EntryOf(rows[row], row).value in EntriesBefore(rows, n)
  {
    if row < n - 1 {
      RowsAreEntries(rows, n - 1, row);
    }
  }

  /** Every catalog entry's discipline is its category's, and its notes default to "". */
  lemma EntryFields(f: seq<string>, row: nat)
    requires EntryOf(f, row).Some?
    ensures var e := EntryOf(f, row).value;
      && e.title == f[0] && e.author == f[1] && e.category == f[3] && e.level == f[4]
      && Some(e.discipline) == CategoryToDiscipline(e.category)
      && e.notes == (if |f| > 6 then f[6] else "")
  {
  }
}
