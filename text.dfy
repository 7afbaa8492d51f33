/** String operations of JavaScript's `String.prototype` and of the regular
    expressions `\s` and `\w`, as the scripts and site utilities use them.
    `\w` is ASCII-only in JavaScript; `toLowerCase` is modelled on ASCII letters. */
module Text {

  import opened Wrappers

  /** The characters JavaScript's `\s` and `String.prototype.trim` treat as white space. */
  predicate IsSpace(c: char) {
    c == ' ' || c == '\t' || c == '\n' || c == '\r' || c == '\U{000B}' || c == '\U{000C}'
    || c == '\U{00A0}' || c == '\U{1680}' || ('\U{2000}' <= c <= '\U{200A}')
    || c == '\U{2028}' || c == '\U{2029}' || c == '\U{202F}' || c == '\U{205F}'
    || c == '\U{3000}' || c == '\U{FEFF}'
  }

  predicate IsUpper(c: char) { 'A' <= c <= 'Z' }

  /** JavaScript's `\w`: `[A-Za-z0-9_]`. */
  predicate IsWordChar(c: char) {
    ('a' <= c <= 'z') || IsUpper(c) || ('0' <= c <= '9') || c == '_'
  }

  predicate IsDigit(c: char) { '0' <= c <= '9' }

  function LowerChar(c: char): (r: char)
    ensures !IsUpper(r)
    ensures IsWordChar(r) <==> IsWordChar(c)
    ensures IsSpace(r) <==> IsSpace(c)
    ensures !IsUpper(c) ==> r == c
  {
    if IsUpper(c) then (c as int + 32) as char else c
  }

  /** `toLowerCase()` on ASCII letters. */
  function Lower(s: string): (r: string)
    ensures |r| == |s|
    ensures forall i :: 0 <= i < |s| ==> r[i] == LowerChar(s[i])
  {
    seq(|s|, i requires 0 <= i < |s| => LowerChar(s[i]))
  }

  /** `s.split(':')[0]`: the text before the first colon. */
  function BeforeColon(s: string): (r: string)
    ensures ':' !in r
    ensures r <= s
    ensures |r| < |s| ==> s[|r|] == ':'
  {
    if s == [] || s[0] == ':' then [] else [s[0]] + BeforeColon(s[1..])
  }

  /** The characters of `s` that satisfy `keep`, in order: `replace(/[^…]/g, '')`. */
  function Keep(s: string, keep: char -> bool): (r: string)
    ensures |r| <= |s|
    ensures forall c :: c in r ==> c in s && keep(c)
    ensures (forall c :: c in s ==> keep(c)) ==> r == s
  {
    if s == [] then [] else (if keep(s[0]) then [s[0]] else []) + Keep(s[1..], keep)
  }

  /** Filtering a concatenation filters each part: with `Keep([c], keep)` being
      `[c]` or `[]`, this fixes `Keep` as the in-order subsequence of passing
      characters. */
  lemma {:induction false} KeepAppend(a: string, b: string, keep: char -> bool)
    ensures Keep(a + b, keep) == Keep(a, keep) + Keep(b, keep)
  {
    if a == [] {
      assert a + b == b;
    } else {
      assert (a + b)[0] == a[0];
      assert (a + b)[1..] == a[1..] + b;
      KeepAppend(a[1..], b, keep);
    }
  }

  /** Every passing character is kept as often as it occurs, and no other. */
  lemma {:induction false} KeepCounts(s: string, keep: char -> bool)
    ensures forall c :: multiset(Keep(s, keep))[c] == if keep(c) then multiset(s)[c] else 0
  {
    if s != [] {
      KeepCounts(s[1..], keep);
      assert s == [s[0]] + s[1..];
    }
  }

  function TrimStart(s: string): (r: string)
    ensures |r| <= |s|
    ensures r == [] || !IsSpace(r[0])
  {
    if s != [] && IsSpace(s[0]) then TrimStart(s[1..]) else s
  }

  /** `TrimStart(s)` is the suffix of `s` after a run of white space. */
  lemma {:induction false} TrimStartDropsSpaces(s: string)
    ensures TrimStart(s) == s[|s| - |TrimStart(s)|..]
    ensures forall i :: 0 <= i < |s| - |TrimStart(s)| ==> IsSpace(s[i])
  {
    if s != [] && IsSpace(s[0]) {
      TrimStartDropsSpaces(s[1..]);
    }
  }

  function TrimEnd(s: string): (r: string)
    ensures |r| <= |s|
    ensures r == [] || !IsSpace(r[|r| - 1])
  {
    if s != [] && IsSpace(s[|s| - 1]) then TrimEnd(s[..|s| - 1]) else s
  }

  /** `TrimEnd(s)` is the prefix of `s` before a run of white space. */
  lemma {:induction false} TrimEndDropsSpaces(s: string)
    ensures TrimEnd(s) == s[..|TrimEnd(s)|]
    ensures forall i :: |TrimEnd(s)| <= i < |s| ==> IsSpace(s[i])
  {
    if s != [] && IsSpace(s[|s| - 1]) {
      TrimEndDropsSpaces(s[..|s| - 1]);
    }
  }

  /** `trim()`: `s` without its leading and trailing white space. */
  function Trim(s: string): (r: string)
    ensures r == [] || (!IsSpace(r[0]) && !IsSpace(r[|r| - 1]))
  {
    var t := TrimStart(s);
    TrimEndDropsSpaces(t);
    TrimEnd(t)
  }

  /** What `trim()` keeps is one contiguous slice of its input. */
  lemma TrimIsSlice(s: string) returns (i: nat, j: nat)
    ensures i <= j <= |s| && Trim(s) == s[i..j]
    ensures forall k :: 0 <= k < i ==> IsSpace(s[k])
    ensures forall k :: j <= k < |s| ==> IsSpace(s[k])
  {
    var t := TrimStart(s);
    var r := TrimEnd(t);
    TrimStartDropsSpaces(s);
    TrimEndDropsSpaces(t);
    i, j := |s| - |t|, |s| - |t| + |r|;
    assert Trim(s) == r;
    assert r == s[i..j] by {
      assert t == s[i..] && r == t[..|r|];
      assert s[i..][..|r|] == s[i..j];
    }
    forall k | j <= k < |s| ensures IsSpace(s[k]) {
      assert s[k] == t[k - i];
    }
  }

  /** `trim()` yields the empty string exactly when every character is white space. */
  lemma TrimEmptyIff(s: string)
    ensures Trim(s) == [] <==> forall k :: 0 <= k < |s| ==> IsSpace(s[k])
  {
    var i, j := TrimIsSlice(s);
    if Trim(s) != [] {
      assert !IsSpace(s[i]);
    }
  }

  /** No two neighbouring characters both satisfy `p`. */
  predicate NoAdjacent(s: string, p: char -> bool) {
    forall i :: 0 <= i < |s| - 1 ==> !(p(s[i]) && p(s[i + 1]))
  }

  /** `replace(/<p>+/g, rep)`: every maximal run of characters satisfying `p`
      becomes one `rep`. */
  function ReplaceRuns(s: string, p: char -> bool, rep: char): (r: string)
    ensures s == [] <==> r == []
    ensures s != [] ==> r[0] == (if p(s[0]) then rep else s[0])
    decreases |s|
  {
    if s == [] then []
    else if p(s[0]) then [rep] + ReplaceRuns(TrimRun(s[1..], p), p, rep)
    else [s[0]] + ReplaceRuns(s[1..], p, rep)
  }

  /** `s` without its leading run of characters satisfying `p`. */
  function TrimRun(s: string, p: char -> bool): (r: string)
    ensures |r| <= |s|
    ensures r == [] || !p(r[0])
  {
    if s != [] && p(s[0]) then TrimRun(s[1..], p) else s
  }

  /** `TrimRun` drops a prefix made only of characters satisfying `p`. */
  lemma {:induction false} TrimRunSuffix(s: string, p: char -> bool)
    ensures TrimRun(s, p) == s[|s| - |TrimRun(s, p)|..]
    ensures forall i :: 0 <= i < |s| - |TrimRun(s, p)| ==> p(s[i])
  {
    if s != [] && p(s[0]) {
      TrimRunSuffix(s[1..], p);
    }
  }

  /** Every character of the result is `rep` or a character of `s` outside every run. */
  lemma {:induction false} ReplaceRunsChars(s: string, p: char -> bool, rep: char)
    ensures forall c :: c in ReplaceRuns(s, p, rep) ==> c == rep || (c in s && !p(c))
    decreases |s|
  {
    if s != [] {
      if p(s[0]) {
        var rest := TrimRun(s[1..], p);
        TrimRunSuffix(s[1..], p);
        ReplaceRunsChars(rest, p, rep);
        assert forall c :: c in rest ==> c in s;
      } else {
        ReplaceRunsChars(s[1..], p, rep);
        assert forall c :: c in s[1..] ==> c in s;
      }
    }
  }

  /** The last character of the result is `rep` exactly when `s` ends inside a run. */
  lemma {:induction false} ReplaceRunsLast(s: string, p: char -> bool, rep: char)
    requires s != []
    ensures var r := ReplaceRuns(s, p, rep);
      r[|r| - 1] == (if p(s[|s| - 1]) then rep else s[|s| - 1])
    decreases |s|
  {
    var r := ReplaceRuns(s, p, rep);
    if p(s[0]) {
      var rest := TrimRun(s[1..], p);
      TrimRunSuffix(s[1..], p);
      if rest == [] {
        if |s| > 1 {
          assert p(s[1..][|s| - 2]);
        }
      } else {
        ReplaceRunsLast(rest, p, rep);
        assert rest[|rest| - 1] == s[|s| - 1];
      }
    } else if |s| > 1 {
      ReplaceRunsLast(s[1..], p, rep);
    }
  }

  /** When `rep` itself satisfies `p`, no two neighbours of the result both do. */
  lemma {:induction false} ReplaceRunsNoAdjacent(s: string, p: char -> bool, rep: char)
    requires p(rep)
    ensures NoAdjacent(ReplaceRuns(s, p, rep), p)
    decreases |s|
  {
    if s != [] {
      var tail := if p(s[0]) then TrimRun(s[1..], p) else s[1..];
      ReplaceRunsNoAdjacent(tail, p, rep);
      var r := ReplaceRuns(s, p, rep);
      var t := ReplaceRuns(tail, p, rep);
      assert r == [r[0]] + t;
      forall i | 0 <= i < |r| - 1 ensures !(p(r[i]) && p(r[i + 1])) {
        if i > 0 {
          assert r[i] == t[i - 1] && r[i + 1] == t[i];
        }
      }
    }
  }

  /** A string whose runs are already single `rep` characters is left unchanged. */
  lemma {:induction false} ReplaceRunsFixed(s: string, p: char -> bool, rep: char)
    requires NoAdjacent(s, p)
    requires forall i :: 0 <= i < |s| && p(s[i]) ==> s[i] == rep
    ensures ReplaceRuns(s, p, rep) == s
    decreases |s|
  {
    if s != [] {
      var t := s[1..];
      assert NoAdjacent(t, p) by {
        forall i | 0 <= i < |t| - 1 ensures !(p(t[i]) && p(t[i + 1])) {
          assert t[i] == s[i + 1] && t[i + 1] == s[i + 2];
        }
      }
      assert forall i :: 0 <= i < |t| && p(t[i]) ==> t[i] == rep by {
        forall i | 0 <= i < |t| && p(t[i]) ensures t[i] == rep {
          assert t[i] == s[i + 1];
        }
      }
      ReplaceRunsFixed(t, p, rep);
      assert s == [s[0]] + t;
      if p(s[0]) {
        assert t == [] || !p(t[0]) by {
          if t != [] {
            assert t[0] == s[1];
          }
        }
        assert TrimRun(t, p) == t;
        assert ReplaceRuns(s, p, rep) == [rep] + ReplaceRuns(t, p, rep);
      } else {
        assert ReplaceRuns(s, p, rep) == [s[0]] + ReplaceRuns(t, p, rep);
      }
    }
  }

  /** `trim()` leaves a string without white space at either end unchanged. */
  lemma TrimFixed(s: string)
    requires s == [] || (!IsSpace(s[0]) && !IsSpace(s[|s| - 1]))
    ensures Trim(s) == s
  {
  }

  /** `split(':')[0]` leaves a string without a colon unchanged. */
  lemma {:induction false} BeforeColonFixed(s: string)
    requires ':' !in s
    ensures BeforeColon(s) == s
  {
    if s != [] {
      assert s[1..] <= s[1..] && forall c :: c in s[1..] ==> c in s;
      BeforeColonFixed(s[1..]);
    }
  }

  /** `toLowerCase()` leaves a string without upper-case letters unchanged. */
  lemma LowerFixed(s: string)
    requires forall c :: c in s ==> !IsUpper(c)
    ensures Lower(s) == s
  {
    assert forall i :: 0 <= i < |s| ==> Lower(s)[i] == s[i] by {
      forall i | 0 <= i < |s| ensures Lower(s)[i] == s[i] {
        assert s[i] in s;
      }
    }
  }

  /** `s.split(sep)`: the pieces between occurrences of `sep`, in order. */
  function Split(s: string, sep: char): (r: seq<string>)
    ensures |r| >= 1
    ensures forall k :: 0 <= k < |r| ==> sep !in r[k]
  {
    if s == [] then [[]]
    else
      var init := Split(s[..|s| - 1], sep);
      if s[|s| - 1] == sep then init + [[]]
      else init[..|init| - 1] + [init[|init| - 1] + [s[|s| - 1]]]
  }

  /** `pieces.join(sep)`. */
  function Join(pieces: seq<string>, sep: char): string {
    if |pieces| <= 1 then (if pieces == [] then [] else pieces[0])
    else Join(pieces[..|pieces| - 1], sep) + [sep] + pieces[|pieces| - 1]
  }

  /** `s.split(sep).join(sep) == s`. */
  lemma {:induction false} SplitJoin(s: string, sep: char)
    ensures Join(Split(s, sep), sep) == s
  {
    if s != [] {
      var t := s[..|s| - 1];
      var c := s[|s| - 1];
      var init := Split(t, sep);
      SplitJoin(t, sep);
      assert s == t + [c];
      if c == sep {
        SplitAfterSep(t, sep);
        assert (init + [[]])[..|init|] == init;
      } else {
        JoinExtendLast(init, [c], sep);
      }
    }
  }

  /** Extending the last piece extends the joined text. */
  lemma JoinExtendLast(pieces: seq<string>, b: string, sep: char)
    requires |pieces| >= 1
    ensures var q := pieces[..|pieces| - 1] + [pieces[|pieces| - 1] + b];
      Join(q, sep) == Join(pieces, sep) + b
  {
    var q := pieces[..|pieces| - 1] + [pieces[|pieces| - 1] + b];
    if |pieces| > 1 {
      assert q[..|q| - 1] == pieces[..|pieces| - 1];
    }
  }

  /** There is one piece more than there are separators. */
  lemma {:induction false} SplitCount(s: string, sep: char)
    ensures |Split(s, sep)| == 1 + multiset(s)[sep]
  {
    if s != [] {
      SplitCount(s[..|s| - 1], sep);
      assert s == s[..|s| - 1] + [s[|s| - 1]];
    }
  }

  /** Splitting after more text without a separator extends the last piece. */
  lemma {:induction false} SplitExtend(a: string, b: string, sep: char)
    requires sep !in b
    ensures var p := Split(a, sep);
      Split(a + b, sep) == p[..|p| - 1] + [p[|p| - 1] + b]
  {
    if b != [] {
      var b' := b[..|b| - 1];
      var c := b[|b| - 1];
      var p := Split(a, sep);
      SplitExtend(a, b', sep);
      assert (a + b)[..|a + b| - 1] == a + b';
      assert (a + b)[|a + b| - 1] == c && c in b;
      var init := Split(a + b', sep);
      assert init == p[..|p| - 1] + [p[|p| - 1] + b'];
      assert init[..|init| - 1] == p[..|p| - 1];
      assert Split(a + b, sep) == init[..|init| - 1] + [init[|init| - 1] + [c]];
      assert b == b' + [c];
      assert p[|p| - 1] + b' + [c] == p[|p| - 1] + b;
    } else {
      var p := Split(a, sep);
      assert a + b == a;
      assert p[|p| - 1] + b == p[|p| - 1];
      assert p == p[..|p| - 1] + [p[|p| - 1]];
    }
  }

  /** A separator at the end opens an empty last piece. */
  lemma SplitAfterSep(a: string, sep: char)
    ensures Split(a + [sep], sep) == Split(a, sep) + [[]]
  {
    assert (a + [sep])[..|a|] == a;
  }

  /** A separator followed by separator-free text adds that text as one piece. */
  lemma SplitSepPiece(a: string, b: string, sep: char)
    requires sep !in b
    ensures Split(a + [sep] + b, sep) == Split(a, sep) + [b]
  {
    var p := Split(a, sep);
    SplitAfterSep(a, sep);
    SplitExtend(a + [sep], b, sep);
    assert (p + [[]])[..|p|] == p;
    assert [] + b == b;
  }

  /** Text without a separator is one piece. */
  lemma SplitNoSep(b: string, sep: char)
    requires sep !in b
    ensures Split(b, sep) == [b]
  {
    SplitExtend([], b, sep);
    assert [] + b == b;
  }

  /** `join(sep).split(sep)` gives back pieces that hold no separator. */
  lemma {:induction false} JoinSplit(pieces: seq<string>, sep: char)
    requires |pieces| >= 1
    requires forall k :: 0 <= k < |pieces| ==> sep !in pieces[k]
    ensures Split(Join(pieces, sep), sep) == pieces
  {
    var last := pieces[|pieces| - 1];
    assert sep !in last;
    if |pieces| == 1 {
      SplitNoSep(last, sep);
    } else {
      var init := pieces[..|pieces| - 1];
      assert Join(pieces, sep) == Join(init, sep) + [sep] + last;
      assert forall k :: 0 <= k < |init| ==> init[k] == pieces[k];
      JoinSplit(init, sep);
      SplitSepPiece(Join(init, sep), last, sep);
      assert pieces == init + [last];
    }
  }

  function DigitValue(c: char): nat {
    if IsDigit(c) then c as int - '0' as int else 0
  }

  /** The longest prefix of `s` made of decimal digits. */
  function DigitPrefix(s: string): (r: string)
    ensures |r| <= |s|
  {
    if s != [] && IsDigit(s[0]) then [s[0]] + DigitPrefix(s[1..]) else []
  }

  /** `DigitPrefix(s)` is the longest run of digits that `s` starts with. */
  lemma {:induction false} DigitPrefixIsLongestRun(s: string)
    ensures DigitPrefix(s) <= s
    ensures forall c :: c in DigitPrefix(s) ==> IsDigit(c)
    ensures |DigitPrefix(s)| < |s| ==> !IsDigit(s[|DigitPrefix(s)|])
  {
    if s != [] && IsDigit(s[0]) {
      DigitPrefixIsLongestRun(s[1..]);
    }
  }

  /** The number a string of decimal digits denotes. */
  function DigitsValue(d: string): nat {
    if d == [] then 0 else 10 * DigitsValue(d[..|d| - 1]) + DigitValue(d[|d| - 1])
  }

  /** `parseInt(s, 10)`: optional leading white space and sign, then the longest
      run of decimal digits; `None` where JavaScript gives `NaN`. */
  function ParseInt(s: string): (r: Option<int>)
  {
    var t := TrimStart(s);
    var negative := t != [] && t[0] == '-';
    var unsigned := if t != [] && (t[0] == '-' || t[0] == '+') then t[1..] else t;
    var digits := DigitPrefix(unsigned);
    var magnitude: int := if digits == [] then 0 else DigitsValue(digits);
    if digits == [] then None else Some(if negative then -magnitude else magnitude)
  }

  function DigitChar(d: nat): (c: char)
    requires d < 10
    ensures IsDigit(c) && DigitValue(c) == d
  {
    ('0' as int + d) as char
  }

  /** The decimal numeral of `n`. */
  function NatToString(n: nat): string {
    if n < 10 then [DigitChar(n)] else NatToString(n / 10) + [DigitChar(n % 10)]
  }

  /** The numeral is a non-empty run of digits, without a leading zero, that
      denotes `n`. */
  lemma {:induction false} NatToStringDigits(n: nat)
    ensures NatToString(n) != [] && forall c :: c in NatToString(n) ==> IsDigit(c)
    ensures DigitsValue(NatToString(n)) == n
    ensures |NatToString(n)| > 1 ==> NatToString(n)[0] != '0'
    decreases n
  {
    if n >= 10 {
      NatToStringDigits(n / 10);
      var r := NatToString(n);
      assert r[..|r| - 1] == NatToString(n / 10);
    }
  }

  /** `String(n)` / `${n}` for an integer. */
  function IntToString(n: int): (r: string)
  {
    if n < 0 then "-" + NatToString(-n) else NatToString(n)
  }

  /** `parseInt` reads back what template interpolation writes. */
  lemma IntToStringRoundTrip(n: int)
    ensures ParseInt(IntToString(n)) == Some(n)
  {
    var m: nat := if n < 0 then -n else n;
    NatToStringDigits(m);
    ParseNumeral(n < 0, NatToString(m));
  }

  /** `parseInt` reads a run of digits, with an optional minus sign before it,
      as the number it denotes. */
  lemma ParseNumeral(negative: bool, d: string)
    requires d != [] && forall c :: c in d ==> IsDigit(c)
    ensures ParseInt(if negative then "-" + d else d)
         == Some(if negative then -(DigitsValue(d) as int) else DigitsValue(d) as int)
  {
    var s := if negative then "-" + d else d;
    DigitPrefixAll(d);
    assert IsDigit(d[0]) by { assert d[0] in d; }
    assert TrimStart(s) == s by { assert !IsSpace(s[0]); }
    if negative {
      assert s[1..] == d;
    }
  }

  lemma {:induction false} DigitPrefixAll(d: string)
    requires forall c :: c in d ==> IsDigit(c)
    ensures DigitPrefix(d) == d
  {
    if d != [] {
      DigitPrefixAll(d[1..]);
    }
  }
}
