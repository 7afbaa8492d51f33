/** `src/utils/reading-time.ts`: minutes of reading at 200 words a minute,
    rounded up, and the number of words of a text. */
module ReadingTime {
  import opened Text

  const WORDS_PER_MINUTE: nat := 200

  // ---------------------------------------------------------------- calculateReadingTime

  /** `calculateReadingTime`: 0 for no words, else `Math.ceil(wordCount / 200)`,
      which for a whole number of words is the integer quotient rounded up. */
  function CalculateReadingTime(wordCount: nat): nat {
    if wordCount == 0 then 0 else (wordCount + WORDS_PER_MINUTE - 1) / WORDS_PER_MINUTE
  }

  /** For some words, the result is the least number of minutes that covers
      them: 200 words a minute reach `wordCount`, one minute fewer does not. */
  lemma ReadingTimeIsCeiling(wordCount: nat)
    ensures wordCount == 0 ==> CalculateReadingTime(wordCount) == 0
    ensures wordCount > 0 ==>
      && CalculateReadingTime(wordCount) >= 1
      && WORDS_PER_MINUTE * CalculateReadingTime(wordCount) >= wordCount
      && WORDS_PER_MINUTE * (CalculateReadingTime(wordCount) - 1) < wordCount
  {
  }

  /** No smaller number of minutes covers the words. */
  lemma ReadingTimeLeast(wordCount: nat, minutes: nat)
    requires WORDS_PER_MINUTE * minutes >= wordCount
    ensures CalculateReadingTime(wordCount) <= minutes
  {
    ReadingTimeIsCeiling(wordCount);
  }

  /** More words never read faster. */
  lemma ReadingTimeMonotone(a: nat, b: nat)
    requires a <= b
    ensures CalculateReadingTime(a) <= CalculateReadingTime(b)
  {
    ReadingTimeIsCeiling(b);
    ReadingTimeLeast(a, CalculateReadingTime(b));
  }

  /** Every count from 1 to 200 reads in one minute; 199, 201, 400 and 401
      read in 1, 2, 2 and 3. */
  lemma ReadingTimeValues(wordCount: nat)
    requires 1 <= wordCount <= 200
    ensures CalculateReadingTime(wordCount) == 1
    ensures CalculateReadingTime(199) == 1 && CalculateReadingTime(201) == 2
    ensures CalculateReadingTime(400) == 2 && CalculateReadingTime(401) == 3
  {
  }

  // ---------------------------------------------------------------- getWordCount

  /** `s.split(/\s+/)`: the pieces between maximal runs of white space; a
      leading or trailing run gives an empty first or last piece. */
  function SplitWhitespace(s: string): (r: seq<string>)
    ensures |r| >= 1
    decreases |s|
  {
    if s == [] then [[]]
    else if IsSpace(s[0]) then [[]] + SplitWhitespace(TrimRun(s[1..], IsSpace))
    else
      var rest := SplitWhitespace(s[1..]);
      [[s[0]] + rest[0]] + rest[1..]
  }

  /** `getWordCount`: 0 for blank text, else the number of pieces of the
      trimmed text split at white space. */
  function GetWordCount(content: string): nat {
    var trimmed := Trim(content);
    if trimmed == [] then 0 else |SplitWhitespace(trimmed)|
  }

  /** The number of maximal runs of non-white-space characters in `s`; the
      flag says whether what precedes `s` is white space or nothing. */
  function WordStarts(s: string, afterSpace: bool): nat {
    if s == [] then 0
    else (if !IsSpace(s[0]) && afterSpace then 1 else 0) + WordStarts(s[1..], IsSpace(s[0]))
  }

  /** The number of words of `s`: its maximal runs of non-white-space characters. */
  function Words(s: string): nat { WordStarts(s, true) }

  /** The number of maximal runs of white space in `s`, the flag as above. */
  function SpaceStarts(s: string, afterSpace: bool): nat {
    if s == [] then 0
    else (if IsSpace(s[0]) && !afterSpace then 1 else 0) + SpaceStarts(s[1..], IsSpace(s[0]))
  }

  /** Within a run of white space, skipping to its end starts no new run. */
  lemma {:induction false} SpaceStartsSkip(u: string)
    ensures SpaceStarts(u, true) == SpaceStarts(TrimRun(u, IsSpace), false)
  {
    if u != [] && IsSpace(u[0]) {
      SpaceStartsSkip(u[1..]);
    }
  }

  /** Splitting at white-space runs yields one piece more than there are runs. */
  lemma {:induction false} SplitWhitespaceCount(s: string)
    ensures |SplitWhitespace(s)| == 1 + SpaceStarts(s, false)
    decreases |s|
  {
    if s != [] {
      if IsSpace(s[0]) {
        SplitWhitespaceCount(TrimRun(s[1..], IsSpace));
        SpaceStartsSkip(s[1..]);
      } else {
        SplitWhitespaceCount(s[1..]);
      }
    }
  }

  /** In text that ends with a word, every run of white space is followed by
      one word, so words and white-space runs differ only by a first word. */
  lemma {:induction false} WordsAndSpaces(u: string, afterSpace: bool)
    requires u != [] && !IsSpace(u[|u| - 1])
    ensures WordStarts(u, afterSpace) == SpaceStarts(u, afterSpace) + (if afterSpace then 1 else 0)
  {
    if |u| > 1 {
      WordsAndSpaces(u[1..], IsSpace(u[0]));
    }
  }

  /** White space alone holds no word. */
  lemma {:induction false} NoWordsInSpace(w: string, afterSpace: bool)
    requires forall i :: 0 <= i < |w| ==> IsSpace(w[i])
    ensures WordStarts(w, afterSpace) == 0
  {
    if w != [] {
      NoWordsInSpace(w[1..], true);
    }
  }

  /** Leading white space adds no word. */
  lemma {:induction false} WordsAfterSpace(w: string, x: string)
    requires forall i :: 0 <= i < |w| ==> IsSpace(w[i])
    ensures WordStarts(w + x, true) == WordStarts(x, true)
  {
    if w == [] {
      assert w + x == x;
    } else {
      assert (w + x)[0] == w[0] && (w + x)[1..] == w[1..] + x;
      WordsAfterSpace(w[1..], x);
    }
  }

  /** Trailing white space adds no word. */
  lemma {:induction false} WordsBeforeSpace(t: string, w: string, afterSpace: bool)
    requires forall i :: 0 <= i < |w| ==> IsSpace(w[i])
    ensures WordStarts(t + w, afterSpace) == WordStarts(t, afterSpace)
  {
    if t == [] {
      assert t + w == w;
      NoWordsInSpace(w, afterSpace);
    } else {
      assert (t + w)[1..] == t[1..] + w;
      WordsBeforeSpace(t[1..], w, IsSpace(t[0]));
    }
  }

  /** Trimming removes no word. */
  lemma WordsOfTrim(s: string)
    ensures Words(Trim(s)) == Words(s)
  {
    var i, j := TrimIsSlice(s);
    assert s == s[..i] + (s[i..j] + s[j..]);
    WordsAfterSpace(s[..i], s[i..j] + s[j..]);
    WordsBeforeSpace(s[i..j], s[j..], true);
  }

  /** `getWordCount` counts the words of the text, whatever white space
      separates, leads or trails them; blank text has none. */
  lemma GetWordCountIsWords(content: string)
    ensures GetWordCount(content) == Words(content)
  {
    var t := Trim(content);
    WordsOfTrim(content);
    if t == [] {
      TrimEmptyIff(content);
      NoWordsInSpace(content, true);
    } else {
      SplitWhitespaceCount(t);
      WordsAndSpaces(t, true);
    }
  }
}
