/**
 * SentenceSplitter.simpleSplit (SentenceSplitter.py:119-138): cut the words of
 * a sentence into `num_parts` consecutive runs whose sizes differ by at most
 * one, the longer runs first.
 */
module BalancedSplit {
  import opened Outcomes
  import opened PyStrings

  /**
   * Where part `i` starts (lines 131-136) when each part runs `q` words plus
   * one more for the first `r` parts; simpleSplit takes `q, r` as
   * `total // parts, total % parts`, which Python and Dafny compute alike for
   * a positive divisor.
   */
  function PartStart(q: nat, r: nat, i: nat): nat
  {
    if i == 0 then 0 else PartStart(q, r, i - 1) + q + (if i - 1 < r then 1 else 0)
  }

  /** The closed form: `i` full shares plus one word for each of the first `r` parts before `i`. */
  lemma {:induction false} PartStartClosed(q: nat, r: nat, i: nat)
    ensures PartStart(q, r, i) == i * q + (if i < r then i else r)
  {
    if i > 0 {
      PartStartClosed(q, r, i - 1);
      assert i * q == (i - 1) * q + q;
    }
  }

  /** The parts cover all `total` words. */
  lemma PartsCover(total: nat, parts: nat)
    requires parts > 0
    ensures PartStart(total / parts, total % parts, parts) == total
  {
    PartStartClosed(total / parts, total % parts, parts);
    assert total % parts < parts;
  }

  /** Part starts never decrease, and they increase when each part has at least one word. */
  lemma {:induction false} PartStartMono(q: nat, r: nat, i: nat, j: nat)
    requires i <= j
    ensures PartStart(q, r, i) <= PartStart(q, r, j)
    ensures i < j && q > 0 ==> PartStart(q, r, i) < PartStart(q, r, j)
    decreases j
  {
    if i < j {
      PartStartMono(q, r, i, j - 1);
    }
  }

  /** With at least as many words as parts, every part gets at least one word. */
  lemma DivAtLeastOne(total: nat, parts: nat)
    requires 0 < parts <= total
    ensures total / parts >= 1
  {
  }

  /** Every part start up to the last lies within the words. */
  lemma PartBound(total: nat, parts: nat, q: nat, r: nat, i: nat)
    requires 0 < parts && i <= parts
    requires q == total / parts && r == total % parts
    ensures PartStart(q, r, i) <= total
  {
    PartsCover(total, parts);
    PartStartMono(q, r, i, parts);
  }

  /** The first `n` parts: part `i` joins the words from its start up to the next part's start. */
  function PartsUpTo(words: seq<string>, q: nat, r: nat, n: nat): (ps: seq<string>)
    requires PartStart(q, r, n) <= |words|
    ensures |ps| == n
  {
    if n == 0 then []
    else PartsUpTo(words, q, r, n - 1) + [Join(words[PartStart(q, r, n - 1)..PartStart(q, r, n)])]
  }

  /** The parts simpleSplit builds from `words` (lines 127-136). */
  function Parts(words: seq<string>, parts: nat): (r: seq<string>)
    requires 0 < parts
    ensures |r| == parts
  {
    PartsCover(|words|, parts);
    PartsUpTo(words, |words| / parts, |words| % parts, parts)
  }

  /** Joining the first `n` non-empty parts joins the words they cover. */
  lemma {:induction false} PartsUpToJoin(words: seq<string>, q: nat, r: nat, n: nat)
    requires q > 0 && 0 < n && PartStart(q, r, n) <= |words|
    ensures Join(PartsUpTo(words, q, r, n)) == Join(words[..PartStart(q, r, n)])
  {
    var a, b := PartStart(q, r, n - 1), PartStart(q, r, n);
    var last := words[a..b];
    var ps := PartsUpTo(words, q, r, n);
    if n == 1 {
      assert words[..b] == last;
    } else {
      var init := PartsUpTo(words, q, r, n - 1);
      PartsUpToJoin(words, q, r, n - 1);
      PartStartMono(q, r, 0, n - 1);
      JoinAppend(init, [Join(last)]);
      var front := words[..a];
      assert words[..b] == front + last;
      JoinAppend(front, last);
    }
  }

  /** Part `i` of the first `n` joins the words from its start up to the next part's start. */
  lemma {:induction false} PartsUpToAt(words: seq<string>, q: nat, r: nat, n: nat, i: nat)
    requires PartStart(q, r, n) <= |words| && i < n
    ensures PartStart(q, r, i) <= PartStart(q, r, i + 1) <= |words|
    ensures PartsUpTo(words, q, r, n)[i] == Join(words[PartStart(q, r, i)..PartStart(q, r, i + 1)])
  {
    PartStartMono(q, r, i + 1, n);
    PartStartMono(q, r, i, i + 1);
    if i < n - 1 {
      PartStartMono(q, r, n - 1, n);
      PartsUpToAt(words, q, r, n - 1, i);
    }
  }

  /**
   * Part sizes: with `q, r := total // parts, total % parts`, part `i` joins
   * the `q + 1` words after its start when `i < r`, and `q` words otherwise;
   * `PartStartClosed` puts that start at `i * q + min(i, r)`.
   */
  lemma PartSizes(words: seq<string>, parts: nat, i: nat)
    requires 0 < parts && i < parts
    ensures var q, r := |words| / parts, |words| % parts;
      var start := PartStart(q, r, i);
      var size := q + (if i < r then 1 else 0);
      start + size <= |words| && Parts(words, parts)[i] == Join(words[start..start + size])
  {
    var q, r := |words| / parts, |words| % parts;
    PartsCover(|words|, parts);
    PartsUpToAt(words, q, r, parts, i);
    assert PartStart(q, r, i + 1) == PartStart(q, r, i) + q + (if i < r then 1 else 0);
    assert Parts(words, parts) == PartsUpTo(words, q, r, parts);
  }

  /** `simpleSplit`: the checks of lines 121-128, then the parts. */
  method SimpleSplit(sentence: string, numParts: int) returns (r: Result<seq<string>>)
    ensures r == Raise(ValueError) <==> numParts > |SplitWhitespace(sentence)|
    ensures numParts == 0 ==> r == Raise(ZeroDivisionError)
    ensures numParts < 0 ==> r == Ok([])
    ensures 0 < numParts <= |SplitWhitespace(sentence)| ==> r == Ok(Parts(SplitWhitespace(sentence), numParts))
  {
    var words := SplitWhitespace(sentence);
    var totalWords := |words|;
    if numParts > totalWords {
      return Raise(ValueError);
    }
    if numParts == 0 {
      return Raise(ZeroDivisionError);
    }
    if numParts < 0 {
      // `total_words // num_parts` is defined, and `range(num_parts)` is empty.
      return Ok([]);
    }
    var parts := BuildParts(words, numParts);
    return Ok(parts);
  }

  /** The loop of lines 127-136. */
  method BuildParts(words: seq<string>, numParts: nat) returns (parts: seq<string>)
    requires 0 < numParts <= |words|
    ensures parts == Parts(words, numParts)
  {
    var totalWords := |words|;
    var wordsPerPart := totalWords / numParts;
    var remainder := totalWords % numParts;
    parts := [];
    var startIdx := 0;
    for i := 0 to numParts
      invariant startIdx == PartStart(wordsPerPart, remainder, i)
      invariant PartStart(wordsPerPart, remainder, i) <= totalWords
      invariant parts == PartsUpTo(words, wordsPerPart, remainder, i)
    {
      PartBound(totalWords, numParts, wordsPerPart, remainder, i + 1);
      var endIdx := startIdx + wordsPerPart + (if i < remainder then 1 else 0);
      parts := parts + [Join(words[startIdx..endIdx])];
      startIdx := endIdx;
    }
  }

  /**
   * simpleSplit keeps the words: its parts joined with single spaces are the
   * sentence's words joined with single spaces, and splitting that again
   * gives the same words, in order, none lost.
   */
  lemma PartsKeepWords(sentence: string, parts: nat)
    requires 0 < parts <= |SplitWhitespace(sentence)|
    ensures Join(Parts(SplitWhitespace(sentence), parts)) == Join(SplitWhitespace(sentence))
    ensures SplitWhitespace(Join(Parts(SplitWhitespace(sentence), parts))) == SplitWhitespace(sentence)
  {
    var words := SplitWhitespace(sentence);
    var q, r := |words| / parts, |words| % parts;
    PartsCover(|words|, parts);
    DivAtLeastOne(|words|, parts);
    PartsUpToJoin(words, q, r, parts);
    assert words[..|words|] == words;
    SplitWhitespaceJoin(words);
  }
}
