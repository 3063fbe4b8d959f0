/**
 * SentenceSplitter._wrapMinWidth (SentenceSplitter.py:44-54): greedy wrapping
 * of a word list into lines, starting a new line whenever the next word and
 * the current line together are longer than `n` characters.
 */
module Wrapping {
  import opened PyStrings

  /** The loop's accumulators: the finished lines `r` and the current line `l`. */
  datatype Wrap = Wrap(done: seq<string>, line: string)

  /** One iteration of lines 49-53 for `word`. */
  function Push(s: Wrap, word: string, n: int): Wrap
  {
    if |word| + |s.line| > n then Wrap(s.done + [s.line], word)
    else Wrap(s.done, s.line + (if |s.line| > 0 then " " else "") + word)
  }

  /** The accumulators after the first `k` words. */
  function WrapUpTo(words: seq<string>, n: int, k: nat): (s: Wrap)
    requires k <= |words|
    ensures |s.done| <= k
  {
    if k == 0 then Wrap([], "") else Push(WrapUpTo(words, n, k - 1), words[k - 1], n)
  }

  /** What `_wrapMinWidth(words, n)` returns: the finished lines and the last line. */
  function Wrapped(words: seq<string>, n: int): (lines: seq<string>)
    ensures 1 <= |lines| <= |words| + 1
  {
    var s := WrapUpTo(words, n, |words|);
    s.done + [s.line]
  }

  /** `_wrapMinWidth`: the loop of lines 46-54. */
  method WrapMinWidth(words: seq<string>, n: int) returns (lines: seq<string>)
    ensures lines == Wrapped(words, n)
  {
    var r: seq<string> := [];
    var l: string := "";
    for i := 0 to |words|
      invariant Wrap(r, l) == WrapUpTo(words, n, i)
    {
      var word := words[i];
      if |word| + |l| > n {
        r := r + [l];
        l := "";
      }
      l := l + (if |l| > 0 then " " else "");
      l := l + word;
    }
    return r + [l];
  }

  /** Words that `" ".join` and `str.split(" ")` take apart again: non-empty and without spaces. */
  predicate Pieces(words: seq<string>)
  {
    forall i :: 0 <= i < |words| ==> words[i] != [] && NoSpace(words[i])
  }

  /** 1 when the first word alone is longer than `n`, which puts an empty line first. */
  function Lead(words: seq<string>, n: int): nat
    requires words != []
  {
    if |words[0]| > n then 1 else 0
  }

  /** What the loop keeps after `k >= 1` words: the lines after the lead split back into those words. */
  predicate KeepsWords(words: seq<string>, n: int, k: nat, s: Wrap)
    requires 1 <= k <= |words|
  {
    var start := Lead(words, n);
    start <= |s.done| && s.line != []
    && (start == 1 ==> s.done[0] == [])
    && (forall j :: start <= j < |s.done| ==> s.done[j] != [])
    && SplitLines(s.done[start..]) + SplitSpace(s.line) == words[..k]
  }

  /** One more word keeps the words. */
  lemma KeepsWordsStep(words: seq<string>, n: int, k: nat)
    requires Pieces(words) && 1 <= k < |words|
    requires KeepsWords(words, n, k, WrapUpTo(words, n, k))
    ensures KeepsWords(words, n, k + 1, WrapUpTo(words, n, k + 1))
  {
    var s := WrapUpTo(words, n, k);
    var w := words[k];
    var start := Lead(words, n);
    var front := SplitLines(s.done[start..]);
    assert words[..k + 1] == words[..k] + [w];
    if |w| + |s.line| > n {
      assert (s.done + [s.line])[start..] == s.done[start..] + [s.line];
      SplitLinesSnoc(s.done[start..], s.line);
      SplitSpaceWord(w);
    } else {
      assert s.line + (if |s.line| > 0 then " " else "") + w == s.line + " " + w;
      SplitSpaceAppend(s.line, w);
    }
  }

  /** The loop keeps the words at every step. */
  lemma {:induction false} KeepsWordsUpTo(words: seq<string>, n: int, k: nat)
    requires Pieces(words) && 1 <= k <= |words|
    ensures KeepsWords(words, n, k, WrapUpTo(words, n, k))
  {
    if k == 1 {
      var w := words[0];
      assert WrapUpTo(words, n, 0) == Wrap([], "");
      assert "" + "" + w == w;
      SplitSpaceWord(w);
      assert words[..1] == [w];
    } else {
      KeepsWordsUpTo(words, n, k - 1);
      KeepsWordsStep(words, n, k - 1);
    }
  }

  /**
   * `_wrapMinWidth` keeps the words: splitting its lines back with
   * `str.split(" ")` gives the words in order, except for an empty first line,
   * which appears exactly when the first word alone is longer than `n`.
   */
  lemma WrapKeepsWords(words: seq<string>, n: int)
    requires words != [] && Pieces(words)
    ensures var lines := Wrapped(words, n);
      (lines[0] == [] <==> |words[0]| > n)
      && SplitLines(lines[Lead(words, n)..]) == words
  {
    KeepsWordsUpTo(words, n, |words|);
    var s := WrapUpTo(words, n, |words|);
    var start := Lead(words, n);
    assert (s.done + [s.line])[start..] == s.done[start..] + [s.line];
    SplitLinesSnoc(s.done[start..], s.line);
    assert words[..|words|] == words;
  }

  /** Without words there is one empty line. */
  lemma WrapNoWords(n: int)
    ensures Wrapped([], n) == [""]
  {
  }

  // ---------------------------------------------------------------------------
  // Line widths
  // ---------------------------------------------------------------------------

  /** A line holding a space, that is at least two words, is at most `n + 1` long. */
  predicate NarrowLine(line: string, n: int)
  {
    ' ' in line ==> |line| <= n + 1
  }

  /** Every line, finished or current, with a space is at most `n + 1` long. */
  predicate Narrow(s: Wrap, n: int)
  {
    (forall j :: 0 <= j < |s.done| ==> NarrowLine(s.done[j], n)) && NarrowLine(s.line, n)
  }

  lemma {:induction false} NarrowUpTo(words: seq<string>, n: int, k: nat)
    requires k <= |words| && forall i :: 0 <= i < |words| ==> NoSpace(words[i])
    ensures Narrow(WrapUpTo(words, n, k), n)
  {
    if k > 0 {
      NarrowUpTo(words, n, k - 1);
      var s := WrapUpTo(words, n, k - 1);
      var w := words[k - 1];
      if |w| + |s.line| > n {
        assert ' ' !in w;
      } else if |s.line| == 0 {
        assert s.line + "" + w == w;
        assert ' ' !in w;
      }
    }
  }

  /**
   * Line width: the wrapped lines of words without spaces that hold more than
   * one word are at most `n + 1` characters long, one more than the test on
   * line 49 suggests, since it leaves out the joining space. A one-word line
   * may be of any length.
   */
  lemma WrapWidth(words: seq<string>, n: int)
    requires forall i :: 0 <= i < |words| ==> NoSpace(words[i])
    ensures var lines := Wrapped(words, n);
      forall j :: 0 <= j < |lines| && ' ' in lines[j] ==> |lines[j]| <= n + 1
  {
    NarrowUpTo(words, n, |words|);
    var s := WrapUpTo(words, n, |words|);
    var lines := Wrapped(words, n);
    forall j | 0 <= j < |lines| && ' ' in lines[j]
      ensures |lines[j]| <= n + 1
    {
      if j < |s.done| {
        assert NarrowLine(s.done[j], n);
      }
    }
  }

  // ---------------------------------------------------------------------------
  // Greediness
  // ---------------------------------------------------------------------------

  /** A line was finished only because the next line's first word did not fit beside it. */
  predicate Greedy(s: Wrap, n: int)
  {
    (forall j :: 0 <= j < |s.done| - 1 ==> |s.done[j]| + |FirstWord(s.done[j + 1])| > n)
    && (s.done != [] ==> |s.done[|s.done| - 1]| + |FirstWord(s.line)| > n)
  }

  /** Finishing the current line for a word that does not fit stays greedy. */
  lemma GreedyFlush(s: Wrap, w: string, n: int)
    requires Greedy(s, n) && NoSpace(w) && |w| + |s.line| > n
    ensures Greedy(Wrap(s.done + [s.line], w), n)
  {
    SplitSpaceWord(w);
    var d := s.done + [s.line];
    assert forall j :: 0 <= j < |s.done| ==> d[j] == s.done[j];
  }

  /** Adding a word to the current line keeps that line's first word. */
  lemma GreedyExtend(s: Wrap, w: string, n: int)
    requires Greedy(s, n) && NoSpace(w)
    ensures Greedy(Wrap(s.done, s.line + (if |s.line| > 0 then " " else "") + w), n)
  {
    SplitSpaceWord(w);
    if |s.line| == 0 {
      assert s.line + "" + w == w;
      assert SplitSpace(s.line) == [""];
    } else {
      SplitSpaceAppend(s.line, w);
    }
  }

  lemma {:induction false} GreedyUpTo(words: seq<string>, n: int, k: nat)
    requires k <= |words| && forall i :: 0 <= i < |words| ==> NoSpace(words[i])
    ensures Greedy(WrapUpTo(words, n, k), n)
  {
    if k > 0 {
      GreedyUpTo(words, n, k - 1);
      var s := WrapUpTo(words, n, k - 1);
      var w := words[k - 1];
      if |w| + |s.line| > n {
        GreedyFlush(s, w, n);
      } else {
        GreedyExtend(s, w, n);
      }
    }
  }

  /**
   * Greedy wrapping: for words without spaces, every line but the last ended
   * because the first word of the next line, added to it, would have made it
   * longer than `n` (line 49).
   */
  lemma WrapGreedy(words: seq<string>, n: int)
    requires forall i :: 0 <= i < |words| ==> NoSpace(words[i])
    ensures var lines := Wrapped(words, n);
      forall j :: 0 <= j < |lines| - 1 ==> |lines[j]| + |FirstWord(lines[j + 1])| > n
  {
    GreedyUpTo(words, n, |words|);
    var s := WrapUpTo(words, n, |words|);
    var lines := Wrapped(words, n);
    forall j | 0 <= j < |lines| - 1
      ensures |lines[j]| + |FirstWord(lines[j + 1])| > n
    {
      if j + 1 < |s.done| {
        assert lines[j] == s.done[j] && lines[j + 1] == s.done[j + 1];
      } else {
        assert lines[j] == s.done[|s.done| - 1] && lines[j + 1] == s.line;
      }
    }
  }
}
