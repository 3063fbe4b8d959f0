/**
 * SentenceSplitter.decreaseLargeStringParts (SentenceSplitter.py:176-222):
 * for every index of a longest part, move its first word to the part before
 * or its last word to the part after when the receiving part stays shorter
 * than the donor was, rewriting the list in place.
 */
module Rebalancing {
  import opened Outcomes
  import opened PyStrings
  import opened Extremes

  /** Python's `s[:-k]` for `k >= 0`; `s[:-0]` is `s[:0]`, the empty string. */
  function CutLast(s: string, k: nat): string
  {
    if k == 0 || k >= |s| then "" else s[..|s| - k]
  }

  /** Python's `s[k:]` for `k >= 0`. */
  function DropFirst(s: string, k: nat): string
  {
    if k >= |s| then "" else s[k..]
  }

  /** `move_word_back_score` (lines 195-198): the previous part's length with the first word added, if shorter. */
  function BackScore(ps: seq<string>, h: nat): nat
    requires h < |ps|
  {
    if h > 0 && |FirstWord(ps[h])| + |ps[h - 1]| + 1 < |ps[h]| then |FirstWord(ps[h])| + |ps[h - 1]| + 1 else 0
  }

  /** `move_word_front_score` (lines 199-202): the next part's length with the last word added, if shorter. */
  function FrontScore(ps: seq<string>, h: nat): nat
    requires h < |ps|
  {
    if h + 1 < |ps| && |LastWord(ps[h])| + |ps[h + 1]| + 1 < |ps[h]| then |LastWord(ps[h])| + |ps[h + 1]| + 1 else 0
  }

  /** `direction_to_move`. */
  datatype Direction = Back | Front

  /** Lines 206-212, with the comparison of line 212 as written. */
  function Choose(back: nat, front: nat): Direction
  {
    if front == 0 then Back
    else if back == 0 then Front
    else if front < front then Front else Back
  }

  /** Part `h` has a word to give away (line 203 does not skip it). */
  predicate Moves(ps: seq<string>, h: nat)
    requires h < |ps|
  {
    BackScore(ps, h) != 0 || FrontScore(ps, h) != 0
  }

  /** The part that receives the word: the next one for a move to the front, else the previous one. */
  function Receiver(ps: seq<string>, h: nat): int
    requires h < |ps|
  {
    if Choose(BackScore(ps, h), FrontScore(ps, h)) == Front then h + 1 else h - 1
  }

  /** The word that moves: the last word to the front, the first word back. */
  function Mover(ps: seq<string>, h: nat): string
    requires h < |ps|
  {
    if Choose(BackScore(ps, h), FrontScore(ps, h)) == Front then LastWord(ps[h]) else FirstWord(ps[h])
  }

  /** The donor after the move, stripped (lines 215, 218). */
  function Shrunk(ps: seq<string>, h: nat): string
    requires h < |ps|
  {
    if Choose(BackScore(ps, h), FrontScore(ps, h)) == Front then Strip(CutLast(ps[h], |Mover(ps, h)|))
    else Strip(DropFirst(ps[h], |Mover(ps, h)|))
  }

  /** The receiver after the move (lines 216, 219). */
  function Grown(ps: seq<string>, h: nat): string
    requires h < |ps| && Moves(ps, h)
  {
    if Choose(BackScore(ps, h), FrontScore(ps, h)) == Front then Mover(ps, h) + " " + ps[h + 1]
    else ps[h - 1] + " " + Mover(ps, h)
  }

  /** One iteration of the loop of lines 187-221 for index `h`. */
  function Step(ps: seq<string>, h: nat): (r: seq<string>)
    requires h < |ps|
    ensures |r| == |ps|
  {
    if !Moves(ps, h) then ps else ps[h := Shrunk(ps, h)][Receiver(ps, h) := Grown(ps, h)]
  }

  /** Indices that are all valid for a list of `n` parts. */
  predicate InRange(hs: seq<int>, n: nat)
  {
    forall k :: 0 <= k < |hs| ==> 0 <= hs[k] < n
  }

  /** The parts after the iterations for the first `k` indices of `hs`. */
  function PassUpTo(ps: seq<string>, hs: seq<int>, k: nat): (r: seq<string>)
    requires k <= |hs| && InRange(hs, |ps|)
    ensures |r| == |ps|
  {
    if k == 0 then ps else Step(PassUpTo(ps, hs, k - 1), hs[k - 1])
  }

  /** `could_optimize` after the first `k` indices of `hs` (line 221). */
  predicate MovedUpTo(ps: seq<string>, hs: seq<int>, k: nat)
    requires k <= |hs| && InRange(hs, |ps|)
  {
    k > 0 && (MovedUpTo(ps, hs, k - 1) || Moves(PassUpTo(ps, hs, k - 1), hs[k - 1]))
  }

  /** `highest_index_list` (lines 182-184), computed once from the parts as they are at the start. */
  function Order(ps: seq<string>): seq<int>
  {
    Highest(Lengths(ps), |ps|)
  }

  lemma OrderInRange(ps: seq<string>)
    requires ps != []
    ensures InRange(Order(ps), |ps|)
  {
    HighestInRange(Lengths(ps));
  }

  /** The parts after one call. */
  function Rebalanced(ps: seq<string>): (r: seq<string>)
    requires ps != []
    ensures |r| == |ps|
  {
    OrderInRange(ps);
    PassUpTo(ps, Order(ps), |Order(ps)|)
  }

  /** What one call returns. */
  predicate Improved(ps: seq<string>)
    requires ps != []
  {
    OrderInRange(ps);
    MovedUpTo(ps, Order(ps), |Order(ps)|)
  }

  /**
   * `decreaseLargeStringParts`. An empty list raises IndexError: the list of
   * highest indices is then `[0]`, and line 189 indexes the empty list.
   */
  method DecreaseLargeStringParts(parts: array<string>) returns (r: Result<bool>)
    modifies parts
    ensures parts.Length == 0 ==> r == Raise(IndexError)
    ensures parts.Length > 0 ==> r == Ok(Improved(old(parts[..]))) && parts[..] == Rebalanced(old(parts[..]))
  {
    var lengths := Lengths(parts[..]);
    var highestIndexList := IndexesHighest(lengths);
    HighestInRange(lengths);
    r := MoveWords(parts, highestIndexList);
  }

  /** The loop of lines 187-221 over the highest indices `hs`, with `could_optimize` as its result. */
  method MoveWords(parts: array<string>, hs: seq<int>) returns (r: Result<bool>)
    requires hs != [] && forall k :: 0 <= k < |hs| ==> 0 <= hs[k]
    requires parts.Length > 0 ==> InRange(hs, parts.Length)
    modifies parts
    ensures parts.Length == 0 ==> r == Raise(IndexError)
    ensures parts.Length > 0 ==> r == Ok(MovedUpTo(old(parts[..]), hs, |hs|)) && parts[..] == PassUpTo(old(parts[..]), hs, |hs|)
  {
    ghost var start := parts[..];
    assert parts.Length > 0 ==> PassUpTo(start, hs, 0) == start;
    var couldOptimize := false;
    for k := 0 to |hs|
      invariant parts.Length > 0 || k == 0
      invariant parts.Length > 0 ==> parts[..] == PassUpTo(start, hs, k)
      invariant parts.Length > 0 ==> couldOptimize == MovedUpTo(start, hs, k)
    {
      var h := hs[k];
      if h >= parts.Length {
        return Raise(IndexError);
      }
      ghost var before := parts[..];
      var moved := MoveWord(parts, h);
      couldOptimize := moved || couldOptimize;
      assert PassUpTo(start, hs, k + 1) == Step(before, h);
    }
    return Ok(couldOptimize);
  }

  /** Lines 188-202: the scores of moving the first word back and the last word to the front. */
  method Scores(parts: array<string>, h: nat, words: seq<string>) returns (back: nat, front: nat)
    requires h < parts.Length && words == SplitSpace(parts[h])
    ensures back == BackScore(parts[..], h) && front == FrontScore(parts[..], h)
  {
    var lengths := Lengths(parts[..]);
    back, front := 0, 0;
    if h > 0 {
      var modified := |words[0]| + lengths[h - 1] + 1;
      if modified < lengths[h] {
        back := modified;
      }
    }
    if h + 1 < parts.Length {
      var modified := |words[|words| - 1]| + lengths[h + 1] + 1;
      if modified < lengths[h] {
        front := modified;
      }
    }
  }

  /** The body of the loop of lines 187-221 for one index `h`: it returns whether a word moved. */
  method MoveWord(parts: array<string>, h: nat) returns (moved: bool)
    requires h < parts.Length
    modifies parts
    ensures moved == Moves(old(parts[..]), h) && parts[..] == Step(old(parts[..]), h)
  {
    ghost var ps := parts[..];
    var words := SplitSpace(parts[h]);
    var back, front := Scores(parts, h, words);
    if front == 0 && back == 0 {
      return false;
    }
    var direction := if front == 0 then Back else if back == 0 then Front else if front < front then Front else Back;
    if direction == Front {
      var last := words[|words| - 1];
      assert last == LastWord(ps[h]);
      StepFront(ps, h);
      MoveFront(parts, h, last);
    } else {
      var first := words[0];
      assert first == FirstWord(ps[h]);
      StepBack(ps, h);
      MoveBack(parts, h, first);
    }
    return back != 0 || front != 0;
  }

  /** A move to the front: the donor loses its last word, which starts the next part. */
  lemma StepFront(ps: seq<string>, h: nat)
    requires h < |ps| && FrontScore(ps, h) != 0 && (BackScore(ps, h) == 0 || FrontScore(ps, h) < FrontScore(ps, h))
    ensures var last := LastWord(ps[h]);
      Step(ps, h) == ps[h := Strip(CutLast(ps[h], |last|))][h + 1 := last + " " + ps[h + 1]]
  {
  }

  /** A move back: the donor loses its first word, which ends the previous part. */
  lemma StepBack(ps: seq<string>, h: nat)
    requires h < |ps| && BackScore(ps, h) != 0 && (FrontScore(ps, h) == 0 || !(FrontScore(ps, h) < FrontScore(ps, h)))
    ensures var first := FirstWord(ps[h]);
      Step(ps, h) == ps[h := Strip(DropFirst(ps[h], |first|))][h - 1 := ps[h - 1] + " " + first]
  {
  }

  /** Lines 214-216: the last word `last` of part `h` moves to the front of part `h + 1`. */
  method MoveFront(parts: array<string>, h: nat, last: string)
    requires h + 1 < parts.Length
    modifies parts
    ensures var ps := old(parts[..]);
      parts[..] == ps[h := Strip(CutLast(ps[h], |last|))][h + 1 := last + " " + ps[h + 1]]
  {
    parts[h] := Strip(CutLast(parts[h], |last|));
    parts[h + 1] := last + " " + parts[h + 1];
  }

  /** Lines 217-219: the first word `first` of part `h` moves to the end of part `h - 1`. */
  method MoveBack(parts: array<string>, h: nat, first: string)
    requires 0 < h < parts.Length
    modifies parts
    ensures var ps := old(parts[..]);
      parts[..] == ps[h := Strip(DropFirst(ps[h], |first|))][h - 1 := ps[h - 1] + " " + first]
  {
    parts[h] := Strip(DropFirst(parts[h], |first|));
    parts[h - 1] := parts[h - 1] + " " + first;
  }

  // ---------------------------------------------------------------------------
  // One move
  // ---------------------------------------------------------------------------

  /** Cutting off the last word and the space before it shortens the donor by more than the word. */
  lemma DonorFront(p: string, other: nat)
    requires |LastWord(p)| + other + 1 < |p|
    ensures |Strip(CutLast(p, |LastWord(p)|))| + |LastWord(p)| + 1 <= |p|
  {
    var last := LastWord(p);
    LastPiece(p);
    if |last| > 0 {
      var c := p[..|p| - |last|];
      assert CutLast(p, |last|) == c && |c| == |p| - |last|;
      assert c[|c| - 1] == p[|p| - |last| - 1] == ' ';
      StripShortens(c);
      assert |Strip(c)| < |c|;
    } else {
      assert CutLast(p, |last|) == "";
      StripShortens("");
    }
  }

  /** Cutting off the first word and the space after it shortens the donor by more than the word. */
  lemma DonorBack(p: string, other: nat)
    requires |FirstWord(p)| + other + 1 < |p|
    ensures |Strip(DropFirst(p, |FirstWord(p)|))| + |FirstWord(p)| + 1 <= |p|
  {
    var first := FirstWord(p);
    FirstPiece(p);
    var c := p[|first|..];
    assert DropFirst(p, |first|) == c;
    assert c[0] == p[|first|] == ' ';
    StripShortens(c);
  }

  /**
   * A move changes only the donor `h` and its neighbour the receiver: the
   * receiver ends strictly shorter than the donor was (lines 197, 201), and
   * the donor loses the word and at least one space.
   */
  lemma StepShape(ps: seq<string>, h: nat)
    requires h < |ps| && Moves(ps, h)
    ensures var j, w, r := Receiver(ps, h), Mover(ps, h), Step(ps, h);
      0 <= j < |ps| && (j == h - 1 || j == h + 1)
      && |r[j]| == |ps[j]| + |w| + 1 < |ps[h]|
      && |r[h]| + |w| + 1 <= |ps[h]|
      && forall i :: 0 <= i < |ps| && i != h && i != j ==> r[i] == ps[i]
  {
    if Choose(BackScore(ps, h), FrontScore(ps, h)) == Front {
      DonorFront(ps[h], |ps[h + 1]|);
    } else {
      DonorBack(ps[h], |ps[h - 1]|);
    }
  }

  /** Without a move the parts stay as they are. */
  lemma StepStill(ps: seq<string>, h: nat)
    requires h < |ps| && !Moves(ps, h)
    ensures Step(ps, h) == ps
  {
  }

  /** A part without a space is never the donor: its only word is the whole part. */
  lemma NoSpaceNoDonor(ps: seq<string>, h: nat)
    requires h < |ps| && NoSpace(ps[h])
    ensures !Moves(ps, h) && Step(ps, h) == ps
  {
    SplitSpaceWord(ps[h]);
  }

  /** A word followed by one space splits into the word and an empty piece. */
  lemma WordThenSpace(w: string)
    requires NoSpace(w)
    ensures SplitSpace(w + " ") == [w, ""]
  {
    JoinCons(w, [""]);
    assert [w] + [""] == [w, ""];
    assert w + " " + "" == w + " ";
    SplitJoin([w, ""]);
  }

  /** One space followed by a word splits into an empty piece and the word. */
  lemma SpaceThenWord(w: string)
    requires NoSpace(w)
    ensures SplitSpace(" " + w) == ["", w]
  {
    JoinCons("", [w]);
    assert [""] + [w] == ["", w];
    assert "" + " " + w == " " + w;
    SplitJoin(["", w]);
  }

  /** The pieces of three parts, one part after another. */
  lemma SplitLinesThree(x: string, y: string, z: string)
    ensures SplitLines([x, y, z]) == SplitSpace(x) + SplitSpace(y) + SplitSpace(z)
  {
    var xs, ys, zs := SplitSpace(x), SplitSpace(y), SplitSpace(z);
    assert SplitAll([x, y, z]) == [xs, ys] + [zs];
    ConcatAppend([xs, ys], [zs]);
    assert [xs, ys] == [xs] + [ys];
    ConcatAppend([xs], [ys]);
    ConcatOne(xs);
    ConcatOne(ys);
    ConcatOne(zs);
  }

  /**
   * As written, a donor that ends in a space loses a word. Its last piece
   * under `split(" ")` is empty, so the front score is small, and cutting
   * `[:-0]` (line 215) empties the whole donor: "bbb" is gone, and only an
   * extra space reaches the next part.
   */
  lemma StepLosesWordAsWritten()
    ensures Step(["a", "bbb ", "c"], 1) == ["a", "", " c"]
    ensures SplitLines(["a", "bbb ", "c"]) == ["a", "bbb", "", "c"]
    ensures SplitLines(Step(["a", "bbb ", "c"], 1)) == ["a", "", "", "c"]
  {
    ExampleStep();
    ExampleLines();
  }

  /** The pieces of the parts in `StepLosesWordAsWritten`. */
  lemma ExamplePieces()
    ensures SplitSpace("bbb ") == ["bbb", ""] && SplitSpace(" c") == ["", "c"]
    ensures SplitSpace("a") == ["a"] && SplitSpace("c") == ["c"] && SplitSpace("") == [""]
  {
    assert "bbb " == "bbb" + " " && " c" == " " + "c";
    WordThenSpace("bbb");
    SpaceThenWord("c");
    SplitSpaceWord("a");
    SplitSpaceWord("c");
  }

  /** A front move whose donor's last piece is empty wipes the donor and only adds a space to the next part. */
  lemma FrontEmptiesDonor(ps: seq<string>, h: nat)
    requires h + 1 < |ps| && LastWord(ps[h]) == "" && FrontScore(ps, h) != 0 && BackScore(ps, h) == 0
    ensures Step(ps, h) == ps[h := ""][h + 1 := " " + ps[h + 1]]
  {
    StepFront(ps, h);
    assert CutLast(ps[h], 0) == "" && Strip("") == "";
    assert "" + " " + ps[h + 1] == " " + ps[h + 1];
  }

  lemma ExampleScores()
    ensures LastWord("bbb ") == "" && FirstWord("bbb ") == "bbb"
    ensures BackScore(["a", "bbb ", "c"], 1) == 0 && FrontScore(["a", "bbb ", "c"], 1) == 2
  {
    ExamplePieces();
  }

  lemma ExampleStep()
    ensures Step(["a", "bbb ", "c"], 1) == ["a", "", " c"]
  {
    var ps := ["a", "bbb ", "c"];
    ExampleScores();
    FrontEmptiesDonor(ps, 1);
    assert " " + "c" == " c";
    assert ps[1 := ""][2 := " c"] == ["a", "", " c"];
  }

  lemma ExampleLines()
    ensures SplitLines(["a", "bbb ", "c"]) == ["a", "bbb", "", "c"]
    ensures SplitLines(["a", "", " c"]) == ["a", "", "", "c"]
  {
    ExamplePieces();
    SplitLinesThree("a", "bbb ", "c");
    SplitLinesThree("a", "", " c");
  }

  /**
   * When both neighbours could take a word, the first word always moves back,
   * since line 212 compares `move_word_front_score` with itself.
   */
  lemma BothMovesGoBack(ps: seq<string>, h: nat)
    requires h < |ps| && BackScore(ps, h) != 0 && FrontScore(ps, h) != 0
    ensures Receiver(ps, h) == h - 1 && Mover(ps, h) == FirstWord(ps[h])
    ensures Step(ps, h)[h - 1] == ps[h - 1] + " " + FirstWord(ps[h])
    ensures Step(ps, h)[h + 1] == ps[h + 1]
  {
  }

  /** A move never makes the longest part longer. */
  lemma StepLongest(ps: seq<string>, h: nat)
    requires h < |ps|
    ensures Longest(Step(ps, h)) <= Longest(ps)
  {
    if Moves(ps, h) {
      StepShape(ps, h);
      LongestAtMost(Step(ps, h), Longest(ps));
    }
  }

  // ---------------------------------------------------------------------------
  // The sum of squared lengths
  // ---------------------------------------------------------------------------

  function Sq(n: nat): nat
  {
    n * n
  }

  /** The sum of the squares of the part lengths. */
  function Potential(ps: seq<string>): nat
  {
    if ps == [] then 0 else Sq(|ps[0]|) + Potential(ps[1..])
  }

  /** Replacing one part changes the sum by the difference of the squares. */
  lemma {:induction false} PotentialUpdate(ps: seq<string>, i: nat, x: string)
    requires i < |ps|
    ensures Potential(ps[i := x]) + Sq(|ps[i]|) == Potential(ps) + Sq(|x|)
  {
    if i == 0 {
      assert ps[i := x][1..] == ps[1..];
    } else {
      PotentialUpdate(ps[1..], i - 1, x);
      assert ps[i := x][1..] == ps[1..][i - 1 := x];
    }
  }

  /**
   * Moving `d` characters from a part of length `big` to a part that stays
   * shorter than `big` brings the two lengths closer, so their squares sum to less.
   */
  lemma SpreadLess(big: nat, small: nat, donor: nat, d: nat)
    requires 1 <= d && donor + d <= big && small + d < big
    ensures Sq(donor) + Sq(small + d) < Sq(big) + Sq(small)
  {
    var a := big - d;
    assert donor * donor <= a * a by {
      assert donor * donor <= donor * a;
      assert donor * a <= a * a;
    }
    assert a * a + (small + d) * (small + d) == big * big + small * small - 2 * d * (big - small - d);
    assert d * (big - small - d) > 0;
  }

  /**
   * Moving `d >= 1` characters' worth from part `h` to part `j`, where part `j`
   * stays shorter than part `h` was, lowers the sum of squared lengths.
   */
  lemma MovePotential(ps: seq<string>, r: seq<string>, h: nat, j: nat, d: nat)
    requires |r| == |ps| && h < |ps| && j < |ps| && h != j && 1 <= d
    requires |r[h]| + d <= |ps[h]| && |r[j]| == |ps[j]| + d < |ps[h]|
    requires forall i :: 0 <= i < |ps| && i != h && i != j ==> r[i] == ps[i]
    ensures Potential(r) < Potential(ps)
  {
    var mid := ps[h := r[h]];
    TwoUpdates(ps, r, h, j);
    PotentialUpdate(ps, h, r[h]);
    PotentialUpdate(mid, j, r[j]);
    SpreadLess(|ps[h]|, |ps[j]|, |r[h]|, d);
  }

  /** A sequence that differs from `ps` only at `h` and `j` is `ps` with those two elements replaced. */
  lemma TwoUpdates<T>(ps: seq<T>, r: seq<T>, h: nat, j: nat)
    requires |r| == |ps| && h < |ps| && j < |ps| && h != j
    requires forall i :: 0 <= i < |ps| && i != h && i != j ==> r[i] == ps[i]
    ensures r == ps[h := r[h]][j := r[j]]
  {
  }

  /** Every move lowers the sum of squared lengths. */
  lemma StepPotential(ps: seq<string>, h: nat)
    requires h < |ps| && Moves(ps, h)
    ensures Potential(Step(ps, h)) < Potential(ps)
  {
    StepShape(ps, h);
    MovePotential(ps, Step(ps, h), h, Receiver(ps, h), |Mover(ps, h)| + 1);
  }

  // ---------------------------------------------------------------------------
  // Words
  // ---------------------------------------------------------------------------

  /** A part made of words joined by single spaces. */
  predicate TidyPart(p: string)
  {
    Words(SplitSpace(p))
  }

  predicate Tidy(ps: seq<string>)
  {
    forall i :: 0 <= i < |ps| ==> TidyPart(ps[i])
  }

  /** A donor must hold at least two words: a one-word part cannot shrink below its own length. */
  lemma DonorHasTwoWords(ps: seq<string>, h: nat)
    requires h < |ps| && Moves(ps, h)
    ensures |SplitSpace(ps[h])| >= 2
  {
    JoinSplit(ps[h]);
  }

  /** Moving the last word to the front of the next part keeps the words and their order. */
  lemma FrontWords(p: string, q: string)
    requires TidyPart(p) && TidyPart(q) && |SplitSpace(p)| >= 2
    ensures var last := LastWord(p);
      var a, b := Strip(CutLast(p, |last|)), last + " " + q;
      TidyPart(a) && TidyPart(b) && SplitSpace(a) + SplitSpace(b) == SplitSpace(p) + SplitSpace(q)
  {
    var ws, qs := SplitSpace(p), SplitSpace(q);
    var last, init := LastWord(p), ws[..|ws| - 1];
    FrontDonor(p);
    FrontReceiver(p, q);
    InitLast(ws);
    Regroup(init, [last], qs);
  }

  /** The receiver of a move to the front gains the last word as its first. */
  lemma FrontReceiver(p: string, q: string)
    requires TidyPart(p) && TidyPart(q)
    ensures var last := LastWord(p);
      SplitSpace(last + " " + q) == [last] + SplitSpace(q) && TidyPart(last + " " + q)
  {
    var ws, qs := SplitSpace(p), SplitSpace(q);
    var last := ws[|ws| - 1];
    SplitSpacePrepend(last, q);
    WordsSlice(ws, |ws| - 1, |ws|);
    assert ws[|ws| - 1..|ws|] == [last];
    WordsAppend([last], qs);
  }

  /** Cutting the last word off joined words and stripping leaves the join of the other words. */
  lemma CutLastWord(ws: seq<string>)
    requires |ws| >= 2 && Words(ws)
    ensures var init := ws[..|ws| - 1];
      Words(init) && Strip(CutLast(Join(ws), |ws[|ws| - 1]|)) == Join(init) && SplitSpace(Join(init)) == init
  {
    var init := ws[..|ws| - 1];
    var last := ws[|ws| - 1];
    WordsSlice(ws, 0, |ws| - 1);
    assert ws[0..|ws| - 1] == init;
    JoinInitLast(ws);
    JoinedWords(init);
    var a := Join(init) + " ";
    assert Join(ws) == a + last;
    assert last != [];
    assert CutLast(Join(ws), |last|) == a;
  }

  /** The donor of a move to the front keeps all its words but the last. */
  lemma FrontDonor(p: string)
    requires TidyPart(p) && |SplitSpace(p)| >= 2
    ensures var ws := SplitSpace(p);
      var a := Strip(CutLast(p, |LastWord(p)|));
      Words(ws[..|ws| - 1]) && SplitSpace(a) == ws[..|ws| - 1]
  {
    var ws := SplitSpace(p);
    JoinSplit(p);
    CutLastWord(ws);
  }

  /** Moving the first word to the end of the previous part keeps the words and their order. */
  lemma BackWords(q: string, p: string)
    requires TidyPart(q) && TidyPart(p) && |SplitSpace(p)| >= 2
    ensures var first := FirstWord(p);
      var a, b := q + " " + first, Strip(DropFirst(p, |first|));
      TidyPart(a) && TidyPart(b) && SplitSpace(a) + SplitSpace(b) == SplitSpace(q) + SplitSpace(p)
  {
    BackDonor(p);
    BackReceiver(q, p);
    var ws, qs := SplitSpace(p), SplitSpace(q);
    FirstRest(ws);
    Regroup(qs, [ws[0]], ws[1..]);
  }

  /** The receiver of a move back gains the first word as its last. */
  lemma BackReceiver(q: string, p: string)
    requires TidyPart(q) && TidyPart(p) && |SplitSpace(p)| >= 2
    ensures var first := FirstWord(p);
      SplitSpace(q + " " + first) == SplitSpace(q) + [first] && TidyPart(q + " " + first)
  {
    var ws, qs := SplitSpace(p), SplitSpace(q);
    var first := ws[0];
    SplitSpaceAppend(q, first);
    WordsSlice(ws, 0, 1);
    assert ws[0..1] == [first];
    WordsAppend(qs, [first]);
  }

  /** Cutting the first word off joined words and stripping leaves the join of the other words. */
  lemma DropFirstWord(ws: seq<string>)
    requires |ws| >= 2 && Words(ws)
    ensures var rest := ws[1..];
      Words(rest) && Strip(DropFirst(Join(ws), |ws[0]|)) == Join(rest) && SplitSpace(Join(rest)) == rest
  {
    var rest := ws[1..];
    var first := ws[0];
    WordsSlice(ws, 1, |ws|);
    assert ws[1..|ws|] == rest;
    JoinedWords(rest);
    var b := " " + Join(rest);
    JoinFirstRest(ws);
    assert Join(ws) == first + b;
    assert DropFirst(Join(ws), |first|) == b;
  }

  /** The donor of a move back keeps all its words but the first. */
  lemma BackDonor(p: string)
    requires TidyPart(p) && |SplitSpace(p)| >= 2
    ensures var ws := SplitSpace(p);
      var b := Strip(DropFirst(p, |FirstWord(p)|));
      Words(ws[1..]) && SplitSpace(b) == ws[1..]
  {
    var ws := SplitSpace(p);
    JoinSplit(p);
    DropFirstWord(ws);
  }

  /** Replacing two neighbouring tidy parts by tidy parts holding the same words keeps every word. */
  lemma PairKeepsWords(ps: seq<string>, i: nat, x: string, y: string)
    requires i + 1 < |ps| && Tidy(ps) && TidyPart(x) && TidyPart(y)
    requires SplitSpace(x) + SplitSpace(y) == SplitSpace(ps[i]) + SplitSpace(ps[i + 1])
    ensures Tidy(ps[i := x][i + 1 := y]) && SplitLines(ps[i := x][i + 1 := y]) == SplitLines(ps)
  {
    SplitLinesAdjacent(ps, i, x, y);
    var r := ps[i := x][i + 1 := y];
    forall k | 0 <= k < |r|
      ensures TidyPart(r[k])
    {
      if k != i && k != i + 1 {
        assert r[k] == ps[k];
      }
    }
  }

  /** A move to the front on tidy parts keeps them tidy and keeps every word. */
  lemma FrontKeepsWords(ps: seq<string>, h: nat)
    requires h + 1 < |ps| && Tidy(ps) && |SplitSpace(ps[h])| >= 2
    ensures var last := LastWord(ps[h]);
      var r := ps[h := Strip(CutLast(ps[h], |last|))][h + 1 := last + " " + ps[h + 1]];
      Tidy(r) && SplitLines(r) == SplitLines(ps)
  {
    var last := LastWord(ps[h]);
    FrontWords(ps[h], ps[h + 1]);
    PairKeepsWords(ps, h, Strip(CutLast(ps[h], |last|)), last + " " + ps[h + 1]);
  }

  /** A move back on tidy parts keeps them tidy and keeps every word. */
  lemma BackKeepsWords(ps: seq<string>, h: nat)
    requires 0 < h < |ps| && Tidy(ps) && |SplitSpace(ps[h])| >= 2
    ensures var first := FirstWord(ps[h]);
      var r := ps[h := Strip(DropFirst(ps[h], |first|))][h - 1 := ps[h - 1] + " " + first];
      Tidy(r) && SplitLines(r) == SplitLines(ps)
  {
    var first := FirstWord(ps[h]);
    var a, b := ps[h - 1] + " " + first, Strip(DropFirst(ps[h], |first|));
    BackWords(ps[h - 1], ps[h]);
    assert ps[h := b][h - 1 := a] == ps[h - 1 := a][h := b];
    PairKeepsWords(ps, h - 1, a, b);
  }

  /** On tidy parts a move keeps them tidy and keeps every word, in order. */
  lemma StepKeepsWords(ps: seq<string>, h: nat)
    requires h < |ps| && Tidy(ps)
    ensures Tidy(Step(ps, h)) && SplitLines(Step(ps, h)) == SplitLines(ps)
  {
    if Moves(ps, h) {
      DonorHasTwoWords(ps, h);
      if Choose(BackScore(ps, h), FrontScore(ps, h)) == Front {
        StepFront(ps, h);
        FrontKeepsWords(ps, h);
      } else {
        StepBack(ps, h);
        BackKeepsWords(ps, h);
      }
    }
  }

  // ---------------------------------------------------------------------------
  // One call
  // ---------------------------------------------------------------------------

  /** Every part is at most `m` long. */
  predicate Within(ps: seq<string>, m: int)
  {
    forall i :: 0 <= i < |ps| ==> |ps[i]| <= m
  }

  /** A move keeps every part within a bound that held before. */
  lemma StepWithin(ps: seq<string>, h: nat, m: int)
    requires h < |ps| && Within(ps, m)
    ensures Within(Step(ps, h), m)
  {
    if Moves(ps, h) {
      StepShape(ps, h);
    }
  }

  lemma {:induction false} PassWithin(ps: seq<string>, hs: seq<int>, k: nat, m: int)
    requires k <= |hs| && InRange(hs, |ps|) && Within(ps, m)
    ensures Within(PassUpTo(ps, hs, k), m)
  {
    if k == 0 {
      assert PassUpTo(ps, hs, 0) == ps;
    } else {
      PassWithin(ps, hs, k - 1, m);
      StepWithin(PassUpTo(ps, hs, k - 1), hs[k - 1], m);
    }
  }

  /** One more iteration of the pass keeps tidy parts tidy and keeps their words. */
  lemma PassStepKeepsWords(ps: seq<string>, hs: seq<int>, k: nat)
    requires 0 < k <= |hs| && InRange(hs, |ps|) && Tidy(PassUpTo(ps, hs, k - 1))
    ensures Tidy(PassUpTo(ps, hs, k)) && SplitLines(PassUpTo(ps, hs, k)) == SplitLines(PassUpTo(ps, hs, k - 1))
  {
    var prev := PassUpTo(ps, hs, k - 1);
    StepKeepsWords(prev, hs[k - 1]);
    assert PassUpTo(ps, hs, k) == Step(prev, hs[k - 1]);
  }

  lemma {:induction false} PassTidy(ps: seq<string>, hs: seq<int>, k: nat)
    requires k <= |hs| && InRange(hs, |ps|) && Tidy(ps)
    ensures Tidy(PassUpTo(ps, hs, k))
  {
    if k == 0 {
      assert PassUpTo(ps, hs, 0) == ps;
    } else {
      PassTidy(ps, hs, k - 1);
      PassStepKeepsWords(ps, hs, k);
    }
  }

  /** Every iteration of the pass on tidy parts keeps the words of the parts before it. */
  lemma PassStepWords(ps: seq<string>, hs: seq<int>, k: nat)
    requires 0 < k <= |hs| && InRange(hs, |ps|) && Tidy(ps)
    ensures SplitLines(PassUpTo(ps, hs, k)) == SplitLines(PassUpTo(ps, hs, k - 1))
  {
    PassTidy(ps, hs, k - 1);
    PassStepKeepsWords(ps, hs, k);
  }

  lemma {:induction false} PassKeepsWords(ps: seq<string>, hs: seq<int>, k: nat)
    requires k <= |hs| && InRange(hs, |ps|) && Tidy(ps)
    ensures SplitLines(PassUpTo(ps, hs, k)) == SplitLines(ps)
  {
    if k == 0 {
      assert PassUpTo(ps, hs, 0) == ps;
    } else {
      PassKeepsWords(ps, hs, k - 1);
      PassStepWords(ps, hs, k);
    }
  }

  lemma {:induction false} PassProgress(ps: seq<string>, hs: seq<int>, k: nat)
    requires k <= |hs| && InRange(hs, |ps|)
    ensures MovedUpTo(ps, hs, k) ==> Potential(PassUpTo(ps, hs, k)) < Potential(ps)
    ensures !MovedUpTo(ps, hs, k) ==> PassUpTo(ps, hs, k) == ps
  {
    if k > 0 {
      PassProgress(ps, hs, k - 1);
      var mid := PassUpTo(ps, hs, k - 1);
      if Moves(mid, hs[k - 1]) {
        StepPotential(mid, hs[k - 1]);
      }
    }
  }

  /** One call keeps the number of parts and never makes the longest part longer. */
  lemma RebalanceLongest(ps: seq<string>)
    requires ps != []
    ensures |Rebalanced(ps)| == |ps| && Longest(Rebalanced(ps)) <= Longest(ps)
  {
    OrderInRange(ps);
    PassWithin(ps, Order(ps), |Order(ps)|, Longest(ps));
    LongestAtMost(Rebalanced(ps), Longest(ps));
  }

  /** On parts made of single-spaced words, one call keeps every word in order, and no part is emptied. */
  lemma RebalanceKeepsWords(ps: seq<string>)
    requires ps != [] && Tidy(ps)
    ensures Tidy(Rebalanced(ps)) && SplitLines(Rebalanced(ps)) == SplitLines(ps)
  {
    OrderInRange(ps);
    PassTidy(ps, Order(ps), |Order(ps)|);
    PassKeepsWords(ps, Order(ps), |Order(ps)|);
  }

  /**
   * The call returns True exactly when it moved a word, and then the sum of
   * the squared lengths has dropped.
   */
  lemma RebalanceProgress(ps: seq<string>)
    requires ps != []
    ensures Improved(ps) <==> Rebalanced(ps) != ps
    ensures Improved(ps) ==> Potential(Rebalanced(ps)) < Potential(ps)
  {
    OrderInRange(ps);
    PassProgress(ps, Order(ps), |Order(ps)|);
  }

  /**
   * `while SentenceSplitter.decreaseLargeStringParts(part): pass` (lines
   * 20-23): it stops, since every call that returns True lowers the sum of
   * the squared lengths, and it leaves parts no call can change.
   */
  method Settle(parts: array<string>) returns (r: Result<()>)
    modifies parts
    ensures parts.Length == 0 ==> r == Raise(IndexError)
    ensures parts.Length > 0 ==> r == Ok(()) && !Improved(parts[..]) && Rebalanced(parts[..]) == parts[..]
    ensures Longest(parts[..]) <= Longest(old(parts[..]))
    ensures Tidy(old(parts[..])) ==> Tidy(parts[..]) && SplitLines(parts[..]) == SplitLines(old(parts[..]))
  {
    while true
      invariant Longest(parts[..]) <= Longest(old(parts[..]))
      invariant Tidy(old(parts[..])) ==> Tidy(parts[..]) && SplitLines(parts[..]) == SplitLines(old(parts[..]))
      decreases Potential(parts[..])
    {
      ghost var before := parts[..];
      var improved := DecreaseLargeStringParts(parts);
      if improved.Raise? {
        return Raise(improved.exc);
      }
      RebalanceLongest(before);
      RebalanceProgress(before);
      if Tidy(before) {
        RebalanceKeepsWords(before);
      }
      if !improved.value {
        return Ok(());
      }
    }
  }
}
