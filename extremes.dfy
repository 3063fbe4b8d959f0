/**
 * SentenceSplitter._calcLengths, _getIndexesHighestValueInList and
 * _getIndexesLowestValueInList (SentenceSplitter.py:140-174): the line
 * lengths of a split and the positions of its longest and shortest lines.
 */
module Extremes {

  /** `_calcLengths` (lines 172-174): the length of every part, in order. */
  function Lengths(parts: seq<string>): (r: seq<int>)
    ensures |r| == |parts|
    ensures forall i :: 0 <= i < |parts| ==> r[i] == |parts[i]|
  {
    seq(|parts|, i requires 0 <= i < |parts| => |parts[i]|)
  }

  /** Strictly ascending. */
  predicate Ascending(s: seq<int>)
  {
    forall i, j :: 0 <= i < j < |s| ==> s[i] < s[j]
  }

  /** The indices below `n` at which `data` holds `v`, in ascending order. */
  function IndicesOf(data: seq<int>, v: int, n: nat): (r: seq<int>)
    requires n <= |data|
    ensures Ascending(r)
    ensures forall k :: 0 <= k < |r| ==> 0 <= r[k] < n && data[r[k]] == v
    ensures forall i :: 0 <= i < n && data[i] == v ==> i in r
  {
    if n == 0 then []
    else IndicesOf(data, v, n - 1) + (if data[n - 1] == v then [n - 1] else [])
  }

  /** A value that no element equals has no indices. */
  lemma {:induction false} IndicesOfAbsent(data: seq<int>, v: int, n: nat)
    requires n <= |data| && forall i :: 0 <= i < n ==> data[i] != v
    ensures IndicesOf(data, v, n) == []
  {
    if n > 0 {
      IndicesOfAbsent(data, v, n - 1);
    }
  }

  // ---------------------------------------------------------------------------
  // _getIndexesHighestValueInList (lines 140-154)
  // ---------------------------------------------------------------------------

  /**
   * The Python variable that holds either one index or, after the first tie,
   * a list of indices (lines 149-151 turn the int into a list).
   */
  datatype Indexes = Single(index: int) | Many(list: seq<int>)

  /** The list a variable of either form is returned as (lines 152-154, 168-170). */
  function AsList(x: Indexes): seq<int>
  {
    match x
    case Single(i) => [i]
    case Many(l) => l
  }

  /** The largest of 0 and the first `n` elements: `highest_value` starts at 0 (line 143). */
  function Peak(data: seq<int>, n: nat): (m: int)
    requires n <= |data|
    ensures m >= 0
    ensures forall i :: 0 <= i < n ==> data[i] <= m
    ensures m == 0 || exists i :: 0 <= i < n && data[i] == m
  {
    if n == 0 then 0
    else if data[n - 1] > Peak(data, n - 1) then data[n - 1]
    else Peak(data, n - 1)
  }

  /**
   * What the helper returns for the first `n` elements: the indices of a
   * positive maximum; when no element is positive, index 0 (the initial
   * `highest_index`) followed by every index holding 0.
   */
  function Highest(data: seq<int>, n: nat): seq<int>
    requires n <= |data|
  {
    var m := Peak(data, n);
    if m > 0 then IndicesOf(data, m, n) else [0] + IndicesOf(data, 0, n)
  }

  /** With a positive maximum, the result is exactly the indices holding it, ascending. */
  lemma HighestPositive(data: seq<int>)
    requires exists i :: 0 <= i < |data| && data[i] > 0
    ensures var r := Highest(data, |data|);
      r != [] && Ascending(r)
      && forall i :: 0 <= i < |data| ==> (i in r <==> forall j :: 0 <= j < |data| ==> data[j] <= data[i])
  {
    var m := Peak(data, |data|);
    var r := Highest(data, |data|);
    var w :| 0 <= w < |data| && data[w] > 0;
    assert m > 0;
    assert w in r || data[w] != m;
  }

  /** A list of zeros yields index 0 twice: once as the initial index, once as a tie. */
  lemma HighestAllZero(data: seq<int>)
    requires data != [] && forall i :: 0 <= i < |data| ==> data[i] == 0
    ensures Highest(data, |data|) == [0] + seq(|data|, i => i)
    ensures Highest(data, |data|)[0] == 0 == Highest(data, |data|)[1]
  {
    ZerosIndices(data, |data|);
  }

  lemma {:induction false} ZerosIndices(data: seq<int>, n: nat)
    requires n <= |data| && forall i :: 0 <= i < |data| ==> data[i] == 0
    ensures Peak(data, n) == 0
    ensures IndicesOf(data, 0, n) == seq(n, i => i)
  {
    if n > 0 {
      ZerosIndices(data, n - 1);
    }
  }

  /** Without a positive element the result starts with index 0, whatever `data[0]` holds. */
  lemma HighestNonPositive(data: seq<int>)
    requires forall i :: 0 <= i < |data| ==> data[i] <= 0
    ensures var r := Highest(data, |data|);
      r != [] && r[0] == 0 && forall i :: 0 <= i < |data| ==> (i in r[1..] <==> data[i] == 0)
  {
    var r := Highest(data, |data|);
    assert Peak(data, |data|) == 0;
    assert r[1..] == IndicesOf(data, 0, |data|);
  }

  /** Every index returned is non-negative, and within the list when the list is not empty. */
  lemma HighestInRange(data: seq<int>)
    ensures var r := Highest(data, |data|);
      r != [] && forall k :: 0 <= k < |r| ==> 0 <= r[k] && (data != [] ==> r[k] < |data|)
  {
    var m := Peak(data, |data|);
    var r := Highest(data, |data|);
    if m > 0 {
      var w :| 0 <= w < |data| && data[w] == m;
      assert w in IndicesOf(data, m, |data|);
    } else {
      var rest := IndicesOf(data, 0, |data|);
      assert r == [0] + rest;
      forall k | 0 <= k < |r|
        ensures 0 <= r[k] && (data != [] ==> r[k] < |data|)
      {
        if k > 0 {
          assert r[k] == rest[k - 1];
        }
      }
    }
  }

  /** The largest length: the longest part, or 0 for no parts. */
  function Longest(parts: seq<string>): (m: int)
    ensures m >= 0 && forall i :: 0 <= i < |parts| ==> |parts[i]| <= m
  {
    Peak(Lengths(parts), |parts|)
  }

  /** A bound on every length bounds the longest. */
  lemma LongestAtMost(parts: seq<string>, m: int)
    requires m >= 0 && forall i :: 0 <= i < |parts| ==> |parts[i]| <= m
    ensures Longest(parts) <= m
  {
    var data := Lengths(parts);
    var p := Peak(data, |parts|);
    if p != 0 {
      var i :| 0 <= i < |parts| && data[i] == p;
    }
  }

  /** How one more element changes the result: a new maximum restarts it, a tie extends it, a smaller value leaves it. */
  lemma HighestStep(data: seq<int>, i: nat)
    requires i < |data|
    ensures Peak(data, i + 1) == if data[i] > Peak(data, i) then data[i] else Peak(data, i)
    ensures data[i] > Peak(data, i) ==> Highest(data, i + 1) == [i]
    ensures data[i] == Peak(data, i) ==> Highest(data, i + 1) == Highest(data, i) + [i]
    ensures data[i] < Peak(data, i) ==> Highest(data, i + 1) == Highest(data, i)
  {
    var m := Peak(data, i);
    if data[i] > m {
      IndicesOfAbsent(data, data[i], i);
    } else if data[i] == m && m == 0 {
      assert [0] + (IndicesOf(data, 0, i) + [i]) == ([0] + IndicesOf(data, 0, i)) + [i];
    }
  }

  /** `_getIndexesHighestValueInList`: the loop of lines 144-151. */
  method IndexesHighest(data: seq<int>) returns (r: seq<int>)
    ensures r == Highest(data, |data|)
  {
    var highestIndex := Single(0);
    var highestValue := 0;
    for i := 0 to |data|
      invariant highestValue == Peak(data, i)
      invariant AsList(highestIndex) == Highest(data, i)
    {
      var item := data[i];
      HighestStep(data, i);
      if item > highestValue {
        highestValue := item;
        highestIndex := Single(i);
      } else if item == highestValue {
        highestIndex := Many(AsList(highestIndex) + [i]);
      }
    }
    return AsList(highestIndex);
  }

  // ---------------------------------------------------------------------------
  // _getIndexesLowestValueInList (lines 156-170)
  // ---------------------------------------------------------------------------

  /** `lowest_value`, which starts at `float('inf')` (line 159). */
  datatype Bound = Infinity | Value(v: int)

  /** `item < lowest_value`. */
  predicate Below(item: int, b: Bound)
  {
    b.Infinity? || item < b.v
  }

  /** The smallest of the first `n` elements. */
  function Least(data: seq<int>, n: nat): (m: int)
    requires 0 < n <= |data|
    ensures forall i :: 0 <= i < n ==> m <= data[i]
    ensures exists i :: 0 <= i < n && data[i] == m
  {
    if n == 1 then data[0]
    else if data[n - 1] < Least(data, n - 1) then data[n - 1]
    else Least(data, n - 1)
  }

  /** What the helper returns: [0] for an empty list, else the indices of the minimum. */
  function Lowest(data: seq<int>): seq<int>
  {
    if data == [] then [0] else IndicesOf(data, Least(data, |data|), |data|)
  }

  /** For a non-empty list the result is exactly the indices holding the minimum, ascending. */
  lemma LowestExact(data: seq<int>)
    requires data != []
    ensures var r := Lowest(data);
      r != [] && Ascending(r)
      && forall i :: 0 <= i < |data| ==> (i in r <==> forall j :: 0 <= j < |data| ==> data[i] <= data[j])
  {
    var m := Least(data, |data|);
    var w :| 0 <= w < |data| && data[w] == m;
    assert w in Lowest(data);
  }

  /** How one more element changes the indices of the minimum so far. */
  lemma LowestStep(data: seq<int>, i: nat)
    requires i < |data|
    ensures i == 0 ==> Least(data, 1) == data[0] && IndicesOf(data, data[0], 1) == [0]
    ensures i > 0 ==> Least(data, i + 1) == if data[i] < Least(data, i) then data[i] else Least(data, i)
    ensures i > 0 && data[i] < Least(data, i) ==> IndicesOf(data, Least(data, i + 1), i + 1) == [i]
    ensures i > 0 && data[i] == Least(data, i) ==>
      IndicesOf(data, Least(data, i + 1), i + 1) == IndicesOf(data, Least(data, i), i) + [i]
    ensures i > 0 && data[i] > Least(data, i) ==>
      IndicesOf(data, Least(data, i + 1), i + 1) == IndicesOf(data, Least(data, i), i)
  {
    if i > 0 && data[i] < Least(data, i) {
      IndicesOfAbsent(data, data[i], i);
    }
  }

  /** `_getIndexesLowestValueInList`: the loop of lines 160-167. */
  method IndexesLowest(data: seq<int>) returns (r: seq<int>)
    ensures r == Lowest(data)
  {
    var lowestIndex := Single(0);
    var lowestValue := Infinity;
    for i := 0 to |data|
      invariant i == 0 ==> lowestValue == Infinity && lowestIndex == Single(0)
      invariant i > 0 ==> lowestValue == Value(Least(data, i))
      invariant i > 0 ==> AsList(lowestIndex) == IndicesOf(data, Least(data, i), i)
    {
      var item := data[i];
      LowestStep(data, i);
      if Below(item, lowestValue) {
        lowestValue := Value(item);
        lowestIndex := Single(i);
      } else if lowestValue == Value(item) {
        lowestIndex := Many(AsList(lowestIndex) + [i]);
      }
    }
    return AsList(lowestIndex);
  }
}
