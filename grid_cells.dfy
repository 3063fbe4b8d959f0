/**
 * The letter grid of GridBasedEncryption.py as a value: its row-major
 * flattening, the two decoders (which only read the grid), and the facts that
 * tie the decoders to the cells they read.
 */
module GridCells {
  import opened Outcomes

  /** The letter grid `_grid`: a list of rows, each a list of one-letter strings. */
  type Cells = seq<seq<char>>

  /** A coordinate `(row, col)` as stored in `_locked_fields`. */
  type Coord = (int, int)

  predicate Rectangular(g: Cells, rows: nat, cols: nat)
  {
    |g| == rows && forall r :: 0 <= r < rows ==> |g[r]| == cols
  }

  /** Every locked coordinate lies inside a rows x cols grid. */
  ghost predicate InBounds(locked: set<Coord>, rows: nat, cols: nat)
  {
    forall rc :: rc in locked ==> 0 <= rc.0 < rows && 0 <= rc.1 < cols
  }

  /** Every cell at a coordinate in `locked` holds in `after` what it held in `before`. */
  ghost predicate LockedCellsKept(before: Cells, after: Cells, locked: set<Coord>)
  {
    forall r, c :: (r, c) in locked && 0 <= r < |before| && 0 <= c < |before[r]| ==>
      r < |after| && c < |after[r]| && after[r][c] == before[r][c]
  }

  // ---------------------------------------------------------------------------
  // Row-major flattening (the flat lists of lines 49-53 and 132)
  // ---------------------------------------------------------------------------

  /** The characters of the grid, row after row. */
  function Flatten(g: Cells): seq<char>
  {
    if g == [] then [] else Flatten(g[..|g| - 1]) + g[|g| - 1]
  }

  /** The coordinate at flattened position `p` of a grid with `cols` columns. */
  function FlatCoord(p: int, cols: nat): Coord
    requires cols > 0
  {
    (p / cols, p % cols)
  }

  lemma MulMono(a: int, b: int, m: int)
    requires a <= b && 0 <= m
    ensures a * m <= b * m
  {
    assert b * m - a * m == (b - a) * m;
  }

  lemma DivModUnique(p: int, cols: int, q: int)
    requires cols > 0 && q * cols <= p < q * cols + cols
    ensures p / cols == q && p % cols == p - q * cols
  {
    var d, m := p / cols, p % cols;
    assert p == d * cols + m && 0 <= m < cols;
    assert (d + 1) * cols == d * cols + cols;
    assert (q + 1) * cols == q * cols + cols;
    if d < q {
      MulMono(d + 1, q, cols);
    } else if d > q {
      MulMono(q + 1, d, cols);
    }
  }

  /** Two flattened positions with the same coordinate are the same position. */
  lemma FlatCoordInjective(p: int, q: int, cols: nat)
    requires cols > 0 && FlatCoord(p, cols) == FlatCoord(q, cols)
    ensures p == q
  {
  }

  /** A non-negative position whose row is inside the grid is inside the flattening. */
  lemma FlatCoordRowBound(p: int, rows: nat, cols: nat)
    requires cols > 0 && 0 <= p && p / cols < rows
    ensures p < rows * cols
  {
    MulMono(p / cols + 1, rows, cols);
    assert (p / cols + 1) * cols == (p / cols) * cols + cols;
  }

  lemma {:induction false} FlattenLength(g: Cells, rows: nat, cols: nat)
    requires Rectangular(g, rows, cols)
    ensures |Flatten(g)| == rows * cols
  {
    if rows > 0 {
      FlattenLength(g[..rows - 1], rows - 1, cols);
      assert (rows - 1) * cols + cols == rows * cols;
    }
  }

  /** Position `p` of the flattening is the cell at coordinate FlatCoord(p). */
  lemma {:induction false} FlattenAt(g: Cells, rows: nat, cols: nat, p: int)
    requires Rectangular(g, rows, cols) && 0 <= p < rows * cols
    ensures cols > 0 && 0 <= p / cols < rows && 0 <= p % cols < cols
    ensures |Flatten(g)| == rows * cols && Flatten(g)[p] == g[p / cols][p % cols]
  {
    FlattenLength(g, rows, cols);
    var front := g[..rows - 1];
    assert Rectangular(front, rows - 1, cols);
    FlattenLength(front, rows - 1, cols);
    assert Flatten(g) == Flatten(front) + g[rows - 1];
    if p < (rows - 1) * cols {
      FlattenAt(front, rows - 1, cols, p);
    } else {
      assert (rows - 1) * cols + cols == rows * cols;
      DivModUnique(p, cols, rows - 1);
    }
  }

  /** The letter at flattened position `p` (a space off the grid); by FlattenAt it is the cell at coordinate FlatCoord(p). */
  function CellAt(g: Cells, p: int): char
  {
    var flat := Flatten(g);
    if 0 <= p < |flat| then flat[p] else ' '
  }

  /** The grid with the cell at flattened position `p` set to `x` (line 85); unchanged off the grid. */
  function WriteAt(g: Cells, p: int, cols: nat, x: char): Cells
  {
    if cols > 0 && 0 <= p && p / cols < |g| && p % cols < |g[p / cols]|
    then g[p / cols := g[p / cols][p % cols := x]]
    else g
  }

  /** Writing the cell at flattened position `p` changes the letter at `p` and at no other position or coordinate. */
  lemma CellAtWrite(g: Cells, rows: nat, cols: nat, p: int, x: char)
    requires Rectangular(g, rows, cols) && 0 <= p < rows * cols
    ensures cols > 0 && Rectangular(WriteAt(g, p, cols, x), rows, cols)
    ensures CellAt(WriteAt(g, p, cols, x), p) == x
    ensures forall q :: 0 <= q < rows * cols && q != p ==> CellAt(WriteAt(g, p, cols, x), q) == CellAt(g, q)
    ensures forall r, c :: 0 <= r < rows && 0 <= c < cols && WriteAt(g, p, cols, x)[r][c] != g[r][c] ==>
      (r, c) == FlatCoord(p, cols)
  {
    FlattenAt(g, rows, cols, p);
    var h := WriteAt(g, p, cols, x);
    assert Rectangular(h, rows, cols);
    FlattenAt(h, rows, cols, p);
    forall q | 0 <= q < rows * cols && q != p
      ensures CellAt(h, q) == CellAt(g, q)
    {
      FlattenAt(g, rows, cols, q);
      FlattenAt(h, rows, cols, q);
      if FlatCoord(q, cols) == FlatCoord(p, cols) {
        FlatCoordInjective(q, p, cols);
      }
    }
  }

  // ---------------------------------------------------------------------------
  // decodeRowMethod (lines 115-124)
  // ---------------------------------------------------------------------------

  /**
   * Entry `key[r]` belongs to row `r`; a positive entry `v` reads column `v - 1`
   * of that row, any other entry reads nothing. Indexing outside the grid
   * raises IndexError, which aborts the whole call.
   */
  function DecodeRowMethod(g: Cells, key: seq<int>): Result<string>
  {
    DecodeRowPrefix(g, key, |key|)
  }

  /** The decoder run over the first `n` entries of the key. */
  function DecodeRowPrefix(g: Cells, key: seq<int>, n: nat): Result<string>
    requires n <= |key|
  {
    if n == 0 then Ok([])
    else
      var r := n - 1;
      match DecodeRowPrefix(g, key, r)
      case Raise(e) => Raise(e)
      case Ok(m) =>
        if key[r] <= 0 then Ok(m)
        else if r < |g| && key[r] - 1 < |g[r]| then Ok(m + [g[r][key[r] - 1]])
        else Raise(IndexError)
  }

  /** The number of positive entries of a key: the letters a row key selects. */
  function CountPositive(key: seq<int>): nat
  {
    CountPositiveAt(key, |key|)
  }

  /** The number of positive entries among the first `n`. */
  function CountPositiveAt(key: seq<int>, n: nat): nat
    requires n <= |key|
  {
    if n == 0 then 0 else CountPositiveAt(key, n - 1) + (if key[n - 1] > 0 then 1 else 0)
  }

  /** Appending an entry leaves the decoding and the count of every prefix of the old key as it was. */
  lemma {:induction false} RowPrefixSnoc(g: Cells, key: seq<int>, v: int, n: nat)
    requires n <= |key|
    ensures DecodeRowPrefix(g, key + [v], n) == DecodeRowPrefix(g, key, n)
    ensures CountPositiveAt(key + [v], n) == CountPositiveAt(key, n)
  {
    if n > 0 {
      RowPrefixSnoc(g, key, v, n - 1);
      assert (key + [v])[n - 1] == key[n - 1];
    }
  }

  /** Every positive entry of a row key names a cell of the grid. */
  predicate RowKeyInGrid(g: Cells, key: seq<int>)
  {
    forall r :: 0 <= r < |key| && key[r] > 0 ==> r < |g| && key[r] - 1 < |g[r]|
  }

  /** The coordinates a row key reads. */
  function RowKeyCells(key: seq<int>): set<Coord>
  {
    set r | 0 <= r < |key| && key[r] > 0 :: (r, key[r] - 1)
  }

  /** Appending an entry to a row key adds at most the one cell of the next row. */
  lemma RowKeyCellsSnoc(key: seq<int>, v: int)
    ensures RowKeyCells(key + [v]) == RowKeyCells(key) + (if v > 0 then {(|key|, v - 1)} else {})
  {
    var k' := key + [v];
    forall rc | rc in RowKeyCells(k')
      ensures rc in RowKeyCells(key) + (if v > 0 then {(|key|, v - 1)} else {})
    {
      var r :| 0 <= r < |k'| && k'[r] > 0 && rc == (r, k'[r] - 1);
      if r < |key| {
        assert rc in RowKeyCells(key);
      }
    }
    forall rc | rc in RowKeyCells(key)
      ensures rc in RowKeyCells(k')
    {
      var r :| 0 <= r < |key| && key[r] > 0 && rc == (r, key[r] - 1);
      assert k'[r] == key[r];
    }
    if v > 0 {
      assert k'[|key|] == v;
      assert (|key|, v - 1) in RowKeyCells(k');
    }
  }

  /** Every cell a row key reads is locked. */
  ghost predicate RowKeyLocked(locked: set<Coord>, key: seq<int>)
  {
    forall r :: 0 <= r < |key| && key[r] > 0 ==> (r, key[r] - 1) in locked
  }

  /** Decoding succeeds exactly when every positive entry is inside the grid, and then yields one letter per positive entry. */
  lemma DecodeRowOk(g: Cells, key: seq<int>)
    ensures DecodeRowMethod(g, key).Ok? <==> RowKeyInGrid(g, key)
    ensures DecodeRowMethod(g, key).Ok? ==> |DecodeRowMethod(g, key).value| == CountPositive(key)
  {
    DecodeRowPrefixOk(g, key, |key|);
  }

  lemma {:induction false} DecodeRowPrefixOk(g: Cells, key: seq<int>, n: nat)
    requires n <= |key|
    ensures DecodeRowPrefix(g, key, n).Ok? <==>
      forall r :: 0 <= r < n && key[r] > 0 ==> r < |g| && key[r] - 1 < |g[r]|
    ensures DecodeRowPrefix(g, key, n).Ok? ==> |DecodeRowPrefix(g, key, n).value| == CountPositiveAt(key, n)
  {
    if n > 0 {
      DecodeRowPrefixOk(g, key, n - 1);
    }
  }

  /** Decoding a row key reads only the cells the key names. */
  lemma DecodeRowFrame(g: Cells, h: Cells, key: seq<int>)
    requires |g| == |h| && forall r :: 0 <= r < |g| ==> |g[r]| == |h[r]|
    requires forall r :: 0 <= r < |key| && key[r] > 0 && r < |g| && key[r] - 1 < |g[r]| ==>
      g[r][key[r] - 1] == h[r][key[r] - 1]
    ensures DecodeRowMethod(g, key) == DecodeRowMethod(h, key)
  {
    DecodeRowPrefixFrame(g, h, key, |key|);
  }

  lemma {:induction false} DecodeRowPrefixFrame(g: Cells, h: Cells, key: seq<int>, n: nat)
    requires n <= |key|
    requires |g| == |h| && forall r :: 0 <= r < |g| ==> |g[r]| == |h[r]|
    requires forall r :: 0 <= r < n && key[r] > 0 && r < |g| && key[r] - 1 < |g[r]| ==>
      g[r][key[r] - 1] == h[r][key[r] - 1]
    ensures DecodeRowPrefix(g, key, n) == DecodeRowPrefix(h, key, n)
  {
    if n > 0 {
      DecodeRowPrefixFrame(g, h, key, n - 1);
    }
  }

  /** Appending an entry to a key that decodes to `m` appends the letter it names, or nothing for an entry that is not positive. */
  lemma DecodeRowSnoc(g: Cells, key: seq<int>, v: int, m: string)
    requires DecodeRowMethod(g, key) == Ok(m)
    ensures v <= 0 ==> DecodeRowMethod(g, key + [v]) == Ok(m)
    ensures v > 0 && |key| < |g| && v - 1 < |g[|key|]| ==> DecodeRowMethod(g, key + [v]) == Ok(m + [g[|key|][v - 1]])
  {
    RowPrefixSnoc(g, key, v, |key|);
    assert (key + [v])[|key|] == v;
  }

  /** A row key all of whose cells are locked decodes the same before and after any change that keeps locked cells. */
  lemma RowKeySurvives(before: Cells, after: Cells, rows: nat, cols: nat, locked: set<Coord>, key: seq<int>)
    requires Rectangular(before, rows, cols) && Rectangular(after, rows, cols)
    requires InBounds(locked, rows, cols) && LockedCellsKept(before, after, locked)
    requires RowKeyLocked(locked, key)
    ensures DecodeRowMethod(after, key) == DecodeRowMethod(before, key)
    ensures DecodeRowMethod(before, key).Ok?
  {
    DecodeRowFrame(before, after, key);
    DecodeRowOk(before, key);
  }

  // ---------------------------------------------------------------------------
  // decodeSkipMethod (lines 126-140)
  // ---------------------------------------------------------------------------

  /** The cursor after replaying the first `n` entries of `key`: it starts at -1 and each entry `s` advances it by `s + 1`. */
  function CursorAt(key: seq<int>, n: nat): int
    requires n <= |key|
  {
    if n == 0 then -1 else CursorAt(key, n - 1) + key[n - 1] + 1
  }

  /** The cursor after replaying all of `key`. */
  function Cursor(key: seq<int>): int
  {
    CursorAt(key, |key|)
  }

  /** The flattened positions a skip key reads, in order. */
  function Visited(key: seq<int>): (ps: seq<int>)
    ensures |ps| == |key|
  {
    seq(|key|, k requires 0 <= k < |key| => CursorAt(key, k + 1))
  }

  /** Appending an entry does not move the cursor over the earlier entries. */
  lemma {:induction false} CursorAtSnoc(key: seq<int>, s: int, n: nat)
    requires n <= |key|
    ensures CursorAt(key + [s], n) == CursorAt(key, n)
  {
    if n > 0 {
      CursorAtSnoc(key, s, n - 1);
    }
  }

  /** Python list indexing: negative indices count from the end; anything else outside raises IndexError. */
  function PyIndex(s: seq<char>, i: int): Result<char>
  {
    if 0 <= i < |s| then Ok(s[i])
    else if -|s| <= i < 0 then Ok(s[|s| + i])
    else Raise(IndexError)
  }

  /** The skip decoder over the flattened grid. */
  function DecodeSkipFlat(flat: seq<char>, key: seq<int>): Result<string>
  {
    if key == [] then Ok([])
    else
      match DecodeSkipFlat(flat, key[..|key| - 1])
      case Raise(e) => Raise(e)
      case Ok(m) =>
        match PyIndex(flat, Cursor(key))
        case Raise(e) => Raise(e)
        case Ok(c) => Ok(m + [c])
  }

  /** decodeSkipMethod: replay the cursor over the row-major flattening. */
  function DecodeSkipMethod(g: Cells, key: seq<int>): Result<string>
  {
    DecodeSkipFlat(Flatten(g), key)
  }

  /** The coordinates a skip key reads. */
  function SkipKeyCells(key: seq<int>, cols: nat): set<Coord>
  {
    set k | 0 <= k < |key| && cols > 0 :: FlatCoord(Visited(key)[k], cols)
  }

  /** Appending an entry to a skip key adds the cell at the new cursor. */
  lemma SkipKeyCellsSnoc(key: seq<int>, s: int, cols: nat)
    requires cols > 0
    ensures SkipKeyCells(key + [s], cols) == SkipKeyCells(key, cols) + {FlatCoord(Cursor(key) + s + 1, cols)}
  {
    VisitedSnoc(key, s);
    var k' := key + [s];
    forall rc | rc in SkipKeyCells(k', cols)
      ensures rc in SkipKeyCells(key, cols) + {FlatCoord(Cursor(key) + s + 1, cols)}
    {
      var k :| 0 <= k < |k'| && rc == FlatCoord(Visited(k')[k], cols);
      if k < |key| {
        assert rc == FlatCoord(Visited(key)[k], cols);
      }
    }
    forall rc | rc in SkipKeyCells(key, cols)
      ensures rc in SkipKeyCells(k', cols)
    {
      var k :| 0 <= k < |key| && rc == FlatCoord(Visited(key)[k], cols);
      assert Visited(k')[k] == Visited(key)[k];
    }
    assert Visited(k')[|key|] == Cursor(key) + s + 1;
  }

  /** Every position a skip key reads is non-negative and its cell is locked. */
  ghost predicate SkipKeyLocked(locked: set<Coord>, key: seq<int>, cols: nat)
  {
    forall k :: 0 <= k < |key| ==> cols > 0 && 0 <= Visited(key)[k] && FlatCoord(Visited(key)[k], cols) in locked
  }

  /** Appending an entry appends one position: the old cursor plus the entry plus one. */
  lemma VisitedSnoc(key: seq<int>, s: int)
    ensures Cursor(key + [s]) == Cursor(key) + s + 1
    ensures forall k :: 0 <= k < |key| ==> Visited(key + [s])[k] == Visited(key)[k]
    ensures Visited(key + [s])[|key|] == Cursor(key) + s + 1
  {
    CursorAtSnoc(key, s, |key|);
    forall k | 0 <= k < |key|
      ensures Visited(key + [s])[k] == Visited(key)[k]
    {
      CursorAtSnoc(key, s, k + 1);
    }
  }

  /** With non-negative entries the positions strictly increase from 0, so encoder and decoder walk the same cells in the same order. */
  lemma {:induction false} VisitedIncreasing(key: seq<int>)
    requires forall k :: 0 <= k < |key| ==> key[k] >= 0
    ensures Cursor(key) >= |key| - 1
    ensures forall k :: 0 <= k < |key| ==> k <= Visited(key)[k] <= Cursor(key)
    ensures forall i, j :: 0 <= i < j < |key| ==> Visited(key)[i] < Visited(key)[j]
  {
    if key != [] {
      var front, s := key[..|key| - 1], key[|key| - 1];
      assert key == front + [s];
      VisitedIncreasing(front);
      VisitedSnoc(front, s);
    }
  }

  /** Decoding succeeds exactly when every position read is a valid Python index, and then reads those positions in order. */
  lemma {:induction false} DecodeSkipAt(flat: seq<char>, key: seq<int>)
    ensures DecodeSkipFlat(flat, key).Ok? <==> forall k :: 0 <= k < |key| ==> -|flat| <= Visited(key)[k] < |flat|
    ensures (forall k :: 0 <= k < |key| ==> 0 <= Visited(key)[k] < |flat|) ==>
      DecodeSkipFlat(flat, key).Ok? && |DecodeSkipFlat(flat, key).value| == |key| &&
      forall k :: 0 <= k < |key| ==> DecodeSkipFlat(flat, key).value[k] == flat[Visited(key)[k]]
  {
    if key != [] {
      var front, s := key[..|key| - 1], key[|key| - 1];
      assert key == front + [s];
      DecodeSkipAt(flat, front);
      VisitedSnoc(front, s);
      var vs, vf := Visited(key), Visited(front);
      assert forall k :: 0 <= k < |front| ==> vs[k] == vf[k];
      assert vs[|front|] == Cursor(key);
      if forall k :: 0 <= k < |key| ==> 0 <= vs[k] < |flat| {
        assert forall k :: 0 <= k < |front| ==> 0 <= vf[k] < |flat|;
        var m := DecodeSkipFlat(flat, front).value;
        assert DecodeSkipFlat(flat, key) == Ok(m + [flat[Cursor(key)]]);
      }
    }
  }

  /** A skip key all of whose cells are locked decodes to the same letters before and after any change that keeps locked cells. */
  lemma SkipKeySurvives(before: Cells, after: Cells, rows: nat, cols: nat, locked: set<Coord>, key: seq<int>)
    requires Rectangular(before, rows, cols) && Rectangular(after, rows, cols)
    requires InBounds(locked, rows, cols) && LockedCellsKept(before, after, locked)
    requires SkipKeyLocked(locked, key, cols)
    ensures DecodeSkipMethod(after, key) == DecodeSkipMethod(before, key)
    ensures DecodeSkipMethod(before, key).Ok?
  {
    FlattenLength(before, rows, cols);
    FlattenLength(after, rows, cols);
    var vs := Visited(key);
    forall k | 0 <= k < |key|
      ensures 0 <= vs[k] < rows * cols && Flatten(before)[vs[k]] == Flatten(after)[vs[k]]
    {
      FlatCoordRowBound(vs[k], rows, cols);
      FlattenAt(before, rows, cols, vs[k]);
      FlattenAt(after, rows, cols, vs[k]);
    }
    DecodeSkipAt(Flatten(before), key);
    DecodeSkipAt(Flatten(after), key);
    assert DecodeSkipFlat(Flatten(after), key).value == DecodeSkipFlat(Flatten(before), key).value;
  }
}
