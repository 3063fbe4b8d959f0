/**
 * EncryptionGrid of GridBasedEncryption.py: a letter grid plus the set of
 * locked cells, updated in place by the row and skip encoders.
 *
 * Random choices (the fill letters, the column of the row method, the
 * fallback cell of the skip method) are nondeterministic choices `:|`: every
 * property below holds whatever is chosen.
 */
module EncryptionGrids {
  import opened Outcomes
  import opened GridCells

  function Min(a: int, b: int): int
  {
    if a <= b then a else b
  }

  /** Row `r` has a column that is not locked. */
  predicate HasFreeColumn(locked: set<Coord>, r: int, cols: nat)
  {
    exists c :: 0 <= c < cols && (r, c) !in locked
  }

  /** How many of the rows 0 .. r-1 have a free column. */
  function FreeRowsBefore(locked: set<Coord>, r: nat, cols: nat): nat
  {
    if r == 0 then 0
    else FreeRowsBefore(locked, r - 1, cols) + (if HasFreeColumn(locked, r - 1, cols) then 1 else 0)
  }

  class EncryptionGrid {
    /** The grid's shape, fixed at construction. */
    const rows: nat
    const cols: nat
    /** `_grid` */
    var cells: Cells
    /** `_locked_fields`: cells committed to a letter of some placed message. */
    var locked: set<Coord>

    ghost predicate Valid()
      reads this
    {
      Rectangular(cells, rows, cols) && InBounds(locked, rows, cols)
    }

    /** A grid of random upper-case letters with nothing locked (lines 7-9). */
    constructor (numColumns: nat, numRows: nat)
      ensures Valid() && rows == numRows && cols == numColumns && locked == {}
      ensures forall r, c :: 0 <= r < rows && 0 <= c < cols ==> 'A' <= cells[r][c] <= 'Z'
    {
      var g := FillGridRandomly(numColumns, numRows);
      rows, cols := numRows, numColumns;
      cells := g;
      locked := {};
    }

    /** `_fillGridRandomly` (lines 107-113): every cell is some upper-case letter. */
    static method FillGridRandomly(numColumns: nat, numRows: nat) returns (g: Cells)
      ensures Rectangular(g, numRows, numColumns)
      ensures forall r, c :: 0 <= r < numRows && 0 <= c < numColumns ==> 'A' <= g[r][c] <= 'Z'
    {
      g := [];
      while |g| < numRows
        invariant |g| <= numRows
        invariant forall r :: 0 <= r < |g| ==> |g[r]| == numColumns
        invariant forall r, c :: 0 <= r < |g| && 0 <= c < numColumns ==> 'A' <= g[r][c] <= 'Z'
      {
        var row: seq<char> := [];
        while |row| < numColumns
          invariant |row| <= numColumns
          invariant forall c :: 0 <= c < |row| ==> 'A' <= row[c] <= 'Z'
        {
          var letter :| 'A' <= letter <= 'Z';
          row := row + [letter];
        }
        g := g + [row];
      }
    }

    /**
     * addMessageRowMethod (lines 11-40). Row by row: once the message is used
     * up, or when every column of the row is locked, the key gets 0;
     * otherwise the next letter goes into some unlocked column of the row,
     * which is locked, and the key gets that column counted from 1. A message
     * longer than the rows that have a free column is cut short, never
     * rejected.
     */
    method AddMessageRowMethod(message: string) returns (key: seq<int>)
      requires Valid()
      modifies this
      ensures Valid()
      ensures |key| == rows
      ensures forall r :: 0 <= r < rows ==> 0 <= key[r] <= cols
      ensures forall r :: 0 <= r < rows ==>
        (key[r] != 0 <==> HasFreeColumn(old(locked), r, cols) && FreeRowsBefore(old(locked), r, cols) < |message|)
      ensures forall r :: 0 <= r < rows && key[r] != 0 ==> (r, key[r] - 1) !in old(locked)
      ensures locked == old(locked) + RowKeyCells(key)
      ensures forall r, c :: 0 <= r < rows && 0 <= c < cols && cells[r][c] != old(cells)[r][c] ==>
        key[r] == c + 1
      ensures LockedCellsKept(old(cells), cells, old(locked))
      ensures RowKeyLocked(locked, key)
      ensures CountPositive(key) == Min(|message|, FreeRowsBefore(old(locked), rows, cols))
      ensures DecodeRowMethod(cells, key) == Ok(message[..CountPositive(key)])
    {
      key := PlaceRows(message);
      RowProgressDone(old(cells), old(locked), cells, locked, key, message, rows, cols);
    }

    /** The loop of addMessageRowMethod (lines 20-38): one entry per row, keeping RowProgress. */
    method PlaceRows(message: string) returns (key: seq<int>)
      requires Valid()
      modifies this
      ensures Valid() && |key| == rows
      ensures RowProgress(old(cells), old(locked), cells, locked, key, message, rows, cols)
    {
      key := [];
      var msgIndex := 0;
      var r := 0;
      RowProgressInit(cells, locked, message, rows, cols);
      while r < rows
        invariant Valid() && 0 <= r <= rows && |key| == r && msgIndex == CountPositive(key)
        invariant RowProgress(old(cells), old(locked), cells, locked, key, message, rows, cols)
      {
        var before := cells;
        ghost var lockedBefore := locked;
        var v := 0;
        if msgIndex < |message| {
          v := PlaceInRow(r, message[msgIndex]);
        }
        RowProgressStep(old(cells), old(locked), before, lockedBefore, key, v, cells, locked, message, rows, cols);
        key := key + [v];
        msgIndex := msgIndex + (if v > 0 then 1 else 0);
        r := r + 1;
      }
    }

    /**
     * The body of one row of addMessageRowMethod (lines 24-37): when the row
     * has an unlocked column, write the letter into some such column, lock
     * it and return the column counted from 1; otherwise change nothing and
     * return 0.
     */
    method PlaceInRow(r: nat, letter: char) returns (v: int)
      requires Valid() && r < rows
      modifies this
      ensures Valid()
      ensures 0 <= v <= cols
      ensures v != 0 <==> HasFreeColumn(old(locked), r, cols)
      ensures v == 0 ==> cells == old(cells) && locked == old(locked)
      ensures v != 0 ==>
        (r, v - 1) !in old(locked) && locked == old(locked) + {(r, v - 1)}
        && cells == old(cells)[r := old(cells)[r][v - 1 := letter]]
    {
      if !HasFreeColumn(locked, r, cols) {
        return 0;  // No space in this row
      }
      var c :| 0 <= c < cols && (r, c) !in locked;
      cells := cells[r := cells[r][c := letter]];
      locked := locked + {(r, c)};
      return c + 1;  // Store 1-based column index
    }

    /**
     * addMessageSkipMethod (lines 42-100). A cursor walks the row-major
     * flattening. For each letter it looks at the next `maxSkip` cells for one
     * that already holds the letter (a natural hit, never written); failing
     * that it overwrites some cell of the window not locked so far. The cell is
     * locked in a tentative lock set and its distance from the cursor goes
     * into the key. The grid is written in place (the copy at line 57 is
     * shallow), the tentative locks replace the real ones only on success.
     * A window that runs off the grid before a natural hit, or that holds no
     * unlocked cell, raises ValueError "Could not fit message".
     */
    method AddMessageSkipMethod(message: string, maxSkip: int) returns (res: Result<seq<int>>, ghost done: seq<int>)
      requires Valid()
      modifies this
      ensures Valid()
      ensures old(locked) <= locked
      ensures LockedCellsKept(old(cells), cells, old(locked))
      ensures forall r, c :: 0 <= r < rows && 0 <= c < cols && cells[r][c] != old(cells)[r][c] ==>
        (r, c) !in old(locked)
      ensures res.Raise? ==> res.exc == ValueError && locked == old(locked)
      ensures res.Ok? ==> |res.value| == |message| && forall k :: 0 <= k < |res.value| ==> 0 <= res.value[k] < maxSkip
      ensures res.Ok? ==> locked == old(locked) + SkipKeyCells(res.value, cols)
      ensures res.Ok? ==> forall r, c :: 0 <= r < rows && 0 <= c < cols && cells[r][c] != old(cells)[r][c] ==>
        (r, c) in locked
      ensures res.Ok? ==> SkipKeyLocked(locked, res.value, cols)
      ensures res.Ok? ==> DecodeSkipMethod(cells, res.value) == Ok(message)
      ensures message == [] ==> res == Ok([])
      ensures message != [] && maxSkip <= 0 ==> res.Raise?
      ensures message != [] && SkipFails(old(cells), rows * cols, old(locked), 0, maxSkip, message[0], cols) ==> res.Raise?
      ensures res.Raise? ==> |done| < |message| && SkipEntries(done, maxSkip) && SkipWritten(cells, done, message, cols)
      ensures res.Raise? ==>
        SkipFails(cells, rows * cols, old(locked) + SkipKeyCells(done, cols), Cursor(done) + 1, maxSkip, message[|done|], cols)
      ensures old(locked) == {} && 0 < maxSkip && |message| * maxSkip <= rows * cols ==> res.Ok?
    {
      var key: seq<int> := [];
      var lockedCopy := locked;
      var position := 0;
      SkipProgressInit(cells, locked, message, maxSkip, rows, cols);
      while |key| < |message|
        invariant position == Cursor(key) + 1
        invariant locked == old(locked)
        invariant key == [] ==> cells == old(cells) && lockedCopy == old(locked)
        invariant key != [] ==> message != [] && !SkipFails(old(cells), rows * cols, old(locked), 0, maxSkip, message[0], cols)
        invariant SkipProgress(old(cells), old(locked), cells, lockedCopy, key, message, maxSkip, rows, cols)
        decreases |message| - |key|
      {
        var before := cells;
        var fit, skip, wrote := PlaceSkipLetter(position, maxSkip, message[|key|], lockedCopy);
        if !fit {
          // The IndexError of line 68 or 82, reported at line 93.
          assert cells == before && lockedCopy == old(locked) + SkipKeyCells(key, cols);
          if old(locked) == {} && 0 < maxSkip && |message| * maxSkip <= rows * cols {
            LockFreeRoom(old(cells), cells, lockedCopy, key, message, maxSkip, position, rows, cols);
            assert false;
          }
          return Raise(ValueError), key;
        }
        var rc := FlatCoord(position + skip, cols);
        SkipProgressStep(old(cells), old(locked), before, lockedCopy, key, skip, rc, cells, wrote, message, maxSkip, rows, cols);
        lockedCopy := lockedCopy + {rc};  // lines 70 and 87
        key := key + [skip];
        position := position + skip + 1;
      }
      // Success: the tentative locks become the real ones (line 98).
      SkipProgressDone(old(cells), old(locked), cells, lockedCopy, key, message, maxSkip, rows, cols);
      locked := lockedCopy;
      return Ok(key), key;
    }

    /**
     * One letter of addMessageSkipMethod (lines 63-89): the first natural hit
     * of the window when there is one, else a write into some cell of the
     * window that is not in `taken`. `fit` is false, and nothing changes, when
     * the scan runs off the grid (line 68) or no cell of the window is free
     * (line 82).
     */
    method PlaceSkipLetter(position: int, maxSkip: int, letter: char, taken: set<Coord>) returns (fit: bool, skip: int, ghost wrote: bool)
      requires Valid() && 0 <= position <= rows * cols
      modifies this
      ensures Valid() && locked == old(locked)
      ensures !fit ==> cells == old(cells)
      ensures !fit <==> SkipFails(old(cells), rows * cols, taken, position, maxSkip, letter, cols)
      ensures fit ==> 0 <= skip < maxSkip && position + skip < rows * cols && cols > 0
      ensures fit ==> CellAt(cells, position + skip) == letter
      ensures fit ==> forall q :: 0 <= q < rows * cols && q != position + skip ==> CellAt(cells, q) == CellAt(old(cells), q)
      ensures fit ==> forall r, c :: 0 <= r < rows && 0 <= c < cols && cells[r][c] != old(cells)[r][c] ==>
        wrote && (r, c) == FlatCoord(position + skip, cols)
      ensures fit && wrote ==> FlatCoord(position + skip, cols) !in taken && position + maxSkip <= rows * cols
      ensures fit ==>
        (CellAt(old(cells), position + skip) == letter && forall q :: position <= q < position + skip ==> CellAt(old(cells), q) != letter)
        || forall q :: position <= q < position + maxSkip ==> CellAt(old(cells), q) != letter
    {
      var w := FindNaturalHit(position, maxSkip, letter);
      if w.OffGrid? {
        return false, 0, false;
      } else if w.Hit? {
        // natural hit: lock it, write nothing (lines 70-72)
        return true, w.skip, false;
      }
      if !HasFreeCell(taken, position, maxSkip, cols) {
        return false, 0, false;
      }
      var p :| position <= p < position + maxSkip && cols > 0 && FlatCoord(p, cols) !in taken;
      CellAtWrite(cells, rows, cols, p, letter);
      cells := WriteAt(cells, p, cols, letter);  // line 85
      return true, p - position, true;
    }

    /**
     * The window scan of lines 66-73: the first of the cells at flattened
     * positions position .. position + maxSkip - 1 that holds `letter`, or
     * OffGrid when the scan reaches the end of the flattening first (the
     * IndexError of line 68), or Miss when no cell of the window holds it.
     */
    method FindNaturalHit(position: int, maxSkip: int, letter: char) returns (w: Window)
      requires Valid() && 0 <= position <= rows * cols
      ensures w.OffGrid? ==> 0 < maxSkip && rows * cols < position + maxSkip
      ensures w.OffGrid? ==> forall p :: position <= p < rows * cols ==> CellAt(cells, p) != letter
      ensures w.Hit? ==> 0 <= w.skip < maxSkip && position + w.skip < rows * cols
      ensures w.Hit? ==> CellAt(cells, position + w.skip) == letter
      ensures w.Hit? ==> forall p :: position <= p < position + w.skip ==> CellAt(cells, p) != letter
      ensures w.Miss? ==> position + maxSkip <= rows * cols || maxSkip <= 0
      ensures w.Miss? ==> forall p :: position <= p < position + maxSkip ==> CellAt(cells, p) != letter
    {
      var i := 0;
      while i < maxSkip
        invariant 0 <= i && (i <= maxSkip || i == 0) && position + i <= rows * cols
        invariant forall p :: position <= p < position + i ==> CellAt(cells, p) != letter
      {
        if position + i >= rows * cols {
          return OffGrid;
        }
        if CellAt(cells, position + i) == letter {
          return Hit(i);
        }
        i := i + 1;
      }
      return Miss;
    }
  }

  /** The outcome of scanning one window for a natural hit. */
  datatype Window = OffGrid | Hit(skip: int) | Miss

  /**
   * The letter cannot be placed with the cursor at `position` (lines 66-82):
   * the scan reaches the end of the flattening (of `size` cells) before a
   * natural hit, or the window holds neither a natural hit nor a cell
   * outside `taken`.
   */
  predicate SkipFails(g: Cells, size: int, taken: set<Coord>, position: int, maxSkip: int, letter: char, cols: nat)
  {
    if 0 < maxSkip && size < position + maxSkip then
      forall q :: position <= q < size ==> CellAt(g, q) != letter
    else
      && (forall q :: position <= q < position + maxSkip ==> CellAt(g, q) != letter)
      && !HasFreeCell(taken, position, maxSkip, cols)
  }

  /** Some cell of the window position .. position + maxSkip - 1 is not locked (possible_fields, lines 76-80, is non-empty). */
  predicate HasFreeCell(locked: set<Coord>, position: int, maxSkip: int, cols: nat)
  {
    exists p :: position <= p < position + maxSkip && cols > 0 && FlatCoord(p, cols) !in locked
  }

  /** Whether a row has a free column depends only on the locks in that row. */
  lemma SameFreeColumn(l0: set<Coord>, l1: set<Coord>, r: int, cols: nat)
    requires forall c :: (r, c) in l1 <==> (r, c) in l0
    ensures HasFreeColumn(l0, r, cols) <==> HasFreeColumn(l1, r, cols)
  {
    if HasFreeColumn(l0, r, cols) {
      var c :| 0 <= c < cols && (r, c) !in l0;
      assert (r, c) !in l1;
    }
    if HasFreeColumn(l1, r, cols) {
      var c :| 0 <= c < cols && (r, c) !in l1;
      assert (r, c) !in l0;
    }
  }

  /**
   * What the row encoder has established after the rows 0 .. |key|-1, starting
   * from cells `c0` and locks `l0`: the key entries so far, the locks they
   * added, the only cells they changed, and the text they decode to.
   */
  ghost predicate RowProgress(c0: Cells, l0: set<Coord>, cells: Cells, locked: set<Coord>,
                              key: seq<int>, message: string, rows: nat, cols: nat)
  {
    && Rectangular(c0, rows, cols) && Rectangular(cells, rows, cols) && InBounds(l0, rows, cols)
    && |key| <= rows
    && RowEntries(l0, key, message, cols)
    && locked == l0 + RowKeyCells(key)
    && RowChanges(c0, cells, key, rows, cols)
    && RowDecodes(l0, cells, key, message, cols)
  }

  /** Each entry so far is a column counted from 1 or 0; it is non-zero exactly when the row had a free column and letters were left, and then names a cell that was not locked. */
  ghost predicate RowEntries(l0: set<Coord>, key: seq<int>, message: string, cols: nat)
  {
    && (forall q :: 0 <= q < |key| ==> 0 <= key[q] <= cols)
    && (forall q :: 0 <= q < |key| ==>
          (key[q] != 0 <==> HasFreeColumn(l0, q, cols) && FreeRowsBefore(l0, q, cols) < |message|))
    && (forall q :: 0 <= q < |key| && key[q] != 0 ==> (q, key[q] - 1) !in l0)
  }

  /** The only cells changed since `c0` are those the key names. */
  ghost predicate RowChanges(c0: Cells, cells: Cells, key: seq<int>, rows: nat, cols: nat)
    requires Rectangular(c0, rows, cols) && Rectangular(cells, rows, cols)
  {
    forall q, c :: 0 <= q < rows && 0 <= c < cols && cells[q][c] != c0[q][c] ==>
      q < |key| && key[q] == c + 1
  }

  /** The key so far carries as many letters as the message and the free rows allow, and decodes to them. */
  ghost predicate RowDecodes(l0: set<Coord>, cells: Cells, key: seq<int>, message: string, cols: nat)
  {
    && CountPositive(key) == Min(|message|, FreeRowsBefore(l0, |key|, cols))
    && DecodeRowMethod(cells, key) == Ok(message[..CountPositive(key)])
  }

  lemma RowProgressInit(c0: Cells, l0: set<Coord>, message: string, rows: nat, cols: nat)
    requires Rectangular(c0, rows, cols) && InBounds(l0, rows, cols)
    ensures RowProgress(c0, l0, c0, l0, [], message, rows, cols)
  {
    assert RowKeyCells([]) == {};
    assert message[..0] == [];
  }

  /** Before row |key| is processed, the locks in that row are the original ones. */
  lemma RowStepLocksInRow(l0: set<Coord>, locked: set<Coord>, key: seq<int>, cols: nat)
    requires locked == l0 + RowKeyCells(key)
    ensures HasFreeColumn(locked, |key|, cols) <==> HasFreeColumn(l0, |key|, cols)
  {
    var r := |key|;
    forall c | 0 <= c < cols
      ensures (r, c) in locked <==> (r, c) in l0
    {
    }
    SameFreeColumn(l0, locked, r, cols);
  }

  /** The entry of row |key| satisfies the same per-row facts as the earlier ones. */
  lemma RowStepEntries(l0: set<Coord>, key: seq<int>, v: int, message: string, cols: nat)
    requires RowEntries(l0, key, message, cols)
    requires 0 <= v <= cols
    requires v != 0 <==> HasFreeColumn(l0, |key|, cols) && FreeRowsBefore(l0, |key|, cols) < |message|
    requires v != 0 ==> (|key|, v - 1) !in l0
    ensures RowEntries(l0, key + [v], message, cols)
  {
    forall q | 0 <= q < |key| + 1
      ensures (key + [v])[q] == if q < |key| then key[q] else v
    {
    }
  }

  /** The cells row |key| changes are the one its entry names. */
  lemma RowStepCells(c0: Cells, cells: Cells, cells': Cells, key: seq<int>, v: int, letter: char, rows: nat, cols: nat)
    requires Rectangular(c0, rows, cols) && Rectangular(cells, rows, cols) && |key| < rows
    requires RowChanges(c0, cells, key, rows, cols)
    requires v == 0 ==> cells' == cells
    requires v != 0 ==> 0 < v <= cols && cells' == cells[|key| := cells[|key|][v - 1 := letter]]
    ensures Rectangular(cells', rows, cols) && RowChanges(c0, cells', key + [v], rows, cols)
  {
    forall q, c | 0 <= q < rows && 0 <= c < cols && cells'[q][c] != c0[q][c]
      ensures q < |key| + 1 && (key + [v])[q] == c + 1
    {
      if cells'[q][c] == cells[q][c] {
        assert (key + [v])[q] == key[q];
      }
    }
  }

  /** Row |key| extends the decoded text by the letter it wrote, or by nothing. */
  lemma RowStepDecode(l0: set<Coord>, cells: Cells, cells': Cells, key: seq<int>, v: int, message: string, rows: nat, cols: nat)
    requires Rectangular(cells, rows, cols) && |key| < rows
    requires RowDecodes(l0, cells, key, message, cols)
    requires v != 0 <==> HasFreeColumn(l0, |key|, cols) && FreeRowsBefore(l0, |key|, cols) < |message|
    requires v == 0 ==> cells' == cells
    requires v != 0 ==> 0 < v <= cols && cells' == cells[|key| := cells[|key|][v - 1 := message[CountPositive(key)]]]
    ensures RowDecodes(l0, cells', key + [v], message, cols)
  {
    var m := CountPositive(key);
    RowStepCount(l0, key, v, m, |message|, cols);
    if v == 0 {
      DecodeRowSnoc(cells, key, v, message[..m]);
    } else {
      DecodeRowFrame(cells, cells', key);
      DecodeRowSnoc(cells', key, v, message[..m]);
      assert cells'[|key|][v - 1] == message[m];
      assert message[..m] + [message[m]] == message[..m + 1];
    }
  }

  /** The letter count after row |key| follows the free rows and the message length. */
  lemma RowStepCount(l0: set<Coord>, key: seq<int>, v: int, m: nat, len: nat, cols: nat)
    requires m == CountPositive(key) == Min(len, FreeRowsBefore(l0, |key|, cols)) && 0 <= v
    requires v != 0 <==> HasFreeColumn(l0, |key|, cols) && FreeRowsBefore(l0, |key|, cols) < len
    ensures CountPositive(key + [v]) == m + (if v > 0 then 1 else 0)
    ensures CountPositive(key + [v]) == Min(len, FreeRowsBefore(l0, |key| + 1, cols))
  {
    RowPrefixSnoc([], key, v, |key|);
    assert CountPositive(key + [v]) == CountPositiveAt(key + [v], |key|) + (if v > 0 then 1 else 0);
  }

  /**
   * One row of the row encoder (lines 20-38) keeps RowProgress: the row gets
   * entry `v`, which is 0 when the message is used up or the row is full, and
   * otherwise names the unlocked column that now holds the next letter.
   */
  lemma RowProgressStep(c0: Cells, l0: set<Coord>, cells: Cells, locked: set<Coord>, key: seq<int>, v: int,
                        cells': Cells, locked': set<Coord>, message: string, rows: nat, cols: nat)
    requires RowProgress(c0, l0, cells, locked, key, message, rows, cols) && |key| < rows
    requires CountPositive(key) >= |message| ==> v == 0
    requires CountPositive(key) < |message| ==> (v != 0 <==> HasFreeColumn(locked, |key|, cols))
    requires v == 0 ==> cells' == cells && locked' == locked
    requires v != 0 ==>
      0 < v <= cols && (|key|, v - 1) !in locked && locked' == locked + {(|key|, v - 1)}
      && cells' == cells[|key| := cells[|key|][v - 1 := message[CountPositive(key)]]]
    ensures RowProgress(c0, l0, cells', locked', key + [v], message, rows, cols)
    ensures CountPositive(key + [v]) == CountPositive(key) + (if v > 0 then 1 else 0)
  {
    RowStepLocksInRow(l0, locked, key, cols);
    assert v != 0 <==> HasFreeColumn(l0, |key|, cols) && FreeRowsBefore(l0, |key|, cols) < |message|;
    RowStepEntries(l0, key, v, message, cols);
    RowKeyCellsSnoc(key, v);
    RowStepCells(c0, cells, cells', key, v, if v != 0 then message[CountPositive(key)] else 'A', rows, cols);
    RowStepDecode(l0, cells, cells', key, v, message, rows, cols);
    RowStepCount(l0, key, v, CountPositive(key), |message|, cols);
  }

  /** Once every row is done, RowProgress gives what addMessageRowMethod promises. */
  lemma RowProgressDone(c0: Cells, l0: set<Coord>, cells: Cells, locked: set<Coord>,
                        key: seq<int>, message: string, rows: nat, cols: nat)
    requires RowProgress(c0, l0, cells, locked, key, message, rows, cols) && |key| == rows
    ensures forall r :: 0 <= r < rows ==> 0 <= key[r] <= cols
    ensures forall r :: 0 <= r < rows ==>
      (key[r] != 0 <==> HasFreeColumn(l0, r, cols) && FreeRowsBefore(l0, r, cols) < |message|)
    ensures forall r :: 0 <= r < rows && key[r] != 0 ==> (r, key[r] - 1) !in l0
    ensures locked == l0 + RowKeyCells(key)
    ensures forall r, c :: 0 <= r < rows && 0 <= c < cols && cells[r][c] != c0[r][c] ==> key[r] == c + 1
    ensures LockedCellsKept(c0, cells, l0)
    ensures RowKeyLocked(locked, key)
    ensures CountPositive(key) == Min(|message|, FreeRowsBefore(l0, rows, cols))
    ensures DecodeRowMethod(cells, key) == Ok(message[..CountPositive(key)])
  {
    forall rc | rc in RowKeyCells(key)
      ensures 0 <= rc.0 < rows && 0 <= rc.1 < cols
    {
      var q :| 0 <= q < |key| && key[q] > 0 && rc == (q, key[q] - 1);
    }
    forall r | 0 <= r < |key| && key[r] > 0
      ensures (r, key[r] - 1) in locked
    {
      assert (r, key[r] - 1) in RowKeyCells(key);
    }
  }

  /**
   * What the skip encoder has established after placing the first |key|
   * letters, starting from cells `c0` and locks `l0`: the entries are inside
   * the window, the positions read stay in the grid, the tentative locks are
   * the original ones plus the key's cells, each position read holds its
   * letter, and the only cells changed are newly locked ones.
   */
  ghost predicate SkipProgress(c0: Cells, l0: set<Coord>, cells: Cells, lockedCopy: set<Coord>,
                               key: seq<int>, message: string, maxSkip: int, rows: nat, cols: nat)
  {
    && Rectangular(c0, rows, cols) && Rectangular(cells, rows, cols) && InBounds(l0, rows, cols)
    && |key| <= |message|
    && (|key| > 0 ==> cols > 0)
    && 0 <= Cursor(key) + 1 <= rows * cols
    && Cursor(key) + 1 <= |key| * maxSkip
    && SkipEntries(key, maxSkip)
    && lockedCopy == l0 + SkipKeyCells(key, cols)
    && SkipWritten(cells, key, message, cols)
    && SkipChanges(c0, cells, l0, lockedCopy, rows, cols)
  }

  /** Every entry is a skip inside the window; every position read is before the cursor. */
  ghost predicate SkipEntries(key: seq<int>, maxSkip: int)
  {
    && (forall k :: 0 <= k < |key| ==> 0 <= key[k] < maxSkip)
    && (forall k :: 0 <= k < |key| ==> 0 <= Visited(key)[k] <= Cursor(key))
  }

  /** The position read for letter k holds letter k. */
  ghost predicate SkipWritten(cells: Cells, key: seq<int>, message: string, cols: nat)
    requires |key| <= |message|
  {
    forall k :: 0 <= k < |key| ==> CellAt(cells, Visited(key)[k]) == message[k]
  }

  /** A changed cell was not locked before and is locked tentatively now. */
  ghost predicate SkipChanges(c0: Cells, cells: Cells, l0: set<Coord>, lockedCopy: set<Coord>, rows: nat, cols: nat)
    requires Rectangular(c0, rows, cols) && Rectangular(cells, rows, cols)
  {
    forall r, c :: 0 <= r < rows && 0 <= c < cols && cells[r][c] != c0[r][c] ==>
      (r, c) in lockedCopy && (r, c) !in l0
  }

  lemma SkipProgressInit(c0: Cells, l0: set<Coord>, message: string, maxSkip: int, rows: nat, cols: nat)
    requires Rectangular(c0, rows, cols) && InBounds(l0, rows, cols)
    ensures SkipProgress(c0, l0, c0, l0, [], message, maxSkip, rows, cols)
  {
    assert SkipKeyCells([], cols) == {};
  }

  /** Whatever happens next, the cells changed so far were unlocked, so every locked cell is kept. */
  lemma SkipProgressKept(c0: Cells, l0: set<Coord>, cells: Cells, lockedCopy: set<Coord>,
                         key: seq<int>, message: string, maxSkip: int, rows: nat, cols: nat)
    requires SkipProgress(c0, l0, cells, lockedCopy, key, message, maxSkip, rows, cols)
    ensures LockedCellsKept(c0, cells, l0)
    ensures forall r, c :: 0 <= r < rows && 0 <= c < cols && cells[r][c] != c0[r][c] ==> (r, c) !in l0
  {
  }

  /** Appending a skip inside the window keeps the entries inside the window and the positions before the new cursor. */
  lemma SkipStepEntries(key: seq<int>, skip: int, maxSkip: int)
    requires SkipEntries(key, maxSkip) && 0 <= skip < maxSkip && 0 <= Cursor(key) + 1
    ensures SkipEntries(key + [skip], maxSkip)
    ensures Cursor(key + [skip]) == Cursor(key) + 1 + skip
    ensures forall k :: 0 <= k < |key| ==> Visited(key + [skip])[k] == Visited(key)[k]
    ensures Visited(key + [skip])[|key|] == Cursor(key) + 1 + skip
  {
    var k' := key + [skip];
    VisitedSnoc(key, skip);
    forall k | 0 <= k < |k'|
      ensures 0 <= k'[k] < maxSkip && 0 <= Visited(k')[k] <= Cursor(k')
    {
      if k < |key| {
        assert k'[k] == key[k] && Visited(k')[k] == Visited(key)[k];
      }
    }
  }

  /** The letters already placed sit before the new position, so writing there keeps them. */
  lemma SkipStepWritten(cells: Cells, cells': Cells, key: seq<int>, skip: int, message: string, n: int, cols: nat)
    requires |key| < |message| && SkipWritten(cells, key, message, cols)
    requires forall k :: 0 <= k < |key| ==> 0 <= Visited(key)[k] <= Cursor(key)
    requires 0 <= skip && Cursor(key) + 1 + skip < n
    requires forall k :: 0 <= k < |key| ==> Visited(key + [skip])[k] == Visited(key)[k]
    requires Visited(key + [skip])[|key|] == Cursor(key) + 1 + skip
    requires CellAt(cells', Cursor(key) + 1 + skip) == message[|key|]
    requires forall q :: 0 <= q < n && q != Cursor(key) + 1 + skip ==> CellAt(cells', q) == CellAt(cells, q)
    ensures SkipWritten(cells', key + [skip], message, cols)
  {
    var k' := key + [skip];
    var p := Cursor(key) + 1 + skip;
    forall k | 0 <= k < |k'|
      ensures CellAt(cells', Visited(k')[k]) == message[k]
    {
      if k < |key| {
        var v := Visited(key)[k];
        assert Visited(k')[k] == v;
        assert CellAt(cells', v) == CellAt(cells, v);
      }
    }
  }

  /**
   * Placing letter |key| at skip `skip` (lines 70-72 for a natural hit,
   * 82-91 otherwise) keeps SkipProgress: the cell at the new position either
   * already held the letter or was unlocked and now holds it.
   */
  lemma SkipProgressStep(c0: Cells, l0: set<Coord>, cells: Cells, lockedCopy: set<Coord>,
                         key: seq<int>, skip: int, rc: Coord, cells': Cells, wrote: bool,
                         message: string, maxSkip: int, rows: nat, cols: nat)
    requires SkipProgress(c0, l0, cells, lockedCopy, key, message, maxSkip, rows, cols) && |key| < |message|
    requires 0 <= skip < maxSkip && Cursor(key) + 1 + skip < rows * cols && cols > 0
    requires rc == FlatCoord(Cursor(key) + 1 + skip, cols)
    requires Rectangular(cells', rows, cols)
    requires CellAt(cells', Cursor(key) + 1 + skip) == message[|key|]
    requires forall q :: 0 <= q < rows * cols && q != Cursor(key) + 1 + skip ==> CellAt(cells', q) == CellAt(cells, q)
    requires forall r, c :: 0 <= r < rows && 0 <= c < cols && cells'[r][c] != cells[r][c] ==> wrote && (r, c) == rc
    requires wrote ==> rc !in lockedCopy
    ensures SkipProgress(c0, l0, cells', lockedCopy + {rc}, key + [skip], message, maxSkip, rows, cols)
    ensures Cursor(key + [skip]) == Cursor(key) + 1 + skip
  {
    SkipStepChanges(c0, cells, cells', l0, lockedCopy, rc, wrote, rows, cols);
    SkipStepEntries(key, skip, maxSkip);
    SkipKeyCellsSnoc(key, skip, cols);
    assert (|key| + 1) * maxSkip == |key| * maxSkip + maxSkip;
    SkipStepWritten(cells, cells', key, skip, message, rows * cols, cols);
  }

  /** A step that changes at most the cell `rc`, which it locks, and only when `rc` was unlocked, keeps SkipChanges. */
  lemma SkipStepChanges(c0: Cells, cells: Cells, cells': Cells, l0: set<Coord>, lockedCopy: set<Coord>, rc: Coord,
                         wrote: bool, rows: nat, cols: nat)
    requires Rectangular(c0, rows, cols) && Rectangular(cells, rows, cols) && Rectangular(cells', rows, cols)
    requires SkipChanges(c0, cells, l0, lockedCopy, rows, cols) && l0 <= lockedCopy
    requires wrote ==> rc !in lockedCopy
    requires forall r, c :: 0 <= r < rows && 0 <= c < cols && cells'[r][c] != cells[r][c] ==> wrote && (r, c) == rc
    ensures SkipChanges(c0, cells', l0, lockedCopy + {rc}, rows, cols)
  {
  }

  /** After the last letter, SkipProgress gives what addMessageSkipMethod promises on success. */
  lemma SkipProgressDone(c0: Cells, l0: set<Coord>, cells: Cells, lockedCopy: set<Coord>,
                         key: seq<int>, message: string, maxSkip: int, rows: nat, cols: nat)
    requires SkipProgress(c0, l0, cells, lockedCopy, key, message, maxSkip, rows, cols) && |key| == |message|
    ensures InBounds(lockedCopy, rows, cols) && LockedCellsKept(c0, cells, l0)
    ensures forall r, c :: 0 <= r < rows && 0 <= c < cols && cells[r][c] != c0[r][c] ==>
      (r, c) in lockedCopy && (r, c) !in l0
    ensures SkipKeyLocked(lockedCopy, key, cols)
    ensures DecodeSkipMethod(cells, key) == Ok(message)
  {
    var vs := Visited(key);
    FlattenLength(cells, rows, cols);
    forall k | 0 <= k < |key|
      ensures 0 <= vs[k] < rows * cols && Flatten(cells)[vs[k]] == message[k]
    {
    }
    forall rc | rc in SkipKeyCells(key, cols)
      ensures 0 <= rc.0 < rows && 0 <= rc.1 < cols
    {
      var k :| 0 <= k < |key| && cols > 0 && rc == FlatCoord(vs[k], cols);
      FlattenAt(cells, rows, cols, vs[k]);
    }
    DecodeSkipAt(Flatten(cells), key);
    assert DecodeSkipFlat(Flatten(cells), key).value == message;
  }

  /**
   * On a grid with no locks at the start and room for |message| * maxSkip
   * cells, every window fits on the grid and its first cell is free.
   */
  lemma LockFreeRoom(c0: Cells, cells: Cells, lockedCopy: set<Coord>, key: seq<int>, message: string,
                     maxSkip: int, position: int, rows: nat, cols: nat)
    requires SkipProgress(c0, {}, cells, lockedCopy, key, message, maxSkip, rows, cols) && |key| < |message|
    requires position == Cursor(key) + 1
    requires 0 < maxSkip && |message| * maxSkip <= rows * cols
    ensures position + maxSkip <= rows * cols
    ensures HasFreeCell(lockedCopy, position, maxSkip, cols)
  {
    LockFreeWindowFits(|key|, |message|, maxSkip, position, rows * cols);
    WindowStartFree(key, cols, position);
    assert FlatCoord(position, cols) !in lockedCopy;
  }

  /** On a lock-free grid with room for |message| * maxSkip cells, a window of a cursor that moved at most maxSkip per letter never runs off the grid. */
  lemma LockFreeWindowFits(j: nat, len: nat, maxSkip: int, position: int, n: int)
    requires j < len && position <= j * maxSkip && 0 < maxSkip
    requires len * maxSkip <= n
    ensures position + maxSkip <= n
  {
    MulMono(j + 1, len, maxSkip);
    assert (j + 1) * maxSkip == j * maxSkip + maxSkip;
  }

  /** Every cell a skip key reads lies strictly before the cursor, so the cell at the cursor is not among them. */
  lemma WindowStartFree(key: seq<int>, cols: nat, position: int)
    requires cols > 0 && position == Cursor(key) + 1
    requires forall k :: 0 <= k < |key| ==> 0 <= Visited(key)[k] < position
    ensures FlatCoord(position, cols) !in SkipKeyCells(key, cols)
  {
    if FlatCoord(position, cols) in SkipKeyCells(key, cols) {
      var k :| 0 <= k < |key| && FlatCoord(position, cols) == FlatCoord(Visited(key)[k], cols);
      FlatCoordInjective(position, Visited(key)[k], cols);
    }
  }
}
