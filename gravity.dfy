/**
 * Per-column gravity and refill. After a group is removed, each column is
 * scanned from its highest row index down; every ball is moved to the
 * highest free row (the `emptyRow` marker), so the balls keep their order
 * and end in a contiguous block at the highest indices. The rows left free
 * below the block are then refilled, from the highest free row down, with
 * balls of freshly drawn colours.
 */
module Gravity {
  import opened Grid

  /** The balls of a column that stay, read in increasing row order. */
  function Survivors(col: seq<Cell>): (r: seq<Cell>)
    ensures |r| <= |col|
    ensures forall i :: 0 <= i < |r| ==> r[i].Occupied?
  {
    if col == [] then []
    else Survivors(col[..|col| - 1]) + (if col[|col| - 1].Occupied? then [col[|col| - 1]] else [])
  }

  /** How many rows of the column are free: the number of balls refilled in it. */
  function Gaps(col: seq<Cell>): nat
  {
    |col| - |Survivors(col)|
  }

  /** The rows of the column that hold no ball. */
  function EmptyRows(col: seq<Cell>): set<int>
  {
    set y | 0 <= y < |col| && col[y].Empty?
  }

  function Blank(m: nat): seq<Cell>
  {
    seq(m, i => Empty)
  }

  /** The column once gravity has acted: all free rows first, then the survivors. */
  function Compact(col: seq<Cell>): seq<Cell>
  {
    Blank(Gaps(col)) + Survivors(col)
  }

  /**
   * The m new balls of a column whose random draws start at index k: the
   * first draw goes to the highest free row m - 1, the last to row 0.
   */
  function Fresh(m: nat, pick: nat -> nat, k: nat): (r: seq<Cell>)
    ensures |r| == m
  {
    seq(m, i requires 0 <= i < m => Occupied(pick(k + m - 1 - i)))
  }

  /** The column after gravity and refill, with draws starting at index k. */
  function Settle(col: seq<Cell>, pick: nat -> nat, k: nat): seq<Cell>
  {
    Fresh(Gaps(col), pick, k) + Survivors(col)
  }

  /** Every free row lies below every ball: balls form one block at the highest indices. */
  predicate Packed(col: seq<Cell>)
  {
    forall i, j :: 0 <= i < j < |col| && col[i].Occupied? ==> col[j].Occupied?
  }

  /** Filtering distributes over concatenation: this is what lets the scan go row by row. */
  lemma {:induction false} SurvivorsAppend(a: seq<Cell>, b: seq<Cell>)
    ensures Survivors(a + b) == Survivors(a) + Survivors(b)
  {
    if b == [] {
      assert a + b == a;
    } else {
      var b' := b[..|b| - 1];
      assert (a + b)[..|a + b| - 1] == a + b';
      SurvivorsAppend(a, b');
    }
  }

  /** A column without free rows keeps all its balls in place. */
  lemma {:induction false} SurvivorsOfFull(col: seq<Cell>)
    requires forall y :: 0 <= y < |col| ==> col[y].Occupied?
    ensures Survivors(col) == col
  {
    if col != [] {
      SurvivorsOfFull(col[..|col| - 1]);
    }
  }

  /** Free rows contribute no survivor. */
  lemma {:induction false} SurvivorsOfBlank(m: nat)
    ensures Survivors(Blank(m)) == []
  {
    if m > 0 {
      assert Blank(m)[..m - 1] == Blank(m - 1);
      SurvivorsOfBlank(m - 1);
    }
  }

  /**
   * Gravity keeps every ball: for each colour, the survivors hold as many
   * balls of it as the column did, and they hold no empty cell.
   */
  lemma {:induction false} SurvivorsKeepBalls(col: seq<Cell>, c: Cell)
    requires c.Occupied?
    ensures multiset(Survivors(col))[c] == multiset(col)[c]
    ensures Empty !in multiset(Survivors(col))
  {
    if col != [] {
      var init := col[..|col| - 1];
      SurvivorsKeepBalls(init, c);
      assert col == init + [col[|col| - 1]];
    }
  }

  /** The number of refilled rows is the number of free rows the column had. */
  lemma {:induction false} GapsCountEmptyRows(col: seq<Cell>)
    ensures Gaps(col) == |EmptyRows(col)|
  {
    if col != [] {
      var n := |col| - 1;
      var init := col[..n];
      GapsCountEmptyRows(init);
      if col[n].Empty? {
        assert EmptyRows(col) == EmptyRows(init) + {n};
      } else {
        assert EmptyRows(col) == EmptyRows(init);
      }
    }
  }

  /**
   * Gravity is stable and packs: the column keeps its height, its free rows
   * come first and its balls, read in row order, are exactly the survivors
   * in their original order. Applying gravity again changes nothing.
   */
  lemma CompactStable(col: seq<Cell>)
    ensures |Compact(col)| == |col|
    ensures Packed(Compact(col))
    ensures Survivors(Compact(col)) == Survivors(col)
    ensures Gaps(Compact(col)) == Gaps(col)
    ensures Compact(Compact(col)) == Compact(col)
  {
    var s := Survivors(col);
    SurvivorsAppend(Blank(Gaps(col)), s);
    SurvivorsOfBlank(Gaps(col));
    SurvivorsOfFull(s);
  }

  /**
   * A four-row column holding a ball at rows 0 and 2: gravity moves both to
   * rows 2 and 3 in their order and leaves rows 0 and 1 to be refilled.
   */
  lemma CompactExample(r: Cell, u: Cell)
    requires r.Occupied? && u.Occupied?
    ensures Compact([r, Empty, u, Empty]) == [Empty, Empty, r, u]
    ensures Gaps([r, Empty, u, Empty]) == 2
  {
    assert [r][..0] == [];
    assert [r, Empty][..1] == [r];
    assert [r, Empty, u][..2] == [r, Empty];
    assert [r, Empty, u, Empty][..3] == [r, Empty, u];
    assert Survivors([r, Empty]) == [r];
    assert Survivors([r, Empty, u]) == [r, u];
  }

  /** After gravity and refill the column is full of balls. */
  lemma SettleFull(col: seq<Cell>, pick: nat -> nat, k: nat)
    ensures |Settle(col, pick, k)| == |col|
    ensures forall y :: 0 <= y < |col| ==> Settle(col, pick, k)[y].Occupied?
  {
  }

  /** New balls and surviving balls all carry palette colours when draws and column do. */
  lemma SettleInPalette(col: seq<Cell>, pick: nat -> nat, k: nat)
    requires ValidDraws(pick)
    requires forall y :: 0 <= y < |col| && col[y].Occupied? ==> col[y].colour < |Palette|
    ensures forall y :: 0 <= y < |col| ==> Settle(col, pick, k)[y].colour < |Palette|
  {
    var s := Survivors(col);
    forall i | 0 <= i < |s|
      ensures s[i].colour < |Palette|
    {
      SurvivorsKeepBalls(col, s[i]);
      assert s[i] in multiset(s);
      assert s[i] in col;
    }
  }

  /** A column that lost no ball is left exactly as it was: no moves and no refills. */
  lemma SettleUntouched(col: seq<Cell>, pick: nat -> nat, k: nat)
    requires forall y :: 0 <= y < |col| ==> col[y].Occupied?
    ensures Gaps(col) == 0
    ensures Settle(col, pick, k) == col
  {
    SurvivorsOfFull(col);
    assert Fresh(0, pick, k) == [];
  }

  /**
   * The state of the gravity scan of column `col` once the rows above `row`
   * are done: rows up to `row` are untouched, rows from `row + 1` to
   * `emptyRow` are free and the rows above `emptyRow` hold, in order, the
   * balls found so far.
   */
  ghost predicate Scanned(col: seq<Cell>, cur: seq<Cell>, row: int, emptyRow: int)
  {
    |cur| == |col| && -1 <= row <= emptyRow < |col| &&
    emptyRow == |col| - 1 - |Survivors(col[row + 1..])| &&
    cur[..row + 1] == col[..row + 1] &&
    (forall j :: row < j <= emptyRow ==> cur[j] == Empty) &&
    cur[emptyRow + 1..] == Survivors(col[row + 1..])
  }

  /** What one step of the scan leaves to the next: the row's cell is untouched and splits off the rows above. */
  lemma ScanHead(col: seq<Cell>, cur: seq<Cell>, row: int, emptyRow: int)
    requires Scanned(col, cur, row, emptyRow) && row >= 0
    ensures cur[row] == col[row]
    ensures Survivors(col[row..]) == (if col[row].Occupied? then [col[row]] else []) + Survivors(col[row + 1..])
  {
    assert cur[row] == cur[..row + 1][row];
    assert col[row..] == [col[row]] + col[row + 1..];
    SurvivorsAppend([col[row]], col[row + 1..]);
    assert Survivors([col[row]]) == if col[row].Occupied? then [col[row]] else [];
  }

  /** A ball below the free rows moves up to `emptyRow`, and the marker drops. */
  lemma ScanMove(col: seq<Cell>, cur: seq<Cell>, row: int, emptyRow: int)
    requires Scanned(col, cur, row, emptyRow) && row >= 0
    requires cur[row].Occupied? && row != emptyRow
    ensures Scanned(col, cur[emptyRow := cur[row]][row := Empty], row - 1, emptyRow - 1)
  {
    ScanHead(col, cur, row, emptyRow);
    var cur' := cur[emptyRow := cur[row]][row := Empty];
    assert cur'[..row] == cur[..row + 1][..row];
    assert cur'[emptyRow..] == [cur[row]] + cur[emptyRow + 1..];
  }

  /** A ball already at `emptyRow` stays, and the marker drops. */
  lemma ScanKeep(col: seq<Cell>, cur: seq<Cell>, row: int, emptyRow: int)
    requires Scanned(col, cur, row, emptyRow) && row >= 0
    requires cur[row].Occupied? && row == emptyRow
    ensures Scanned(col, cur, row - 1, emptyRow - 1)
  {
    ScanHead(col, cur, row, emptyRow);
    assert cur[..row] == cur[..row + 1][..row];
    assert cur[emptyRow..] == [cur[row]] + cur[emptyRow + 1..];
  }

  /** A free row is passed over. */
  lemma ScanSkip(col: seq<Cell>, cur: seq<Cell>, row: int, emptyRow: int)
    requires Scanned(col, cur, row, emptyRow) && row >= 0
    requires cur[row].Empty?
    ensures Scanned(col, cur, row - 1, emptyRow)
  {
    ScanHead(col, cur, row, emptyRow);
    assert cur[..row] == cur[..row + 1][..row];
  }

  /**
   * In a column with no free row the marker never leaves the scanned row, so
   * the move branch of the scan is never taken.
   */
  lemma ScanFull(col: seq<Cell>, cur: seq<Cell>, row: int, emptyRow: int)
    requires forall y :: 0 <= y < |col| ==> col[y].Occupied?
    requires Scanned(col, cur, row, emptyRow)
    ensures emptyRow == row
  {
    SurvivorsOfFull(col[row + 1..]);
  }

  /** When the scan has passed row 0 the column is the compacted one. */
  lemma ScanDone(col: seq<Cell>, cur: seq<Cell>, emptyRow: int)
    requires Scanned(col, cur, -1, emptyRow)
    ensures emptyRow == Gaps(col) - 1
    ensures cur == Compact(col)
  {
  }

  /**
   * Gravity on one column of the grid, as the click handler does it: a scan
   * from the highest row index down that moves each ball to the `emptyRow`
   * marker and lowers the marker past it. Returns the marker, the highest
   * row left free. Other columns are not touched.
   */
  method CompactColumn(grid: array2<Cell>, column: int) returns (emptyRow: int)
    requires 0 <= column < grid.Length0
    modifies grid
    ensures emptyRow == Gaps(old(Column(grid, column))) - 1
    ensures Column(grid, column) == Compact(old(Column(grid, column)))
    ensures forall i, j :: 0 <= i < grid.Length0 && 0 <= j < grid.Length1 && i != column ==>
              grid[i, j] == old(grid[i, j])
  {
    ghost var col := Column(grid, column);
    ghost var cur := col;
    var n := grid.Length1;
    emptyRow := n - 1;
    var row := n - 1;
    while row >= 0
      invariant Scanned(col, cur, row, emptyRow)
      invariant Column(grid, column) == cur
      invariant forall i, j :: 0 <= i < grid.Length0 && 0 <= j < n && i != column ==> grid[i, j] == old(grid[i, j])
    {
      assert grid[column, row] == cur[row];
      if grid[column, row].Occupied? {
        if row != emptyRow {
          ScanMove(col, cur, row, emptyRow);
          MoveBall(grid, column, row, emptyRow);
          cur := cur[emptyRow := cur[row]][row := Empty];
        } else {
          ScanKeep(col, cur, row, emptyRow);
        }
        emptyRow := emptyRow - 1;
      } else {
        ScanSkip(col, cur, row, emptyRow);
      }
      row := row - 1;
    }
    ScanDone(col, cur, emptyRow);
  }

  /** Moves the ball at row `from` of a column to row `to` and leaves `from` free. */
  method MoveBall(grid: array2<Cell>, column: int, from: int, to: int)
    requires 0 <= column < grid.Length0 && 0 <= from < grid.Length1 && 0 <= to < grid.Length1 && from != to
    modifies grid
    ensures Column(grid, column) == old(Column(grid, column))[to := old(grid[column, from])][from := Empty]
    ensures forall i, j :: 0 <= i < grid.Length0 && 0 <= j < grid.Length1 && i != column ==>
              grid[i, j] == old(grid[i, j])
  {
    grid[column, to] := grid[column, from];
    grid[column, from] := Empty;
  }

  /**
   * Refill of one column of the grid, as the click handler does it: from
   * row `top` (where the gravity scan left its `emptyRow` marker) down to
   * row 0 each row gets a ball of the next random colour, pick(k),
   * pick(k + 1), ... Returns the index of the next unused draw. Rows above
   * `top` and other columns are not touched.
   */
  method RefillColumn(grid: array2<Cell>, column: int, top: int, pick: nat -> nat, k: nat) returns (next: nat)
    requires 0 <= column < grid.Length0 && -1 <= top < grid.Length1
    modifies grid
    ensures next == k + top + 1
    ensures Column(grid, column) == Fresh(top + 1, pick, k) + old(Column(grid, column))[top + 1..]
    ensures forall i, j :: 0 <= i < grid.Length0 && 0 <= j < grid.Length1 && i != column ==>
              grid[i, j] == old(grid[i, j])
  {
    ghost var col := Column(grid, column);
    var n := grid.Length1;
    var emptyRow := top;
    next := k;
    while emptyRow >= 0
      invariant -1 <= emptyRow <= top && next == k + top - emptyRow
      invariant forall j :: 0 <= j <= emptyRow ==> grid[column, j] == col[j]
      invariant forall j :: emptyRow < j <= top ==> grid[column, j] == Occupied(pick(k + top - j))
      invariant forall j :: top < j < n ==> grid[column, j] == col[j]
      invariant forall i, j :: 0 <= i < grid.Length0 && 0 <= j < n && i != column ==> grid[i, j] == old(grid[i, j])
    {
      grid[column, emptyRow] := Occupied(pick(next));
      next := next + 1;
      emptyRow := emptyRow - 1;
    }
    ghost var want := Fresh(top + 1, pick, k) + col[top + 1..];
    assert forall j :: 0 <= j < n ==> grid[column, j] == want[j];
  }
}
