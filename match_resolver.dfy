/**
 * One turn of the game: the clicked ball's group is collected; when it has
 * at least ClearThreshold balls it is removed, every column falls and the
 * freed rows are refilled with balls of freshly drawn colours. A smaller
 * group leaves the board as it was.
 *
 * The draws of a turn are the turn's own injected stream pick(0), pick(1),
 * ...: column 0 takes the first ones, then column 1, and so on; inside a
 * column the highest free row takes the first draw. Over several turns each
 * turn's stream is the game's stream shifted past the draws already used.
 */
module MatchResolver {
  import opened Grid
  import opened GroupFinder
  import opened Gravity

  /** The board with the cells of g freed. */
  function Clear(b: Board, g: set<Pos>): Board
  {
    seq(|b|, x requires 0 <= x < |b| =>
      seq(|b[x]|, y requires 0 <= y < |b[x]| => if Pos(x, y) in g then Empty else b[x][y]))
  }

  /** How many free rows the columns of b hold together: the draws a refill of b uses. */
  function TotalGaps(b: Board): nat
  {
    if b == [] then 0 else TotalGaps(b[..|b| - 1]) + Gaps(b[|b| - 1])
  }

  /** Gravity and refill of every column, each column's draws following its left neighbours'. */
  function SettleAll(b: Board, pick: nat -> nat): Board
  {
    seq(|b|, x requires 0 <= x < |b| => Settle(b[x], pick, TotalGaps(b[..x])))
  }

  /** The board after a click on s. */
  ghost function Turn(b: Board, s: Pos, pick: nat -> nat): Board
  {
    var g := Group(b, s);
    if |g| < ClearThreshold then b else SettleAll(Clear(b, g), pick)
  }

  /** The row indices of column x whose cell belongs to g. */
  ghost function RowsIn(b: Board, g: set<Pos>, x: int): set<int>
    requires 0 <= x < |b|
  {
    set y | 0 <= y < |b[x]| && Pos(x, y) in g
  }

  /** Frees every cell listed in the group. */
  method ClearGroup(grid: array2<Cell>, group: seq<Pos>)
    requires forall p :: p in group ==> InBoard(Cells(grid), p)
    modifies grid
    ensures Cells(grid) == Clear(old(Cells(grid)), Elems(group))
  {
    ghost var b0 := Cells(grid);
    for i := 0 to |group|
      invariant forall x, y :: 0 <= x < grid.Length0 && 0 <= y < grid.Length1 ==>
                  grid[x, y] == if Pos(x, y) in group[..i] then Empty else b0[x][y]
    {
      assert group[..i + 1] == group[..i] + [group[i]];
      assert group[i] in group;
      grid[group[i].x, group[i].y] := Empty;
    }
    assert group[..|group|] == group;
    CellsAre(grid, Clear(b0, Elems(group)));
  }

  /**
   * Gravity then refill, column by column from column 0: the draws index k
   * carries from one column's refill to the next.
   */
  method SettleColumns(grid: array2<Cell>, pick: nat -> nat)
    modifies grid
    ensures Cells(grid) == SettleAll(old(Cells(grid)), pick)
  {
    ghost var b0 := Cells(grid);
    var n := grid.Length1;
    var k: nat := 0;
    for column := 0 to grid.Length0
      invariant k == TotalGaps(b0[..column])
      invariant forall x, y :: 0 <= x < column && 0 <= y < n ==>
                  grid[x, y] == Settle(b0[x], pick, TotalGaps(b0[..x]))[y]
      invariant forall x, y :: column <= x < grid.Length0 && 0 <= y < n ==> grid[x, y] == b0[x][y]
    {
      assert Column(grid, column) == b0[column];
      k := SettleColumn(grid, column, pick, k);
      assert b0[..column + 1][..column] == b0[..column];
    }
    CellsAre(grid, SettleAll(b0, pick));
  }

  /** One column's turn: it falls, then its free rows take draws k, k + 1, ... */
  method SettleColumn(grid: array2<Cell>, column: int, pick: nat -> nat, k: nat) returns (next: nat)
    requires 0 <= column < grid.Length0
    modifies grid
    ensures next == k + Gaps(old(Column(grid, column)))
    ensures Column(grid, column) == Settle(old(Column(grid, column)), pick, k)
    ensures forall i, j :: 0 <= i < grid.Length0 && 0 <= j < grid.Length1 && i != column ==>
              grid[i, j] == old(grid[i, j])
  {
    ghost var col := Column(grid, column);
    var emptyRow := CompactColumn(grid, column);
    next := RefillColumn(grid, column, emptyRow, pick, k);
    SettleAfterCompact(col, pick, k);
  }

  /** Refilling the free rows of the compacted column gives the settled column. */
  lemma SettleAfterCompact(col: seq<Cell>, pick: nat -> nat, k: nat)
    ensures Fresh(Gaps(col), pick, k) + Compact(col)[Gaps(col)..] == Settle(col, pick, k)
  {
  }

  /**
   * The click handler on the ball at (x, y): collect its group; when the
   * group reaches the threshold, free its cells, then let every column fall
   * and refill it. A smaller group changes nothing.
   */
  method HandleClick(grid: array2<Cell>, x: int, y: int, pick: nat -> nat)
    requires 0 <= x < grid.Length0 && 0 <= y < grid.Length1
    modifies grid
    ensures Cells(grid) == Turn(old(Cells(grid)), Pos(x, y), pick)
    ensures |Group(old(Cells(grid)), Pos(x, y))| < ClearThreshold ==> unchanged(grid)
  {
    ghost var b0 := Cells(grid);
    var group := CollectGroup(grid, x, y);
    DistinctCard(group);
    assert Elems(group) == Group(b0, Pos(x, y));
    if |group| >= ClearThreshold {
      forall p | p in group
        ensures InBoard(b0, p)
      {
        GroupSound(b0, Pos(x, y), p);
      }
      ClearGroup(grid, group);
      SettleColumns(grid, pick);
    }
  }

  /** A turn keeps a full board of palette balls full, with palette balls only. */
  lemma TurnKeepsGridFull(b: Board, s: Pos, pick: nat -> nat)
    requires Full(b) && InPalette(b) && ValidDraws(pick)
    ensures |Turn(b, s, pick)| == |b|
    ensures forall x :: 0 <= x < |b| ==> |Turn(b, s, pick)[x]| == |b[x]|
    ensures Full(Turn(b, s, pick)) && InPalette(Turn(b, s, pick))
  {
    var g := Group(b, s);
    if |g| >= ClearThreshold {
      var c := Clear(b, g);
      forall x | 0 <= x < |b|
        ensures |Turn(b, s, pick)[x]| == |b[x]|
        ensures forall y :: 0 <= y < |b[x]| ==> Turn(b, s, pick)[x][y].Occupied? && Turn(b, s, pick)[x][y].colour < |Palette|
      {
        SettleFull(c[x], pick, TotalGaps(c[..x]));
        SettleInPalette(c[x], pick, TotalGaps(c[..x]));
      }
    }
  }

  /** A column holding no cell of the clicked group comes out of the turn unchanged. */
  lemma TurnUntouchedColumn(b: Board, s: Pos, pick: nat -> nat, x: int)
    requires Full(b) && 0 <= x < |b|
    requires forall y :: 0 <= y < |b[x]| ==> Pos(x, y) !in Group(b, s)
    ensures Turn(b, s, pick)[x] == b[x]
  {
    var g := Group(b, s);
    if |g| >= ClearThreshold {
      var c := Clear(b, g);
      assert c[x] == b[x];
      SettleUntouched(b[x], pick, TotalGaps(c[..x]));
    }
  }

  /**
   * In a clearing turn each column of a full board is refilled with exactly
   * as many new balls as the group took from it: the rows below take fresh
   * draws, the rows above hold the column's remaining balls in their order.
   */
  lemma TurnRefillsRemoved(b: Board, s: Pos, pick: nat -> nat, x: int)
    requires Full(b) && 0 <= x < |b| && |Group(b, s)| >= ClearThreshold
    ensures var g := Group(b, s);
            var c := Clear(b, g);
            var m := |RowsIn(b, g, x)|;
            Gaps(c[x]) == m && |Turn(b, s, pick)[x]| == |b[x]| &&
            Turn(b, s, pick)[x][..m] == Fresh(m, pick, TotalGaps(c[..x])) &&
            Turn(b, s, pick)[x][m..] == Survivors(c[x])
  {
    var g := Group(b, s);
    var c := Clear(b, g);
    ClearedRows(b, g, x);
    GapsCountEmptyRows(c[x]);
  }

  /** In a full board the free rows of a cleared column are the rows the set took. */
  lemma ClearedRows(b: Board, g: set<Pos>, x: int)
    requires Full(b) && 0 <= x < |b|
    ensures EmptyRows(Clear(b, g)[x]) == RowsIn(b, g, x)
  {
  }

  /**
   * A clearing turn on a full board uses exactly one draw per removed ball.
   */
  lemma TurnDrawsGroupSize(b: Board, s: Pos)
    requires Full(b) && |Group(b, s)| >= ClearThreshold
    ensures TotalGaps(Clear(b, Group(b, s))) == |Group(b, s)|
  {
    var g := Group(b, s);
    forall p | p in g
      ensures InBoard(b, p)
    {
      GroupSound(b, s, p);
    }
    ClearedPrefix(b, g, |b|);
    assert Clear(b, g)[..|b|] == Clear(b, g);
    assert (set p | p in g && p.x < |b|) == g;
  }

  /**
   * The threshold is inclusive: a group of exactly ClearThreshold balls is
   * cleared and settled, and on a full board it takes exactly that many draws.
   */
  lemma ExactlyThreeClears(b: Board, s: Pos, pick: nat -> nat)
    requires |Group(b, s)| == ClearThreshold
    ensures Turn(b, s, pick) == SettleAll(Clear(b, Group(b, s)), pick)
    ensures Full(b) ==> TotalGaps(Clear(b, Group(b, s))) == ClearThreshold
  {
    if Full(b) {
      TurnDrawsGroupSize(b, s);
    }
  }

  /** The free rows of the first columns of a cleared full board count the cells taken from them. */
  lemma {:induction false} ClearedPrefix(b: Board, g: set<Pos>, n: int)
    requires Full(b) && 0 <= n <= |b|
    requires forall p :: p in g ==> InBoard(b, p)
    ensures TotalGaps(Clear(b, g)[..n]) == |set p | p in g && p.x < n|
  {
    var c := Clear(b, g);
    if n == 0 {
      assert (set p | p in g && p.x < n) == {};
      assert c[..n] == [];
    } else {
      ClearedPrefix(b, g, n - 1);
      assert c[..n][..n - 1] == c[..n - 1];
      var before := set p | p in g && p.x < n - 1;
      var here := set p | p in g && p.x == n - 1;
      assert (set p | p in g && p.x < n) == before + here;
      assert before * here == {};
      ClearedRows(b, g, n - 1);
      GapsCountEmptyRows(c[n - 1]);
      ColumnCount(b, g, n - 1);
    }
  }

  /** The set's cells in column x are as many as the rows they take there. */
  lemma ColumnCount(b: Board, g: set<Pos>, x: int)
    requires 0 <= x < |b|
    requires forall p :: p in g ==> InBoard(b, p)
    ensures |set p | p in g && p.x == x| == |RowsIn(b, g, x)|
  {
    var here := set p | p in g && p.x == x;
    RowsCard(here, x);
    assert (set p | p in here :: p.y) == RowsIn(b, g, x);
  }

  /** Positions of one column are as many as their rows. */
  lemma {:induction false} RowsCard(S: set<Pos>, x: int)
    requires forall p :: p in S ==> p.x == x
    ensures |set p | p in S :: p.y| == |S|
    decreases |S|
  {
    if S != {} {
      var p :| p in S;
      RowsCard(S - {p}, x);
      assert (set q | q in S :: q.y) == (set q | q in S - {p} :: q.y) + {p.y};
    }
  }
}
