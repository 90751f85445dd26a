/**
 * The board of the three-in-a-row game: its cells, positions, the constants
 * of the game and the initial population of the grid.
 *
 * The grid is stored column-major, as in the game: grid[x, y] is the cell of
 * column x, row y. World height grows with the row index, so "the highest
 * row index" is what the screen shows on top; everything here is stated in
 * terms of indices.
 */
module Grid {

  /** Number of columns and of rows of the board. */
  const GridSize: nat := 8

  /** The colours a ball can take; a ball stores its index into this list. */
  const Palette: seq<int> := [0xff0000, 0x00ff00, 0x0000ff, 0xffff00, 0xff00ff]

  /** A group of same-coloured balls is removed when it has at least this many. */
  const ClearThreshold: nat := 3

  /** A cell is either empty (the game's null) or holds a ball of a palette colour. */
  datatype Cell = Empty | Occupied(colour: nat)

  /** A grid coordinate: column x, row y. */
  datatype Pos = Pos(x: int, y: int)

  /** A board as a value: b[x][y] is the cell of column x, row y. */
  type Board = seq<seq<Cell>>

  predicate InBoard(b: Board, p: Pos)
  {
    0 <= p.x < |b| && 0 <= p.y < |b[p.x]|
  }

  function At(b: Board, p: Pos): Cell
    requires InBoard(b, p)
  {
    b[p.x][p.y]
  }

  /** Every cell of the board holds a ball. */
  predicate Full(b: Board)
  {
    forall x, y :: 0 <= x < |b| && 0 <= y < |b[x]| ==> b[x][y].Occupied?
  }

  /** Every ball on the board has a colour of the palette. */
  predicate InPalette(b: Board)
  {
    forall x, y :: 0 <= x < |b| && 0 <= y < |b[x]| && b[x][y].Occupied? ==> b[x][y].colour < |Palette|
  }

  /** The injected random source only yields palette indices. */
  ghost predicate ValidDraws(pick: nat -> nat)
  {
    forall k :: pick(k) < |Palette|
  }

  /** Column x of the grid, as a sequence indexed by row. */
  ghost function Column(grid: array2<Cell>, x: int): (col: seq<Cell>)
    requires 0 <= x < grid.Length0
    reads grid
    ensures |col| == grid.Length1
    ensures forall y :: 0 <= y < grid.Length1 ==> col[y] == grid[x, y]
  {
    seq(grid.Length1, y requires 0 <= y < grid.Length1 reads grid => grid[x, y])
  }

  /** The whole grid as a board value. */
  ghost function Cells(grid: array2<Cell>): (b: Board)
    reads grid
    ensures |b| == grid.Length0
    ensures forall x :: 0 <= x < grid.Length0 ==> b[x] == Column(grid, x)
  {
    seq(grid.Length0, x requires 0 <= x < grid.Length0 reads grid => Column(grid, x))
  }

  /** A board value that agrees with the grid cell by cell is its snapshot. */
  lemma CellsAre(grid: array2<Cell>, b: Board)
    requires |b| == grid.Length0
    requires forall x :: 0 <= x < |b| ==> |b[x]| == grid.Length1
    requires forall x, y :: 0 <= x < grid.Length0 && 0 <= y < grid.Length1 ==> grid[x, y] == b[x][y]
    ensures Cells(grid) == b
  {
    forall x | 0 <= x < |b|
      ensures Cells(grid)[x] == b[x]
    {
      assert Column(grid, x) == b[x];
    }
  }

  /**
   * The start-up population: a GridSize x GridSize grid whose every cell gets
   * a ball, column by column and row by row, the k-th ball taking the k-th
   * injected palette index.
   */
  method NewGrid(pick: nat -> nat) returns (grid: array2<Cell>)
    ensures fresh(grid)
    ensures grid.Length0 == GridSize && grid.Length1 == GridSize
    ensures forall x, y :: 0 <= x < GridSize && 0 <= y < GridSize ==> grid[x, y] == Occupied(pick(x * GridSize + y))
    ensures Full(Cells(grid))
    ensures ValidDraws(pick) ==> InPalette(Cells(grid))
  {
    grid := new Cell[GridSize, GridSize];
    for x := 0 to GridSize
      invariant forall i, j :: 0 <= i < x && 0 <= j < GridSize ==> grid[i, j] == Occupied(pick(i * GridSize + j))
    {
      for y := 0 to GridSize
        invariant forall i, j :: 0 <= i < x && 0 <= j < GridSize ==> grid[i, j] == Occupied(pick(i * GridSize + j))
        invariant forall j :: 0 <= j < y ==> grid[x, j] == Occupied(pick(x * GridSize + j))
      {
        grid[x, y] := Occupied(pick(x * GridSize + y));
      }
    }
  }
}
