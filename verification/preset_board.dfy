/**
 * board2.py: a board that keeps the preset itself (a list of `n` rows of `n` values) and
 * numbers its rows and columns from 1. Its box numbering and box scan are those of
 * classes.py, so the two board classes see the same units of the same values.
 */
module PresetBoard {

  import opened Wrappers
  import opened Arith
  import opened Geometry
  import opened Units
  import ClassesBoard

  datatype Board = Board(size: nat, side: nat, grid: seq<seq<int>>)

  /** An `n x n` board whose size is the square of its box side. */
  predicate WellFormed(b: Board)
  {
    b.side * b.side == b.size && IsGrid(b.grid, b.size)
  }

  /** `Board(preset)`: the size is the number of rows and the preset is kept as it is. */
  function Create(preset: seq<seq<int>>): (b: Board)
    requires IsGrid(preset, |preset|) && ISqrt(|preset|) * ISqrt(|preset|) == |preset|
    ensures WellFormed(b) && b.size == |preset| && b.grid == preset
  {
    Board(|preset|, ISqrt(|preset|), preset)
  }

  /** `Board.subsquare_index(board, r, c)`: the box whose band rows and band columns hold `(r, c)`. */
  function SubsquareIndexOf(b: Board, r: int, c: int): (k: int)
    requires WellFormed(b) && 0 <= r < b.size && 0 <= c < b.size
    ensures 1 <= k <= b.size
    ensures r / b.side == (k - 1) / b.side && c / b.side == (k - 1) % b.side
  {
    var k := SubsquareIndex(b.side, r, c);
    SubsquareIndexRange(b.side, r, c);
    SubsquareIndexIff(b.side, r, c, k);
    k
  }

  /**
   * `row(k)`, numbered from 1: rows `1 .. n` are the preset's rows. The guard only bounds
   * `k` from above, so `k - 1` reaches Python's negative indexing: `row(0)` is the last row
   * and anything below `1 - n` is an `IndexError`.
   */
  function Row(b: Board, k: int): (row: Option<seq<int>>)
    requires WellFormed(b)
    ensures k > b.size ==> row == Some([])
    ensures 1 <= k <= b.size ==> row == Some(b.grid[k - 1])
    ensures k <= 0 && 1 <= k + b.size ==> row == Some(b.grid[k - 1 + b.size])
    ensures k + b.size < 1 ==> row == None
  {
    if k <= b.size then PickRow(b.grid, k - 1) else Some([])
  }

  /** `col(k)`, numbered from 1, with the same guard as `row`. */
  function Col(b: Board, k: int): (col: Option<seq<int>>)
    requires WellFormed(b)
    ensures k > b.size ==> col == Some([])
    ensures 1 <= k <= b.size ==> col.Some? && col.value == Column(b.grid, k - 1)
    ensures k <= 0 && 1 <= k + b.size ==> col.Some? && col.value == Column(b.grid, k - 1 + b.size)
    ensures k + b.size < 1 && b.size > 0 ==> col == None
    ensures b.size == 0 && k <= 0 ==> col == Some([])
  {
    if k <= b.size then
      assert b.size > 0 ==> |b.grid[0]| == b.size;
      PickColumn(b.grid, k - 1)
    else Some([])
  }

  /** `subsquare(k)`: the `n` values of box `k`, row by row; nothing for a box that does not exist. */
  function Subsquare(b: Board, k: int): (sq: seq<int>)
    requires WellFormed(b)
    ensures !(1 <= k <= b.size) ==> sq == []
    ensures 1 <= k <= b.size ==> sq == BoxCells(b.grid, b.side, k) && |sq| == b.size
  {
    if 1 <= k <= b.size then
      SubsquareIsBox(b.grid, b.side, k);
      Geometry.Subsquare(b.grid, b.side, k)
    else
      NoCellsOutsideBoxes(b.grid, b.side, k);
      Geometry.Subsquare(b.grid, b.side, k)
  }

  /** Entry `t` of `subsquare(k)` is the cell at offset `t` of box `k`, and that cell's box number is `k`. */
  lemma EntryInBox(b: Board, k: int, t: int)
    requires WellFormed(b) && 1 <= k <= b.size && 0 <= t < b.size
    ensures var side := b.side;
      var r, c := ((k - 1) / side) * side + t / side, ((k - 1) % side) * side + t % side;
      0 <= r < b.size && 0 <= c < b.size && SubsquareIndex(side, r, c) == k && Subsquare(b, k)[t] == b.grid[r][c]
  {
    var side := b.side;
    var r, c := ((k - 1) / side) * side + t / side, ((k - 1) % side) * side + t % side;
    BoxCellAt(b.grid, side, k, t);
    var cell := BoxCells(b.grid, side, k)[t];
    assert 0 <= r < b.size && 0 <= c < b.size && cell == b.grid[r][c];
    CellOfBox(side, k, t);
    SubsquareIndexIff(side, r, c, k);
  }

  /** Every cell whose box number is `k` is listed by `subsquare(k)`, at its offset within the box. */
  lemma CellListed(b: Board, k: int, r: int, c: int)
    requires WellFormed(b) && 1 <= k <= b.size
    requires 0 <= r < b.size && 0 <= c < b.size && SubsquareIndex(b.side, r, c) == k
    ensures var side := b.side;
      var t := (r % side) * side + c % side;
      0 <= t < b.size && Subsquare(b, k)[t] == b.grid[r][c]
  {
    var side := b.side;
    SubsquareIndexIff(side, r, c, k);
    OffsetInBox(side, r, c);
    var t := (r % side) * side + c % side;
    BoxCellAt(b.grid, side, k, t);
    var cell := BoxCells(b.grid, side, k)[t];
    assert cell == b.grid[((k - 1) / side) * side + t / side][((k - 1) % side) * side + t % side];
  }

  /**
   * board2.py's 1-based row `k` and column `k` are classes.py's 0-based row and column
   * `k - 1`, and both classes list the same values in box `k`, for every `k`.
   */
  lemma AgreesWithSquares(preset: seq<seq<int>>, k: int)
    requires IsGrid(preset, |preset|) && ISqrt(|preset|) * ISqrt(|preset|) == |preset|
    requires 1 <= k <= |preset|
    ensures var squares, plain := ClassesBoard.Build(preset), Create(preset);
      && ClassesBoard.Row(squares, k - 1).Some?
      && ClassesBoard.ValuesOf(ClassesBoard.Row(squares, k - 1).value) == Row(plain, k).value
      && ClassesBoard.Col(squares, k - 1).Some?
      && ClassesBoard.ValuesOf(ClassesBoard.Col(squares, k - 1).value) == Col(plain, k).value
  {
    var squares, plain := ClassesBoard.Build(preset), Create(preset);
    ClassesBoard.BuildKeepsPreset(preset);
    assert ClassesBoard.Values(squares) == preset;
    var sqRow := ClassesBoard.Row(squares, k - 1).value;
    assert ClassesBoard.ValuesOf(sqRow) == preset[k - 1];
    var sqCol := ClassesBoard.Col(squares, k - 1).value;
    assert ClassesBoard.ValuesOf(sqCol) == Column(preset, k - 1);
  }

  /** Both board classes list the same values in box `k`, for every `k`. */
  lemma SubsquaresAgree(preset: seq<seq<int>>, k: int)
    requires IsGrid(preset, |preset|) && ISqrt(|preset|) * ISqrt(|preset|) == |preset|
    ensures ClassesBoard.ValuesOf(ClassesBoard.Subsquare(ClassesBoard.Build(preset), k)) ==
      Subsquare(Create(preset), k)
  {
    var squares := ClassesBoard.Build(preset);
    ClassesBoard.BuildKeepsPreset(preset);
    ClassesBoard.SubsquareValues(squares, k);
  }
}
