/**
 * board.py: a board of `size x size` cells, each holding a mark or the blank `' '`. It is
 * built from a given grid or generated with every cell distinct, and checked row by row,
 * column by column and box by box with a running set of the marks seen so far.
 */
module BlankBoard {

  import opened Wrappers
  import opened Arith
  import opened Geometry
  import opened Units
  import ClassesBoard

  /** A cell: the blank `' '`, or a mark. */
  datatype Cell = Blank | Mark(value: int)

  datatype Board = Board(size: int, grid: seq<seq<Cell>>)

  /** `Board(size, board)`: the given grid, or the generated one when none is given (the default size is 9). */
  function Create(size: int, board: Option<seq<seq<Cell>>>): (b: Board)
    ensures b.size == size
    ensures board.Some? ==> b.grid == board.value
    ensures board.None? ==> b.grid == Generate(size)
  {
    Board(size, if board.Some? then board.value else Generate(size))
  }

  /** `__generate_board`: cell `(j, i)` is marked `i + j * size`. */
  function Generate(size: int): (g: seq<seq<Cell>>)
    ensures size <= 0 ==> g == []
    ensures size >= 0 ==> IsGrid(g, size)
    ensures forall j, i :: 0 <= j < size && 0 <= i < size ==> g[j][i] == Mark(i + j * size)
  {
    if size <= 0 then []
    else seq(size, j requires 0 <= j < size => seq(size, i requires 0 <= i < size => Mark(i + j * size)))
  }

  /** No cell is blank. */
  predicate Filled(g: seq<seq<Cell>>, n: nat)
    requires IsGrid(g, n)
  {
    forall r, c :: 0 <= r < n && 0 <= c < n ==> g[r][c] != Blank
  }

  /** Rows, columns and boxes all keep their marks distinct. */
  predicate Valid(g: seq<seq<Cell>>, side: nat)
    requires IsGrid(g, side * side)
  {
    RowsDistinct(g, side * side, Blank) && ColsDistinct(g, side * side, Blank) && BoxesDistinct(g, side, Blank)
  }

  /** `is_filled`: cell `i` of the flattened board is row `i // size`, column `i % size`. */
  method IsFilled(b: Board) returns (ok: bool)
    requires b.size >= 0 && IsGrid(b.grid, b.size)
    ensures ok <==> Filled(b.grid, b.size)
  {
    var n: nat := b.size;
    for i := 0 to n * n
      invariant forall j :: 0 <= j < i ==> j / n < n && b.grid[j / n][j % n] != Blank
    {
      DivBound(i, n, n);
      if b.grid[i / n][i % n] == Blank {
        return false;
      }
    }
    forall r, c | 0 <= r < n && 0 <= c < n
      ensures b.grid[r][c] != Blank
    {
      BoxOrigin(n, r, c);
      DivModOf(r, c, n);
      assert b.grid[(r * n + c) / n][(r * n + c) % n] != Blank;
    }
    return true;
  }

  /**
   * The scan shared by the three checks: walk the unit, fail on a mark already in the set,
   * add every other non-blank cell to it.
   */
  method ScanUnit(xs: seq<Cell>) returns (ok: bool)
    ensures ok <==> NoRepeat(xs, Blank)
  {
    var seen: set<Cell> := {};
    for i := 0 to |xs|
      invariant seen == set j | 0 <= j < i && xs[j] != Blank :: xs[j]
      invariant NoRepeat(xs[..i], Blank)
    {
      if xs[i] in seen {
        var j :| 0 <= j < i && xs[j] != Blank && xs[j] == xs[i];
        assert 0 <= j < |xs| && 0 <= i < |xs| && j != i && xs[j] != Blank && xs[j] == xs[i];
        return false;
      } else if xs[i] != Blank {
        seen := seen + {xs[i]};
      }
      assert forall j :: 0 <= j < i ==> xs[..i + 1][j] == xs[..i][j];
    }
    assert xs[..|xs|] == xs;
    return true;
  }

  /** `valid_rows`. */
  method ValidRows(b: Board) returns (ok: bool)
    requires b.size >= 0 && IsGrid(b.grid, b.size)
    ensures ok <==> RowsDistinct(b.grid, b.size, Blank)
  {
    RowsIff(b.grid, b.size, Blank);
    for row := 0 to b.size
      invariant forall r :: 0 <= r < row ==> NoRepeat(b.grid[r], Blank)
    {
      var rowOk := ScanUnit(b.grid[row]);
      if !rowOk {
        return false;
      }
    }
    return true;
  }

  /** `valid_cols`. */
  method ValidCols(b: Board) returns (ok: bool)
    requires b.size >= 0 && IsGrid(b.grid, b.size)
    ensures ok <==> ColsDistinct(b.grid, b.size, Blank)
  {
    ColsIff(b.grid, b.size, Blank);
    for col := 0 to b.size
      invariant forall c :: 0 <= c < col ==> NoRepeat(Column(b.grid, c), Blank)
    {
      var colOk := ScanUnit(Column(b.grid, col));
      if !colOk {
        return false;
      }
    }
    return true;
  }

  /**
   * `valid_boxes`: the boxes start at rows and columns `0, s, 2s, ...` for
   * `s = int(math.sqrt(size))`, and the box at band `(bi, bj)` is box `bi * s + bj + 1`,
   * whose cells `BoxCells` lists in the order of the inner `k`, `l` loops. A size of 0 makes
   * the step of `range` zero, which Python refuses (`None`).
   */
  method ValidBoxes(b: Board) returns (ok: Option<bool>)
    requires b.size >= 0 && IsGrid(b.grid, b.size) && ISqrt(b.size) * ISqrt(b.size) == b.size
    ensures ok.None? <==> b.size == 0
    ensures ok.Some? ==> (ok.value <==> BoxesDistinct(b.grid, ISqrt(b.size), Blank))
  {
    var side := ISqrt(b.size);
    if side == 0 {
      return None;
    }
    BoxesIff(b.grid, side, Blank);
    for bi := 0 to side
      invariant bi * side <= side * side
      invariant forall k :: 1 <= k <= bi * side ==> NoRepeat(BoxCells(b.grid, side, k), Blank)
    {
      BoxOrigin(side, bi, side - 1);
      var bandOk := ValidBand(b.grid, side, bi * side);
      if !bandOk {
        var k :| bi * side < k <= bi * side + side && !NoRepeat(BoxCells(b.grid, side, k), Blank);
        assert 1 <= k <= side * side;
        return Some(false);
      }
      assert (bi + 1) * side == bi * side + side;
    }
    return Some(true);
  }

  /**
   * One pass of the outer loop of `valid_boxes`: the boxes whose top row is `i`, left to
   * right; the box at column `j` of that band is box `i + j / side + 1`.
   */
  method ValidBand(g: seq<seq<Cell>>, side: nat, i: nat) returns (ok: bool)
    requires side > 0 && IsGrid(g, side * side) && i + side <= side * side
    ensures ok <==> forall k :: i < k <= i + side ==> NoRepeat(BoxCells(g, side, k), Blank)
  {
    for bj := 0 to side
      invariant forall k :: i < k <= i + bj ==> NoRepeat(BoxCells(g, side, k), Blank)
    {
      var k := i + bj + 1;
      var boxOk := ScanUnit(BoxCells(g, side, k));
      if !boxOk {
        assert i < k <= i + side && !NoRepeat(BoxCells(g, side, k), Blank);
        return false;
      }
    }
    return true;
  }

  /** `is_valid`: rows, then columns, then boxes, stopping at the first failure. */
  method IsValid(b: Board) returns (ok: Option<bool>)
    requires b.size >= 0 && IsGrid(b.grid, b.size) && ISqrt(b.size) * ISqrt(b.size) == b.size
    ensures ok.None? <==> b.size == 0
    ensures ok.Some? ==> (ok.value <==> Valid(b.grid, ISqrt(b.size)))
  {
    var rows := ValidRows(b);
    if !rows {
      return Some(false);
    }
    var cols := ValidCols(b);
    if !cols {
      return Some(false);
    }
    ok := ValidBoxes(b);
  }

  // ---------------------------------------------------------------------------------------
  // The generated board
  // ---------------------------------------------------------------------------------------

  /** Two different cells of the generated board carry different marks. */
  lemma GeneratedMarksDiffer(size: nat, r1: int, c1: int, r2: int, c2: int)
    requires 0 <= r1 < size && 0 <= c1 < size && 0 <= r2 < size && 0 <= c2 < size
    requires r1 != r2 || c1 != c2
    ensures Generate(size)[r1][c1] != Generate(size)[r2][c2]
  {
    DivModOf(r1, c1, size);
    DivModOf(r2, c2, size);
  }

  /** The generated board is filled, and valid whenever its size is a perfect square. */
  lemma GeneratedIsFilledAndValid(side: nat)
    ensures var g := Generate(side * side);
      Filled(g, side * side) && Valid(g, side)
  {
    var n := side * side;
    var g := Generate(n);
    forall r, c1, c2 | 0 <= r < n && 0 <= c1 < n && 0 <= c2 < n && c1 != c2 && g[r][c1] != Blank
      ensures g[r][c1] != g[r][c2]
    {
      GeneratedMarksDiffer(n, r, c1, r, c2);
    }
    forall c, r1, r2 | 0 <= c < n && 0 <= r1 < n && 0 <= r2 < n && r1 != r2 && g[r1][c] != Blank
      ensures g[r1][c] != g[r2][c]
    {
      GeneratedMarksDiffer(n, r1, c, r2, c);
    }
    forall r1, c1, r2, c2 |
      0 <= r1 < n && 0 <= c1 < n && 0 <= r2 < n && 0 <= c2 < n &&
      (r1 != r2 || c1 != c2) && r1 / side == r2 / side && c1 / side == c2 / side && g[r1][c1] != Blank
      ensures g[r1][c1] != g[r2][c2]
    {
      GeneratedMarksDiffer(n, r1, c1, r2, c2);
    }
  }

  // ---------------------------------------------------------------------------------------
  // Agreement with classes.py
  // ---------------------------------------------------------------------------------------

  /** The same board with classes.py's blank 0 written as `' '`. */
  function Relabel(preset: seq<seq<int>>): (g: seq<seq<Cell>>)
    ensures |g| == |preset|
    ensures forall r :: 0 <= r < |g| ==> |g[r]| == |preset[r]|
    ensures forall r, c :: 0 <= r < |g| && 0 <= c < |g[r]| ==>
      (g[r][c] == Blank <==> preset[r][c] == 0) && (g[r][c] != Blank ==> g[r][c].value == preset[r][c])
  {
    seq(|preset|, r requires 0 <= r < |preset| =>
      seq(|preset[r]|, c requires 0 <= c < |preset[r]| => if preset[r][c] == 0 then Blank else Mark(preset[r][c])))
  }

  /**
   * classes.py's `check_valid` on a preset and board.py's `is_valid` on the same preset,
   * its zeros written as blanks, reach the same verdict.
   */
  lemma CheckValidAgrees(preset: seq<seq<int>>)
    requires IsGrid(preset, |preset|) && ISqrt(|preset|) * ISqrt(|preset|) == |preset|
    ensures ClassesBoard.CheckValid(ClassesBoard.Build(preset)) <==> Valid(Relabel(preset), ISqrt(|preset|))
  {
    ClassesBoard.BuildKeepsPreset(preset);
    RelabelKeepsRows(preset);
    RelabelKeepsCols(preset);
    RelabelKeepsBoxes(preset, ISqrt(|preset|));
  }

  lemma RelabelKeepsRows(preset: seq<seq<int>>)
    requires IsGrid(preset, |preset|)
    ensures RowsDistinct(preset, |preset|, 0) <==> RowsDistinct(Relabel(preset), |preset|, Blank)
  {
    var n, g := |preset|, Relabel(preset);
    if RowsDistinct(preset, n, 0) {
      forall r, c1, c2 | 0 <= r < n && 0 <= c1 < n && 0 <= c2 < n && c1 != c2 && g[r][c1] != Blank
        ensures g[r][c1] != g[r][c2]
      {
        assert preset[r][c1] != preset[r][c2];
      }
    }
    if RowsDistinct(g, n, Blank) {
      forall r, c1, c2 | 0 <= r < n && 0 <= c1 < n && 0 <= c2 < n && c1 != c2 && preset[r][c1] != 0
        ensures preset[r][c1] != preset[r][c2]
      {
        assert g[r][c1] != g[r][c2];
      }
    }
  }

  lemma RelabelKeepsCols(preset: seq<seq<int>>)
    requires IsGrid(preset, |preset|)
    ensures ColsDistinct(preset, |preset|, 0) <==> ColsDistinct(Relabel(preset), |preset|, Blank)
  {
    var n, g := |preset|, Relabel(preset);
    if ColsDistinct(preset, n, 0) {
      forall c, r1, r2 | 0 <= c < n && 0 <= r1 < n && 0 <= r2 < n && r1 != r2 && g[r1][c] != Blank
        ensures g[r1][c] != g[r2][c]
      {
        assert preset[r1][c] != preset[r2][c];
      }
    }
    if ColsDistinct(g, n, Blank) {
      forall c, r1, r2 | 0 <= c < n && 0 <= r1 < n && 0 <= r2 < n && r1 != r2 && preset[r1][c] != 0
        ensures preset[r1][c] != preset[r2][c]
      {
        assert g[r1][c] != g[r2][c];
      }
    }
  }

  lemma RelabelKeepsBoxes(preset: seq<seq<int>>, side: nat)
    requires IsGrid(preset, side * side)
    ensures BoxesDistinct(preset, side, 0) <==> BoxesDistinct(Relabel(preset), side, Blank)
  {
    var n, g := side * side, Relabel(preset);
    if BoxesDistinct(preset, side, 0) {
      forall r1, c1, r2, c2 |
        0 <= r1 < n && 0 <= c1 < n && 0 <= r2 < n && 0 <= c2 < n &&
        (r1 != r2 || c1 != c2) && r1 / side == r2 / side && c1 / side == c2 / side && g[r1][c1] != Blank
        ensures g[r1][c1] != g[r2][c2]
      {
        assert preset[r1][c1] != preset[r2][c2];
      }
    }
    if BoxesDistinct(g, side, Blank) {
      forall r1, c1, r2, c2 |
        0 <= r1 < n && 0 <= c1 < n && 0 <= r2 < n && 0 <= c2 < n &&
        (r1 != r2 || c1 != c2) && r1 / side == r2 / side && c1 / side == c2 / side && preset[r1][c1] != 0
        ensures preset[r1][c1] != preset[r2][c2]
      {
        assert g[r1][c1] != g[r2][c2];
      }
    }
  }
}
