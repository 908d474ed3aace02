/**
 * classes.py: a board of `n x n` squares, each square remembering its flat index, row,
 * column, box number and value (0 for an empty cell). Rows and columns are numbered from 0,
 * boxes from 1. `int(math.sqrt(n))` is the floor square root; a board whose size is not a
 * perfect square is outside the model.
 */
module ClassesBoard {

  import opened Wrappers
  import opened Arith
  import opened Geometry
  import opened Units

  datatype Square = Square(index: int, row: int, col: int, subsquare: int, value: int)

  datatype Board = Board(size: nat, side: nat, grid: seq<seq<Square>>)

  /** The square at `(r, c)` of a board of size `n` records that position. */
  predicate Placed(sq: Square, n: nat, side: nat, r: int, c: int)
    requires side > 0
  {
    sq.index == r * n + c && sq.row == r && sq.col == c && sq.subsquare == SubsquareIndex(side, r, c)
  }

  /** The shape `Board.__init__` builds and every operation keeps. */
  predicate WellFormed(b: Board)
  {
    && b.side * b.side == b.size
    && IsGrid(b.grid, b.size)
    && (b.size > 0 ==> b.side > 0)
    && forall r, c :: 0 <= r < b.size && 0 <= c < b.size ==> Placed(b.grid[r][c], b.size, b.side, r, c)
  }

  /** The values of the board, cell by cell. */
  function Values(b: Board): (vals: seq<seq<int>>)
    requires IsGrid(b.grid, b.size)
    ensures IsGrid(vals, b.size)
    ensures forall r, c :: 0 <= r < b.size && 0 <= c < b.size ==> vals[r][c] == b.grid[r][c].value
  {
    seq(b.size, r requires 0 <= r < b.size => ValuesOf(b.grid[r]))
  }

  /** `[sq.value for sq in sqs]`. */
  function ValuesOf(sqs: seq<Square>): (vals: seq<int>)
    ensures |vals| == |sqs| && forall i :: 0 <= i < |sqs| ==> vals[i] == sqs[i].value
  {
    seq(|sqs|, i requires 0 <= i < |sqs| => sqs[i].value)
  }

  /** `Board(preset)`: the squares of an `n x n` preset, `n` a perfect square. */
  function Build(preset: seq<seq<int>>): (b: Board)
    requires forall r :: 0 <= r < |preset| ==> |preset| <= |preset[r]|
    requires ISqrt(|preset|) * ISqrt(|preset|) == |preset|
    ensures WellFormed(b) && b.size == |preset|
    ensures forall r, c :: 0 <= r < b.size && 0 <= c < b.size ==> Values(b)[r][c] == preset[r][c]
  {
    var n, side := |preset|, ISqrt(|preset|);
    Board(n, side, seq(n, r requires 0 <= r < n =>
      seq(n, c requires 0 <= c < n => Square(r * n + c, r, c, SubsquareIndex(side, r, c), preset[r][c]))))
  }

  /** The box numbers recorded in a built board run over `1 .. n`. */
  lemma BuiltSubsquaresInRange(preset: seq<seq<int>>)
    requires forall r :: 0 <= r < |preset| ==> |preset| <= |preset[r]|
    requires ISqrt(|preset|) * ISqrt(|preset|) == |preset|
    ensures var b := Build(preset);
      forall r, c :: 0 <= r < b.size && 0 <= c < b.size ==> 1 <= b.grid[r][c].subsquare <= b.size
  {
    var b := Build(preset);
    forall r, c | 0 <= r < b.size && 0 <= c < b.size
      ensures 1 <= b.grid[r][c].subsquare <= b.size
    {
      SubsquareIndexRange(b.side, r, c);
    }
  }

  // ---------------------------------------------------------------------------------------
  // Rows and columns
  // ---------------------------------------------------------------------------------------

  /**
   * `row(r)` as written: the guard `r <= size` lets `r == size` through to `board[size]`,
   * which raises `IndexError`. Negative `r` counts from the last row.
   */
  function Row(b: Board, r: int): (row: Option<seq<Square>>)
    requires WellFormed(b)
    ensures r > b.size ==> row == Some([])
    ensures r == b.size ==> row == None
    ensures r + b.size < 0 ==> row == None
    ensures 0 <= r < b.size ==> row == Some(b.grid[r])
    ensures 0 <= r + b.size && r < 0 ==> row == Some(b.grid[r + b.size])
  {
    if r <= b.size then PickRow(b.grid, r) else Some([])
  }

  /** `row(r)` with the guard `r < size` the docstring's range `0 .. size-1` calls for. */
  function RowCorrected(b: Board, r: int): (row: Option<seq<Square>>)
    requires WellFormed(b)
    ensures r >= b.size ==> row == Some([])
    ensures r + b.size < 0 ==> row == None
    ensures 0 <= r < b.size ==> row == Some(b.grid[r])
    ensures 0 <= r + b.size && r < 0 ==> row == Some(b.grid[r + b.size])
  {
    if r < b.size then PickRow(b.grid, r) else Some([])
  }

  /** Row `r` of a well-formed board holds the squares of row `r`, in column order. */
  lemma RowHoldsItsSquares(b: Board, r: int)
    requires WellFormed(b) && 0 <= r < b.size
    ensures RowCorrected(b, r).Some? && Row(b, r) == RowCorrected(b, r)
    ensures var row := RowCorrected(b, r).value;
      |row| == b.size && forall c :: 0 <= c < b.size ==> row[c].row == r && row[c].col == c
  {
  }

  /**
   * `col(c)` as written: on a non-empty board `c == size` passes the guard and every
   * `el[size]` raises `IndexError`.
   */
  function Col(b: Board, c: int): (col: Option<seq<Square>>)
    requires WellFormed(b)
    ensures c > b.size ==> col == Some([])
    ensures c == b.size && b.size > 0 ==> col == None
    ensures c + b.size < 0 && b.size > 0 ==> col == None
    ensures 0 <= c < b.size ==> col.Some? && col.value == Column(b.grid, c)
    ensures 0 <= c + b.size && c < 0 ==> col.Some? && col.value == Column(b.grid, c + b.size)
    ensures b.size == 0 && c <= 0 ==> col == Some([])
  {
    if c <= b.size then
      assert b.size > 0 ==> |b.grid[0]| == b.size;
      PickColumn(b.grid, c)
    else Some([])
  }

  /** `col(c)` with the guard `c < size`. */
  function ColCorrected(b: Board, c: int): (col: Option<seq<Square>>)
    requires WellFormed(b)
    ensures c >= b.size ==> col == Some([])
    ensures c + b.size < 0 && b.size > 0 ==> col == None
    ensures 0 <= c < b.size ==> col.Some? && col.value == Column(b.grid, c)
    ensures 0 <= c + b.size && c < 0 ==> col.Some? && col.value == Column(b.grid, c + b.size)
  {
    if c < b.size then
      assert b.size > 0 ==> |b.grid[0]| == b.size;
      PickColumn(b.grid, c)
    else Some([])
  }

  /** Column `c` of a well-formed board holds the squares of column `c`, in row order. */
  lemma ColHoldsItsSquares(b: Board, c: int)
    requires WellFormed(b) && 0 <= c < b.size
    ensures ColCorrected(b, c).Some? && Col(b, c) == ColCorrected(b, c)
    ensures var col := ColCorrected(b, c).value;
      |col| == b.size && forall r :: 0 <= r < b.size ==> col[r].row == r && col[r].col == c
  {
  }

  /** The guard lets `size` through: reading row or column `size` fails where `[]` was meant. */
  lemma IndexSizeFails(b: Board)
    requires WellFormed(b) && b.size > 0
    ensures Row(b, b.size) == None && RowCorrected(b, b.size) == Some([])
    ensures Col(b, b.size) == None && ColCorrected(b, b.size) == Some([])
  {
  }

  // ---------------------------------------------------------------------------------------
  // Subsquares, the flat list and single squares
  // ---------------------------------------------------------------------------------------

  /** `Board.subsquare_index(board, r, c)`. */
  function SubsquareIndexOf(b: Board, r: int, c: int): (k: int)
    requires WellFormed(b) && 0 <= r < b.size && 0 <= c < b.size
    ensures 1 <= k <= b.size
    ensures k == b.grid[r][c].subsquare
  {
    SubsquareIndexRange(b.side, r, c);
    SubsquareIndex(b.side, r, c)
  }

  /** `subsquare(k)`: the squares whose box is `k`, in row-major order. */
  function Subsquare(b: Board, k: int): (sq: seq<Square>)
    requires WellFormed(b)
    ensures !(1 <= k <= b.size) ==> sq == []
    ensures 1 <= k <= b.size ==> |sq| == b.size && forall t :: 0 <= t < |sq| ==> sq[t].subsquare == k
  {
    if 1 <= k <= b.size then
      SubsquareIsBox(b.grid, b.side, k);
      SubsquareRecordsBox(b, k);
      Geometry.Subsquare(b.grid, b.side, k)
    else
      NoCellsOutsideBoxes(b.grid, b.side, k);
      Geometry.Subsquare(b.grid, b.side, k)
  }

  lemma SubsquareRecordsBox(b: Board, k: int)
    requires WellFormed(b) && 1 <= k <= b.size
    ensures forall t :: 0 <= t < b.size ==> BoxCells(b.grid, b.side, k)[t].subsquare == k
  {
    forall t | 0 <= t < b.size
      ensures BoxCells(b.grid, b.side, k)[t].subsquare == k
    {
      BoxCellRecordsBox(b, k, t);
    }
  }

  lemma BoxCellRecordsBox(b: Board, k: int, t: int)
    requires WellFormed(b) && 1 <= k <= b.size && 0 <= t < b.size
    ensures BoxCells(b.grid, b.side, k)[t].subsquare == k
  {
    var side := b.side;
    assert side * side == b.size && side > 0;
    var r, c := ((k - 1) / side) * side + t / side, ((k - 1) % side) * side + t % side;
    BoxCellAt(b.grid, side, k, t);
    var cell := BoxCells(b.grid, side, k)[t];
    assert 0 <= r < b.size && 0 <= c < b.size && cell == b.grid[r][c];
    CellOfBox(side, k, t);
    assert r / side == (k - 1) / side && c / side == (k - 1) % side;
    SubsquareIndexIff(side, r, c, k);
    assert SubsquareIndex(side, r, c) == k;
    assert Placed(b.grid[r][c], b.size, side, r, c);
  }

  /** The values `subsquare(k)` lists are those of the same scan over the board's values. */
  lemma SubsquareValues(b: Board, k: int)
    requires WellFormed(b)
    ensures ValuesOf(Subsquare(b, k)) == Geometry.Subsquare(Values(b), b.side, k)
  {
    if 1 <= k <= b.size {
      SubsquareIsBox(b.grid, b.side, k);
      SubsquareIsBox(Values(b), b.side, k);
      BoxCellsAt(b.grid, b.side, k);
      BoxCellsAt(Values(b), b.side, k);
    } else {
      NoCellsOutsideBoxes(Values(b), b.side, k);
    }
  }

  /** The values of a built board are the preset, when the preset is square. */
  lemma BuildKeepsPreset(preset: seq<seq<int>>)
    requires IsGrid(preset, |preset|)
    requires ISqrt(|preset|) * ISqrt(|preset|) == |preset|
    ensures Values(Build(preset)) == preset
  {
    var b, n := Build(preset), |preset|;
    var vals := Values(b);
    forall r | 0 <= r < n
      ensures vals[r] == preset[r]
    {
      forall c | 0 <= c < n
        ensures vals[r][c] == preset[r][c]
      {
      }
    }
  }

  /** Every square of box `k` is listed by `subsquare(k)`. */
  lemma SubsquareListsEverySquare(b: Board, r: int, c: int)
    requires WellFormed(b) && 0 <= r < b.size && 0 <= c < b.size
    ensures b.grid[r][c] in Subsquare(b, b.grid[r][c].subsquare)
  {
    var side := b.side;
    var k := SubsquareIndexOf(b, r, c);
    SubsquareIndexIff(side, r, c, k);
    SubsquareIsBox(b.grid, side, k);
    OffsetInBox(side, r, c);
    var t := (r % side) * side + c % side;
    BoxCellAt(b.grid, side, k, t);
    assert BoxCells(b.grid, side, k)[t] == b.grid[r][c];
  }

  /** `values_list`: every square, row after row; position `i` holds the square with index `i`. */
  function ValuesList(b: Board): (squares: seq<Square>)
    requires WellFormed(b)
    ensures |squares| == b.size * b.size
    ensures forall i :: 0 <= i < |squares| ==>
      i / b.size < b.size && i % b.size < b.size && squares[i] == b.grid[i / b.size][i % b.size]
    ensures forall i :: 0 <= i < |squares| ==> squares[i].index == i
  {
    var squares := Flatten(b.grid, b.size);
    forall i | 0 <= i < |squares|
      ensures squares[i].index == i
    {
      FlatIndexAt(b, i);
    }
    squares
  }

  lemma FlatIndexAt(b: Board, i: int)
    requires WellFormed(b) && 0 <= i < b.size * b.size
    ensures Flatten(b.grid, b.size)[i].index == i
  {
    var n := b.size;
    assert n > 0 && b.side > 0;
    var r, c := i / n, i % n;
    DivBound(i, n, n);
    assert i == r * n + c;
    var sq := b.grid[r][c];
    assert Flatten(b.grid, n)[i] == sq;
    assert Placed(sq, n, b.side, r, c);
  }

  /** `get_value(r, c)`: the square itself, with Python indexing, or `None` for `IndexError`. */
  function GetValue(b: Board, r: int, c: int): (sq: Option<Square>)
    requires WellFormed(b)
    ensures sq.Some? <==> ValidIndex(r, b.size) && ValidIndex(c, b.size)
    ensures sq.Some? ==> sq.value == b.grid[PyIndex(r, b.size)][PyIndex(c, b.size)]
    ensures sq.Some? ==> sq.value.row == PyIndex(r, b.size) && sq.value.col == PyIndex(c, b.size)
  {
    if ValidIndex(r, b.size) && ValidIndex(c, b.size) then
      Some(b.grid[PyIndex(r, b.size)][PyIndex(c, b.size)])
    else None
  }

  /** The flat index `set_entry` reaches: Python wraps a negative index once around the board. */
  function Target(index: int, n: nat): int
  {
    if index < 0 then index + n * n else index
  }

  /**
   * `set_entry(index, value)`: row `index // n`, column `index % n`. `None` when the
   * division fails (`n == 0`) or the row index is out of range.
   */
  function SetEntry(b: Board, index: int, value: int): (r: Option<Board>)
    requires WellFormed(b)
    ensures r.Some? <==> b.size > 0 && 0 <= index + b.size * b.size && index < b.size * b.size
    ensures r.Some? ==> WellFormed(r.value) && r.value.size == b.size && r.value.side == b.side
    ensures r.Some? ==> forall rr, cc :: 0 <= rr < b.size && 0 <= cc < b.size ==>
      r.value.grid[rr][cc] ==
        if b.grid[rr][cc].index == Target(index, b.size) then b.grid[rr][cc].(value := value) else b.grid[rr][cc]
  {
    var n: int := b.size;
    if n == 0 then None
    else
      var row, col := index / n, index % n;
      DivLower(index, n, -n);
      DivLower(index, n, n);
      assert -n * n == -(n * n);
      if !ValidIndex(row, n) then None
      else
        var R := PyIndex(row, n);
        SetEntryHitsTarget(b, index);
        var sq := b.grid[R][col];
        Some(b.(grid := b.grid[R := b.grid[R][col := sq.(value := value)]]))
  }

  /** The square `set_entry` writes is the one whose index is the wrapped `index`, and only it. */
  lemma SetEntryHitsTarget(b: Board, index: int)
    requires WellFormed(b) && b.size > 0 && ValidIndex(index / b.size, b.size)
    ensures var n := b.size;
      var R, col := PyIndex(index / n, n), index % n;
      forall rr, cc :: 0 <= rr < n && 0 <= cc < n ==> (b.grid[rr][cc].index == Target(index, n) <==> rr == R && cc == col)
  {
    var n := b.size;
    var R, col := PyIndex(index / n, n), index % n;
    assert index == (index / n) * n + col;
    assert R * n + col == Target(index, n) by {
      var q := index / n;
      DivLower(index, n, 0);
      if q < 0 {
        assert R == q + n;
        assert (q + n) * n == q * n + n * n;
      } else {
        assert R == q;
      }
    }
    forall rr, cc | 0 <= rr < n && 0 <= cc < n
      ensures b.grid[rr][cc].index == Target(index, n) <==> rr == R && cc == col
    {
      PositionsDiffer(n, rr, cc, R, col);
    }
  }

  /** Distinct cells have distinct flat indices. */
  lemma PositionsDiffer(n: nat, r1: int, c1: int, r2: int, c2: int)
    requires n > 0 && 0 <= c1 < n && 0 <= c2 < n
    ensures r1 * n + c1 == r2 * n + c2 <==> r1 == r2 && c1 == c2
  {
    DivModOf(r1, c1, n);
    DivModOf(r2, c2, n);
  }

  /** Reading back the square `set_entry` wrote gives the new value. */
  lemma SetEntryThenGetValue(b: Board, index: int, value: int)
    requires WellFormed(b) && b.size > 0 && 0 <= index + b.size * b.size && index < b.size * b.size
    ensures var b' := SetEntry(b, index, value).value;
      GetValue(b', index / b.size, index % b.size).Some? &&
      GetValue(b', index / b.size, index % b.size).value.value == value
  {
    var n: int := b.size;
    DivLower(index, n, -n);
    DivLower(index, n, n);
    assert -n * n == -(n * n);
    SetEntryHitsTarget(b, index);
  }

  // ---------------------------------------------------------------------------------------
  // check_valid
  // ---------------------------------------------------------------------------------------

  /** Row `i` passes the `len(r) == len(set(r))` test on its non-zero values. */
  predicate RowPasses(b: Board, i: int)
    requires WellFormed(b) && 0 <= i < b.size
  {
    SetTest(ValuesOf(RowCorrected(b, i).value), 0)
  }

  /** Column `i` passes the same test. */
  predicate ColPasses(b: Board, i: int)
    requires WellFormed(b) && 0 <= i < b.size
  {
    SetTest(ValuesOf(ColCorrected(b, i).value), 0)
  }

  /** Box `k` passes the same test. */
  predicate BoxPasses(b: Board, k: int)
    requires WellFormed(b)
  {
    SetTest(ValuesOf(Subsquare(b, k)), 0)
  }

  /** Round `i` of the loop: row `i`, column `i` and box `i + 1`. */
  predicate UnitsPass(b: Board, i: int)
    requires WellFormed(b) && 0 <= i < b.size
  {
    RowPasses(b, i) && ColPasses(b, i) && BoxPasses(b, i + 1)
  }

  /**
   * `check_valid`: no non-zero value repeats within a row, a column or a box. (The
   * source returns at the first failing unit; the verdict is the same.)
   */
  function CheckValid(b: Board): (ok: bool)
    requires WellFormed(b)
    ensures ok <==>
      && RowsDistinct(Values(b), b.size, 0)
      && ColsDistinct(Values(b), b.size, 0)
      && BoxesDistinct(Values(b), b.side, 0)
  {
    CheckValidMeansDistinct(b);
    forall i :: 0 <= i < b.size ==> UnitsPass(b, i)
  }

  /** Row `i` of `check_valid` is row `i` of `Values(b)`. */
  lemma RowIsValues(b: Board, i: int)
    requires WellFormed(b) && 0 <= i < b.size
    ensures RowPasses(b, i) <==> NoRepeat(Values(b)[i], 0)
  {
    assert ValuesOf(RowCorrected(b, i).value) == Values(b)[i];
    SetTestIffNoRepeat(Values(b)[i], 0);
  }

  /** Column `i` of `check_valid` is column `i` of `Values(b)`. */
  lemma ColIsValues(b: Board, i: int)
    requires WellFormed(b) && 0 <= i < b.size
    ensures ColPasses(b, i) <==> NoRepeat(Column(Values(b), i), 0)
  {
    assert ValuesOf(ColCorrected(b, i).value) == Column(Values(b), i);
    SetTestIffNoRepeat(Column(Values(b), i), 0);
  }

  /** Box `k` of `check_valid` is box `k` of `Values(b)`. */
  lemma BoxIsValues(b: Board, k: int)
    requires WellFormed(b) && 1 <= k <= b.size
    ensures BoxPasses(b, k) <==> NoRepeat(BoxCells(Values(b), b.side, k), 0)
  {
    SubsquareValues(b, k);
    SubsquareIsBox(Values(b), b.side, k);
    SetTestIffNoRepeat(BoxCells(Values(b), b.side, k), 0);
  }

  /** Every unit the loop checks is a row, a column or a box, and the rounds reach them all. */
  predicate AllUnitsPass(b: Board)
    requires WellFormed(b)
  {
    && (forall i :: 0 <= i < b.size ==> RowPasses(b, i))
    && (forall i :: 0 <= i < b.size ==> ColPasses(b, i))
    && (forall k :: 1 <= k <= b.size ==> BoxPasses(b, k))
  }

  lemma RoundsCoverUnits(b: Board)
    requires WellFormed(b)
    ensures (forall i :: 0 <= i < b.size ==> UnitsPass(b, i)) <==> AllUnitsPass(b)
  {
    if forall i :: 0 <= i < b.size ==> UnitsPass(b, i) {
      RoundsReachUnits(b);
    }
    if AllUnitsPass(b) {
      forall i | 0 <= i < b.size
        ensures UnitsPass(b, i)
      {
        assert BoxPasses(b, i + 1);
      }
    }
  }

  lemma RoundsReachUnits(b: Board)
    requires WellFormed(b) && forall i :: 0 <= i < b.size ==> UnitsPass(b, i)
    ensures AllUnitsPass(b)
  {
    forall i | 0 <= i < b.size
      ensures RowPasses(b, i) && ColPasses(b, i)
    {
      assert UnitsPass(b, i);
    }
    forall k | 1 <= k <= b.size
      ensures BoxPasses(b, k)
    {
      assert UnitsPass(b, k - 1);
    }
  }

  lemma CheckValidMeansDistinct(b: Board)
    requires WellFormed(b)
    ensures (forall i :: 0 <= i < b.size ==> UnitsPass(b, i)) <==>
      && RowsDistinct(Values(b), b.size, 0)
      && ColsDistinct(Values(b), b.size, 0)
      && BoxesDistinct(Values(b), b.side, 0)
  {
    var vals := Values(b);
    RoundsCoverUnits(b);
    forall i | 0 <= i < b.size
      ensures RowPasses(b, i) <==> NoRepeat(vals[i], 0)
      ensures ColPasses(b, i) <==> NoRepeat(Column(vals, i), 0)
    {
      RowIsValues(b, i);
      ColIsValues(b, i);
    }
    forall k | 1 <= k <= b.size
      ensures BoxPasses(b, k) <==> NoRepeat(BoxCells(vals, b.side, k), 0)
    {
      BoxIsValues(b, k);
    }
    RowsIff(vals, b.size, 0);
    ColsIff(vals, b.size, 0);
    BoxesIff(vals, b.side, 0);
  }
}
