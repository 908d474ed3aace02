/**
 * Grid geometry shared by the board classes: a board of size `n = side * side` is a list
 * of `n` rows of `n` cells, split into `n` boxes ("subsquares") of `side * side` cells,
 * numbered from 1 across and then down. Rows and columns are read with Python's list
 * indexing, so negative indices count from the end and anything else is an `IndexError`
 * (`None` here).
 */
module Geometry {

  import opened Wrappers
  import opened Arith

  /** `g` has `n` rows of `n` cells. */
  predicate IsGrid<T>(g: seq<seq<T>>, n: nat)
  {
    |g| == n && forall r :: 0 <= r < n ==> |g[r]| == n
  }

  function Max(a: int, b: int): int
  {
    if a < b then b else a
  }

  // ---------------------------------------------------------------------------------------
  // Box numbering
  // ---------------------------------------------------------------------------------------

  /** `int(c // side + side * (r // side) + 1)`. */
  function SubsquareIndex(side: nat, r: int, c: int): int
    requires side > 0
  {
    c / side + side * (r / side) + 1
  }

  /** Every cell of the grid lies in one of the boxes `1 .. side * side`. */
  lemma SubsquareIndexRange(side: nat, r: int, c: int)
    requires side > 0 && 0 <= r < side * side && 0 <= c < side * side
    ensures 1 <= SubsquareIndex(side, r, c) <= side * side
  {
    DivBound(r, side, side);
    DivBound(c, side, side);
    BoxOrigin(side, r / side, c / side);
  }

  /** Offsets within the grid: `q * side + t < side * side` for `q, t < side`. */
  lemma BoxOrigin(side: nat, q: int, t: int)
    requires 0 <= q < side && 0 <= t < side
    ensures 0 <= q * side + t < side * side
  {
    MulAtLeast(side - q, side);
    assert (side - q) * side == side * side - q * side;
  }

  /**
   * Cell `(r, c)` lies in box `k` exactly when its band of rows is `(k - 1) / side` and its
   * band of columns is `(k - 1) % side`.
   */
  lemma SubsquareIndexIff(side: nat, r: int, c: int, k: int)
    requires side > 0 && 0 <= r && 0 <= c < side * side
    ensures SubsquareIndex(side, r, c) == k <==> r / side == (k - 1) / side && c / side == (k - 1) % side
  {
    DivBound(c, side, side);
    DivModOf(r / side, c / side, side);
    assert SubsquareIndex(side, r, c) - 1 == (r / side) * side + c / side;
    assert k - 1 == ((k - 1) / side) * side + (k - 1) % side;
  }

  // ---------------------------------------------------------------------------------------
  // Rows and columns with Python indexing
  // ---------------------------------------------------------------------------------------

  /** `g[i]`, or `None` where Python raises `IndexError`. */
  function PickRow<T>(g: seq<seq<T>>, i: int): (row: Option<seq<T>>)
    ensures row.Some? <==> ValidIndex(i, |g|)
    ensures row.Some? && 0 <= i ==> row.value == g[i]
    ensures row.Some? && i < 0 ==> row.value == g[|g| + i]
  {
    if ValidIndex(i, |g|) then Some(g[PyIndex(i, |g|)]) else None
  }

  /** `[row[j] for row in g]`, or `None` when some row is too short for index `j`. */
  function PickColumn<T>(g: seq<seq<T>>, j: int): (col: Option<seq<T>>)
    ensures col.Some? <==> forall r :: 0 <= r < |g| ==> ValidIndex(j, |g[r]|)
    ensures col.Some? ==> |col.value| == |g|
    ensures col.Some? && 0 <= j ==> forall r :: 0 <= r < |g| ==> col.value[r] == g[r][j]
    ensures col.Some? && j < 0 ==> forall r :: 0 <= r < |g| ==> col.value[r] == g[r][|g[r]| + j]
  {
    if forall r :: 0 <= r < |g| ==> ValidIndex(j, |g[r]|) then
      Some(seq(|g|, r requires 0 <= r < |g| => g[r][PyIndex(j, |g[r]|)]))
    else None
  }

  // ---------------------------------------------------------------------------------------
  // Bands of rows: boxes and the flattened board
  // ---------------------------------------------------------------------------------------

  /** Columns `lo .. lo + w` of rows `a .. b`, row after row. */
  function Band<T>(g: seq<seq<T>>, a: nat, b: nat, lo: nat, w: nat): seq<T>
    requires a <= b <= |g| && forall r :: a <= r < b ==> lo + w <= |g[r]|
    decreases b - a
  {
    if a == b then [] else g[a][lo..lo + w] + Band(g, a + 1, b, lo, w)
  }

  /** A band of `b - a` rows, `w` cells from each. */
  lemma {:induction false} BandLength<T>(g: seq<seq<T>>, a: nat, b: nat, lo: nat, w: nat)
    requires a <= b <= |g| && forall r :: a <= r < b ==> lo + w <= |g[r]|
    ensures |Band(g, a, b, lo, w)| == (b - a) * w
    decreases b - a
  {
    if a < b {
      BandLength(g, a + 1, b, lo, w);
      assert (b - a) * w == w + (b - (a + 1)) * w;
    }
  }

  /** Entry `t` of a band sits `t / w` rows down and `t % w` columns across. */
  lemma {:induction false} BandEntry<T>(g: seq<seq<T>>, a: nat, b: nat, lo: nat, w: nat, t: int)
    requires a <= b <= |g| && forall r :: a <= r < b ==> lo + w <= |g[r]|
    requires w > 0 && 0 <= t < |Band(g, a, b, lo, w)|
    ensures a + t / w < b && Band(g, a, b, lo, w)[t] == g[a + t / w][lo + t % w]
    decreases b - a
  {
    var rest := Band(g, a + 1, b, lo, w);
    assert Band(g, a, b, lo, w) == g[a][lo..lo + w] + rest;
    if t < w {
      DivModOf(0, t, w);
    } else {
      DivStep(t, w);
      BandEntry(g, a + 1, b, lo, w, t - w);
    }
  }

  /** Every entry of a band, with the band's length. */
  lemma BandAt<T>(g: seq<seq<T>>, a: nat, b: nat, lo: nat, w: nat)
    requires a <= b <= |g| && forall r :: a <= r < b ==> lo + w <= |g[r]|
    requires w > 0
    ensures |Band(g, a, b, lo, w)| == (b - a) * w
    ensures forall t :: 0 <= t < |Band(g, a, b, lo, w)| ==>
      a + t / w < b && Band(g, a, b, lo, w)[t] == g[a + t / w][lo + t % w]
  {
    BandLength(g, a, b, lo, w);
    forall t | 0 <= t < |Band(g, a, b, lo, w)|
      ensures a + t / w < b && Band(g, a, b, lo, w)[t] == g[a + t / w][lo + t % w]
    {
      BandEntry(g, a, b, lo, w, t);
    }
  }

  /** `values_list`: the cells of a grid of side `n`, row after row. */
  function Flatten<T>(g: seq<seq<T>>, n: nat): (cells: seq<T>)
    requires IsGrid(g, n)
    ensures |cells| == n * n
    ensures forall i :: 0 <= i < n * n ==> i / n < n && i % n < n && cells[i] == g[i / n][i % n]
  {
    if n == 0 then []
    else
      BandAt(g, 0, n, 0, n);
      assert (n - 0) * n == n * n;
      Band(g, 0, n, 0, n)
  }

  // ---------------------------------------------------------------------------------------
  // Subsquares
  // ---------------------------------------------------------------------------------------

  /** The cells of row `r` from column `c` on whose box is `k`, left to right. */
  function RowMatches<T>(g: seq<seq<T>>, side: nat, k: int, r: nat, c: nat): seq<T>
    requires side > 0 && IsGrid(g, side * side) && r < side * side && c <= side * side
    decreases side * side - c
  {
    if c == side * side then []
    else (if SubsquareIndex(side, r, c) == k then [g[r][c]] else []) + RowMatches(g, side, k, r, c + 1)
  }

  /** The cells of rows `r ..` whose box is `k`, in row-major order. */
  function Matches<T>(g: seq<seq<T>>, side: nat, k: int, r: nat): seq<T>
    requires side > 0 && IsGrid(g, side * side) && r <= side * side
    decreases side * side - r
  {
    if r == side * side then [] else RowMatches(g, side, k, r, 0) + Matches(g, side, k, r + 1)
  }

  /** `subsquare(k)`: the cells of box `k` collected by a row-major scan of the board. */
  function Subsquare<T>(g: seq<seq<T>>, side: nat, k: int): seq<T>
    requires IsGrid(g, side * side)
  {
    if side == 0 then [] else Matches(g, side, k, 0)
  }

  /** The `side * side` cells of box `k`, row by row: cell `t` is `t / side` rows down and `t % side` across. */
  function BoxCells<T>(g: seq<seq<T>>, side: nat, k: int): (cells: seq<T>)
    requires IsGrid(g, side * side) && 1 <= k <= side * side
    ensures |cells| == side * side
  {
    var br, bc := (k - 1) / side, (k - 1) % side;
    BoxBounds(side, k);
    BandAt(g, br * side, br * side + side, bc * side, side);
    assert (br * side + side - br * side) * side == side * side;
    Band(g, br * side, br * side + side, bc * side, side)
  }

  /** Cell `t` of box `k` is `t / side` rows below and `t % side` columns right of the box's corner. */
  lemma BoxCellsAt<T>(g: seq<seq<T>>, side: nat, k: int)
    requires IsGrid(g, side * side) && 1 <= k <= side * side
    ensures forall t :: 0 <= t < side * side ==>
      var r, c := ((k - 1) / side) * side + t / side, ((k - 1) % side) * side + t % side;
      0 <= r < side * side && 0 <= c < side * side && BoxCells(g, side, k)[t] == g[r][c]
  {
    forall t | 0 <= t < side * side
      ensures var r, c := ((k - 1) / side) * side + t / side, ((k - 1) % side) * side + t % side;
        0 <= r < side * side && 0 <= c < side * side && BoxCells(g, side, k)[t] == g[r][c]
    {
      BoxCellAt(g, side, k, t);
    }
  }

  /** One cell of box `k`. */
  lemma BoxCellAt<T>(g: seq<seq<T>>, side: nat, k: int, t: int)
    requires IsGrid(g, side * side) && 1 <= k <= side * side && 0 <= t < side * side
    ensures var r, c := ((k - 1) / side) * side + t / side, ((k - 1) % side) * side + t % side;
      0 <= r < side * side && 0 <= c < side * side && BoxCells(g, side, k)[t] == g[r][c]
  {
    var br, bc := (k - 1) / side, (k - 1) % side;
    BoxBounds(side, k);
    BoxCellPosition(side, k, t);
    var cells := Band(g, br * side, br * side + side, bc * side, side);
    BandAt(g, br * side, br * side + side, bc * side, side);
    assert BoxCells(g, side, k) == cells;
    assert cells[t] == g[br * side + t / side][bc * side + t % side];
  }

  /** Cell `t` of box `k` lies on the grid. */
  lemma BoxCellPosition(side: nat, k: int, t: int)
    requires side > 0 && 1 <= k <= side * side && 0 <= t < side * side
    ensures var r, c := ((k - 1) / side) * side + t / side, ((k - 1) % side) * side + t % side;
      0 <= r < side * side && 0 <= c < side * side
  {
    BoxBounds(side, k);
    DivBound(t, side, side);
  }

  /** Where box `k` begins and ends, in rows and in columns. */
  lemma BoxBounds(side: nat, k: int)
    requires side > 0 && 1 <= k <= side * side
    ensures var br, bc := (k - 1) / side, (k - 1) % side;
      0 <= br < side && 0 <= bc < side && 0 <= br * side && 0 <= bc * side &&
      br * side + side <= side * side && bc * side + side <= side * side
  {
    var br, bc := (k - 1) / side, (k - 1) % side;
    DivBound(k - 1, side, side);
    MulLeft(0, br, side);
    MulLeft(0, bc, side);
    MulLeft(br + 1, side, side);
    MulLeft(bc + 1, side, side);
    assert (br + 1) * side == br * side + side;
    assert (bc + 1) * side == bc * side + side;
  }

  /** Scanning row `r` from column `c` keeps the part of the box's columns not yet passed; `left` is the box's first column. */
  lemma {:induction false} RowMatchesSpan<T>(g: seq<seq<T>>, side: nat, k: int, r: nat, c: nat, left: nat)
    requires side > 0 && IsGrid(g, side * side) && r < side * side && c <= side * side
    requires 1 <= k <= side * side && left == ((k - 1) % side) * side && left + side <= side * side
    ensures r / side == (k - 1) / side ==> RowMatches(g, side, k, r, c) == g[r][Max(c, left)..Max(c, left + side)]
    ensures r / side != (k - 1) / side ==> RowMatches(g, side, k, r, c) == []
    decreases side * side - c
  {
    if c < side * side {
      RowMatchesSpan(g, side, k, r, c + 1, left);
      RowStep(g, side, k, r, c, left);
      SliceStep(g[r], c, left, left + side);
    } else {
      assert Max(c, left) == c == Max(c, left + side);
    }
  }

  /** Column `c` of row `r` is kept by the scan exactly when it lies in box `k`'s bands. */
  lemma RowStep<T>(g: seq<seq<T>>, side: nat, k: int, r: nat, c: nat, left: nat)
    requires side > 0 && IsGrid(g, side * side) && r < side * side && c < side * side
    requires 1 <= k <= side * side && left == ((k - 1) % side) * side && left + side <= side * side
    ensures RowMatches(g, side, k, r, c) ==
      (if r / side == (k - 1) / side && left <= c < left + side then [g[r][c]] else []) + RowMatches(g, side, k, r, c + 1)
  {
    SubsquareIndexIff(side, r, c, k);
    DivIff(c, side, (k - 1) % side);
  }

  /** Moving the start of a clipped slice right by one drops `row[c]` when `c` is inside the slice. */
  lemma SliceStep<T>(row: seq<T>, c: nat, lo: nat, hi: nat)
    requires lo <= hi <= |row| && c < |row|
    ensures row[Max(c, lo)..Max(c, hi)] ==
      (if lo <= c < hi then [row[c]] else []) + row[Max(c + 1, lo)..Max(c + 1, hi)]
  {
    if c < lo {
      assert Max(c, lo) == lo == Max(c + 1, lo) && Max(c, hi) == hi == Max(c + 1, hi);
    } else if c >= hi {
      assert Max(c, lo) == c == Max(c, hi);
      assert Max(c + 1, lo) == c + 1 == Max(c + 1, hi);
    } else {
      assert Max(c, lo) == c && Max(c + 1, lo) == c + 1;
      assert Max(c, hi) == hi == Max(c + 1, hi);
    }
  }

  /** Scanning rows `r ..` keeps the part of the box's rows not yet passed. */
  lemma {:induction false} MatchesSpan<T>(g: seq<seq<T>>, side: nat, k: int, r: nat)
    requires side > 0 && IsGrid(g, side * side) && r <= side * side
    requires 1 <= k <= side * side
    ensures var br, bc := (k - 1) / side, (k - 1) % side;
      && br * side + side <= side * side && bc * side + side <= side * side
      && Matches(g, side, k, r) == Band(g, Max(r, br * side), Max(r, br * side + side), bc * side, side)
  {
    var br, bc := (k - 1) / side, (k - 1) % side;
    BoxBounds(side, k);
    MatchesFrom(g, side, k, r, br * side, bc * side);
  }

  /** `MatchesSpan` with the box's top row and left column named. */
  lemma {:induction false} MatchesFrom<T>(g: seq<seq<T>>, side: nat, k: int, r: nat, top: nat, left: nat)
    requires side > 0 && IsGrid(g, side * side) && r <= side * side
    requires 1 <= k <= side * side && top == ((k - 1) / side) * side && left == ((k - 1) % side) * side
    requires top + side <= side * side && left + side <= side * side
    ensures Matches(g, side, k, r) == Band(g, Max(r, top), Max(r, top + side), left, side)
    decreases side * side - r
  {
    if r < side * side {
      MatchesFrom(g, side, k, r + 1, top, left);
      MatchesStep(g, side, k, r, top, left);
      BandStep(g, r, top, top + side, left, side);
    } else {
      assert Max(r, top) == r == Max(r, top + side);
    }
  }

  /** Row `r` contributes its slice of box `k`'s columns to the scan exactly when it lies in the box's band of rows. */
  lemma MatchesStep<T>(g: seq<seq<T>>, side: nat, k: int, r: nat, top: nat, left: nat)
    requires side > 0 && IsGrid(g, side * side) && r < side * side
    requires 1 <= k <= side * side && top == ((k - 1) / side) * side && left == ((k - 1) % side) * side
    requires top + side <= side * side && left + side <= side * side
    ensures Matches(g, side, k, r) ==
      (if top <= r < top + side then g[r][left..left + side] else []) + Matches(g, side, k, r + 1)
  {
    RowMatchesSpan(g, side, k, r, 0, left);
    DivIff(r, side, (k - 1) / side);
    assert Max(0, left) == left && Max(0, left + side) == left + side;
  }

  /** Moving the start of a clipped band down one row drops row `r`'s slice when `r` is inside the band. */
  lemma BandStep<T>(g: seq<seq<T>>, r: nat, top: nat, bottom: nat, left: nat, w: nat)
    requires top <= bottom <= |g| && r < |g| && forall i :: top <= i < bottom ==> left + w <= |g[i]|
    ensures top <= r < bottom ==>
      Band(g, Max(r, top), Max(r, bottom), left, w) == g[r][left..left + w] + Band(g, Max(r + 1, top), Max(r + 1, bottom), left, w)
    ensures !(top <= r < bottom) ==>
      Band(g, Max(r, top), Max(r, bottom), left, w) == Band(g, Max(r + 1, top), Max(r + 1, bottom), left, w)
  {
    if r < top {
      assert Max(r, top) == top == Max(r + 1, top) && Max(r, bottom) == bottom == Max(r + 1, bottom);
    } else if r >= bottom {
      assert Max(r, top) == r == Max(r, bottom);
      assert Max(r + 1, top) == r + 1 == Max(r + 1, bottom);
    } else {
      assert Max(r, top) == r && Max(r + 1, top) == r + 1;
      assert Max(r, bottom) == bottom == Max(r + 1, bottom);
    }
  }

  /** The row-major scan of `subsquare(k)` finds exactly the cells of box `k`, in box order. */
  lemma SubsquareIsBox<T>(g: seq<seq<T>>, side: nat, k: int)
    requires IsGrid(g, side * side) && 1 <= k <= side * side
    ensures Subsquare(g, side, k) == BoxCells(g, side, k)
  {
    assert side > 0;
    var br, bc := (k - 1) / side, (k - 1) % side;
    BoxBounds(side, k);
    MulLeft(0, br, side);
    MulLeft(0, bc, side);
    var lo, hi, left := br * side, br * side + side, bc * side;
    assert Max(0, lo) == lo && Max(0, hi) == hi;
    MatchesSpan(g, side, k, 0);
    assert Matches(g, side, k, 0) == Band(g, lo, hi, left, side);
    assert BoxCells(g, side, k) == Band(g, lo, hi, left, side);
  }

  /** No cell lies in a box numbered outside `1 .. side * side`. */
  lemma {:induction false} NoCellsOutsideBoxes<T>(g: seq<seq<T>>, side: nat, k: int)
    requires IsGrid(g, side * side) && (k < 1 || side * side < k)
    ensures Subsquare(g, side, k) == []
  {
    if side > 0 {
      NoMatches(g, side, k, 0);
    }
  }

  lemma {:induction false} NoMatches<T>(g: seq<seq<T>>, side: nat, k: int, r: nat)
    requires side > 0 && IsGrid(g, side * side) && r <= side * side && (k < 1 || side * side < k)
    ensures Matches(g, side, k, r) == []
    decreases side * side - r
  {
    if r < side * side {
      NoRowMatches(g, side, k, r, 0);
      NoMatches(g, side, k, r + 1);
    }
  }

  lemma {:induction false} NoRowMatches<T>(g: seq<seq<T>>, side: nat, k: int, r: nat, c: nat)
    requires side > 0 && IsGrid(g, side * side) && r < side * side && c <= side * side
    requires k < 1 || side * side < k
    ensures RowMatches(g, side, k, r, c) == []
    decreases side * side - c
  {
    if c < side * side {
      SubsquareIndexRange(side, r, c);
      NoRowMatches(g, side, k, r, c + 1);
    }
  }
}
