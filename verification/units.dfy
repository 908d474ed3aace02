/**
 * The sudoku rule, stated once for every board representation: within a row, a column or
 * a box, no mark other than the blank appears twice. A board stores its blank as 0 or as
 * `' '`, so the blank is a parameter.
 */
module Units {

  import opened Arith
  import opened Geometry

  /** No entry of `xs` other than `blank` occurs at two positions. */
  predicate NoRepeat<T(==)>(xs: seq<T>, blank: T)
  {
    forall i, j :: 0 <= i < |xs| && 0 <= j < |xs| && i != j && xs[i] != blank ==> xs[i] != xs[j]
  }

  predicate Distinct<T(==)>(xs: seq<T>)
  {
    forall i, j :: 0 <= i < j < |xs| ==> xs[i] != xs[j]
  }

  /** `set(xs)`. */
  function Elements<T>(xs: seq<T>): set<T>
  {
    set x | x in xs
  }

  /** `[x for x in xs if x != blank]`. */
  function WithoutBlanks<T(==,!new)>(xs: seq<T>, blank: T): (r: seq<T>)
    ensures forall x :: x in r <==> x in xs && x != blank
  {
    if |xs| == 0 then []
    else
      assert forall x :: x in xs <==> x == xs[0] || x in xs[1..];
      (if xs[0] == blank then [] else [xs[0]]) + WithoutBlanks(xs[1..], blank)
  }

  /** `len(set(xs)) == len(xs)` holds exactly when `xs` has no repeated entry. */
  lemma {:induction false} SetSizeIffDistinct<T>(xs: seq<T>)
    ensures |Elements(xs)| <= |xs|
    ensures |Elements(xs)| == |xs| <==> Distinct(xs)
  {
    if |xs| > 0 {
      var rest := xs[1..];
      SetSizeIffDistinct(rest);
      assert Elements(xs) == {xs[0]} + Elements(rest) by {
        assert forall x :: x in xs <==> x == xs[0] || x in rest;
      }
      assert Distinct(xs) <==> xs[0] !in rest && Distinct(rest) by {
        if Distinct(xs) {
          forall i, j | 0 <= i < j < |rest|
            ensures rest[i] != rest[j]
          {
            assert rest[i] == xs[i + 1] && rest[j] == xs[j + 1];
          }
        }
        if xs[0] !in rest && Distinct(rest) {
          forall i, j | 0 <= i < j < |xs|
            ensures xs[i] != xs[j]
          {
            if i > 0 {
              assert xs[i] == rest[i - 1] && xs[j] == rest[j - 1];
            } else {
              assert xs[j] == rest[j - 1];
            }
          }
        }
      }
      if xs[0] in rest {
        assert Elements(xs) == Elements(rest);
      } else {
        assert xs[0] !in Elements(rest);
      }
    }
  }

  /** Dropping the blanks leaves a list without repeats exactly when no mark repeats. */
  lemma {:induction false} WithoutBlanksDistinct<T(!new)>(xs: seq<T>, blank: T)
    ensures Distinct(WithoutBlanks(xs, blank)) <==> NoRepeat(xs, blank)
  {
    if |xs| > 0 {
      var x, rest := xs[0], xs[1..];
      WithoutBlanksDistinct(rest, blank);
      var kept := WithoutBlanks(rest, blank);
      assert NoRepeat(xs, blank) <==> NoRepeat(rest, blank) && (x != blank ==> x !in rest) by {
        if NoRepeat(xs, blank) {
          forall i, j | 0 <= i < |rest| && 0 <= j < |rest| && i != j && rest[i] != blank
            ensures rest[i] != rest[j]
          {
            assert rest[i] == xs[i + 1] && rest[j] == xs[j + 1];
          }
          if x != blank {
            forall j | 0 <= j < |rest|
              ensures rest[j] != x
            {
              assert rest[j] == xs[j + 1] && xs[0] == x;
            }
          }
        }
        if NoRepeat(rest, blank) && (x != blank ==> x !in rest) {
          forall i, j | 0 <= i < |xs| && 0 <= j < |xs| && i != j && xs[i] != blank
            ensures xs[i] != xs[j]
          {
            if i > 0 && j > 0 {
              assert xs[i] == rest[i - 1] && xs[j] == rest[j - 1];
            } else if i == 0 {
              assert xs[j] == rest[j - 1];
            } else {
              assert xs[i] == rest[i - 1];
            }
          }
        }
      }
      if x == blank {
        assert WithoutBlanks(xs, blank) == kept;
      } else {
        var all := WithoutBlanks(xs, blank);
        assert all == [x] + kept;
        assert Distinct(all) <==> x !in kept && Distinct(kept) by {
          if Distinct(all) {
            forall i, j | 0 <= i < j < |kept|
              ensures kept[i] != kept[j]
            {
              assert kept[i] == all[i + 1] && kept[j] == all[j + 1];
            }
            forall j | 0 <= j < |kept|
              ensures kept[j] != x
            {
              assert kept[j] == all[j + 1] && all[0] == x;
            }
          }
          if x !in kept && Distinct(kept) {
            forall i, j | 0 <= i < j < |all|
              ensures all[i] != all[j]
            {
              if i > 0 {
                assert all[i] == kept[i - 1];
              }
              assert all[j] == kept[j - 1];
            }
          }
        }
      }
    }
  }

  /** `len(r) == len(set(r))` for `r` the marks of `xs`, as `check_valid` tests a unit. */
  predicate SetTest<T(==,!new)>(xs: seq<T>, blank: T)
  {
    |Elements(WithoutBlanks(xs, blank))| == |WithoutBlanks(xs, blank)|
  }

  lemma SetTestIffNoRepeat<T(!new)>(xs: seq<T>, blank: T)
    ensures SetTest(xs, blank) <==> NoRepeat(xs, blank)
  {
    SetSizeIffDistinct(WithoutBlanks(xs, blank));
    WithoutBlanksDistinct(xs, blank);
  }

  // ---------------------------------------------------------------------------------------
  // The rule cell by cell
  // ---------------------------------------------------------------------------------------

  /** Column `c` of `g`, top to bottom. */
  function Column<T>(g: seq<seq<T>>, c: nat): (col: seq<T>)
    requires forall r :: 0 <= r < |g| ==> c < |g[r]|
    ensures |col| == |g|
    ensures forall r :: 0 <= r < |g| ==> col[r] == g[r][c]
  {
    seq(|g|, r requires 0 <= r < |g| => g[r][c])
  }

  /** Two different cells of one row never carry the same mark. */
  predicate RowsDistinct<T(==)>(g: seq<seq<T>>, n: nat, blank: T)
    requires IsGrid(g, n)
  {
    forall r, c1, c2 :: 0 <= r < n && 0 <= c1 < n && 0 <= c2 < n && c1 != c2 && g[r][c1] != blank ==>
      g[r][c1] != g[r][c2]
  }

  /** Two different cells of one column never carry the same mark. */
  predicate ColsDistinct<T(==)>(g: seq<seq<T>>, n: nat, blank: T)
    requires IsGrid(g, n)
  {
    forall c, r1, r2 :: 0 <= c < n && 0 <= r1 < n && 0 <= r2 < n && r1 != r2 && g[r1][c] != blank ==>
      g[r1][c] != g[r2][c]
  }

  /** Two different cells of one box never carry the same mark. */
  predicate BoxesDistinct<T(==)>(g: seq<seq<T>>, side: nat, blank: T)
    requires IsGrid(g, side * side)
  {
    forall r1, c1, r2, c2 ::
      0 <= r1 < side * side && 0 <= c1 < side * side && 0 <= r2 < side * side && 0 <= c2 < side * side &&
      (r1 != r2 || c1 != c2) && r1 / side == r2 / side && c1 / side == c2 / side && g[r1][c1] != blank ==>
        g[r1][c1] != g[r2][c2]
  }

  lemma RowsIff<T>(g: seq<seq<T>>, n: nat, blank: T)
    requires IsGrid(g, n)
    ensures (forall r :: 0 <= r < n ==> NoRepeat(g[r], blank)) <==> RowsDistinct(g, n, blank)
  {
  }

  lemma ColsIff<T>(g: seq<seq<T>>, n: nat, blank: T)
    requires IsGrid(g, n)
    ensures (forall c :: 0 <= c < n ==> NoRepeat(Column(g, c), blank)) <==> ColsDistinct(g, n, blank)
  {
    if forall c :: 0 <= c < n ==> NoRepeat(Column(g, c), blank) {
      forall c, r1, r2 | 0 <= c < n && 0 <= r1 < n && 0 <= r2 < n && r1 != r2 && g[r1][c] != blank
        ensures g[r1][c] != g[r2][c]
      {
        assert Column(g, c)[r1] == g[r1][c] && Column(g, c)[r2] == g[r2][c];
      }
    }
  }

  /** Cell `t` of box `k` sits in box `k`'s bands, at offset `t / side` down and `t % side` across. */
  lemma CellOfBox(side: nat, k: int, t: int)
    requires side > 0 && 1 <= k <= side * side && 0 <= t < side * side
    ensures var r, c := ((k - 1) / side) * side + t / side, ((k - 1) % side) * side + t % side;
      && r / side == (k - 1) / side && c / side == (k - 1) % side
      && r % side == t / side && c % side == t % side
  {
    DivBound(t, side, side);
    DivModOf((k - 1) / side, t / side, side);
    DivModOf((k - 1) % side, t % side, side);
  }

  /** Distinct offsets within a box name distinct cells. */
  lemma OffsetsDiffer(side: nat, t1: int, t2: int)
    requires side > 0 && 0 <= t1 && 0 <= t2 && t1 != t2
    ensures t1 / side != t2 / side || t1 % side != t2 % side
  {
    assert t1 == (t1 / side) * side + t1 % side;
    assert t2 == (t2 / side) * side + t2 % side;
  }

  /** The offset of cell `(r, c)` within its box. */
  lemma OffsetInBox(side: nat, r: int, c: int)
    requires side > 0 && 0 <= r < side * side && 0 <= c < side * side
    ensures var t := (r % side) * side + c % side;
      && 0 <= t < side * side && t / side == r % side && t % side == c % side
      && r == (r / side) * side + t / side && c == (c / side) * side + t % side
  {
    var a, b := r % side, c % side;
    BoxOrigin(side, a, b);
    DivModOf(a, b, side);
    assert r == (r / side) * side + a;
    assert c == (c / side) * side + b;
  }

  lemma {:induction false} BoxesIff<T>(g: seq<seq<T>>, side: nat, blank: T)
    requires IsGrid(g, side * side)
    ensures (forall k :: 1 <= k <= side * side ==> NoRepeat(BoxCells(g, side, k), blank)) <==>
      BoxesDistinct(g, side, blank)
  {
    if forall k :: 1 <= k <= side * side ==> NoRepeat(BoxCells(g, side, k), blank) {
      forall r1, c1, r2, c2 |
        0 <= r1 < side * side && 0 <= c1 < side * side && 0 <= r2 < side * side && 0 <= c2 < side * side &&
        (r1 != r2 || c1 != c2) && r1 / side == r2 / side && c1 / side == c2 / side && g[r1][c1] != blank
        ensures g[r1][c1] != g[r2][c2]
      {
        BoxCellsMeet(g, side, blank, r1, c1, r2, c2);
      }
    }
    if BoxesDistinct(g, side, blank) {
      forall k | 1 <= k <= side * side
        ensures NoRepeat(BoxCells(g, side, k), blank)
      {
        BoxCellsApart(g, side, blank, k);
      }
    }
  }

  /** Two cells sharing a box meet in that box's cell list at two different positions. */
  lemma BoxCellsMeet<T>(g: seq<seq<T>>, side: nat, blank: T, r1: int, c1: int, r2: int, c2: int)
    requires IsGrid(g, side * side)
    requires forall k :: 1 <= k <= side * side ==> NoRepeat(BoxCells(g, side, k), blank)
    requires 0 <= r1 < side * side && 0 <= c1 < side * side && 0 <= r2 < side * side && 0 <= c2 < side * side
    requires (r1 != r2 || c1 != c2) && r1 / side == r2 / side && c1 / side == c2 / side
    requires g[r1][c1] != blank
    ensures g[r1][c1] != g[r2][c2]
  {
    var k := SubsquareIndex(side, r1, c1);
    SubsquareIndexRange(side, r1, c1);
    SubsquareIndexIff(side, r1, c1, k);
    var t1, t2 := (r1 % side) * side + c1 % side, (r2 % side) * side + c2 % side;
    OffsetInBox(side, r1, c1);
    OffsetInBox(side, r2, c2);
    assert t1 == t2 ==> r1 == r2 && c1 == c2;
    BoxCellAt(g, side, k, t1);
    BoxCellAt(g, side, k, t2);
    var cells := BoxCells(g, side, k);
    assert cells[t1] == g[r1][c1];
    assert cells[t2] == g[r2][c2];
    assert NoRepeat(cells, blank);
    assert cells[t1] != cells[t2];
  }

  /** Two positions of one box's cell list are two different cells of that box. */
  lemma BoxCellsApart<T>(g: seq<seq<T>>, side: nat, blank: T, k: int)
    requires IsGrid(g, side * side) && BoxesDistinct(g, side, blank) && 1 <= k <= side * side
    ensures NoRepeat(BoxCells(g, side, k), blank)
  {
    var cells := BoxCells(g, side, k);
    forall t1, t2 | 0 <= t1 < |cells| && 0 <= t2 < |cells| && t1 != t2 && cells[t1] != blank
      ensures cells[t1] != cells[t2]
    {
      BoxCellAt(g, side, k, t1);
      BoxCellAt(g, side, k, t2);
      CellOfBox(side, k, t1);
      CellOfBox(side, k, t2);
      OffsetsDiffer(side, t1, t2);
    }
  }
}
