# Sudoku CSP heuristics and boards, modelled in Dafny

This project models two parts of a Python sudoku solver.

The first part is the ordering heuristics that a recursive backtracking constraint solver
calls. They are in `heuristics.py` and in its earlier version `heuristic.py`.

- A **variable heuristic** turns the `domains` dict (variable → remaining values) into a
  list of key tuples. The last component of each tuple is the variable. The solver tries
  variables in list order.
  - `no_var_heur` keeps dict order.
  - `degree` sorts by the number of constraints, most constrained first.
  - `mrv` sorts by domain size, smallest first ("minimum remaining values").
  - `degree_and_mrv` combines both keys.
  - `random_variable` shuffles.
  - `mrv_and_random` sorts like `mrv`, then shuffles a slice that starts at the first
    variable whose domain size is not 1. The slice ends before the first larger size, or,
    when no larger size follows, at `len(domains) - 1`, one short of the end (see
    "Findings").
- A **value heuristic** reorders one variable's remaining values.
  - `random_value` shuffles them.
  - `lcv` sorts them by how often each value occurs across all domains.
  - `least_used` sorts them by how often each value is already assigned.

The second part is the board classes.

- `classes.py`: a board of `Square` records (flat index, row, column, box number, value),
  with:
  - row, column and box ("subsquare") extraction;
  - a point update;
  - the validity check: no non-zero value repeats in a unit.
- `board2.py`: a board that keeps the preset grid and numbers rows and columns from 1.
- `board.py`: a board with `' '` as its blank. It has a generated default grid and
  loop-based checks for "filled" and "valid".

## Modules

- `Wrappers`: `Option`, which stands for Python's `None` and for an exception.
- `Arith`:
  - `int(math.sqrt(n))` as the integer square root `ISqrt`;
  - Python's negative list indices (`ValidIndex`, `PyIndex`);
  - facts about division.
- `Lex`: Python's tuple order, and `list.sort` as an insertion sort. A lemma shows that any
  sorted permutation is the result of `Sort`.
- `Shuffling`: `random.shuffle` as Python's Fisher–Yates loop. The random draws are an
  explicit parameter. A lemma shows that every permutation is reachable.
- `VariableHeuristics`, `ValueHeuristics`: the heuristics of `heuristics.py`.
- `Heuristics`, `HeuristicV1`: the dispatchers of `heuristics.py` and of `heuristic.py`.
  - `heuristic.py`'s `no_var_heur`, `degree`, `mrv`, `random_variable` and `random_value`
    are textually the same as in `heuristics.py`. They are modelled once, in
    `VariableHeuristics` and `ValueHeuristics`.
- `Geometry`:
  - box numbering;
  - rows and columns read with Python indexing;
  - row-major flattening;
  - the row-major box scan, proved equal to a direct enumeration of the box's cells.
- `Units`: the sudoku rule, with the blank as a parameter.
  - Per unit: `len(r) == len(set(r))` holds exactly when no mark repeats.
  - Per board: the row, column and box checks are each equivalent to a cell-by-cell
    distinctness predicate.
- `ClassesBoard`, `PresetBoard`, `BlankBoard`: `classes.py`, `board2.py`, `board.py`.

Dicts are lists of items in iteration order. Variables and values are integers. Tuples
are `seq<int>`.

## Model

| member | source | states |
|---|---|---|
| `VariableHeuristics.NoVarHeur` | heuristics.py:55-66 | one `(1, v)` tuple per variable, in the dict's iteration order |
| `VariableHeuristics.Degree` | heuristics.py:69-83 | the result is sorted, is a permutation of the `(-len(vconstraints[v]), v)` keys, and names every variable as often as the dict does |
| `VariableHeuristics.DegreeOrdersByConstraintCount` | heuristics.py:69-83 | a variable in more constraints comes before one in fewer; equal counts are ordered by variable |
| `VariableHeuristics.Mrv` | heuristics.py:86-98 | the result is sorted, is a permutation of the `(len(domains[v]), v)` keys, and names every variable once per dict entry |
| `VariableHeuristics.MrvFrontIsMostConstrained` | heuristics.py:86-98 | the head is the key of some variable, and its domain is no larger than any other (ties go to the smallest variable) |
| `VariableHeuristics.RandomVariable` | heuristics.py:101-113 | the result is a permutation of `no_var_heur`'s list |
| `VariableHeuristics.DegreeAndMrv` | heuristics.py:116-130 | the result is sorted, is a permutation of the three-component keys, and names every variable |
| `VariableHeuristics.DegreeAndMrvOrder` | heuristics.py:116-130 | each entry is some variable's key; entries are ordered by constraint count (descending), then domain size, then variable |
| `VariableHeuristics.ShuffleSlice` | heuristics.py:163-165 | shuffling a slice and assigning it back permutes the list and leaves every position outside the slice unchanged |
| `VariableHeuristics.WindowStart` | heuristics.py:148-155 | there is no window exactly when every domain has length 1; otherwise the window starts at the first entry whose length is not 1, and that length is the smallest such |
| `VariableHeuristics.WindowEnd` | heuristics.py:150-160 | every entry inside the window has that smallest length `L` other than 1, or length 1 (possible only when `L` is 0); the window ends at the first entry whose length is other than 1 and larger than `L` if one exists, and at the fallback index otherwise |
| `VariableHeuristics.MrvAndRandomAsWritten` | heuristics.py:133-166 | the code as written: a permutation of `mrv`'s list that moves only positions inside the window ending at `len(domains) - 1` |
| `VariableHeuristics.AsWrittenNeverMovesLast` | heuristics.py:156 | as written, the last entry of `mrv`'s list never moves, whatever the draws |
| `VariableHeuristics.AsWrittenNeverSwapsTwoTiedVariables` | heuristics.py:156-165 | for two variables that both have two values, the code as written always returns `mrv`'s order; the corrected window swaps them for the draw `0` |
| `VariableHeuristics.MrvAndRandom` | heuristics.py:133-166 | corrected window end `len(domains)`: a permutation of `mrv`'s list that moves only positions inside the window |
| `VariableHeuristics.MrvAndRandomShufflesWholeTie` | heuristics.py:135-137 | when no domain is empty, a position moves exactly when its domain length is the smallest length other than 1 |
| `VariableHeuristics.MrvAndRandomReachesEveryOrder` | heuristics.py:162-165 | every rearrangement of the tied group is produced by some draws, with everything else left in `mrv`'s order |
| `ValueHeuristics.RandomValue` | heuristics.py:172-181 | the result is a permutation of the domain |
| `ValueHeuristics.RandomValueReachesEveryOrder` | heuristics.py:172-181 | every permutation of the domain is produced by some draws |
| `ValueHeuristics.Tally` | heuristics.py:194-199 | counter `j` ends up as the number of uses of `j + 1` plus the uses of `j + 1 - k`, because Python lets `count[val - 1]` wrap for `val <= 0` |
| `ValueHeuristics.SortByCount` | heuristics.py:202-204 | a permutation of the domain, ordered by `(count[val - 1], val)` |
| `ValueHeuristics.CountOrderUnique` | heuristics.py:202-204 | two permutations of the domain that are both in count order are equal, so the sort fixes the result |
| `ValueHeuristics.AllValues` | heuristics.py:197-198 | holds exactly the values of all domains; when no domain list repeats a value, each value occurs once per domain list that holds it |
| `ValueHeuristics.AssignedValues` | heuristics.py:221-223 | holds exactly the values of the assignments that are not `None`, each once per assignment of it |
| `ValueHeuristics.OrderByUses` | heuristics.py:194-204 | fails exactly when some counted value or some domain value lies outside the indices Python accepts; otherwise returns a permutation ordered by use count, then value |
| `ValueHeuristics.OrderByUsesUnique` | heuristics.py:202-204 | that order is the only permutation ordered by use count, then value |
| `ValueHeuristics.Lcv` | heuristics.py:184-205 | with `k = int(math.sqrt(len(domains)))`: the domain reordered by occurrences across all domains, or `None` for an `IndexError` |
| `ValueHeuristics.LcvLeastConstrainingFirst` | heuristics.py:184-205 | when all values lie in `1 .. k`, `lcv` puts values occurring less often in the domains first, ties by value |
| `ValueHeuristics.LeastUsed` | heuristics.py:208-229 | the domain reordered by how often each value is assigned, or `None` for an `IndexError` |
| `ValueHeuristics.LeastUsedFirst` | heuristics.py:208-229 | when all values lie in `1 .. k`, `least_used` puts values assigned less often first, ties by value |
| `Heuristics.VariableHeuristic` | heuristics.py:9-30 | every variable's tuple is offered; `degree`, `mrv` and `deg+mrv` give a sorted rearrangement of their own keys (so, by `Lex.SortIsCanonical`, exactly that heuristic's list); `random` rearranges `no_var_heur`'s list; `mrv+random` rearranges `mrv`'s list and moves only positions in the as-written window ending at `len(domains) - 1`; an unknown name gives `no_var_heur` |
| `Heuristics.VariableHeuristicCorrected` | heuristics.py:9-30 | the same per-name promises, except that `mrv+random` moves only positions in the corrected window ending at `len(domains)` |
| `Heuristics.CorrectionOnlyTouchesMrvAndRandom` | heuristics.py:26-27 | the corrected dispatch differs only for `mrv+random`, where the code as written never moves the last entry of `mrv`'s list |
| `Heuristics.EveryVariableOfferedOnce` | heuristics.py:9-30 | with distinct variables, every heuristic offers each variable exactly once and nothing else |
| `Heuristics.ValueHeuristic` | heuristics.py:33-51 | the result is a permutation of the domain; only `lcv` and `least_used` can fail; `lcv` fails exactly when a domain value or the value being ordered is outside the counters' range, and otherwise orders by occurrences in all domains, then value; `least_used` likewise, counting assignments; an unknown name returns the domain unchanged |
| `HeuristicV1.VariableHeuristic` | heuristic.py:8-25 | recognises only `degree`, `mrv` and `random`; any other name gives `no_var_heur` |
| `HeuristicV1.ValueHeuristic` | heuristic.py:28-40 | `random` shuffles; any other name returns the domain unchanged |
| `HeuristicV1.VariableDispatchAgrees` | heuristic.py:8-25 | the two variable dispatchers agree except on `deg+mrv` and `mrv+random`, where the earlier one uses `no_var_heur` |
| `HeuristicV1.ValueDispatchAgrees` | heuristic.py:28-40 | the two value dispatchers agree except on `lcv` and `least_used`, where the earlier one returns the domain |
| `Lex.Sort` | heuristics.py:82 | `list.sort`: a sorted permutation |
| `Lex.SortIsCanonical` | heuristics.py:97 | any sorted permutation of the list is what the sort returns |
| `Lex.LexLePair` | heuristics.py:93-97 | Python's order on pairs: by first component, then second |
| `Lex.LexLeTriple` | heuristics.py:125-129 | Python's order on triples: component by component |
| `Shuffling.Shuffle` | heuristics.py:112 | `random.shuffle` returns a permutation |
| `Shuffling.EveryPermutationReachable` | heuristics.py:180 | every permutation is produced by some sequence of draws |
| `Arith.ISqrt` | classes.py:38 | `int(math.sqrt(n))` is the largest `r` with `r * r <= n` |
| `Arith.PyIndex` | classes.py:123 | a valid Python index below 0 counts from the end |
| `Geometry.SubsquareIndexRange` | classes.py:71-83 | every cell's box number lies in `1 .. n` |
| `Geometry.SubsquareIndexIff` | classes.py:71-83 | cell `(r, c)` is in box `k` exactly when its band row is `(k-1) // side` and its band column is `(k-1) % side` |
| `Geometry.PickRow` | classes.py:85-90 | `board[r]` succeeds exactly for the indices Python accepts, counting negative ones from the end |
| `Geometry.PickColumn` | classes.py:92-97 | `[el[c] for el in board]` succeeds exactly when every row accepts index `c` |
| `Geometry.Flatten` | classes.py:111-119 | entry `i` of the row-major list is cell `(i // n, i % n)` |
| `Geometry.SubsquareIsBox` | classes.py:99-109 | the row-major scan for box `k` lists that box's cells row by row, `n` of them |
| `Geometry.NoCellsOutsideBoxes` | classes.py:99-109 | the scan finds nothing for a box number outside `1 .. n` |
| `Geometry.BoxCellsAt` | board.py:46-50 | cell `t` of box `k` is `t // side` rows below and `t % side` columns right of the box's corner |
| `Units.SetTestIffNoRepeat` | classes.py:136-139 | `len(r) == len(set(r))` on a unit's non-zero values holds exactly when no mark repeats |
| `Units.ColsIff` | classes.py:141-145 | every column passing is the same as no two cells of a column sharing a mark |
| `Units.BoxesIff` | classes.py:147-151 | every box passing is the same as no two cells of a box sharing a mark |
| `ClassesBoard.Build` | classes.py:29-50 | each square records its flat index `r * n + c`, its row, column and box, and the preset's value |
| `ClassesBoard.BuiltSubsquaresInRange` | classes.py:47-48 | every recorded box number lies in `1 .. n` |
| `ClassesBoard.BuildKeepsPreset` | classes.py:38-50 | the values of the built board are the preset |
| `ClassesBoard.Row` | classes.py:85-90 | the code as written: row `size` is an `IndexError`, rows above it are `[]`, negative rows count from the end |
| `ClassesBoard.RowCorrected` | classes.py:85-90 | with the guard `< size`, every row from `size` up is `[]` |
| `ClassesBoard.RowHoldsItsSquares` | classes.py:85-90 | for `0 <= r < n` both versions return the `n` squares of row `r`, in column order |
| `ClassesBoard.Col` | classes.py:92-97 | the code as written: column `size` of a non-empty board is an `IndexError` |
| `ClassesBoard.ColCorrected` | classes.py:92-97 | with the guard `< size`, every column from `size` up is `[]` |
| `ClassesBoard.ColHoldsItsSquares` | classes.py:92-97 | for `0 <= c < n` both versions return the `n` squares of column `c`, in row order |
| `ClassesBoard.IndexSizeFails` | classes.py:85-97 | row and column `size` fail as written and are `[]` when corrected |
| `ClassesBoard.SubsquareIndexOf` | classes.py:71-83 | the formula gives the box number the square records, in `1 .. n` |
| `ClassesBoard.Subsquare` | classes.py:99-109 | box `k` of `1 .. n` has `n` squares, each recording box `k`; other `k` give `[]` |
| `ClassesBoard.SubsquareListsEverySquare` | classes.py:99-109 | every square appears in the list of the box it records |
| `ClassesBoard.ValuesList` | classes.py:111-119 | `n * n` squares; position `i` holds the square whose index is `i`, which is `board[i // n][i % n]` |
| `ClassesBoard.GetValue` | classes.py:121-123 | succeeds exactly for indices Python accepts, and returns `board[r][c]` with Python's negative-index wrapping |
| `ClassesBoard.SetEntry` | classes.py:125-130 | succeeds exactly for `-n*n <= index < n*n` on a non-empty board; writes only the square whose index is the wrapped `index`, and keeps the board well formed |
| `ClassesBoard.SetEntryHitsTarget` | classes.py:127-130 | `(index // n, index % n)` wrapped by Python is the one square recording the wrapped index |
| `ClassesBoard.SetEntryThenGetValue` | classes.py:121-130 | reading back the written position gives the new value |
| `ClassesBoard.CheckValid` | classes.py:132-153 | the board is valid exactly when no non-zero value repeats in a row, a column or a box |
| `PresetBoard.Create` | board2.py:13-23 | the size is the number of rows and the preset itself is the board |
| `PresetBoard.SubsquareIndexOf` | board2.py:44-56 | the box number lies in `1 .. n` and names the cell's band row and band column |
| `PresetBoard.Row` | board2.py:58-63 | 1-based: row `k` of `1 .. n` is `board[k-1]`; row 0 is the last row; rows above `n` are `[]` |
| `PresetBoard.Col` | board2.py:65-70 | 1-based: element `r` of column `k` is `board[r][k-1]`; columns above `n` are `[]` |
| `PresetBoard.Subsquare` | board2.py:72-82 | box `k` of `1 .. n` is that box's `n` cells, row by row; other `k` give `[]` |
| `PresetBoard.EntryInBox` | board2.py:72-82 | entry `t` of box `k` is a cell whose box number is `k` |
| `PresetBoard.CellListed` | board2.py:72-82 | every cell whose box number is `k` appears in box `k`'s list |
| `PresetBoard.AgreesWithSquares` | board2.py:58-70 | 1-based row and column `k` hold the values of `classes.py`'s row and column `k - 1` |
| `PresetBoard.SubsquaresAgree` | board2.py:72-82 | both board classes list the same values for every box number |
| `BlankBoard.Generate` | board.py:13-16 | cell `(j, i)` is `i + j * size`, the grid is `size x size`, and a non-positive size gives `[]` |
| `BlankBoard.Create` | board.py:7-11 | a given grid is kept; without one the generated grid is used |
| `BlankBoard.IsFilled` | board.py:18-22 | true exactly when no cell is blank |
| `BlankBoard.ScanUnit` | board.py:26-31 | the running-set scan of one unit fails exactly when a non-blank mark repeats |
| `BlankBoard.ValidRows` | board.py:24-32 | true exactly when no non-blank mark repeats within a row |
| `BlankBoard.ValidCols` | board.py:34-42 | true exactly when no non-blank mark repeats within a column |
| `BlankBoard.ValidBand` | board.py:46-53 | one band of boxes passes exactly when none of its boxes repeats a mark |
| `BlankBoard.ValidBoxes` | board.py:44-54 | true exactly when no mark repeats within a box; a size of 0 is the `range` step error |
| `BlankBoard.IsValid` | board.py:56-57 | rows, columns and boxes are all valid |
| `BlankBoard.GeneratedIsFilledAndValid` | board.py:13-16 | the generated grid has no blank and no repeated mark in any unit |
| `BlankBoard.CheckValidAgrees` | board.py:56-57 | `check_valid` of `classes.py` and `is_valid` of `board.py` agree on a preset, with 0 read as `' '` |

## Left out

- The constraint solver, the `python-constraint` package, rendering (`__str__`, `views.py`),
  scraping, timing and the scripts are outside the model. So are the stubs of
  `heuristic.py`: `degree_and_mrv`, `mrv_and_random`, `spatial_locality`,
  `temporal_locality`, `lcv` and `least_used`.
- Randomness: `random.shuffle` is Python's Fisher–Yates loop, but its random numbers are a
  parameter (`draws`). A missing draw reads as 0. Which numbers the generator produces is
  not modelled.
- `math.sqrt` is a float. The model uses the integer square root, which matches
  `int(math.sqrt(n))` for every size a board can have here. Float rounding for huge `n` is
  not modelled.
- Variables and values are integers, and dicts are lists in iteration order (Python 3.7
  and later). Other hashable keys and other value types are not modelled.
- `VariableHeuristics.Degree`: it requires every variable to have a constraint list. A
  missing key (a `KeyError`) is not modelled, because the solver always supplies one.
  `VariableHeuristics.DegreeAndMrv` and `Heuristics.VariableHeuristic` make the same
  assumption for `degree` and `deg+mrv`.
- `ClassesBoard.Build`: it requires a preset whose size is a perfect square, with rows at
  least that long. A ragged preset raises `IndexError` in Python and is not modelled.
- `PresetBoard.Create`: it requires a square preset whose size is a perfect square. The
  Python constructor stores any list.
- `BlankBoard.IsFilled`, `BlankBoard.ValidRows` and `BlankBoard.ValidCols`: they require
  a `size x size` grid and a non-negative size. A smaller or ragged grid raises
  `IndexError` in Python. A larger grid (more or longer rows) is accepted by Python, which
  checks only its top-left `size x size` block; the model does not cover it.
- `BlankBoard.ValidBoxes`: it requires a size that is a perfect square. For other sizes the
  Python loop checks a partial set of blocks or raises `IndexError`.
- `BlankBoard.IsValid`: it requires a perfect-square size, like `ValidBoxes`. Python
  would still return `False` from a failing row or column check for any size.
- Cells of `board.py` are integers or the blank. Other strings are not modelled.
- `BlankBoard.Create`: `board.py`'s default `size=9` is not modelled; callers pass the size.
- `ClassesBoard.SetEntry`: Python assigns in place, so lists handed out earlier by `row`,
  `col`, `subsquare` and `values_list` hold the same square objects and see the new value.
  The model returns a new board; that aliasing is not modelled.
- `PresetBoard.Create`: `board2.py` keeps the caller's list by reference, so later changes
  to it show through the board. The model stores a value.

## Findings

| source | as written | input that shows it | evidently intended | confidence | as-written member | corrected member |
|---|---|---|---|---|---|---|
| heuristics.py:156 | when no domain is longer than the smallest length other than 1, the shuffled slice ends at `len(domains) - 1`, so the last variable of the sorted list never moves | `domains = {1: [1, 2], 2: [1, 2]}`: the slice is `lst[0:1]`, and the two tied variables are never swapped | end the slice at `len(domains)`, so that every variable tied at that length is shuffled, as the docstring says | high; not executed | `VariableHeuristics.MrvAndRandomAsWritten` (shown by `VariableHeuristics.AsWrittenNeverSwapsTwoTiedVariables`) | `VariableHeuristics.MrvAndRandom` (proved by `VariableHeuristics.MrvAndRandomShufflesWholeTie`; dispatched by `Heuristics.VariableHeuristicCorrected`) |
| classes.py:87, classes.py:94 | `row` and `col` guard with `<= self.board_size`, so index `board_size` passes and raises `IndexError` | `row(9)` or `col(9)` on a 9 x 9 board | `< self.board_size`, so that every index past the last row or column returns `[]`, as the `else` branch and the docstring's range `0...size-1` show | medium; not executed | `ClassesBoard.Row` and `ClassesBoard.Col` (shown by `ClassesBoard.IndexSizeFails`) | `ClassesBoard.RowCorrected` and `ClassesBoard.ColCorrected` |

`board2.py`'s 1-based `row` and `col` use the same `<=` guard correctly. Its index `k - 1`
still reaches Python's negative indexing: `row(0)` returns the last row. `PresetBoard.Row`
and `PresetBoard.Col` state this.
