# Sudoku engine of sudoku.c, modelled and verified in Dafny

sudoku.c is a small 9x9 Sudoku engine. A puzzle instance (`struct sudoku`)
holds two flat row-major grids of 81 cells: `puzzle`, the givens as read,
and `sol`, the working grid. A cell holds 0 when empty and a digit 1..9
otherwise. The engine has these operations:

- `fill_cell`: a guarded placement.
- `choices_cell`: candidate enumeration, built on the helper `order`, which
  turns a line of the grid into an occupancy map.
- `solved_puzzle`: validation, built on the helper `distinct`.
- `solve`: a recursive search.
- `erase_cell`, `next_cell`, `reset_sol`: small board utilities.

Only rows and columns are ever constrained. Every function of the code
ignores the 3x3 boxes, although the comments above `fill_cell` and
`choices_cell` mention them. The model follows the code.

The project has four modules:

- `Sorting` (sorting.dfy): sortedness and pairwise distinctness of
  sequences. `SortInPlace` has the contract `distinct` relies on from
  `merge_sort`: the array ends sorted and is a permutation of its input.
- `Grid` (grid.dfy): the board as a sequence of 81 integers, its rows and
  columns, the guards of `fill_cell` (`FillAllowed`), the candidates of a
  cell (`Candidates`), forced cells, the solved-grid predicate of
  `solved_puzzle` (`Solved`), and the count of empty cells that makes the
  search terminate.
- `Solver` (search.dfy): the search of `solve`, as written, as a pure function
  (`Search`/`SearchFrom`) and what it guarantees. It also holds the
  backtracking search that the comments of `solve` describe
  (`SearchAll`/`TryAll`), with a concrete puzzle on which the two differ
  (see Findings).
- `SudokuEngine` (sudoku.dfy): the imperative engine.
  - The `Sudoku` class has the two grids as `array<int>` fields.
  - Each C function is a method with the same loops, branches and return
    codes. The methods of the class are proved against the functions of
    `Grid` and `Solver`.
  - `order` and `distinct` are module-level methods on arrays. `Order` is
    proved against `Occupancy` and the candidate loop `CollectCandidates`
    against `FreeDigits`, both defined in `SudokuEngine`. `Distinct` is
    proved against `Sorted` and `PairwiseDistinct` of `Sorting`.

## Model

| member | source | states |
|---|---|---|
| SudokuEngine.Sudoku.constructor | sudoku.c:203-221 | The state `read_sudoku` leaves: `puzzle` holds the given grid of cells in 0..9, and `sol` is a copy of it made by `reset_sol`, so every given stands in `sol`. |
| SudokuEngine.Sudoku.ResetSol | sudoku.c:246-254 | Afterwards `sol` equals `puzzle` and `puzzle` is unchanged. The new state does not depend on the old `sol`, so a second call changes nothing (idempotent). |
| SudokuEngine.Sudoku.FillCell | sudoku.c:54-78 | Returns `Success` exactly when `num` is in 1..9, the cell is empty, and `num` is in neither the row nor the column. Otherwise it returns `Error` with `sol` unchanged. On `Success` exactly that one cell becomes `num`. `puzzle` and the cells-in-0..9 invariant are kept, and so are the givens. |
| SudokuEngine.Occupancy | sudoku.c:25-45 | The occupancy map that `order` produces: as long as its input, with v at position v-1 for each v in 1..len that occurs in the input and 0 elsewhere. |
| SudokuEngine.Order | sudoku.c:32-45 | For entries in 0..len, the array becomes its occupancy map `Occupancy` of its old contents. |
| SudokuEngine.OccupancySpec | sudoku.c:25-45 | In the occupancy map, position v-1 holds v when v occurred in the input and 0 when it did not, duplicates or not. |
| SudokuEngine.OccupancyExample | sudoku.c:25-29 | The worked example of the comment: (2,0,3,0,4,6,1,0) becomes (1,2,3,4,0,6,0,0). |
| SudokuEngine.Sudoku.CopyRowAndColumn | sudoku.c:99-104 | The first loop of `choices_cell` copies exactly row `row` and column `col` of `sol`. |
| SudokuEngine.FreeDigits | sudoku.c:111-116 | The digits i+1, for i below n, at which both occupancy maps hold 0, in ascending order; at most n of them. |
| SudokuEngine.CollectCandidates | sudoku.c:108-117 | The counting loop of `choices_cell` writes, in ascending order, each digit i+1 at which both occupancy maps hold 0 (`FreeDigits`). It returns their number and leaves the rest of `choices` as it was. |
| SudokuEngine.FreeDigitsAreCandidates | sudoku.c:105-117 | The free digits of the occupancy maps of a row and a column are exactly the candidates `CandidatesUpTo`: the values absent from both. |
| SudokuEngine.Sudoku.ChoicesCell | sudoku.c:89-119 | `choices[..numChoices]` is exactly `Candidates` of the cell, and 0 <= numChoices <= 9. A filled cell gives 0. The grid is not changed, and `choices` beyond `numChoices` is untouched. |
| Grid.Candidates | sudoku.c:89-119 | What `choices_cell` reports for a cell: nothing when it is filled, else the digits absent from its row and column in ascending order; never more than nine. |
| Grid.CandidatesSpec | sudoku.c:89-119 | A value is a candidate exactly when the cell is empty, the value is in 1..9 and it is absent from both row and column. The candidates are strictly ascending and at most nine. |
| Grid.CandidateMember | sudoku.c:89-119 | The same membership condition, for one given value. |
| Grid.CandidatesUpToMember | sudoku.c:111-116 | A value is among the candidates up to n exactly when it is in 1..n and absent from row and column. |
| Grid.CandidatesUpToIncreasing | sudoku.c:111-116 | The candidates up to n are strictly ascending and at most n. |
| Grid.FillAllowed | sudoku.c:54-74 | The guards of `fill_cell`: `num` is in 1..9, the cell is empty, and `num` occurs in neither the cell's row nor its column. |
| Grid.CandidatesAreFillable | sudoku.c:54-119 | `choices_cell` and `fill_cell` agree: a value is a candidate of a cell exactly when `fill_cell` would accept it there. |
| Grid.ForcedValue | sudoku.c:283-302 | A cell with exactly one candidate: that candidate is the only digit missing from its row and column. |
| SudokuEngine.Distinct | sudoku.c:124-132 | Returns true exactly when the original entries are pairwise distinct. The array is left sorted and a permutation of its input. |
| Sorting.SortInPlace | sudoku.c:125 | Stands in for `merge_sort`: the array ends sorted and a permutation of its input. |
| Sorting.SortedDistinctAdjacent | sudoku.c:126-131 | For a sorted sequence, pairwise distinct is the same as no two neighbours equal. This is the scan `distinct` performs. |
| Sorting.DistinctPermutation | sudoku.c:124-132 | Sorting does not change whether the values are pairwise distinct. |
| Sorting.DistinctByCount | sudoku.c:124-132 | Pairwise distinct is the same as every value occurring at most once. |
| Grid.Solved | sudoku.c:137-165 | What `solved_puzzle` accepts: no cell is 0, and each of the 9 rows and 9 columns has pairwise distinct entries. |
| SudokuEngine.Sudoku.SolvedPuzzle | sudoku.c:137-165 | True exactly when no cell of `sol` is 0 and each of the 9 rows and 9 columns has pairwise distinct entries (`Solved`). The grid is only read; `distinct` works on copies. |
| Solver.Search | sudoku.c:173-199 | `solve` as written, on values: true on a solved grid; false, grid unchanged, when there is no empty cell or the first one has no candidate; otherwise the candidate loop `SearchFrom`. The grid it returns has 81 cells. |
| Solver.SearchFrom | sudoku.c:192-198 | The candidate loop of `solve`: the first candidate from j on that passes `fill_cell` is placed and the result of the recursive search is returned as it is; if none passes, false with the grid unchanged. |
| SudokuEngine.Sudoku.Solve | sudoku.c:173-199 | The outcome and the final grid are those of `Search` on the grid at entry. `puzzle` and the 0..9 invariant are kept. Termination is by the number of empty cells. |
| SudokuEngine.Sudoku.TryCandidates | sudoku.c:192-198 | The candidate loop of `solve` gives the outcome and grid of `SearchFrom`. |
| Solver.SearchUnfold | sudoku.c:178-192 | On an unsolved grid whose first empty cell has candidates, the search is the candidate loop over that cell's candidates. |
| Solver.SearchTakesFirstCandidate | sudoku.c:188-198 | The first candidate of the first empty cell passes all the guards of `fill_cell` (`FillAllowed`). So the search continues from the grid with that digit placed, and the reset at line 197 is never reached. |
| Solver.SearchSound | sudoku.c:173-199 | When the search reports success, `solved_puzzle` holds on the final grid. |
| Solver.SearchKeepsFilled | sudoku.c:173-199 | The search never changes a cell that was filled at entry (in particular a given), and leaves only values 0..9. |
| Grid.ZeroCountFill | sudoku.c:75-76 | A successful fill leaves one empty cell fewer; this makes the search terminate. |
| Grid.FirstEmpty | sudoku.c:181-184 | The scan of `solve` stops at the first empty cell in row-major order, or at 81 when there is none. |
| SudokuEngine.Sudoku.CellIsEmpty | sudoku.c:259-265 | True exactly when the cell of the given board is 0. |
| SudokuEngine.Sudoku.EraseCell | sudoku.c:267-280 | Returns `EraseEmptyCell` with no change when the `sol` cell is 0. Returns `EraseFilledCell` with no change when the `puzzle` cell is non-zero. Otherwise it clears exactly that `sol` cell and returns `Success`. Givens and `puzzle` are kept. |
| SudokuEngine.Sudoku.NextCell | sudoku.c:283-302 | Returns `Success` with the first cell in row-major order that is empty and has exactly one candidate: that cell is forced and no earlier cell is. Otherwise it returns `ErrorNextCell` with no cell forced and the caller's row and column handed back. The board is only read. |
| Grid.IndexOrder | sudoku.c:290-300 | The row-major position order of `next_cell`'s nested loops: one cell precedes another exactly when its row does, or when it lies further left in the same row. |
| Solver.SearchMissesSolution | sudoku.c:192-195 | A concrete puzzle (`Puzzle0`) that can be completed but on which the search of `solve` reports failure. |
| Solver.Puzzle0Candidates | sudoku.c:188 | In `Puzzle0` the first empty cell (0,0) has the candidates 1 and 2. |
| Solver.Puzzle0DeadEnd | sudoku.c:178-191 | After 1 is placed at (0,0), cell (0,1) has no candidate, and the search gives up. |
| Solver.Solution0Solved | sudoku.c:137-165 | The completion `Solution0` of `Puzzle0` is accepted by `solved_puzzle`. |
| Solver.SearchAll | sudoku.c:167-199 | The backtracking search the comments of `solve` describe, with the same steps as `Search` but the candidate loop `TryAll`. |
| Solver.TryAll | sudoku.c:192-198 | The corrected candidate loop: after a failed recursive search it goes on with the next candidate from the grid it started with; when all fail, false with that grid. |
| Solver.SearchAllSound | sudoku.c:167-170 | A successful backtracking search ends in a solved grid of digits that keeps every filled cell. A failed one gives its input back unchanged. |
| Solver.SearchAllComplete | sudoku.c:167-170 | The backtracking search succeeds on every grid that has a completion. |
| Solver.CompletionFillAllowed | sudoku.c:54-76 | The value any completion puts into an empty cell passes the guards of `fill_cell` there. |
| Solver.SearchAllCorrect | sudoku.c:167-199 | The backtracking search succeeds exactly on the grids that can be completed (`Solvable`). |
| Solver.SearchAllFindsSolution | sudoku.c:167-170 | The backtracking search succeeds on `Puzzle0`. |
| SudokuEngine.Sudoku.SolveBacktracking | sudoku.c:173-199 | The corrected `solve` gives the outcome and grid of `SearchAll`. So it succeeds exactly when the grid can be completed, and on failure it leaves the grid as it was. |
| SudokuEngine.Sudoku.TryAllCandidates | sudoku.c:192-198 | The corrected candidate loop empties the cell after a failed recursive search and goes on with the next candidate, giving the outcome of `TryAll`. |

## Findings

| source | as written | input that shows it | evidently intended | confidence | as-written member | corrected member |
|---|---|---|---|---|---|---|
| sudoku.c:192-195 | After the first candidate that `fill_cell` accepts, `solve` returns whatever the recursive call returns. The remaining candidates are never tried, and the failed fill stays in `sol`. The comment at sudoku.c:167-170 promises search with backtracking and a true result whenever the puzzle has a solution. | `Puzzle0`: the Latin square with (r - c + 1) mod 9 + 1 at cell (r, c), with cells (0,0), (0,1) and (8,0) emptied. Cell (0,0) has candidates 1 and 2. Choosing 1 leaves (0,1) without candidates, so the search reports failure. Choosing 2 completes the grid. | When the recursive search fails, empty the cell again and try the next candidate. Then `solve` returns true exactly when the grid can be completed. | high; not executed | Solver.SearchMissesSolution | Solver.SearchAllCorrect |

`Sudoku.Solve` and `Search` model the code as written. `Sudoku.SolveBacktracking` and `SearchAll` model the intended behaviour.

## Left out

- `read_sudoku` (sudoku.c:203-221) reads characters with `scanf` and allocates with `malloc`. The constructor takes the already-decoded grid instead. It requires cells in 0..9, which the `c - '0'` decoding of unexpected characters would not guarantee.
- `print_sol` (sudoku.c:228-244) only prints. `sudoku_destroy` (sudoku.c:223-226) only frees memory.
- `merge_sort` comes from sort.h, which is not part of this model. `Sorting.SortInPlace` has its contract (sorted, and a permutation) and is implemented with an insertion sort.
- The `assert` calls on pointers and indices (sudoku.c:224, 229, 247, 260-262, 268-270, 284-286) are preconditions of the corresponding members rather than run-time checks. The index ranges `fill_cell` and `choices_cell` rely on are preconditions too, and so are the 0..9 range of the cells that `order` relies on (sudoku.c:39) and `distinct`'s length argument (taken as the array length).
- The 3x3 box constraint is never checked by the code, so the model does not check it either.
- `next_cell` writes `*row`/`*col` only on success. The model passes the caller's values in as `row0`/`col0` and returns them unchanged on failure.
- The local `choices` arrays of `solve` and `next_cell` are allocated without an initialiser here (`new int[Dim]`), so their entries are arbitrary, as in C. Only the first `numChoices` entries are ever read, and `choices_cell` writes those first.
- C `int` width: every value the engine computes lies in -4..81, so the model uses unbounded integers without wrap-around.
- Recursion depth and stack use of `solve` are not modelled.
- `SudokuEngine.Sudoku.CopyRowAndColumn`, `SudokuEngine.CollectCandidates` and `SudokuEngine.Sudoku.TryCandidates` are parts of `choices_cell` and `solve` split out as methods of their own. The loops and their order are unchanged.
