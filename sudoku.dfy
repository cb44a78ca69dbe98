/**
 * The engine of sudoku.c: a puzzle instance holding the original grid
 * `puzzle` and the working grid `sol`, both flat arrays of 81 cells, and the
 * operations that read and update `sol` in place.
 */
module SudokuEngine {
  import opened Sorting
  import opened Grid
  import opened Solver

  const Success: int := 0
  const Error: int := -1
  const EraseEmptyCell: int := -2
  const EraseFilledCell: int := -3
  const ErrorNextCell: int := -4

  /**
   * The occupancy map of `s`: position v - 1 holds v when v occurs in `s`
   * (once or more) and 0 otherwise.
   */
  function Occupancy(s: seq<int>): (m: seq<int>)
    ensures |m| == |s|
  {
    seq(|s|, k requires 0 <= k < |s| => if k + 1 in s then k + 1 else 0)
  }

  /**
   * In the occupancy map, position v - 1 holds v when v occurs in `s` and 0
   * when it does not, however often it occurs; the map has the length of `s`.
   */
  lemma OccupancySpec(s: seq<int>, v: int)
    requires 1 <= v <= |s|
    ensures |Occupancy(s)| == |s|
    ensures Occupancy(s)[v - 1] == v <==> v in s
    ensures Occupancy(s)[v - 1] == 0 <==> v !in s
  {
  }

  /** The example of the comment above `order` (sudoku.c:25-29). */
  lemma OccupancyExample()
    ensures Occupancy([2, 0, 3, 0, 4, 6, 1, 0]) == [1, 2, 3, 4, 0, 6, 0, 0]
  {
    var s := [2, 0, 3, 0, 4, 6, 1, 0];
    assert s[6] == 1 && s[0] == 2 && s[2] == 3 && s[4] == 4 && s[5] == 6;
  }

  /**
   * The digits i + 1, for i < n, at which both occupancy maps hold 0, in
   * ascending order: what the last loop of `choices_cell` collects.
   */
  function FreeDigits(rowOcc: seq<int>, colOcc: seq<int>, n: int): (ds: seq<int>)
    requires 0 <= n <= |rowOcc| && n <= |colOcc|
    ensures |ds| <= n
    decreases n
  {
    if n == 0 then []
    else
      var last := if rowOcc[n - 1] == 0 && colOcc[n - 1] == 0 then [n] else [];
      FreeDigits(rowOcc, colOcc, n - 1) + last
  }

  /**
   * Collecting the free digits of the occupancy maps of a row and a column
   * gives exactly the digits absent from both.
   */
  lemma {:induction false} FreeDigitsAreCandidates(g: seq<int>, row: int, col: int, n: int)
    requires |g| == Dim * Dim && IsCell(row, col) && 0 <= n <= Dim
    ensures FreeDigits(Occupancy(Row(g, row)), Occupancy(Col(g, col)), n) == CandidatesUpTo(g, row, col, n)
    decreases n
  {
    if n > 0 {
      FreeDigitsAreCandidates(g, row, col, n - 1);
      var rowOcc, colOcc := Occupancy(Row(g, row)), Occupancy(Col(g, col));
      assert rowOcc[n - 1] == 0 <==> n !in Row(g, row);
      assert colOcc[n - 1] == 0 <==> n !in Col(g, col);
    }
  }

  /** `order(a, len)`: rewrites `a`, whose entries are in 0..len, into its occupancy map. */
  method Order(a: array<int>)
    requires forall i :: 0 <= i < a.Length ==> 0 <= a[i] <= a.Length
    modifies a
    ensures a[..] == Occupancy(old(a[..]))
  {
    var len := a.Length;
    var b := new int[len];
    for i := 0 to len
      invariant a[..] == old(a[..])
      invariant forall k :: 0 <= k < i ==> b[k] == 0
    {
      b[i] := 0;
    }
    for i := 0 to len
      invariant a[..] == old(a[..])
      invariant forall k :: 0 <= k < len ==> b[k] == (if k + 1 in a[..i] then k + 1 else 0)
    {
      assert a[..i + 1] == a[..i] + [a[i]];
      if a[i] != 0 {
        b[a[i] - 1] := a[i];
      }
    }
    assert a[..len] == a[..];
    ghost var occ := b[..];
    for i := 0 to len
      invariant b[..] == occ
      invariant forall k :: 0 <= k < i ==> a[k] == b[k]
    {
      a[i] := b[i];
    }
  }

  /**
   * The last loop of `choices_cell` (sudoku.c:108-117): writes each digit
   * i + 1 at which both occupancy maps hold 0 to the front of `choices`,
   * in ascending order, and returns how many it wrote.
   */
  method CollectCandidates(rowOcc: array<int>, colOcc: array<int>, choices: array<int>) returns (count: int)
    requires rowOcc.Length == Dim && colOcc.Length == Dim && choices.Length == Dim
    requires choices != rowOcc && choices != colOcc
    modifies choices
    ensures 0 <= count <= Dim
    ensures choices[..count] == FreeDigits(rowOcc[..], colOcc[..], Dim)
    ensures forall k :: count <= k < Dim ==> choices[k] == old(choices[k])
  {
    count := 0;
    ghost var found: seq<int> := [];
    for i := 0 to Dim
      invariant 0 <= count <= i && |found| == count
      invariant found == FreeDigits(rowOcc[..], colOcc[..], i)
      invariant forall k :: 0 <= k < count ==> choices[k] == found[k]
      invariant forall k :: count <= k < Dim ==> choices[k] == old(choices[k])
    {
      if rowOcc[i] == 0 && colOcc[i] == 0 {
        choices[count] := i + 1;
        found := found + [i + 1];
        count := count + 1;
      }
    }
    assert choices[..count] == found;
  }

  /** No cell of row `row` left of column `col` is forced. */
  ghost predicate NoneForcedBefore(g: seq<int>, row: int, col: int)
    requires |g| == Dim * Dim && 0 <= row < Dim && col <= Dim
  {
    forall c :: 0 <= c < col ==> !Forced(g, row, c)
  }

  /** No cell of the rows above `row` is forced. */
  ghost predicate NoneForcedAbove(g: seq<int>, row: int)
    requires |g| == Dim * Dim && 0 <= row <= Dim
  {
    forall r :: 0 <= r < row ==> NoneForcedBefore(g, r, Dim)
  }

  /** Extends `NoneForcedAbove` past a row none of whose cells is forced. */
  lemma NoneForcedRowStep(g: seq<int>, row: int)
    requires |g| == Dim * Dim && 0 <= row < Dim
    requires NoneForcedAbove(g, row) && NoneForcedBefore(g, row, Dim)
    ensures NoneForcedAbove(g, row + 1)
  {
  }

  /** Extends `NoneForcedBefore` past a cell that is not forced. */
  lemma NoneForcedStep(g: seq<int>, row: int, col: int)
    requires |g| == Dim * Dim && IsCell(row, col)
    requires NoneForcedBefore(g, row, col)
    requires g[Index(row, col)] != Empty || |Candidates(g, row, col)| != 1
    ensures NoneForcedBefore(g, row, col + 1)
  {
  }

  /**
   * `distinct(a, len)`: sorts `a` and reports whether no two neighbours are
   * equal, which for a sorted array is the same as all of the original
   * entries being pairwise distinct.
   */
  method Distinct(a: array<int>) returns (d: bool)
    modifies a
    ensures d <==> PairwiseDistinct(old(a[..]))
    ensures Sorted(a[..]) && multiset(a[..]) == multiset(old(a[..]))
  {
    SortInPlace(a);
    DistinctPermutation(a[..], old(a[..]));
    SortedDistinctAdjacent(a[..]);
    var i := 0;
    while i < a.Length - 1
      invariant 0 <= i <= a.Length
      invariant forall k :: 0 <= k < i && k + 1 < a.Length ==> a[k] != a[k + 1]
    {
      if a[i] == a[i + 1] {
        return false;
      }
      i := i + 1;
    }
    return true;
  }

  /** A puzzle instance: `struct sudoku` of sudoku.c:18-21. */
  class Sudoku {
    var puzzle: array<int>
    var sol: array<int>

    /** Both grids have 81 cells in 0..9 and are separate arrays. */
    ghost predicate Valid()
      reads this, puzzle, sol
    {
      puzzle != sol && IsGrid(puzzle[..]) && IsGrid(sol[..])
    }

    /** Every given of the puzzle still stands in the working grid. */
    ghost predicate GivensKept()
      reads this, puzzle, sol
      requires Valid()
    {
      forall i :: 0 <= i < Dim * Dim && puzzle[i] != Empty ==> sol[i] == puzzle[i]
    }

    /** The state `read_sudoku` leaves: the puzzle loaded and copied into `sol` by `reset_sol`. */
    constructor (p: seq<int>)
      requires IsGrid(p)
      ensures Valid() && GivensKept()
      ensures fresh(puzzle) && fresh(sol)
      ensures puzzle[..] == p && sol[..] == p
    {
      puzzle := new int[Dim * Dim](i requires 0 <= i < Dim * Dim => p[i]);
      sol := new int[Dim * Dim];
      new;
      assert puzzle[..] == p;
      ResetSol();
    }

    /** `reset_sol`: copies `puzzle` over `sol`, cell by cell. */
    method ResetSol()
      requires puzzle.Length == Dim * Dim && sol.Length == Dim * Dim && puzzle != sol
      modifies sol
      ensures sol[..] == puzzle[..]
      ensures puzzle[..] == old(puzzle[..])
      ensures old(IsGrid(puzzle[..])) ==> Valid() && GivensKept()
    {
      for row := 0 to Dim
        invariant forall k :: 0 <= k < row * Dim ==> sol[k] == puzzle[k]
      {
        for col := 0 to Dim
          invariant forall k :: 0 <= k < row * Dim + col ==> sol[k] == puzzle[k]
        {
          sol[row * Dim + col] := puzzle[row * Dim + col];
        }
      }
    }

    /**
     * `fill_cell`: places `num` at (row, col) when it is a digit, the cell is
     * empty and `num` occurs neither in the row nor in the column; otherwise
     * returns `Error` and changes nothing. The 3x3 box is not consulted.
     */
    method FillCell(row: int, col: int, num: int) returns (code: int)
      requires Valid() && IsCell(row, col)
      modifies sol
      ensures Valid() && puzzle[..] == old(puzzle[..])
      ensures code == Success || code == Error
      ensures code == Success <==> FillAllowed(old(sol[..]), row, col, num)
      ensures code == Success ==> sol[..] == old(sol[..])[Index(row, col) := num]
      ensures code == Error ==> sol[..] == old(sol[..])
      ensures old(GivensKept()) ==> GivensKept()
    {
      if num > Max || num < Min {
        return Error;
      }
      var j := row * Max;
      if sol[j + col] != Empty {
        return Error;
      }
      ghost var g := sol[..];
      for i := 0 to Dim
        invariant j == row * Max + i && sol[..] == g
        invariant num !in Col(g, col)[..i] && num !in Row(g, row)[..i]
      {
        var a := sol[i * Max + col];
        var b := sol[j];
        assert a == Col(g, col)[i] && b == Row(g, row)[i];
        if a == num || b == num {
          return Error;
        }
        assert Col(g, col)[..i + 1] == Col(g, col)[..i] + [a];
        assert Row(g, row)[..i + 1] == Row(g, row)[..i] + [b];
        j := j + 1;
      }
      assert Row(g, row)[..Dim] == Row(g, row) && Col(g, col)[..Dim] == Col(g, col);
      sol[row * Max + col] := num;
      return Success;
    }

    /**
     * The first loop of `choices_cell`: copies row `row` of `sol` into `rowA`
     * and column `col` into `colA`.
     */
    method CopyRowAndColumn(row: int, col: int, rowA: array<int>, colA: array<int>)
      requires Valid() && IsCell(row, col)
      requires rowA.Length == Dim && colA.Length == Dim && rowA != colA
      requires rowA != sol && rowA != puzzle && colA != sol && colA != puzzle
      modifies rowA, colA
      ensures rowA[..] == Row(sol[..], row) && colA[..] == Col(sol[..], col)
    {
      ghost var g := sol[..];
      var j := row * Max;
      for i := 0 to Dim
        invariant j == row * Max + i
        invariant forall k :: 0 <= k < i ==> colA[k] == g[k * Dim + col] && rowA[k] == g[row * Dim + k]
      {
        colA[i] := sol[i * Max + col];
        rowA[i] := sol[j];
        j := j + 1;
      }
      assert rowA[..] == Row(g, row);
      assert colA[..] == Col(g, col);
    }

    /**
     * `choices_cell`: writes the candidates of (row, col) to the front of
     * `choices` and returns how many there are; the cells of `choices`
     * beyond them are left as they were.
     */
    method ChoicesCell(row: int, col: int, choices: array<int>) returns (numChoices: int)
      requires Valid() && IsCell(row, col)
      requires choices.Length == Dim && choices != sol && choices != puzzle
      modifies choices
      ensures 0 <= numChoices <= Dim
      ensures choices[..numChoices] == Candidates(sol[..], row, col)
      ensures forall k :: numChoices <= k < Dim ==> choices[k] == old(choices[k])
    {
      var rowA := new int[Dim];
      var colA := new int[Dim];
      if sol[row * Max + col] != Empty {
        numChoices := 0;
      } else {
        ghost var g := sol[..];
        CopyRowAndColumn(row, col, rowA, colA);
        Order(rowA);
        Order(colA);
        assert rowA[..] == Occupancy(Row(g, row)) && colA[..] == Occupancy(Col(g, col));
        numChoices := CollectCandidates(rowA, colA, choices);
        assert sol[..] == g;
        FreeDigitsAreCandidates(g, row, col, Dim);
        assert choices[..numChoices] == CandidatesUpTo(g, row, col, Max);
      }
    }

    /**
     * `solved_puzzle`: true exactly when no cell of `sol` is empty and every
     * row and every column holds pairwise distinct values. Only copies are
     * sorted; the grid itself is not changed.
     */
    method SolvedPuzzle() returns (solved: bool)
      requires Valid()
      ensures solved <==> Solved(sol[..])
    {
      var a := new int[Dim * Dim];
      var test := new int[Dim];
      ghost var g := sol[..];
      for i := 0 to Dim * Dim
        invariant forall k :: 0 <= k < i ==> g[k] != Empty && a[k] == g[k]
      {
        if sol[i] == Empty {
          return false;
        }
        a[i] := sol[i];
      }
      assert a[..] == g;
      for row := 0 to Dim
        invariant a[..] == g
        invariant forall r :: 0 <= r < row ==> PairwiseDistinct(Row(g, r))
      {
        for col := 0 to Dim
          invariant a[..] == g
          invariant forall k :: 0 <= k < col ==> test[k] == g[row * Dim + k]
        {
          test[col] := a[row * Dim + col];
        }
        assert test[..] == Row(g, row);
        var d := Distinct(test);
        if !d {
          return false;
        }
      }
      for col := 0 to Dim
        invariant a[..] == g
        invariant forall c :: 0 <= c < col ==> PairwiseDistinct(Col(g, c))
      {
        for row := 0 to Dim
          invariant a[..] == g
          invariant forall k :: 0 <= k < row ==> test[k] == g[k * Dim + col]
        {
          test[row] := a[row * Dim + col];
        }
        assert test[..] == Col(g, col);
        var d := Distinct(test);
        if !d {
          return false;
        }
      }
      return true;
    }

    /**
     * `solve`: the search of sudoku.c:173-199, on the working grid. It ends
     * with the outcome and the grid that `Search` describes; see the lemmas
     * of module Solver for what that guarantees.
     */
    method Solve() returns (solved: bool)
      requires Valid()
      modifies sol
      ensures Valid() && puzzle[..] == old(puzzle[..])
      ensures (solved, sol[..]) == Search(old(sol[..]))
      decreases ZeroCount(sol[..]), 1
    {
      ghost var g := sol[..];
      var choices := new int[Dim];
      var numChoices := 0;
      solved := SolvedPuzzle();
      if solved {
        return;
      }
      var pos := 0;
      while pos < Dim * Dim && sol[pos] != Empty
        invariant 0 <= pos <= Dim * Dim && sol[..] == g
        invariant forall k :: 0 <= k < pos ==> g[k] != Empty
      {
        pos := pos + 1;
      }
      assert pos == FirstEmpty(g, 0);
      if pos == Dim * Dim {
        return false;
      }
      numChoices := ChoicesCell(pos / Dim, pos % Dim, choices);
      assert sol[..] == g;
      if numChoices == 0 {
        return false;
      }
      SearchUnfold(g, pos, choices[..numChoices]);
      solved := TryCandidates(pos, choices, numChoices);
    }

    /**
     * The candidate loop of `solve` (sudoku.c:192-198): fills the empty cell
     * at `pos` with the first of `choices[..numChoices]` that `fill_cell`
     * accepts and searches on from there; if none is accepted, empties the
     * cell again and gives up.
     */
    method TryCandidates(pos: int, choices: array<int>, numChoices: int) returns (solved: bool)
      requires Valid() && 0 <= pos < Dim * Dim && sol[pos] == Empty
      requires choices != sol && choices != puzzle && 0 <= numChoices <= choices.Length
      modifies sol
      ensures Valid() && puzzle[..] == old(puzzle[..])
      ensures (solved, sol[..]) == SearchFrom(old(sol[..]), pos, old(choices[..numChoices]), 0)
      decreases ZeroCount(sol[..]), 0
    {
      ghost var g := sol[..];
      ghost var cands := choices[..numChoices];
      var j := 0;
      while j < numChoices
        invariant 0 <= j <= numChoices
        invariant sol[..] == g && choices[..numChoices] == cands
        invariant SearchFrom(g, pos, cands, 0) == SearchFrom(g, pos, cands, j)
      {
        var code := FillCell(pos / Dim, pos % Dim, choices[j]);
        if code == Success {
          assert Index(pos / Dim, pos % Dim) == pos;
          assert FillAllowed(g, pos / Dim, pos % Dim, cands[j]);
          assert sol[..] == g[pos := cands[j]];
          ZeroCountFill(g, pos, cands[j]);
          solved := Solve();
          return;
        }
        assert !FillAllowed(g, pos / Dim, pos % Dim, cands[j]);
        j := j + 1;
      }
      sol[pos] := Empty;
      return false;
    }

    /**
     * `solve` with the backtracking its comments describe: the same steps,
     * except that when the search below a candidate fails, the candidate's
     * cell is emptied again and the next candidate is tried. It ends with the
     * outcome and grid of `SearchAll`: success exactly when the grid can be
     * completed, and the grid unchanged on failure.
     */
    method SolveBacktracking() returns (solved: bool)
      requires Valid()
      modifies sol
      ensures Valid() && puzzle[..] == old(puzzle[..])
      ensures (solved, sol[..]) == SearchAll(old(sol[..]))
      decreases ZeroCount(sol[..]), 1
    {
      ghost var g := sol[..];
      var choices := new int[Dim];
      var numChoices := 0;
      solved := SolvedPuzzle();
      if solved {
        return;
      }
      var pos := 0;
      while pos < Dim * Dim && sol[pos] != Empty
        invariant 0 <= pos <= Dim * Dim && sol[..] == g
        invariant forall k :: 0 <= k < pos ==> g[k] != Empty
      {
        pos := pos + 1;
      }
      assert pos == FirstEmpty(g, 0);
      if pos == Dim * Dim {
        return false;
      }
      numChoices := ChoicesCell(pos / Dim, pos % Dim, choices);
      assert sol[..] == g;
      if numChoices == 0 {
        return false;
      }
      assert SearchAll(g) == TryAll(g, pos, choices[..numChoices], 0);
      solved := TryAllCandidates(pos, choices, numChoices);
    }

    /** The candidate loop of `SolveBacktracking`. */
    method TryAllCandidates(pos: int, choices: array<int>, numChoices: int) returns (solved: bool)
      requires Valid() && 0 <= pos < Dim * Dim && sol[pos] == Empty
      requires choices != sol && choices != puzzle && 0 <= numChoices <= choices.Length
      modifies sol
      ensures Valid() && puzzle[..] == old(puzzle[..])
      ensures (solved, sol[..]) == TryAll(old(sol[..]), pos, old(choices[..numChoices]), 0)
      decreases ZeroCount(sol[..]), 0
    {
      ghost var g := sol[..];
      ghost var cands := choices[..numChoices];
      var j := 0;
      while j < numChoices
        invariant 0 <= j <= numChoices
        invariant sol[..] == g && choices[..numChoices] == cands
        invariant TryAll(g, pos, cands, 0) == TryAll(g, pos, cands, j)
      {
        var code := FillCell(pos / Dim, pos % Dim, choices[j]);
        if code == Success {
          assert Index(pos / Dim, pos % Dim) == pos;
          assert FillAllowed(g, pos / Dim, pos % Dim, cands[j]);
          assert sol[..] == g[pos := cands[j]];
          ZeroCountFill(g, pos, cands[j]);
          solved := SolveBacktracking();
          if solved {
            return;
          }
          SearchAllSound(g[pos := cands[j]]);
          sol[pos] := Empty;
          assert sol[..] == g;
        } else {
          assert !FillAllowed(g, pos / Dim, pos % Dim, cands[j]);
        }
        j := j + 1;
      }
      sol[pos] := Empty;
      assert sol[..] == g;
      return false;
    }

    /** `cell_empty(board, row, col)`: whether cell (row, col) of `board` is 0. */
    static method CellIsEmpty(board: array<int>, row: int, col: int) returns (empty: bool)
      requires board.Length == Dim * Dim && IsCell(row, col)
      ensures empty <==> board[Index(row, col)] == Empty
    {
      return board[row * Dim + col] == Empty;
    }

    /**
     * `erase_cell`: `EraseEmptyCell` if (row, col) of `sol` is empty,
     * `EraseFilledCell` if it is a given of the puzzle (both without change),
     * and otherwise clears that one cell and returns `Success`.
     */
    method EraseCell(row: int, col: int) returns (code: int)
      requires Valid() && IsCell(row, col)
      modifies sol
      ensures Valid() && puzzle[..] == old(puzzle[..])
      ensures old(sol[Index(row, col)]) == Empty ==>
        code == EraseEmptyCell && sol[..] == old(sol[..])
      ensures old(sol[Index(row, col)]) != Empty && puzzle[Index(row, col)] != Empty ==>
        code == EraseFilledCell && sol[..] == old(sol[..])
      ensures old(sol[Index(row, col)]) != Empty && puzzle[Index(row, col)] == Empty ==>
        code == Success && sol[..] == old(sol[..])[Index(row, col) := Empty]
      ensures old(GivensKept()) ==> GivensKept()
    {
      var e := CellIsEmpty(sol, row, col);
      if e {
        return EraseEmptyCell;
      }
      e := CellIsEmpty(puzzle, row, col);
      if !e {
        return EraseFilledCell;
      }
      sol[row * Dim + col] := Empty;
      return Success;
    }

    /**
     * `next_cell`: finds the first cell in row-major order that is empty and
     * has exactly one candidate, returning `Success` and its position; if
     * there is none it returns `ErrorNextCell` and hands back the caller's
     * `row0`, `col0` untouched. The grid is only read.
     */
    method NextCell(row0: int, col0: int) returns (code: int, row: int, col: int)
      requires Valid()
      ensures code == Success || code == ErrorNextCell
      ensures code == Success ==>
        IsCell(row, col) && Forced(sol[..], row, col) &&
        forall r, c :: IsCell(r, c) && Index(r, c) < Index(row, col) ==> !Forced(sol[..], r, c)
      ensures code == ErrorNextCell ==>
        row == row0 && col == col0 &&
        forall r, c :: IsCell(r, c) ==> !Forced(sol[..], r, c)
    {
      row, col := row0, col0;
      var choices := new int[Dim];
      var numChoices := 0;
      ghost var g := sol[..];
      for i := 0 to Dim
        invariant sol[..] == g
        invariant NoneForcedAbove(g, i)
      {
        for j := 0 to Dim
          invariant sol[..] == g
          invariant NoneForcedAbove(g, i)
          invariant NoneForcedBefore(g, i, j)
        {
          var e := CellIsEmpty(sol, i, j);
          if !e {
            NoneForcedStep(g, i, j);
            continue;
          }
          numChoices := ChoicesCell(i, j, choices);
          assert sol[..] == g;
          assert |Candidates(g, i, j)| == numChoices;
          if numChoices == 1 {
            row, col := i, j;
            forall r, c | IsCell(r, c) && Index(r, c) < Index(row, col)
              ensures !Forced(g, r, c)
            {
              IndexOrder(r, c, row, col);
              if r < row {
                assert NoneForcedBefore(g, r, Dim);
              }
            }
            return Success, row, col;
          }
          NoneForcedStep(g, i, j);
        }
        NoneForcedRowStep(g, i);
      }
      forall r, c | IsCell(r, c)
        ensures !Forced(g, r, c)
      {
        assert NoneForcedBefore(g, r, Dim);
      }
      return ErrorNextCell, row, col;
    }
  }
}
