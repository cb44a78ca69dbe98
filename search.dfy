/**
 * The search of `solve` (sudoku.c:173-199) as a pure function on grids, and
 * what it guarantees. `Search` follows the code step by step: stop if the grid
 * is solved; otherwise take the first empty cell in row-major order, give up if
 * there is none or it has no candidate, and else try its candidates in
 * ascending order, handing the grid to a recursive search as soon as one of
 * them passes the guards of `fill_cell`, whatever that search returns.
 * `SearchFrom` is the loop over the candidates, including the reset that
 * follows it (sudoku.c:197).
 */
module Solver {
  import opened Sorting
  import opened Grid

  /** The outcome of `solve` and the grid it leaves behind. */
  function Search(g: seq<int>): (r: (bool, seq<int>))
    requires IsGrid(g)
    ensures |r.1| == Dim * Dim
    decreases ZeroCount(g), 1, 0
  {
    if Solved(g) then (true, g)
    else
      var pos := FirstEmpty(g, 0);
      if pos == Dim * Dim then (false, g)
      else
        var cands := Candidates(g, pos / Dim, pos % Dim);
        if |cands| == 0 then (false, g)
        else SearchFrom(g, pos, cands, 0)
  }

  /** The candidate loop of `solve`, from the `j`-th candidate on. */
  function SearchFrom(g: seq<int>, pos: int, cands: seq<int>, j: int): (r: (bool, seq<int>))
    requires IsGrid(g) && 0 <= pos < Dim * Dim && g[pos] == Empty
    requires 0 <= j <= |cands|
    ensures |r.1| == Dim * Dim
    decreases ZeroCount(g), 0, |cands| - j
  {
    if j == |cands| then (false, g[pos := Empty])
    else if FillAllowed(g, pos / Dim, pos % Dim, cands[j]) then
      ZeroCountFill(g, pos, cands[j]);
      Search(g[pos := cands[j]])
    else SearchFrom(g, pos, cands, j + 1)
  }

  /** One unfolding of `Search` on an unsolved grid whose first empty cell has candidates. */
  lemma SearchUnfold(g: seq<int>, pos: int, cands: seq<int>)
    requires IsGrid(g) && !Solved(g)
    requires pos == FirstEmpty(g, 0) < Dim * Dim
    requires cands == Candidates(g, pos / Dim, pos % Dim) && |cands| > 0
    ensures Search(g) == SearchFrom(g, pos, cands, 0)
  {
  }

  /**
   * The first candidate of the first empty cell always passes the guards of
   * `fill_cell`, so an unsolved grid with an empty cell that has candidates is
   * searched further from that candidate, and the reset after the loop is
   * never reached.
   */
  lemma SearchTakesFirstCandidate(g: seq<int>)
    requires IsGrid(g) && !Solved(g)
    requires FirstEmpty(g, 0) < Dim * Dim
    requires |Candidates(g, FirstEmpty(g, 0) / Dim, FirstEmpty(g, 0) % Dim)| > 0
    ensures var pos := FirstEmpty(g, 0);
            var v := Candidates(g, pos / Dim, pos % Dim)[0];
            FillAllowed(g, pos / Dim, pos % Dim, v) && Search(g) == Search(g[pos := v])
  {
    var pos := FirstEmpty(g, 0);
    var cands := Candidates(g, pos / Dim, pos % Dim);
    CandidatesAreFillable(g, pos / Dim, pos % Dim);
    assert cands[0] in cands;
  }

  /** A search that reports success leaves a grid that `solved_puzzle` accepts. */
  lemma {:induction false} SearchSound(g: seq<int>)
    requires IsGrid(g)
    ensures Search(g).0 ==> Solved(Search(g).1)
    decreases ZeroCount(g), 1, 0
  {
    if !Solved(g) {
      var pos := FirstEmpty(g, 0);
      if pos < Dim * Dim {
        var cands := Candidates(g, pos / Dim, pos % Dim);
        if |cands| > 0 {
          SearchFromSound(g, pos, cands, 0);
        }
      }
    }
  }

  lemma {:induction false} SearchFromSound(g: seq<int>, pos: int, cands: seq<int>, j: int)
    requires IsGrid(g) && 0 <= pos < Dim * Dim && g[pos] == Empty
    requires 0 <= j <= |cands|
    ensures SearchFrom(g, pos, cands, j).0 ==> Solved(SearchFrom(g, pos, cands, j).1)
    decreases ZeroCount(g), 0, |cands| - j
  {
    if j < |cands| {
      if FillAllowed(g, pos / Dim, pos % Dim, cands[j]) {
        ZeroCountFill(g, pos, cands[j]);
        SearchSound(g[pos := cands[j]]);
      } else {
        SearchFromSound(g, pos, cands, j + 1);
      }
    }
  }

  /**
   * The search never changes a cell that was filled when it started (in
   * particular a given of the puzzle), and only ever writes digits.
   */
  lemma {:induction false} SearchKeepsFilled(g: seq<int>)
    requires IsGrid(g)
    ensures IsGrid(Search(g).1)
    ensures KeepsFilled(g, Search(g).1)
    decreases ZeroCount(g), 1, 0
  {
    if !Solved(g) {
      var pos := FirstEmpty(g, 0);
      if pos < Dim * Dim {
        var cands := Candidates(g, pos / Dim, pos % Dim);
        if |cands| > 0 {
          SearchFromKeepsFilled(g, pos, cands, 0);
        }
      }
    }
  }

  lemma {:induction false} SearchFromKeepsFilled(g: seq<int>, pos: int, cands: seq<int>, j: int)
    requires IsGrid(g) && 0 <= pos < Dim * Dim && g[pos] == Empty
    requires 0 <= j <= |cands|
    ensures IsGrid(SearchFrom(g, pos, cands, j).1)
    ensures KeepsFilled(g, SearchFrom(g, pos, cands, j).1)
    decreases ZeroCount(g), 0, |cands| - j
  {
    if j < |cands| {
      if FillAllowed(g, pos / Dim, pos % Dim, cands[j]) {
        ZeroCountFill(g, pos, cands[j]);
        SearchKeepsFilled(g[pos := cands[j]]);
      } else {
        SearchFromKeepsFilled(g, pos, cands, j + 1);
      }
    }
  }

  /** `g` can be completed: some grid that `solved_puzzle` accepts keeps every filled cell of `g`. */
  ghost predicate Solvable(g: seq<int>)
    requires IsGrid(g)
  {
    exists h :: IsGrid(h) && Solved(h) && KeepsFilled(g, h)
  }

  /**
   * The search with backtracking that the comments of `solve` describe: when
   * the search below a candidate fails, the cell is emptied again and the next
   * candidate is tried. A failed search hands back the grid it started from.
   */
  function SearchAll(g: seq<int>): (r: (bool, seq<int>))
    requires IsGrid(g)
    ensures |r.1| == Dim * Dim
    decreases ZeroCount(g), 1, 0
  {
    if Solved(g) then (true, g)
    else
      var pos := FirstEmpty(g, 0);
      if pos == Dim * Dim then (false, g)
      else
        var cands := Candidates(g, pos / Dim, pos % Dim);
        if |cands| == 0 then (false, g)
        else TryAll(g, pos, cands, 0)
  }

  /** The candidate loop of `SearchAll`, from the `j`-th candidate on. */
  function TryAll(g: seq<int>, pos: int, cands: seq<int>, j: int): (r: (bool, seq<int>))
    requires IsGrid(g) && 0 <= pos < Dim * Dim && g[pos] == Empty
    requires 0 <= j <= |cands|
    ensures |r.1| == Dim * Dim
    decreases ZeroCount(g), 0, |cands| - j
  {
    if j == |cands| then (false, g)
    else if FillAllowed(g, pos / Dim, pos % Dim, cands[j]) then
      ZeroCountFill(g, pos, cands[j]);
      var r := SearchAll(g[pos := cands[j]]);
      if r.0 then r else TryAll(g, pos, cands, j + 1)
    else TryAll(g, pos, cands, j + 1)
  }

  /**
   * A successful `SearchAll` ends in a solved grid of digits that keeps every
   * filled cell; a failed one gives back its input unchanged.
   */
  lemma {:induction false} SearchAllSound(g: seq<int>)
    requires IsGrid(g)
    ensures SearchAll(g).0 ==> IsGrid(SearchAll(g).1) && Solved(SearchAll(g).1) && KeepsFilled(g, SearchAll(g).1)
    ensures !SearchAll(g).0 ==> SearchAll(g).1 == g
    decreases ZeroCount(g), 1, 0
  {
    if !Solved(g) {
      var pos := FirstEmpty(g, 0);
      if pos < Dim * Dim {
        var cands := Candidates(g, pos / Dim, pos % Dim);
        if |cands| > 0 {
          TryAllSound(g, pos, cands, 0);
        }
      }
    }
  }

  lemma {:induction false} TryAllSound(g: seq<int>, pos: int, cands: seq<int>, j: int)
    requires IsGrid(g) && 0 <= pos < Dim * Dim && g[pos] == Empty
    requires 0 <= j <= |cands|
    ensures var r := TryAll(g, pos, cands, j);
            r.0 ==> IsGrid(r.1) && Solved(r.1) && KeepsFilled(g, r.1)
    ensures !TryAll(g, pos, cands, j).0 ==> TryAll(g, pos, cands, j).1 == g
    decreases ZeroCount(g), 0, |cands| - j
  {
    if j < |cands| {
      var v := cands[j];
      if FillAllowed(g, pos / Dim, pos % Dim, v) {
        ZeroCountFill(g, pos, v);
        var r := SearchAll(g[pos := v]);
        SearchAllSound(g[pos := v]);
        if r.0 {
          assert TryAll(g, pos, cands, j) == r;
          KeepsFilledAfterFill(g, pos, v, r.1);
        } else {
          TryAllSound(g, pos, cands, j + 1);
        }
      } else {
        TryAllSound(g, pos, cands, j + 1);
      }
    }
  }

  /** A grid with no empty cell that agrees with `h` on its filled cells is `h`. */
  lemma FullGridKept(g: seq<int>, h: seq<int>)
    requires |g| == |h| && KeepsFilled(g, h)
    requires forall k :: 0 <= k < |g| ==> g[k] != Empty
    ensures g == h
  {
  }

  /**
   * The value a completion puts into an empty cell is one of the cell's
   * candidates: it is a digit, and the completion's rows and columns being
   * free of repeats keeps it out of the filled cells of the cell's row and
   * column.
   */
  lemma CompletionFillAllowed(g: seq<int>, h: seq<int>, row: int, col: int)
    requires IsGrid(g) && IsGrid(h) && Solved(h) && KeepsFilled(g, h)
    requires IsCell(row, col) && g[Index(row, col)] == Empty
    ensures FillAllowed(g, row, col, h[Index(row, col)])
  {
    var v := h[Index(row, col)];
    assert PairwiseDistinct(Row(h, row)) && PairwiseDistinct(Col(h, col));
    forall k | 0 <= k < Dim
      ensures Row(g, row)[k] != v && Col(g, col)[k] != v
    {
      assert Row(h, row)[col] == v && Col(h, col)[row] == v;
      if k != col {
        assert Row(h, row)[k] != v;
      }
      if k != row {
        assert Col(h, col)[k] != v;
      }
    }
  }

  /** `SearchAll` finds a solution whenever the grid has one. */
  lemma {:induction false} SearchAllComplete(g: seq<int>, h: seq<int>)
    requires IsGrid(g) && IsGrid(h) && Solved(h) && KeepsFilled(g, h)
    ensures SearchAll(g).0
    decreases ZeroCount(g), 1, 0
  {
    var pos := FirstEmpty(g, 0);
    if pos == Dim * Dim {
      FullGridKept(g, h);
    } else if !Solved(g) {
      var row, col := pos / Dim, pos % Dim;
      assert Index(row, col) == pos;
      CompletionFillAllowed(g, h, row, col);
      var cands := Candidates(g, row, col);
      CandidateMember(g, row, col, h[pos]);
      var jv :| 0 <= jv < |cands| && cands[jv] == h[pos];
      TryAllComplete(g, h, pos, cands, 0, jv);
    }
  }

  lemma {:induction false} TryAllComplete(g: seq<int>, h: seq<int>, pos: int, cands: seq<int>, j: int, jv: int)
    requires IsGrid(g) && IsGrid(h) && Solved(h) && KeepsFilled(g, h)
    requires 0 <= pos < Dim * Dim && g[pos] == Empty
    requires 0 <= j <= jv < |cands| && cands[jv] == h[pos]
    requires FillAllowed(g, pos / Dim, pos % Dim, h[pos])
    ensures TryAll(g, pos, cands, j).0
    decreases ZeroCount(g), 0, |cands| - j
  {
    if j == jv {
      var g1 := g[pos := h[pos]];
      ZeroCountFill(g, pos, h[pos]);
      assert IsGrid(g1) && KeepsFilled(g1, h);
      SearchAllComplete(g1, h);
      assert TryAll(g, pos, cands, j).0 == SearchAll(g1).0;
    } else if !FillAllowed(g, pos / Dim, pos % Dim, cands[j]) {
      TryAllComplete(g, h, pos, cands, j + 1, jv);
      assert TryAll(g, pos, cands, j) == TryAll(g, pos, cands, j + 1);
    } else if !SearchAll(g[pos := cands[j]]).0 {
      TryAllComplete(g, h, pos, cands, j + 1, jv);
      assert TryAll(g, pos, cands, j) == TryAll(g, pos, cands, j + 1);
    }
  }

  /** `SearchAll` succeeds exactly on the grids that can be completed. */
  lemma SearchAllCorrect(g: seq<int>)
    requires IsGrid(g)
    ensures SearchAll(g).0 <==> Solvable(g)
  {
    SearchAllSound(g);
    if Solvable(g) {
      var h :| IsGrid(h) && Solved(h) && KeepsFilled(g, h);
      SearchAllComplete(g, h);
    }
  }

  /**
   * A row/column Latin square: cell (r, c) holds (r - c + 1) mod 9 + 1, so
   * row 0 reads 2 1 9 8 7 6 5 4 3 and column 0 reads 2 3 4 5 6 7 8 9 1.
   */
  function LatinDigit(r: int, c: int): (d: int) {
    (r - c + 1) % Dim + 1
  }

  const Solution0: seq<int> := seq(Dim * Dim, k => LatinDigit(k / Dim, k % Dim))

  /** `Solution0` with cells (0, 0), (0, 1) and (8, 0) emptied. */
  const Puzzle0: seq<int> := Solution0[0 := Empty][1 := Empty][72 := Empty]

  lemma ModDistinct(x: int, y: int)
    requires 0 < y - x < Dim
    ensures x % Dim != y % Dim
  {
  }

  lemma Solution0Cell(r: int, c: int)
    requires IsCell(r, c)
    ensures Solution0[r * Dim + c] == LatinDigit(r, c)
  {
    assert (r * Dim + c) / Dim == r && (r * Dim + c) % Dim == c;
  }

  lemma Solution0Row(r: int)
    requires 0 <= r < Dim
    ensures PairwiseDistinct(Row(Solution0, r))
  {
    forall i, j | 0 <= i < j < Dim
      ensures Row(Solution0, r)[i] != Row(Solution0, r)[j]
    {
      Solution0Cell(r, i);
      Solution0Cell(r, j);
      ModDistinct(r - j + 1, r - i + 1);
    }
  }

  lemma Solution0Col(c: int)
    requires 0 <= c < Dim
    ensures PairwiseDistinct(Col(Solution0, c))
  {
    forall i, j | 0 <= i < j < Dim
      ensures Col(Solution0, c)[i] != Col(Solution0, c)[j]
    {
      Solution0Cell(i, c);
      Solution0Cell(j, c);
      ModDistinct(i - c + 1, j - c + 1);
    }
  }

  /** `Solution0` is a grid that `solved_puzzle` accepts. */
  lemma Solution0Solved()
    ensures IsGrid(Solution0) && Solved(Solution0)
  {
    forall r | 0 <= r < Dim
      ensures PairwiseDistinct(Row(Solution0, r)) && PairwiseDistinct(Col(Solution0, r))
    {
      Solution0Row(r);
      Solution0Col(r);
    }
  }

  lemma Puzzle0IsGrid()
    ensures IsGrid(Puzzle0)
  {
    forall k | 0 <= k < Dim * Dim
      ensures 0 <= Solution0[k] <= Max
    {
      assert Solution0[k] == (k / Dim - k % Dim + 1) % Dim + 1;
    }
  }

  /** Row 0 of `Puzzle0`. */
  lemma Puzzle0Row0()
    ensures Row(Puzzle0, 0) == [0, 0, 9, 8, 7, 6, 5, 4, 3]
  {
    forall c | 0 <= c < Dim
      ensures Solution0[c] == LatinDigit(0, c)
    {
      Solution0Cell(0, c);
    }
  }

  /** Columns 0 and 1 of `Puzzle0`. */
  lemma Puzzle0Col0()
    ensures Col(Puzzle0, 0) == [0, 3, 4, 5, 6, 7, 8, 9, 0]
  {
    forall r | 0 <= r < Dim
      ensures Solution0[r * Dim] == LatinDigit(r, 0)
    {
      Solution0Cell(r, 0);
    }
  }

  lemma Puzzle0Col1()
    ensures Col(Puzzle0, 1) == [0, 2, 3, 4, 5, 6, 7, 8, 9]
  {
    forall r | 0 <= r < Dim
      ensures Solution0[r * Dim + 1] == LatinDigit(r, 1)
    {
      Solution0Cell(r, 1);
    }
  }

  /** The first empty cell of `Puzzle0`, (0, 0), has candidates 1 and 2. */
  lemma Puzzle0Candidates()
    ensures IsGrid(Puzzle0) && FirstEmpty(Puzzle0, 0) == 0
    ensures Candidates(Puzzle0, 0, 0) == [1, 2]
  {
    Puzzle0IsGrid();
    Puzzle0Row0();
    Puzzle0Col0();
    assert CandidatesUpTo(Puzzle0, 0, 0, 2) == [1, 2];
    CandidatesUpToNoneAbove(Puzzle0, 0, 0, 2, Max);
  }

  /** With 1 placed at (0, 0), cell (0, 1) has no candidate left and the search gives up. */
  lemma Puzzle0DeadEnd()
    ensures IsGrid(Puzzle0[0 := 1])
    ensures Search(Puzzle0[0 := 1]) == (false, Puzzle0[0 := 1])
  {
    Puzzle0IsGrid();
    Puzzle0Row0();
    Puzzle0Col1();
    var q := Puzzle0[0 := 1];
    assert FirstEmpty(q, 0) == 1;
    assert Row(q, 0) == [1, 0, 9, 8, 7, 6, 5, 4, 3];
    assert Col(q, 1) == Col(Puzzle0, 1);
    CandidatesUpToNoneAbove(q, 0, 1, 0, Max);
  }

  /**
   * `Puzzle0` can be completed (to `Solution0`), but `Search` fails on it:
   * the first empty cell (0, 0) has candidates 1 and 2; the search commits to
   * 1, after which cell (0, 1) has no candidate at all (its row lacks only 2,
   * its column only 1), and the candidate 2 is never tried.
   */
  lemma SearchMissesSolution()
    ensures IsGrid(Puzzle0) && Solvable(Puzzle0)
    ensures !Search(Puzzle0).0
  {
    Solution0Solved();
    assert KeepsFilled(Puzzle0, Solution0);
    Puzzle0Row0();
    Puzzle0Col0();
    Puzzle0Candidates();
    Puzzle0DeadEnd();
    assert FillAllowed(Puzzle0, 0, 0, 1);
    assert Search(Puzzle0) == SearchFrom(Puzzle0, 0, [1, 2], 0);
  }

  /** On the same grid the search with backtracking succeeds. */
  lemma SearchAllFindsSolution()
    ensures IsGrid(Puzzle0) && SearchAll(Puzzle0).0
  {
    Puzzle0IsGrid();
    Solution0Solved();
    assert KeepsFilled(Puzzle0, Solution0);
    SearchAllComplete(Puzzle0, Solution0);
  }
}
