/**
 * The 9x9 board as a flat, row-major sequence of 81 cells (cell (row, col) is
 * at position row * 9 + col), and the row and column predicates the engine in
 * sudoku.c is built on. Only rows and columns are ever constrained: no
 * function of sudoku.c looks at the 3x3 boxes, so neither does this module.
 */
module Grid {
  import opened Sorting

  const Dim: int := 9
  const Empty: int := 0
  const Min: int := 1
  const Max: int := 9

  /** A valid (row, col) pair. */
  predicate IsCell(row: int, col: int) {
    0 <= row < Dim && 0 <= col < Dim
  }

  /** Position of cell (row, col) in the flat grid. */
  function Index(row: int, col: int): (i: int) {
    row * Dim + col
  }

  /** Row-major order: one cell precedes another exactly when its row does, or it is further left in the same row. */
  lemma IndexOrder(r: int, c: int, row: int, col: int)
    requires IsCell(r, c) && IsCell(row, col)
    ensures Index(r, c) < Index(row, col) <==> r < row || (r == row && c < col)
  {
    if r < row {
      assert r * Dim + c < (r + 1) * Dim <= row * Dim;
    } else if r > row {
      assert row * Dim + col < (row + 1) * Dim <= r * Dim;
    }
  }

  /** 81 cells; sudoku.c keeps them all in 0..9 (0 is an empty cell). */
  predicate IsGrid(g: seq<int>) {
    |g| == Dim * Dim && forall i :: 0 <= i < |g| ==> Empty <= g[i] <= Max
  }

  /** The nine cells of row `row`, left to right. */
  function Row(g: seq<int>, row: int): (line: seq<int>)
    requires |g| == Dim * Dim && 0 <= row < Dim
    ensures |line| == Dim
  {
    g[row * Dim .. row * Dim + Dim]
  }

  /** The nine cells of column `col`, top to bottom. */
  function Col(g: seq<int>, col: int): (line: seq<int>)
    requires |g| == Dim * Dim && 0 <= col < Dim
    ensures |line| == Dim
  {
    seq(Dim, i requires 0 <= i < Dim => g[i * Dim + col])
  }

  /** `v` occurs neither in row `row` nor in column `col`. */
  predicate Absent(g: seq<int>, row: int, col: int, v: int)
    requires |g| == Dim * Dim && IsCell(row, col)
  {
    v !in Row(g, row) && v !in Col(g, col)
  }

  /** The guards of `fill_cell`: a digit, an empty cell, and no clash in its row or column. */
  predicate FillAllowed(g: seq<int>, row: int, col: int, num: int)
    requires |g| == Dim * Dim && IsCell(row, col)
  {
    Min <= num <= Max && g[Index(row, col)] == Empty && Absent(g, row, col, num)
  }

  /** The values 1..n absent from row `row` and column `col`, in ascending order. */
  function CandidatesUpTo(g: seq<int>, row: int, col: int, n: int): (cs: seq<int>)
    requires |g| == Dim * Dim && IsCell(row, col) && 0 <= n <= Max
    ensures |cs| <= n
    decreases n
  {
    if n == 0 then []
    else CandidatesUpTo(g, row, col, n - 1) + (if Absent(g, row, col, n) then [n] else [])
  }

  /** What `choices_cell` reports: nothing for a filled cell, else the row/column candidates. */
  function Candidates(g: seq<int>, row: int, col: int): (cs: seq<int>)
    requires |g| == Dim * Dim && IsCell(row, col)
    ensures |cs| <= Max
  {
    if g[Index(row, col)] != Empty then [] else CandidatesUpTo(g, row, col, Max)
  }

  predicate StrictlyIncreasing(s: seq<int>) {
    forall i, j :: 0 <= i < j < |s| ==> s[i] < s[j]
  }

  /** A value is among the first-n candidates exactly when it is a digit up to n absent from row and column. */
  lemma {:induction false} CandidatesUpToMember(g: seq<int>, row: int, col: int, n: int, v: int)
    requires |g| == Dim * Dim && IsCell(row, col) && 0 <= n <= Max
    ensures v in CandidatesUpTo(g, row, col, n) <==> Min <= v <= n && Absent(g, row, col, v)
    decreases n
  {
    if n > 0 {
      CandidatesUpToMember(g, row, col, n - 1, v);
      var prev := CandidatesUpTo(g, row, col, n - 1);
      var last := if Absent(g, row, col, n) then [n] else [];
      assert CandidatesUpTo(g, row, col, n) == prev + last;
      assert v in prev + last <==> v in prev || v in last;
      assert v in last <==> v == n && Absent(g, row, col, n);
    }
  }

  /** The pointwise form of the first ensures of `CandidatesSpec`. */
  lemma CandidateMember(g: seq<int>, row: int, col: int, v: int)
    requires |g| == Dim * Dim && IsCell(row, col)
    ensures v in Candidates(g, row, col) <==>
      g[Index(row, col)] == Empty && Min <= v <= Max && Absent(g, row, col, v)
  {
    CandidatesUpToMember(g, row, col, Max, v);
  }

  lemma {:induction false} CandidatesUpToIncreasing(g: seq<int>, row: int, col: int, n: int)
    requires |g| == Dim * Dim && IsCell(row, col) && 0 <= n <= Max
    ensures forall k :: 0 <= k < |CandidatesUpTo(g, row, col, n)| ==> CandidatesUpTo(g, row, col, n)[k] <= n
    ensures StrictlyIncreasing(CandidatesUpTo(g, row, col, n))
    decreases n
  {
    if n > 0 {
      CandidatesUpToIncreasing(g, row, col, n - 1);
      var prev := CandidatesUpTo(g, row, col, n - 1);
      var last := if Absent(g, row, col, n) then [n] else [];
      var cs := prev + last;
      assert cs == CandidatesUpTo(g, row, col, n);
      forall i, j | 0 <= i < j < |cs| ensures cs[i] < cs[j] {
        if j >= |prev| {
          assert cs[j] == n && cs[i] == prev[i];
        }
      }
    }
  }

  /** Values above `m` that all clash add no candidate beyond those up to `m`. */
  lemma {:induction false} CandidatesUpToNoneAbove(g: seq<int>, row: int, col: int, m: int, n: int)
    requires |g| == Dim * Dim && IsCell(row, col) && 0 <= m <= n <= Max
    requires forall v :: m < v <= n ==> !Absent(g, row, col, v)
    ensures CandidatesUpTo(g, row, col, n) == CandidatesUpTo(g, row, col, m)
    decreases n
  {
    if n > m {
      CandidatesUpToNoneAbove(g, row, col, m, n - 1);
      assert !Absent(g, row, col, n);
    }
  }

  /**
   * The candidates of a cell are exactly the digits missing from both its row
   * and its column (none if the cell is filled), without repetition, in
   * ascending order, and at most nine of them.
   */
  lemma CandidatesSpec(g: seq<int>, row: int, col: int)
    requires |g| == Dim * Dim && IsCell(row, col)
    ensures forall v :: v in Candidates(g, row, col) <==>
      g[Index(row, col)] == Empty && Min <= v <= Max && Absent(g, row, col, v)
    ensures StrictlyIncreasing(Candidates(g, row, col))
    ensures |Candidates(g, row, col)| <= Max
  {
    forall v
      ensures v in Candidates(g, row, col) <==>
        g[Index(row, col)] == Empty && Min <= v <= Max && Absent(g, row, col, v)
    {
      CandidateMember(g, row, col, v);
    }
    CandidatesUpToIncreasing(g, row, col, Max);
  }

  /**
   * `choices_cell` and `fill_cell` agree: a value is a candidate of a cell
   * exactly when `fill_cell` would accept it there.
   */
  lemma CandidatesAreFillable(g: seq<int>, row: int, col: int)
    requires |g| == Dim * Dim && IsCell(row, col)
    ensures forall v :: v in Candidates(g, row, col) <==> FillAllowed(g, row, col, v)
  {
    CandidatesSpec(g, row, col);
  }

  /** A forced cell: empty, with exactly one candidate. */
  predicate Forced(g: seq<int>, row: int, col: int)
    requires |g| == Dim * Dim && IsCell(row, col)
  {
    g[Index(row, col)] == Empty && |Candidates(g, row, col)| == 1
  }

  /** A one-element sequence holding `v` is `[v]`. */
  lemma SingletonMember(s: seq<int>, v: int)
    requires |s| == 1 && v in s
    ensures s == [v]
  {
  }

  /** A forced cell's only candidate is the one digit missing from its row and column. */
  lemma {:induction false} ForcedValue(g: seq<int>, row: int, col: int, v: int)
    requires |g| == Dim * Dim && IsCell(row, col)
    requires Forced(g, row, col)
    requires Min <= v <= Max && Absent(g, row, col, v)
    ensures Candidates(g, row, col) == [v]
    ensures forall w :: Min <= w <= Max && w != v ==> !Absent(g, row, col, w)
  {
    var cs := Candidates(g, row, col);
    CandidateMember(g, row, col, v);
    SingletonMember(cs, v);
    forall w | Min <= w <= Max && w != v
      ensures !Absent(g, row, col, w)
    {
      CandidateMember(g, row, col, w);
    }
  }

  /** What `solved_puzzle` accepts: no empty cell, and no row or column repeats a value. */
  predicate Solved(g: seq<int>)
    requires |g| == Dim * Dim
  {
    (forall i :: 0 <= i < |g| ==> g[i] != Empty) &&
    (forall r :: 0 <= r < Dim ==> PairwiseDistinct(Row(g, r))) &&
    (forall c :: 0 <= c < Dim ==> PairwiseDistinct(Col(g, c)))
  }

  /** `h` agrees with `g` on every cell that is filled in `g`. */
  predicate KeepsFilled(g: seq<int>, h: seq<int>)
    requires |g| == |h|
  {
    forall i :: 0 <= i < |g| && g[i] != Empty ==> h[i] == g[i]
  }

  /** Whatever keeps the filled cells of `g` with one empty cell filled in keeps those of `g`. */
  lemma KeepsFilledAfterFill(g: seq<int>, i: int, v: int, h: seq<int>)
    requires 0 <= i < |g| == |h| && g[i] == Empty
    requires KeepsFilled(g[i := v], h)
    ensures KeepsFilled(g, h)
  {
  }

  /** Number of empty cells. */
  function ZeroCount(s: seq<int>): (n: nat)
    ensures n <= |s|
    decreases |s|
  {
    if s == [] then 0 else (if s[0] == Empty then 1 else 0) + ZeroCount(s[1..])
  }

  /** Filling an empty cell with a non-zero value leaves one empty cell fewer. */
  lemma {:induction false} ZeroCountFill(s: seq<int>, i: int, v: int)
    requires 0 <= i < |s| && s[i] == Empty && v != Empty
    ensures ZeroCount(s[i := v]) == ZeroCount(s) - 1
    decreases |s|
  {
    if i > 0 {
      ZeroCountFill(s[1..], i - 1, v);
      assert s[i := v][1..] == s[1..][i - 1 := v];
    }
  }

  /** The first empty cell at or after `from`, in row-major order; |s| if there is none. */
  function FirstEmpty(s: seq<int>, from: nat): (p: nat)
    requires from <= |s|
    ensures from <= p <= |s|
    ensures forall k :: from <= k < p ==> s[k] != Empty
    ensures p < |s| ==> s[p] == Empty
    decreases |s| - from
  {
    if from == |s| then |s|
    else if s[from] == Empty then from
    else FirstEmpty(s, from + 1)
  }
}
