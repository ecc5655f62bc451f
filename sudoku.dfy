// ConsoleApp/Sudoku/Sudoku.cs: a 9x9 sudoku grid of `int` cells, 0 marking an empty cell.
// A digit may be written into an empty cell when its row, its column and its 3x3 box do
// not hold that digit yet (`Fillable`, `Fill`); `Fillables` lists the digits a cell
// accepts, `Empty` counts the empty cells, and `Solve` sweeps the grid row by row,
// writing every cell that has exactly one candidate, and sweeps again while a sweep
// made progress and empty cells remain.
//
// The grid is specified as a value, `seq<seq<int>>` row by row; the class reads it off
// its `int[9, 9]` array with `Grid()`.

module Sudoku {
  import opened CSharp

  // ---------------------------------------------------------------- grids as values

  /** Nine rows of nine cells. */
  predicate IsGrid(g: seq<seq<int>>) {
    |g| == 9 && forall r :: 0 <= r < 9 ==> |g[r]| == 9
  }

  /** The grid with one cell changed. */
  function Set(g: seq<seq<int>>, row: int, column: int, v: int): (h: seq<seq<int>>)
    requires IsGrid(g) && 0 <= row < 9 && 0 <= column < 9
    ensures IsGrid(h)
    ensures forall r, c :: 0 <= r < 9 && 0 <= c < 9 ==>
              h[r][c] == (if r == row && c == column then v else g[r][c])
  {
    g[row := g[row][column := v]]
  }

  /** Two grids with the same cells are the same grid. */
  lemma {:induction false} SameGrid(a: seq<seq<int>>, b: seq<seq<int>>)
    requires IsGrid(a) && IsGrid(b)
    requires forall r, c :: 0 <= r < 9 && 0 <= c < 9 ==> a[r][c] == b[r][c]
    ensures a == b
  {
    forall r | 0 <= r < 9
      ensures a[r] == b[r]
    {
      assert forall c :: 0 <= c < 9 ==> a[r][c] == b[r][c];
    }
  }

  // ---------------------------------------------------------------- the placement rule

  /** Cell `r`, `c` lies in the same 3x3 box as cell `row`, `column`. */
  predicate SameBox(r: int, c: int, row: int, column: int) {
    r / 3 == row / 3 && c / 3 == column / 3
  }

  predicate InRow(g: seq<seq<int>>, row: int, v: int)
    requires IsGrid(g) && 0 <= row < 9
  {
    exists c :: 0 <= c < 9 && g[row][c] == v
  }

  predicate InColumn(g: seq<seq<int>>, column: int, v: int)
    requires IsGrid(g) && 0 <= column < 9
  {
    exists r :: 0 <= r < 9 && g[r][column] == v
  }

  predicate InBox(g: seq<seq<int>>, row: int, column: int, v: int)
    requires IsGrid(g)
  {
    exists r, c :: 0 <= r < 9 && 0 <= c < 9 && SameBox(r, c, row, column) && g[r][c] == v
  }

  /** Digit `v` may go into cell `row`, `column`: the cell is on the grid and empty, and
      neither its row, its column nor its box holds `v`. */
  predicate Allowed(g: seq<seq<int>>, row: int, column: int, v: int)
    requires IsGrid(g)
  {
    1 <= v <= 9 && 0 <= row < 9 && 0 <= column < 9 && g[row][column] == 0 &&
    !InRow(g, row, v) && !InColumn(g, column, v) && !InBox(g, row, column, v)
  }

  /** The box starting row the program computes through its box number lies at
      `(row / 3) * 3`, and likewise for the column; the box is the three rows and three
      columns from there. */
  lemma BoxCorner(row: int, column: int)
    requires 0 <= row < 9 && 0 <= column < 9
    ensures ((row / 3 + (column / 3) * 3) % 3) * 3 == (row / 3) * 3
    ensures ((row / 3 + (column / 3) * 3) / 3) * 3 == (column / 3) * 3
    ensures forall r, c :: 0 <= r < 9 && 0 <= c < 9 ==>
              (SameBox(r, c, row, column) <==>
               (row / 3) * 3 <= r < (row / 3) * 3 + 3 && (column / 3) * 3 <= c < (column / 3) * 3 + 3)
  {
    var a, b := row / 3, column / 3;
    assert 0 <= a < 3 && 0 <= b < 3;
    assert (a + b * 3) % 3 == a && (a + b * 3) / 3 == b;
  }

  // ---------------------------------------------------------------- candidates

  /** The digits 1..n that cell `row`, `column` accepts, in ascending order. */
  function CandidatesUpTo(g: seq<seq<int>>, row: int, column: int, n: nat): seq<int>
    requires IsGrid(g)
  {
    if n == 0 then []
    else CandidatesUpTo(g, row, column, n - 1) + (if Allowed(g, row, column, n) then [n] else [])
  }

  /** The digits a cell accepts, in ascending order. */
  function Candidates(g: seq<seq<int>>, row: int, column: int): seq<int>
    requires IsGrid(g)
  {
    CandidatesUpTo(g, row, column, 9)
  }

  /** The candidate list holds exactly the accepted digits up to `n`, each once, in
      ascending order. */
  lemma {:induction false} CandidatesUpToSpec(g: seq<seq<int>>, row: int, column: int, n: nat)
    requires IsGrid(g)
    ensures forall v :: v in CandidatesUpTo(g, row, column, n) <==> 1 <= v <= n && Allowed(g, row, column, v)
    ensures forall i, j :: 0 <= i < j < |CandidatesUpTo(g, row, column, n)| ==>
              CandidatesUpTo(g, row, column, n)[i] < CandidatesUpTo(g, row, column, n)[j]
  {
    if n > 0 {
      var p := CandidatesUpTo(g, row, column, n - 1);
      var cs := CandidatesUpTo(g, row, column, n);
      CandidatesUpToSpec(g, row, column, n - 1);
      assert forall k :: 0 <= k < |p| ==> cs[k] == p[k] && p[k] in p;
      assert |cs| == |p| + 1 ==> cs[|p|] == n;
    }
  }

  /** `Candidates` holds exactly the digits `Allowed` accepts, in ascending order. */
  lemma CandidatesSpec(g: seq<seq<int>>, row: int, column: int)
    requires IsGrid(g)
    ensures forall v :: v in Candidates(g, row, column) <==> Allowed(g, row, column, v)
    ensures forall i, j :: 0 <= i < j < |Candidates(g, row, column)| ==>
              Candidates(g, row, column)[i] < Candidates(g, row, column)[j]
  {
    CandidatesUpToSpec(g, row, column, 9);
  }

  /** A full cell, or a cell off the grid, has no candidate. */
  lemma {:induction false} NoCandidates(g: seq<seq<int>>, row: int, column: int, n: nat)
    requires IsGrid(g)
    requires !(0 <= row < 9 && 0 <= column < 9) || g[row][column] != 0
    ensures CandidatesUpTo(g, row, column, n) == []
  {
    if n > 0 {
      NoCandidates(g, row, column, n - 1);
    }
  }

  /** The digits `lo`..`hi - 1` in ascending order. */
  function Span(lo: int, hi: int): seq<int>
    decreases hi - lo
  {
    if lo >= hi then [] else [lo] + Span(lo + 1, hi)
  }

  /** `List<int>.Remove`: the list without the first occurrence of `x`, if there is one. */
  function Remove(s: seq<int>, x: int): seq<int> {
    if s == [] then []
    else if s[0] == x then s[1..]
    else [s[0]] + Remove(s[1..], x)
  }

  /** Removing `i` from a list whose elements before the span are all below `i` takes
      out the span's first element. */
  lemma {:induction false} RemoveSpanHead(p: seq<int>, i: int, hi: int)
    requires i < hi
    requires forall k :: 0 <= k < |p| ==> p[k] < i
    ensures Remove(p + Span(i, hi), i) == p + Span(i + 1, hi)
  {
    var s := p + Span(i, hi);
    assert Span(i, hi) == [i] + Span(i + 1, hi);
    if p == [] {
      assert s == [i] + Span(i + 1, hi);
      assert s[1..] == Span(i + 1, hi);
    } else {
      assert s[0] == p[0] && s[0] != i;
      assert s[1..] == p[1..] + Span(i, hi);
      assert Remove(s, i) == [p[0]] + Remove(p[1..] + Span(i, hi), i);
      RemoveSpanHead(p[1..], i, hi);
      assert [p[0]] + (p[1..] + Span(i + 1, hi)) == p + Span(i + 1, hi);
    }
  }

  lemma DigitsSpan()
    ensures [1, 2, 3, 4, 5, 6, 7, 8, 9] == Span(1, 10)
  {
    assert Span(10, 10) == [];
  }

  /** One round of the removal loop: digit `i` stays in the list exactly when it is
      allowed. */
  lemma FillablesStep(g: seq<seq<int>>, row: int, column: int, i: int)
    requires IsGrid(g) && 1 <= i < 10
    ensures var p := CandidatesUpTo(g, row, column, i - 1);
      CandidatesUpTo(g, row, column, i) + Span(i + 1, 10) ==
        if Allowed(g, row, column, i) then p + Span(i, 10) else Remove(p + Span(i, 10), i)
  {
    var p := CandidatesUpTo(g, row, column, i - 1);
    if Allowed(g, row, column, i) {
      SpanCons(p, i, 10);
    } else {
      CandidatesBelow(g, row, column, i - 1);
      RemoveSpanHead(p, i, 10);
    }
  }

  lemma CandidatesBelow(g: seq<seq<int>>, row: int, column: int, n: nat)
    requires IsGrid(g)
    ensures forall k :: 0 <= k < |CandidatesUpTo(g, row, column, n)| ==> CandidatesUpTo(g, row, column, n)[k] <= n
  {
    var p := CandidatesUpTo(g, row, column, n);
    CandidatesUpToSpec(g, row, column, n);
    assert forall k :: 0 <= k < |p| ==> p[k] in p;
  }

  lemma SpanCons(p: seq<int>, i: int, hi: int)
    requires i < hi
    ensures p + Span(i, hi) == (p + [i]) + Span(i + 1, hi)
  {
  }

  // ---------------------------------------------------------------- empty cells

  /** The zero entries of `s`. */
  function ZerosIn(s: seq<int>): nat {
    if s == [] then 0 else ZerosIn(s[..|s| - 1]) + (if s[|s| - 1] == 0 then 1 else 0)
  }

  /** The empty cells of the first `n` rows. */
  function BlanksUpTo(g: seq<seq<int>>, n: nat): nat
    requires IsGrid(g) && n <= 9
  {
    if n == 0 then 0 else BlanksUpTo(g, n - 1) + ZerosIn(g[n - 1])
  }

  /** The empty cells of the grid. */
  function Blanks(g: seq<seq<int>>): nat
    requires IsGrid(g)
  {
    BlanksUpTo(g, 9)
  }

  /** Changing entry `i` changes the zero count by what it did to that entry. */
  lemma {:induction false} ZerosInUpdate(s: seq<int>, i: int, v: int)
    requires 0 <= i < |s|
    ensures ZerosIn(s[i := v]) + (if s[i] == 0 then 1 else 0) == ZerosIn(s) + (if v == 0 then 1 else 0)
  {
    var n := |s| - 1;
    if i == n {
      assert s[i := v][..n] == s[..n];
    } else {
      assert s[i := v][..n] == s[..n][i := v];
      ZerosInUpdate(s[..n], i, v);
    }
  }

  /** A sequence has no zero entry exactly when its zero count is 0. */
  lemma {:induction false} ZerosInNone(s: seq<int>)
    ensures ZerosIn(s) == 0 <==> forall k :: 0 <= k < |s| ==> s[k] != 0
  {
    if s != [] {
      ZerosInNone(s[..|s| - 1]);
      assert forall k :: 0 <= k < |s| - 1 ==> s[..|s| - 1][k] == s[k];
    }
  }

  lemma {:induction false} BlanksUpToSet(g: seq<seq<int>>, n: nat, row: int, column: int, v: int)
    requires IsGrid(g) && n <= 9 && 0 <= row < 9 && 0 <= column < 9
    ensures BlanksUpTo(Set(g, row, column, v), n) + (if row < n && g[row][column] == 0 then 1 else 0)
         == BlanksUpTo(g, n) + (if row < n && v == 0 then 1 else 0)
  {
    if n > 0 {
      BlanksUpToSet(g, n - 1, row, column, v);
      if n - 1 == row {
        ZerosInUpdate(g[row], column, v);
      }
    }
  }

  /** Writing a digit into an empty cell leaves one empty cell fewer. */
  lemma BlanksSet(g: seq<seq<int>>, row: int, column: int, v: int)
    requires IsGrid(g) && 0 <= row < 9 && 0 <= column < 9
    requires g[row][column] == 0 && v != 0
    ensures Blanks(Set(g, row, column, v)) == Blanks(g) - 1
  {
    BlanksUpToSet(g, 9, row, column, v);
  }

  lemma {:induction false} BlanksUpToNone(g: seq<seq<int>>, n: nat)
    requires IsGrid(g) && n <= 9
    ensures BlanksUpTo(g, n) == 0 <==> forall r, c :: 0 <= r < n && 0 <= c < 9 ==> g[r][c] != 0
  {
    if n > 0 {
      BlanksUpToNone(g, n - 1);
      ZerosInNone(g[n - 1]);
    }
  }

  /** The grid has no empty cell exactly when its blank count is 0. */
  lemma BlanksNone(g: seq<seq<int>>)
    requires IsGrid(g)
    ensures Blanks(g) == 0 <==> forall r, c :: 0 <= r < 9 && 0 <= c < 9 ==> g[r][c] != 0
  {
    BlanksUpToNone(g, 9);
  }

  // ---------------------------------------------------------------- consistency

  /** The digit at `r`, `c` occurs nowhere else in its row, its column or its box. */
  predicate Unique(g: seq<seq<int>>, r: int, c: int)
    requires IsGrid(g) && 0 <= r < 9 && 0 <= c < 9
  {
    (forall c' :: 0 <= c' < 9 && c' != c ==> g[r][c'] != g[r][c]) &&
    (forall r' :: 0 <= r' < 9 && r' != r ==> g[r'][c] != g[r][c]) &&
    (forall r', c' :: 0 <= r' < 9 && 0 <= c' < 9 && SameBox(r', c', r, c) && (r' != r || c' != c) ==>
       g[r'][c'] != g[r][c])
  }

  /** No digit repeats in a row, a column or a box. */
  predicate Consistent(g: seq<seq<int>>)
    requires IsGrid(g)
  {
    forall r, c :: 0 <= r < 9 && 0 <= c < 9 && g[r][c] != 0 ==> Unique(g, r, c)
  }

  /** Every digit of `g` is still in `h`. */
  predicate Keeps(g: seq<seq<int>>, h: seq<seq<int>>)
    requires IsGrid(g) && IsGrid(h)
  {
    forall r, c :: 0 <= r < 9 && 0 <= c < 9 && g[r][c] != 0 ==> h[r][c] == g[r][c]
  }

  /** Every digit `h` added to `g`, and every digit that was unique in `g`, is unique in `h`. */
  predicate Settles(g: seq<seq<int>>, h: seq<seq<int>>)
    requires IsGrid(g) && IsGrid(h)
  {
    forall r, c :: 0 <= r < 9 && 0 <= c < 9 && h[r][c] != 0 && (g[r][c] == 0 || Unique(g, r, c)) ==>
      Unique(h, r, c)
  }

  /** Writing an allowed digit keeps every digit and clashes with none. */
  lemma PlaceSettles(g: seq<seq<int>>, row: int, column: int, v: int)
    requires IsGrid(g) && Allowed(g, row, column, v)
    ensures Keeps(g, Set(g, row, column, v)) && Settles(g, Set(g, row, column, v))
  {
    var h := Set(g, row, column, v);
    forall r, c | 0 <= r < 9 && 0 <= c < 9 && h[r][c] != 0 && (g[r][c] == 0 || Unique(g, r, c))
      ensures Unique(h, r, c)
    {
      if r == row && c == column {
        PlacedUnique(g, row, column, v);
      } else {
        KeptUnique(g, row, column, v, r, c);
      }
    }
  }

  /** The written digit is unique, since its row, column and box did not hold it. */
  lemma PlacedUnique(g: seq<seq<int>>, row: int, column: int, v: int)
    requires IsGrid(g) && Allowed(g, row, column, v)
    ensures Unique(Set(g, row, column, v), row, column)
  {
  }

  /** A digit that was unique stays unique: a unit it shares with the written cell holds
      it, so the written digit differs from it. */
  lemma KeptUnique(g: seq<seq<int>>, row: int, column: int, v: int, r: int, c: int)
    requires IsGrid(g) && Allowed(g, row, column, v)
    requires 0 <= r < 9 && 0 <= c < 9 && (r != row || c != column)
    requires Set(g, row, column, v)[r][c] != 0 && (g[r][c] == 0 || Unique(g, r, c))
    ensures Unique(Set(g, row, column, v), r, c)
  {
    var h := Set(g, row, column, v);
    var w := g[r][c];
    assert w != 0 && Unique(g, r, c);
    if r == row {
      assert InRow(g, row, w);
    }
    if c == column {
      assert InColumn(g, column, w);
    }
    if SameBox(r, c, row, column) {
      assert SameBox(r, c, row, column) && g[r][c] == w;
      assert InBox(g, row, column, w);
    }
  }

  /** `Keeps` and `Settles` compose. */
  lemma Compose(g: seq<seq<int>>, m: seq<seq<int>>, h: seq<seq<int>>)
    requires IsGrid(g) && IsGrid(m) && IsGrid(h)
    requires Keeps(g, m) && Settles(g, m) && Keeps(m, h) && Settles(m, h)
    ensures Keeps(g, h) && Settles(g, h)
  {
    forall r, c | 0 <= r < 9 && 0 <= c < 9 && h[r][c] != 0 && (g[r][c] == 0 || Unique(g, r, c))
      ensures Unique(h, r, c)
    {
      if m[r][c] != 0 {
        assert Unique(m, r, c);
      }
    }
  }

  /** A change that keeps and settles keeps a consistent grid consistent. */
  lemma SettledConsistent(g: seq<seq<int>>, h: seq<seq<int>>)
    requires IsGrid(g) && IsGrid(h) && Settles(g, h) && Consistent(g)
    ensures Consistent(h)
  {
  }

  /** Writing an allowed digit keeps a consistent grid consistent and leaves one empty
      cell fewer. */
  lemma FillKeepsConsistent(g: seq<seq<int>>, row: int, column: int, v: int)
    requires IsGrid(g) && Allowed(g, row, column, v) && Consistent(g)
    ensures Consistent(Set(g, row, column, v))
    ensures Blanks(Set(g, row, column, v)) == Blanks(g) - 1
  {
    PlaceSettles(g, row, column, v);
    SettledConsistent(g, Set(g, row, column, v));
    BlanksSet(g, row, column, v);
  }

  // ---------------------------------------------------------------- the solver

  /** The solver at one cell: a cell with a single candidate receives it. */
  function Step(g: seq<seq<int>>, row: int, column: int): (h: seq<seq<int>>)
    requires IsGrid(g) && 0 <= row < 9 && 0 <= column < 9
    ensures IsGrid(h)
  {
    var cs := Candidates(g, row, column);
    if |cs| == 1 then Set(g, row, column, cs[0]) else g
  }

  /** The solver over the first `n` cells of row `row`. */
  function SweepRow(g: seq<seq<int>>, row: int, n: nat): (h: seq<seq<int>>)
    requires IsGrid(g) && 0 <= row < 9 && n <= 9
    ensures IsGrid(h)
  {
    if n == 0 then g else Step(SweepRow(g, row, n - 1), row, n - 1)
  }

  /** The solver over the first `n` rows. */
  function Sweep(g: seq<seq<int>>, n: nat): (h: seq<seq<int>>)
    requires IsGrid(g) && n <= 9
    ensures IsGrid(h)
  {
    if n == 0 then g else SweepRow(Sweep(g, n - 1), n - 1, 9)
  }

  /** The solver: sweep, and sweep again while the sweep filled a cell and empty cells
      remain. */
  function SolveFrom(g: seq<seq<int>>): (h: seq<seq<int>>)
    requires IsGrid(g)
    ensures IsGrid(h)
    decreases Blanks(g)
  {
    var next := Sweep(g, 9);
    if Blanks(g) > Blanks(next) && Blanks(next) > 0 then SolveFrom(next) else next
  }

  /** No cell has exactly one candidate. */
  predicate Stuck(g: seq<seq<int>>)
    requires IsGrid(g)
  {
    forall r, c :: 0 <= r < 9 && 0 <= c < 9 ==> |Candidates(g, r, c)| != 1
  }

  /** A cell fills exactly when it has a single candidate, with an allowed digit. */
  lemma StepSpec(g: seq<seq<int>>, row: int, column: int)
    requires IsGrid(g) && 0 <= row < 9 && 0 <= column < 9
    ensures Keeps(g, Step(g, row, column)) && Settles(g, Step(g, row, column))
    ensures Blanks(Step(g, row, column)) ==
              if |Candidates(g, row, column)| == 1 then Blanks(g) - 1 else Blanks(g)
  {
    var cs := Candidates(g, row, column);
    if |cs| == 1 {
      CandidatesSpec(g, row, column);
      assert cs[0] in cs;
      PlaceSettles(g, row, column, cs[0]);
      BlanksSet(g, row, column, cs[0]);
    }
  }

  lemma {:induction false} SweepRowSettles(g: seq<seq<int>>, row: int, n: nat)
    requires IsGrid(g) && 0 <= row < 9 && n <= 9
    ensures Keeps(g, SweepRow(g, row, n)) && Settles(g, SweepRow(g, row, n))
  {
    if n > 0 {
      var m := SweepRow(g, row, n - 1);
      SweepRowSettles(g, row, n - 1);
      StepSpec(m, row, n - 1);
      Compose(g, m, SweepRow(g, row, n));
    }
  }

  /** A row sweep fills cells one at a time; one that filled nothing changed nothing and
      met no single-candidate cell. */
  lemma {:induction false} SweepRowBlanks(g: seq<seq<int>>, row: int, n: nat)
    requires IsGrid(g) && 0 <= row < 9 && n <= 9
    ensures Blanks(SweepRow(g, row, n)) <= Blanks(g)
    ensures Blanks(SweepRow(g, row, n)) == Blanks(g) ==>
              SweepRow(g, row, n) == g && forall c :: 0 <= c < n ==> |Candidates(g, row, c)| != 1
  {
    if n > 0 {
      var m := SweepRow(g, row, n - 1);
      SweepRowBlanks(g, row, n - 1);
      StepSpec(m, row, n - 1);
      if Blanks(SweepRow(g, row, n)) == Blanks(g) {
        assert Blanks(m) == Blanks(g) && m == g;
        assert |Candidates(g, row, n - 1)| != 1;
      }
    }
  }

  lemma {:induction false} SweepSettles(g: seq<seq<int>>, n: nat)
    requires IsGrid(g) && n <= 9
    ensures Keeps(g, Sweep(g, n)) && Settles(g, Sweep(g, n))
  {
    if n > 0 {
      var m := Sweep(g, n - 1);
      SweepSettles(g, n - 1);
      SweepRowSettles(m, n - 1, 9);
      Compose(g, m, Sweep(g, n));
    }
  }

  /** A sweep that filled nothing changed nothing and met no single-candidate cell. */
  lemma {:induction false} SweepBlanks(g: seq<seq<int>>, n: nat)
    requires IsGrid(g) && n <= 9
    ensures Blanks(Sweep(g, n)) <= Blanks(g)
    ensures Blanks(Sweep(g, n)) == Blanks(g) ==>
              Sweep(g, n) == g && forall r, c :: 0 <= r < n && 0 <= c < 9 ==> |Candidates(g, r, c)| != 1
  {
    if n > 0 {
      var m := Sweep(g, n - 1);
      SweepBlanks(g, n - 1);
      SweepRowBlanks(m, n - 1, 9);
      if Blanks(Sweep(g, n)) == Blanks(g) {
        assert Blanks(m) == Blanks(g) && m == g;
        var last := n - 1;
        assert forall c :: 0 <= c < 9 ==> |Candidates(g, last, c)| != 1;
      }
    }
  }

  /** The solver never erases or changes a digit, every digit it writes (and every digit
      that was already unique) ends up unique in its row, column and box, it leaves no
      more empty cells than it found, and it stops only when no cell has a single
      candidate left. */
  lemma {:induction false} SolveSpec(g: seq<seq<int>>)
    requires IsGrid(g)
    ensures Keeps(g, SolveFrom(g)) && Settles(g, SolveFrom(g))
    ensures Blanks(SolveFrom(g)) <= Blanks(g)
    ensures Stuck(SolveFrom(g))
    decreases Blanks(g)
  {
    var next := Sweep(g, 9);
    SweepSettles(g, 9);
    SweepBlanks(g, 9);
    if Blanks(g) > Blanks(next) && Blanks(next) > 0 {
      SolveSpec(next);
      Compose(g, next, SolveFrom(next));
    } else if Blanks(next) == 0 {
      BlanksNone(next);
      forall r, c | 0 <= r < 9 && 0 <= c < 9
        ensures |Candidates(next, r, c)| != 1
      {
        NoCandidates(next, r, c, 9);
      }
    }
  }

  /** The solver keeps a consistent grid consistent. */
  lemma SolveKeepsConsistent(g: seq<seq<int>>)
    requires IsGrid(g) && Consistent(g)
    ensures Consistent(SolveFrom(g))
  {
    SolveSpec(g);
    SettledConsistent(g, SolveFrom(g));
  }

  // ---------------------------------------------------------------- the grid object

  class Sudoku {
    /** `_cells`, indexed [row, column]. */
    const cells: array2<int>

    ghost predicate Valid()
      reads this
    {
      cells.Length0 == 9 && cells.Length1 == 9
    }

    /** The cells as a grid value. */
    ghost function Grid(): (g: seq<seq<int>>)
      reads this, cells
      requires Valid()
      ensures IsGrid(g)
      ensures forall r, c :: 0 <= r < 9 && 0 <= c < 9 ==> g[r][c] == cells[r, c]
    {
      seq(9, r requires 0 <= r < 9 reads cells => seq(9, c requires 0 <= c < 9 reads cells => cells[r, c]))
    }

    /** The empty sudoku. */
    constructor ()
      ensures Valid() && fresh(cells)
      ensures forall r, c :: 0 <= r < 9 && 0 <= c < 9 ==> cells[r, c] == 0
    {
      cells := new int[9, 9]((r, c) => 0);
    }

    /** The indexer: the cell's value, or IndexOutOfRangeException off the grid. */
    function Cell(r: int, c: int): (v: Outcome<int>)
      reads this, cells
      requires Valid()
      ensures v.Returns? <==> 0 <= r < 9 && 0 <= c < 9
      ensures v.Returns? ==> v.value == Grid()[r][c]
      ensures v.Throws? ==> v.error == IndexOutOfRange
    {
      if 0 <= r < 9 && 0 <= c < 9 then Returns(cells[r, c]) else Throws(IndexOutOfRange)
    }

    /** The number of empty cells. */
    method Empty() returns (count: int)
      requires Valid()
      ensures count == Blanks(Grid())
    {
      ghost var g := Grid();
      count := 0;
      for row := 0 to 9
        invariant count == BlanksUpTo(g, row)
      {
        for column := 0 to 9
          invariant count == BlanksUpTo(g, row) + ZerosIn(g[row][..column])
        {
          assert g[row][..column + 1][..column] == g[row][..column];
          if cells[row, column] == 0 {
            count := count + 1;
          }
        }
        assert g[row][..9] == g[row];
      }
    }

    /** Whether `value` may be written into cell `row`, `column`. */
    method Fillable(row: int, column: int, value: int) returns (b: bool)
      requires Valid()
      ensures b <==> Allowed(Grid(), row, column, value)
    {
      if value > 9 || value < 1 {
        return false;
      }
      if row > 8 || row < 0 || column > 8 || column < 0 {
        return false;
      }
      if cells[row, column] != 0 {
        return false;
      }
      var inRow := RowHolds(row, value);
      if inRow {
        return false;
      }
      var inColumn := ColumnHolds(column, value);
      if inColumn {
        return false;
      }
      var inBox := BoxHolds(row, column, value);
      return !inBox;
    }

    /** The first loop of `Fillable`: whether row `row` holds `value`. */
    method RowHolds(row: int, value: int) returns (found: bool)
      requires Valid() && 0 <= row < 9
      ensures found <==> InRow(Grid(), row, value)
    {
      ghost var g := Grid();
      for i := 0 to 9
        invariant forall k :: 0 <= k < i ==> g[row][k] != value
      {
        if cells[row, i] == value {
          assert InRow(g, row, value);
          return true;
        }
      }
      return false;
    }

    /** The second loop of `Fillable`: whether column `column` holds `value`. */
    method ColumnHolds(column: int, value: int) returns (found: bool)
      requires Valid() && 0 <= column < 9
      ensures found <==> InColumn(Grid(), column, value)
    {
      ghost var g := Grid();
      for i := 0 to 9
        invariant forall k :: 0 <= k < i ==> g[k][column] != value
      {
        if cells[i, column] == value {
          assert InColumn(g, column, value);
          return true;
        }
      }
      return false;
    }

    /** The box loops of `Fillable`: the box number of the cell, its first row and
        column, and whether one of its nine cells holds `value`. */
    method BoxHolds(row: int, column: int, value: int) returns (found: bool)
      requires Valid() && 0 <= row < 9 && 0 <= column < 9
      ensures found <==> InBox(Grid(), row, column, value)
    {
      ghost var g := Grid();
      var square := (row / 3) + ((column / 3) * 3);
      var squareRowStart := (square % 3) * 3;
      var squareColumnStart := (square / 3) * 3;
      BoxCorner(row, column);
      for i := 0 to 3
        invariant forall r, c :: squareRowStart <= r < squareRowStart + i && squareColumnStart <= c < squareColumnStart + 3 ==>
                    g[r][c] != value
      {
        ghost var line := g[squareRowStart + i];
        for j := 0 to 3
          invariant forall r, c :: squareRowStart <= r < squareRowStart + i && squareColumnStart <= c < squareColumnStart + 3 ==>
                      g[r][c] != value
          invariant forall c :: squareColumnStart <= c < squareColumnStart + j ==> line[c] != value
        {
          if cells[squareRowStart + i, squareColumnStart + j] == value {
            assert InBox(g, row, column, value) by {
              assert SameBox(squareRowStart + i, squareColumnStart + j, row, column);
            }
            return true;
          }
        }
      }
      return false;
    }

    /** The digits cell `row`, `column` accepts, in ascending order: the list 1..9 with
        every digit that is not fillable removed. */
    method Fillables(row: int, column: int) returns (fillables: seq<int>)
      requires Valid()
      ensures fillables == Candidates(Grid(), row, column)
    {
      ghost var g := Grid();
      fillables := [1, 2, 3, 4, 5, 6, 7, 8, 9];
      DigitsSpan();
      for i := 1 to 10
        invariant fillables == CandidatesUpTo(g, row, column, i - 1) + Span(i, 10)
      {
        var ok := Fillable(row, column, i);
        FillablesStep(g, row, column, i);
        if !ok {
          fillables := Remove(fillables, i);
        }
      }
    }

    /** Writes `value` into cell `row`, `column` when it is fillable there. */
    method Fill(row: int, column: int, value: int) returns (b: bool)
      requires Valid()
      modifies cells
      ensures b <==> Allowed(old(Grid()), row, column, value)
      ensures b ==> Grid() == Set(old(Grid()), row, column, value)
      ensures !b ==> unchanged(cells)
    {
      var ok := Fillable(row, column, value);
      if !ok {
        return false;
      }
      ghost var g := Grid();
      cells[row, column] := value;
      SameGrid(Grid(), Set(g, row, column, value));
      return true;
    }

    /** Sweeps the grid writing every single-candidate cell, and sweeps again while a
        sweep filled a cell and empty cells remain. */
    method Solve()
      requires Valid()
      modifies cells
      ensures Grid() == SolveFrom(old(Grid()))
      decreases Blanks(Grid())
    {
      ghost var g := Grid();
      var first := Empty();
      for row := 0 to 9
        invariant Grid() == Sweep(g, row)
      {
        for column := 0 to 9
          invariant Grid() == SweepRow(Sweep(g, row), row, column)
        {
          ghost var before := Grid();
          var fillables := Fillables(row, column);
          if |fillables| == 1 {
            cells[row, column] := fillables[0];
            SameGrid(Grid(), Set(before, row, column, fillables[0]));
          }
        }
      }
      var now := Empty();
      if first > now && now > 0 {
        Solve();
      }
    }
  }
}
