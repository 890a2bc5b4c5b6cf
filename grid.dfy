/**
 * The 9x9 grid and the read-only queries both ports of the solver share:
 * the first empty cell in row-major order, the values already taken in a
 * cell's row, column and 3x3 box, the candidates left for that cell, and
 * the notions of a consistent grid and of a completion.
 */
module Grid {
  import opened Wrappers

  /** A puzzle grid as a list of rows; 0 marks an empty cell. */
  type Grid = seq<seq<int>>

  /** A (row, column) coordinate. */
  type Cell = (int, int)

  /** The values a cell may hold, in ascending order. */
  const NUMBERS: seq<int> := [1, 2, 3, 4, 5, 6, 7, 8, 9]

  predicate InGrid(g: Grid, cell: Cell) {
    0 <= cell.0 < |g| && 0 <= cell.1 < |g[cell.0]|
  }

  /** 9 rows of 9 values, each value in 0..9. */
  predicate WellFormed(g: Grid) {
    && |g| == 9
    && (forall r :: 0 <= r < 9 ==> |g[r]| == 9)
    && (forall r, c :: 0 <= r < 9 && 0 <= c < 9 ==> 0 <= g[r][c] <= 9)
  }

  /** No cell holds 0. */
  predicate Full(g: Grid) {
    forall i, j :: 0 <= i < |g| && 0 <= j < |g[i]| ==> g[i][j] != 0
  }

  /** Every cell strictly before (r, c) in row-major order is nonzero. */
  predicate FilledBefore(g: Grid, r: int, c: int) {
    forall i, j :: 0 <= i < |g| && 0 <= j < |g[i]| && (i < r || (i == r && j < c)) ==> g[i][j] != 0
  }

  /** `cell` holds 0 and is the first such cell in row-major order. */
  predicate IsFirstEmpty(g: Grid, cell: Cell) {
    InGrid(g, cell) && g[cell.0][cell.1] == 0 && FilledBefore(g, cell.0, cell.1)
  }

  function FirstEmptyFrom(g: Grid, r: nat, c: nat): (res: Option<Cell>)
    requires r <= |g| && (r < |g| ==> c <= |g[r]|)
    requires FilledBefore(g, r, c)
    ensures res.None? ==> Full(g)
    ensures res.Some? ==> IsFirstEmpty(g, res.value)
    decreases |g| - r, if r < |g| then |g[r]| - c else 0
  {
    if r == |g| then None
    else if c == |g[r]| then FirstEmptyFrom(g, r + 1, 0)
    else if g[r][c] == 0 then Some((r, c))
    else FirstEmptyFrom(g, r, c + 1)
  }

  /** The first cell holding 0 in row-major order, or None when there is none. */
  function FirstEmpty(g: Grid): (res: Option<Cell>)
    ensures res.None? <==> Full(g)
    ensures res.Some? ==> IsFirstEmpty(g, res.value)
  {
    FirstEmptyFrom(g, 0, 0)
  }

  /** There is only one first empty cell, so any scan that finds one agrees with FirstEmpty. */
  lemma FirstEmptyUnique(g: Grid, cell: Cell)
    requires IsFirstEmpty(g, cell)
    ensures FirstEmpty(g) == Some(cell)
  {
    var other := FirstEmpty(g);
    assert other.Some?;
    var (r, c) := other.value;
    assert !(r < cell.0 || (r == cell.0 && c < cell.1));
    assert !(cell.0 < r || (cell.0 == r && cell.1 < c));
  }

  /** The grid with the cell `action` set to `number` (change_state, puzzle_maker). */
  function ChangeState(puzzle: Grid, action: Cell, number: int): (r: Grid)
    requires InGrid(puzzle, action)
    ensures |r| == |puzzle| && forall i :: 0 <= i < |r| ==> |r[i]| == |puzzle[i]|
    ensures r[action.0][action.1] == number
    ensures forall i, j :: 0 <= i < |r| && 0 <= j < |r[i]| && (i, j) != action ==> r[i][j] == puzzle[i][j]
  {
    puzzle[action.0 := puzzle[action.0][action.1 := number]]
  }

  lemma ChangeStateWellFormed(g: Grid, cell: Cell, v: int)
    requires WellFormed(g) && InGrid(g, cell) && 0 <= v <= 9
    ensures WellFormed(ChangeState(g, cell, v))
  {
  }

  /** Writing back the value a cell held before undoes a change (the generator's restore step). */
  lemma ChangeStateRestore(g: Grid, cell: Cell, v: int)
    requires InGrid(g, cell)
    ensures ChangeState(ChangeState(g, cell, v), cell, g[cell.0][cell.1]) == g
  {
    var h := ChangeState(ChangeState(g, cell, v), cell, g[cell.0][cell.1]);
    forall i | 0 <= i < |g| ensures h[i] == g[i] {
      assert |h[i]| == |g[i]|;
    }
  }

  /** The nonzero entries of `s`, in their original order (check_row_or_column). */
  function NonZero(s: seq<int>): seq<int> {
    if s == [] then []
    else NonZero(s[..|s| - 1]) + (if s[|s| - 1] != 0 then [s[|s| - 1]] else [])
  }

  lemma {:induction false} NonZeroMembers(s: seq<int>)
    ensures forall x :: x in NonZero(s) <==> x in s && x != 0
    ensures |NonZero(s)| <= |s|
  {
    if s != [] {
      NonZeroMembers(s[..|s| - 1]);
      assert s == s[..|s| - 1] + [s[|s| - 1]];
    }
  }

  /** Extending a prefix by one entry adds that entry when it is nonzero. */
  lemma NonZeroSnoc(s: seq<int>, i: int)
    requires 0 <= i < |s|
    ensures NonZero(s[..i + 1]) == NonZero(s[..i]) + (if s[i] != 0 then [s[i]] else [])
  {
    assert s[..i + 1][..i] == s[..i];
  }

  /** Column `c` read top to bottom. */
  function Column(g: Grid, c: int): (col: seq<int>)
    requires WellFormed(g) && 0 <= c < 9
    ensures |col| == 9 && forall i :: 0 <= i < 9 ==> col[i] == g[i][c]
  {
    seq(9, i requires 0 <= i < 9 => g[i][c])
  }

  /** First row (or column) of the 3x3 box containing index i. */
  function BoxStart(i: int): (b: int)
    ensures 0 <= i <= 8 ==> b == 3 * (i / 3)
  {
    if i <= 2 then 0
    else if 3 <= i <= 5 then 3
    else 6
  }

  /** The three 3-wide row slices of the 3x3 block with top-left corner (br, bc). */
  function BoxRows(g: Grid, br: int, bc: int): seq<seq<int>>
    requires WellFormed(g) && 0 <= br <= 6 && 0 <= bc <= 6
  {
    [g[br][bc..bc + 3], g[br + 1][bc..bc + 3], g[br + 2][bc..bc + 3]]
  }

  /** The nonzero entries of the rows, row after row. */
  function NonZeroRows(rows: seq<seq<int>>): seq<int> {
    if rows == [] then [] else NonZeroRows(rows[..|rows| - 1]) + NonZero(rows[|rows| - 1])
  }

  /** The nonzero values of the 3x3 block with top-left corner (br, bc), row by row. */
  function BoxTaken(g: Grid, br: int, bc: int): seq<int>
    requires WellFormed(g) && 0 <= br <= 6 && 0 <= bc <= 6
  {
    NonZeroRows(BoxRows(g, br, bc))
  }

  lemma BoxTakenRows(g: Grid, br: int, bc: int)
    requires WellFormed(g) && 0 <= br <= 6 && 0 <= bc <= 6
    ensures BoxTaken(g, br, bc) ==
      NonZero(g[br][bc..bc + 3]) + NonZero(g[br + 1][bc..bc + 3]) + NonZero(g[br + 2][bc..bc + 3])
  {
    var rows := BoxRows(g, br, bc);
    assert rows[..1][..0] == [];
    assert rows[..2][..1] == rows[..1];
    assert rows[..3] == rows;
    assert NonZeroRows(rows[..1]) == NonZero(rows[0]);
    assert NonZeroRows(rows[..2]) == NonZero(rows[0]) + NonZero(rows[1]);
  }

  /** The cells of the 3x3 block with top-left corner (br, bc). */
  predicate InBlock(br: int, bc: int, i: int, j: int) {
    br <= i < br + 3 && bc <= j < bc + 3
  }

  lemma BoxTakenMembers(g: Grid, br: int, bc: int)
    requires WellFormed(g) && 0 <= br <= 6 && 0 <= bc <= 6
    ensures forall v :: v in BoxTaken(g, br, bc) ==>
      v != 0 && exists i, j :: InBlock(br, bc, i, j) && g[i][j] == v
    ensures forall i, j :: InBlock(br, bc, i, j) && g[i][j] != 0 ==> g[i][j] in BoxTaken(g, br, bc)
  {
    var s0, s1, s2 := g[br][bc..bc + 3], g[br + 1][bc..bc + 3], g[br + 2][bc..bc + 3];
    BoxTakenRows(g, br, bc);
    NonZeroMembers(s0);
    NonZeroMembers(s1);
    NonZeroMembers(s2);
    forall v | v in BoxTaken(g, br, bc)
      ensures exists i, j :: InBlock(br, bc, i, j) && g[i][j] == v
    {
      if v in NonZero(s0) {
        var j :| 0 <= j < 3 && s0[j] == v;
        assert InBlock(br, bc, br, bc + j);
      } else if v in NonZero(s1) {
        var j :| 0 <= j < 3 && s1[j] == v;
        assert InBlock(br, bc, br + 1, bc + j);
      } else {
        var j :| 0 <= j < 3 && s2[j] == v;
        assert InBlock(br, bc, br + 2, bc + j);
      }
    }
    forall i, j | InBlock(br, bc, i, j) && g[i][j] != 0
      ensures g[i][j] in BoxTaken(g, br, bc)
    {
      if i == br {
        assert s0[j - bc] == g[i][j];
      } else if i == br + 1 {
        assert s1[j - bc] == g[i][j];
      } else {
        assert s2[j - bc] == g[i][j];
      }
    }
  }

  /** (i, j) lies in the row, the column or the 3x3 box of (r, c). */
  predicate Sees(r: int, c: int, i: int, j: int) {
    i == r || j == c || (i / 3 == r / 3 && j / 3 == c / 3)
  }

  /** The values taken in the row, column and box of (r, c), as a set. */
  function Taken(g: Grid, r: int, c: int): set<int>
    requires WellFormed(g) && 0 <= r < 9 && 0 <= c < 9
  {
    set v | v in BoxTaken(g, 3 * (r / 3), 3 * (c / 3)) + NonZero(g[r]) + NonZero(Column(g, c))
  }

  /** Some cell that (r, c) sees holds v. */
  predicate SeenValue(g: Grid, r: int, c: int, v: int)
    requires WellFormed(g)
  {
    exists i, j :: 0 <= i < 9 && 0 <= j < 9 && Sees(r, c, i, j) && g[i][j] == v
  }

  lemma SameBox(r: int, i: int)
    requires 0 <= r < 9 && 0 <= i < 9
    ensures i / 3 == r / 3 <==> 3 * (r / 3) <= i < 3 * (r / 3) + 3
  {
  }

  /** The taken values are exactly the nonzero values of the cells that (r, c) sees. */
  lemma TakenSees(g: Grid, r: int, c: int)
    requires WellFormed(g) && 0 <= r < 9 && 0 <= c < 9
    ensures forall v :: v in Taken(g, r, c) <==> v != 0 && SeenValue(g, r, c, v)
  {
    var br, bc := 3 * (r / 3), 3 * (c / 3);
    var box, row, col := BoxTaken(g, br, bc), NonZero(g[r]), NonZero(Column(g, c));
    BoxTakenMembers(g, br, bc);
    NonZeroMembers(g[r]);
    NonZeroMembers(Column(g, c));
    forall v | v in Taken(g, r, c) ensures v != 0 && SeenValue(g, r, c, v) {
      assert v in box + row + col;
      if v in box {
        var i, j :| InBlock(br, bc, i, j) && g[i][j] == v;
        SameBox(r, i);
        SameBox(c, j);
        assert Sees(r, c, i, j);
      } else if v in row {
        var j :| 0 <= j < 9 && g[r][j] == v;
        assert Sees(r, c, r, j);
      } else {
        var i :| 0 <= i < 9 && Column(g, c)[i] == v;
        assert Sees(r, c, i, c);
      }
    }
    forall v | v != 0 && SeenValue(g, r, c, v) ensures v in Taken(g, r, c) {
      var i, j :| 0 <= i < 9 && 0 <= j < 9 && Sees(r, c, i, j) && g[i][j] == v;
      if i == r {
        assert v in row;
      } else if j == c {
        assert Column(g, c)[i] == v;
        assert v in col;
      } else {
        SameBox(r, i);
        SameBox(c, j);
        assert InBlock(br, bc, i, j);
        assert v in box;
      }
      assert v in box + row + col;
    }
  }

  /** The entries of `xs` that are not in `t`, in the order of `xs`. */
  function Absent(xs: seq<int>, t: set<int>): seq<int> {
    if xs == [] then [] else (if xs[0] in t then [] else [xs[0]]) + Absent(xs[1..], t)
  }

  lemma {:induction false} AbsentMembers(xs: seq<int>, t: set<int>)
    ensures forall x :: x in Absent(xs, t) <==> x in xs && x !in t
    ensures |Absent(xs, t)| <= |xs|
  {
    if xs != [] {
      AbsentMembers(xs[1..], t);
      assert xs == [xs[0]] + xs[1..];
    }
  }

  lemma {:induction false} AbsentAppend(xs: seq<int>, ys: seq<int>, t: set<int>)
    ensures Absent(xs + ys, t) == Absent(xs, t) + Absent(ys, t)
  {
    if xs == [] {
      assert xs + ys == ys;
    } else {
      assert (xs + ys)[1..] == xs[1..] + ys;
      AbsentAppend(xs[1..], ys, t);
    }
  }

  lemma {:induction false} AbsentIncreasing(xs: seq<int>, t: set<int>)
    requires forall i, j :: 0 <= i < j < |xs| ==> xs[i] < xs[j]
    ensures forall i, j :: 0 <= i < j < |Absent(xs, t)| ==> Absent(xs, t)[i] < Absent(xs, t)[j]
  {
    if xs != [] {
      AbsentIncreasing(xs[1..], t);
      AbsentMembers(xs[1..], t);
      var rest := Absent(xs[1..], t);
      forall k | 0 <= k < |rest| ensures xs[0] < rest[k] {
        assert rest[k] in xs[1..];
      }
    }
  }

  /** The values 1..9 that can still go in (r, c), ascending (the candidates of `available`). */
  function Candidates(g: Grid, cell: Cell): seq<int>
    requires WellFormed(g) && 0 <= cell.0 < 9 && 0 <= cell.1 < 9
  {
    Absent(NUMBERS, Taken(g, cell.0, cell.1))
  }

  /** `v` is a candidate of `cell` exactly when it is in 1..9 and no cell that `cell` sees holds it;
      the candidates are listed in strictly ascending order. */
  lemma CandidatesSpec(g: Grid, cell: Cell)
    requires WellFormed(g) && 0 <= cell.0 < 9 && 0 <= cell.1 < 9
    ensures forall v :: v in Candidates(g, cell) <==> 1 <= v <= 9 && !SeenValue(g, cell.0, cell.1, v)
  {
    var t := Taken(g, cell.0, cell.1);
    AbsentMembers(NUMBERS, t);
    TakenSees(g, cell.0, cell.1);
    forall v ensures v in Candidates(g, cell) <==> 1 <= v <= 9 && !SeenValue(g, cell.0, cell.1, v) {
      assert v in Candidates(g, cell) <==> v in NUMBERS && v !in t;
      assert v in NUMBERS <==> 1 <= v <= 9;
    }
  }

  lemma CandidatesAscending(g: Grid, cell: Cell)
    requires WellFormed(g) && 0 <= cell.0 < 9 && 0 <= cell.1 < 9
    ensures forall i, j :: 0 <= i < j < |Candidates(g, cell)| ==> Candidates(g, cell)[i] < Candidates(g, cell)[j]
    ensures |Candidates(g, cell)| <= 9
  {
    var t := Taken(g, cell.0, cell.1);
    AbsentIncreasing(NUMBERS, t);
    AbsentMembers(NUMBERS, t);
  }

  lemma CandidatesRange(g: Grid, cell: Cell)
    requires WellFormed(g) && 0 <= cell.0 < 9 && 0 <= cell.1 < 9
    ensures forall k :: 0 <= k < |Candidates(g, cell)| ==> 1 <= Candidates(g, cell)[k] <= 9
  {
    var t := Taken(g, cell.0, cell.1);
    AbsentMembers(NUMBERS, t);
    forall k | 0 <= k < |Candidates(g, cell)| ensures 1 <= Candidates(g, cell)[k] <= 9 {
      assert Candidates(g, cell)[k] in Absent(NUMBERS, t);
    }
  }

  /** No two distinct cells that see each other hold the same nonzero value. */
  predicate Consistent(g: Grid)
    requires WellFormed(g)
  {
    forall r, c, i, j ::
      (0 <= r < 9 && 0 <= c < 9 && 0 <= i < 9 && 0 <= j < 9 &&
       (i, j) != (r, c) && Sees(r, c, i, j) && g[r][c] != 0) ==> g[i][j] != g[r][c]
  }

  /** h keeps every nonzero value of g. */
  predicate Extends(g: Grid, h: Grid)
    requires WellFormed(g) && WellFormed(h)
  {
    forall r, c :: 0 <= r < 9 && 0 <= c < 9 && g[r][c] != 0 ==> h[r][c] == g[r][c]
  }

  /** h is a solved Sudoku (full and consistent) that keeps every value of g. */
  predicate Completion(g: Grid, h: Grid)
    requires WellFormed(g)
  {
    WellFormed(h) && Full(h) && Consistent(h) && Extends(g, h)
  }

  /** A grid that some solved Sudoku completes breaks no rule: its values are the solution's. */
  lemma CompletedConsistent(g: Grid, h: Grid)
    requires WellFormed(g) && Completion(g, h)
    ensures Consistent(g)
  {
    forall r, c, i, j |
      0 <= r < 9 && 0 <= c < 9 && 0 <= i < 9 && 0 <= j < 9 &&
      (i, j) != (r, c) && Sees(r, c, i, j) && g[r][c] != 0
      ensures g[i][j] != g[r][c]
    {
      assert h[r][c] == g[r][c];
      if g[i][j] != 0 {
        assert h[i][j] == g[i][j];
      }
    }
  }

  /** Placing a candidate into an empty cell of a consistent grid keeps it consistent. */
  lemma PlaceCandidateConsistent(g: Grid, cell: Cell, v: int)
    requires WellFormed(g) && Consistent(g) && 0 <= cell.0 < 9 && 0 <= cell.1 < 9
    requires g[cell.0][cell.1] == 0 && v in Candidates(g, cell)
    ensures WellFormed(ChangeState(g, cell, v)) && Consistent(ChangeState(g, cell, v))
  {
    CandidatesSpec(g, cell);
    var g' := ChangeState(g, cell, v);
    forall r, c, i, j |
      0 <= r < 9 && 0 <= c < 9 && 0 <= i < 9 && 0 <= j < 9 &&
      (i, j) != (r, c) && Sees(r, c, i, j) && g'[r][c] != 0
      ensures g'[i][j] != g'[r][c]
    {
      if (i, j) == cell {
        assert Sees(i, j, r, c);
      }
    }
  }

  /** The value a completion holds in an empty cell is one of that cell's candidates,
      and the completion also completes the grid with that value placed. */
  lemma CompletionPicksCandidate(g: Grid, h: Grid, cell: Cell)
    requires WellFormed(g) && Completion(g, h) && 0 <= cell.0 < 9 && 0 <= cell.1 < 9
    requires g[cell.0][cell.1] == 0
    ensures h[cell.0][cell.1] in Candidates(g, cell)
    ensures Completion(ChangeState(g, cell, h[cell.0][cell.1]), h)
  {
    var v := h[cell.0][cell.1];
    CandidatesSpec(g, cell);
    ChangeStateWellFormed(g, cell, v);
  }

  /** The number of empty cells. */
  function Zeros(g: Grid): nat {
    if g == [] then 0 else Zeros(g[..|g| - 1]) + ZerosRow(g[|g| - 1])
  }

  function ZerosRow(row: seq<int>): nat {
    if row == [] then 0 else ZerosRow(row[..|row| - 1]) + (if row[|row| - 1] == 0 then 1 else 0)
  }

  lemma {:induction false} ZerosRowUpdate(row: seq<int>, c: int, v: int)
    requires 0 <= c < |row|
    ensures ZerosRow(row[c := v]) == ZerosRow(row) - (if row[c] == 0 then 1 else 0) + (if v == 0 then 1 else 0)
    decreases |row|
  {
    var n := |row|;
    if c == n - 1 {
      assert row[c := v][..n - 1] == row[..n - 1];
    } else {
      assert row[c := v][..n - 1] == row[..n - 1][c := v];
      ZerosRowUpdate(row[..n - 1], c, v);
    }
  }

  /** Setting one cell changes the count of empty cells only by what that cell was and becomes. */
  lemma {:induction false} ZerosUpdate(g: Grid, cell: Cell, v: int)
    requires InGrid(g, cell)
    ensures Zeros(ChangeState(g, cell, v)) ==
      Zeros(g) - (if g[cell.0][cell.1] == 0 then 1 else 0) + (if v == 0 then 1 else 0)
    decreases |g|
  {
    var n := |g|;
    var g' := ChangeState(g, cell, v);
    ZerosRowUpdate(g[cell.0], cell.1, v);
    if cell.0 == n - 1 {
      assert g'[..n - 1] == g[..n - 1];
    } else {
      assert g'[..n - 1] == ChangeState(g[..n - 1], cell, v);
      ZerosUpdate(g[..n - 1], cell, v);
    }
  }

  lemma {:induction false} ZerosRowFull(row: seq<int>)
    requires forall j :: 0 <= j < |row| ==> row[j] != 0
    ensures ZerosRow(row) == 0
  {
    if row != [] {
      ZerosRowFull(row[..|row| - 1]);
    }
  }

  /** A full grid has no empty cell to count. */
  lemma {:induction false} ZerosFull(g: Grid)
    requires Full(g)
    ensures Zeros(g) == 0
  {
    if g != [] {
      ZerosRowFull(g[|g| - 1]);
      ZerosFull(g[..|g| - 1]);
    }
  }
}
