/**
 * The puzzle generator of generate.py: a grid whose first row is a shuffle of 1..9 is
 * solved, then values are removed one cell at a time while the puzzle keeps exactly one
 * solution, until the difficulty's number of empty cells is reached.
 */
module Generate {
  import opened Wrappers
  import opened Grid
  import opened Search
  import opened Sudoku

  /** Number of values removed from the solution for each difficulty level. */
  const DIFFICULTIES: map<int, nat> := map[0 := 47, 1 := 50, 2 := 53, 3 := 56]

  /** The levels are 0..3; each removes three more values than the one before, and none
      empties the whole grid. */
  lemma DifficultyTargets()
    ensures DIFFICULTIES.Keys == {0, 1, 2, 3}
    ensures forall d :: d in DIFFICULTIES ==> DIFFICULTIES[d] == 47 + 3 * d < 81
  {
  }

  /** The all-zero grid the generator starts from. */
  const EMPTY: Grid := [
    [0, 0, 0, 0, 0, 0, 0, 0, 0],
    [0, 0, 0, 0, 0, 0, 0, 0, 0],
    [0, 0, 0, 0, 0, 0, 0, 0, 0],
    [0, 0, 0, 0, 0, 0, 0, 0, 0],
    [0, 0, 0, 0, 0, 0, 0, 0, 0],
    [0, 0, 0, 0, 0, 0, 0, 0, 0],
    [0, 0, 0, 0, 0, 0, 0, 0, 0],
    [0, 0, 0, 0, 0, 0, 0, 0, 0],
    [0, 0, 0, 0, 0, 0, 0, 0, 0]
  ]

  /** start is an arrangement of the numbers 1..9, each once (a shuffle of NUMBERS). */
  predicate IsShuffle(start: seq<int>) {
    && |start| == 9
    && (forall i :: 0 <= i < 9 ==> 1 <= start[i] <= 9)
    && (forall i, j :: 0 <= i < j < 9 ==> start[i] != start[j])
  }

  /** EMPTY with its first row replaced by start. */
  function Seed(start: seq<int>): (g: Grid)
    requires IsShuffle(start)
    ensures WellFormed(g) && g[0] == start
    ensures forall r, c :: 1 <= r < 9 && 0 <= c < 9 ==> g[r][c] == 0
  {
    EMPTY[0 := start]
  }

  /** The seeded grid breaks no rule: its only values lie in one row and differ. */
  lemma SeedConsistent(start: seq<int>)
    requires IsShuffle(start)
    ensures Consistent(Seed(start))
  {
    var g := Seed(start);
    forall r, c, i, j |
      0 <= r < 9 && 0 <= c < 9 && 0 <= i < 9 && 0 <= j < 9 &&
      (i, j) != (r, c) && Sees(r, c, i, j) && g[r][c] != 0
      ensures g[i][j] != g[r][c]
    {
      assert r == 0;
      if i == 0 {
        assert j != c;
      }
    }
  }

  /** Row r of the fixed reference solution is the seed row rotated left by Shift(r). */
  function Shift(r: int): (k: int)
    requires 0 <= r < 9
    ensures 0 <= k < 9
  {
    3 * (r % 3) + r / 3
  }

  /** A completion of the seeded grid, built by rotating its first row. */
  function Pattern(start: seq<int>): (h: Grid)
    requires IsShuffle(start)
    ensures WellFormed(h) && Full(h)
    ensures forall r, c :: 0 <= r < 9 && 0 <= c < 9 ==> h[r][c] == start[(c + Shift(r)) % 9]
  {
    seq(9, r requires 0 <= r < 9 => seq(9, c requires 0 <= c < 9 => start[(c + Shift(r)) % 9]))
  }

  lemma Mod9Equal(a: int, b: int)
    requires 0 <= a < 18 && 0 <= b < 18 && a % 9 == b % 9
    ensures a == b || a - b == 9 || b - a == 9
  {
    assert a % 9 == (if a < 9 then a else a - 9);
    assert b % 9 == (if b < 9 then b else b - 9);
  }

  /** Two distinct cells that see each other take different positions of the seed row. */
  lemma PatternSeesDistinct(r: int, c: int, i: int, j: int)
    requires 0 <= r < 9 && 0 <= c < 9 && 0 <= i < 9 && 0 <= j < 9
    requires (i, j) != (r, c) && Sees(r, c, i, j)
    ensures (c + Shift(r)) % 9 != (j + Shift(i)) % 9
  {
    var a, b := c + Shift(r), j + Shift(i);
    if a % 9 == b % 9 {
      Mod9Equal(a, b);
      assert false;
    }
  }

  /** The rotated rows form a valid Sudoku. */
  lemma PatternConsistent(start: seq<int>)
    requires IsShuffle(start)
    ensures Consistent(Pattern(start))
  {
    var h := Pattern(start);
    forall r, c, i, j |
      0 <= r < 9 && 0 <= c < 9 && 0 <= i < 9 && 0 <= j < 9 &&
      (i, j) != (r, c) && Sees(r, c, i, j) && h[r][c] != 0
      ensures h[i][j] != h[r][c]
    {
      PatternSeesDistinct(r, c, i, j);
    }
  }

  /** The rotated rows keep the seed row unrotated. */
  lemma PatternExtendsSeed(start: seq<int>)
    requires IsShuffle(start)
    ensures Extends(Seed(start), Pattern(start))
  {
    var h, g := Pattern(start), Seed(start);
    forall c | 0 <= c < 9 ensures h[0][c] == g[0][c] {
      assert Shift(0) == 0;
    }
  }

  /** The seeded grid has a completion, so the solver never reports "No solution" for it. */
  lemma SeedSolvable(start: seq<int>)
    requires IsShuffle(start)
    ensures Completion(Seed(start), Pattern(start))
    ensures FirstSolution(Seed(start)).Some?
  {
    PatternConsistent(start);
    PatternExtendsSeed(start);
    var g := Seed(start);
    assert g[1][0] == 0;
    SolutionCountComplete(g, Pattern(start));
  }

  /** Cells still worth trying: nonzero and not yet found to break uniqueness. */
  function Eligible(puzzle: Grid, excluded: seq<Cell>): (cells: set<Cell>)
    requires WellFormed(puzzle)
    ensures forall cell :: cell in cells <==>
      (InGrid(puzzle, cell) && puzzle[cell.0][cell.1] != 0 && cell !in excluded)
  {
    set r, c | 0 <= r < 9 && 0 <= c < 9 && puzzle[r][c] != 0 && (r, c) !in excluded :: (r, c)
  }

  /** solution solves puzzle and no other grid does. */
  ghost predicate UniquelyCompletes(puzzle: Grid, solution: Grid)
    requires WellFormed(puzzle)
  {
    Completion(puzzle, solution) && forall h :: Completion(puzzle, h) ==> h == solution
  }

  /** The seed's first solution keeps the seed row, breaks no rule, and is its own only
      completion. */
  lemma SolvedSeed(start: seq<int>, solution: Grid)
    requires IsShuffle(start) && FirstSolution(Seed(start)) == Some(solution)
    ensures WellFormed(solution) && Full(solution) && Consistent(solution)
    ensures solution[0] == start && Zeros(solution) == 0
    ensures UniquelyCompletes(solution, solution)
  {
    var g := Seed(start);
    FirstSolutionSound(g);
    SeedConsistent(start);
    SolvedGrid(g, solution);
    KeepsSeedRow(start, solution);
  }

  /** A sound, consistent result is its own only completion. */
  lemma SolvedGrid(g: Grid, solution: Grid)
    requires WellFormed(g) && Consistent(g) && SoundResult(g, solution)
    ensures Consistent(solution) && Zeros(solution) == 0
    ensures UniquelyCompletes(solution, solution)
  {
    forall h | Completion(solution, h) ensures h == solution {
      FullExtendsEqual(solution, h);
    }
    ZerosFull(solution);
  }

  /** A well-formed grid keeping the values of the seed has the seed row as its first row. */
  lemma KeepsSeedRow(start: seq<int>, solution: Grid)
    requires IsShuffle(start) && WellFormed(solution) && Extends(Seed(start), solution)
    ensures solution[0] == start
  {
    forall c | 0 <= c < 9 ensures solution[0][c] == start[c] {
      assert Seed(start)[0][c] == start[c] != 0;
    }
  }

  /** Emptying a nonzero cell of a puzzle that solution completes: the solution still
      completes it, there is one more empty cell, and writing the value back restores it. */
  lemma ClearStep(puzzle: Grid, solution: Grid, cell: Cell)
    requires WellFormed(puzzle) && Completion(puzzle, solution)
    requires InGrid(puzzle, cell) && puzzle[cell.0][cell.1] != 0
    ensures WellFormed(ChangeState(puzzle, cell, 0))
    ensures Completion(ChangeState(puzzle, cell, 0), solution)
    ensures !Full(ChangeState(puzzle, cell, 0))
    ensures Zeros(ChangeState(puzzle, cell, 0)) == Zeros(puzzle) + 1
    ensures ChangeState(ChangeState(puzzle, cell, 0), cell, puzzle[cell.0][cell.1]) == puzzle
  {
    ChangeStateWellFormed(puzzle, cell, 0);
    ZerosUpdate(puzzle, cell, 0);
    ChangeStateRestore(puzzle, cell, 0);
  }

  /** Emptying a cell that is not excluded leaves every excluded cell as it was. */
  lemma ClearKeepsExcluded(puzzle: Grid, cell: Cell, excluded: seq<Cell>)
    requires WellFormed(puzzle) && InGrid(puzzle, cell) && cell !in excluded
    requires forall e :: e in excluded ==> InGrid(puzzle, e) && puzzle[e.0][e.1] != 0
    ensures forall e :: e in excluded ==>
      InGrid(ChangeState(puzzle, cell, 0), e) && ChangeState(puzzle, cell, 0)[e.0][e.1] != 0
  {
  }

  /** Emptying one more cell keeps every removal that was ambiguous ambiguous: the puzzle
      it leaves has fewer givens and so no fewer completions. */
  lemma ClearKeepsRejected(puzzle: Grid, cell: Cell, excluded: seq<Cell>)
    requires WellFormed(puzzle) && InGrid(puzzle, cell)
    requires forall e :: e in excluded ==> InGrid(puzzle, e)
    requires forall e :: e in excluded ==> Ambiguous(ChangeState(puzzle, e, 0))
    ensures forall e :: e in excluded ==>
      InGrid(ChangeState(puzzle, cell, 0), e) && Ambiguous(ChangeState(ChangeState(puzzle, cell, 0), e, 0))
  {
    var cleared := ChangeState(puzzle, cell, 0);
    ChangeStateWellFormed(puzzle, cell, 0);
    forall e | e in excluded ensures Ambiguous(ChangeState(cleared, e, 0)) {
      ChangeStateWellFormed(puzzle, e, 0);
      ChangeStateWellFormed(cleared, e, 0);
      AmbiguousFewerGivens(ChangeState(puzzle, e, 0), ChangeState(cleared, e, 0));
    }
  }

  /** A rejected removal: when the solver counts more than one solution for a puzzle that a
      solved grid completes, two different grids complete it. */
  lemma RejectStep(puzzle: Grid, solution: Grid)
    requires WellFormed(puzzle) && Completion(puzzle, solution) && SolutionCount(puzzle) > 1
    ensures Ambiguous(puzzle)
  {
    CompletedConsistent(puzzle, solution);
    SolutionCountTwoIff(puzzle);
  }

  /** A puzzle with an empty cell, completed by solution, for which the solver counts at
      most one solution, has solution as its only completion and a count of exactly one. */
  lemma AcceptStep(puzzle: Grid, solution: Grid)
    requires WellFormed(puzzle) && !Full(puzzle) && Completion(puzzle, solution)
    requires SolutionCount(puzzle) <= 1
    ensures SolutionCount(puzzle) == 1 && UniquelyCompletes(puzzle, solution)
  {
    SolutionCountComplete(puzzle, solution);
    forall h | Completion(puzzle, h) ensures h == solution {
      UniqueCompletion(puzzle, solution, h);
    }
  }

  datatype Generated =
    | Puzzle(puzzle: Grid, solution: Grid)
      /** The difficulty is not a key of DIFFICULTIES. */
    | UnknownDifficulty
      /** Every nonzero cell is excluded before the target was reached; the source keeps
          drawing cells for ever at this point. */
    | Exhausted(puzzle: Grid, solution: Grid, excluded: seq<Cell>)

  /**
   * Empties cells of solution one at a time until target cells are empty, keeping a
   * removal only when the solver still counts at most one solution; a rejected cell is
   * restored and never tried again. Which eligible cell each round tries is left open.
   */
  method RemoveValues(solution: Grid, target: nat) returns (res: Generated)
    requires WellFormed(solution) && UniquelyCompletes(solution, solution) && Zeros(solution) == 0
    ensures res.Puzzle? || res.Exhausted?
    ensures res.solution == solution && WellFormed(res.puzzle) && UniquelyCompletes(res.puzzle, solution)
    ensures Zeros(res.puzzle) > 0 ==> SolutionCount(res.puzzle) == 1
    ensures res.Puzzle? ==> Zeros(res.puzzle) == target
    ensures res.Exhausted? ==>
      && Zeros(res.puzzle) < target
      && Eligible(res.puzzle, res.excluded) == {}
      && (forall cell :: cell in res.excluded ==> InGrid(res.puzzle, cell) && res.puzzle[cell.0][cell.1] != 0)
      && forall cell :: cell in res.excluded ==> Ambiguous(ChangeState(res.puzzle, cell, 0))
  {
    var excluded: seq<Cell> := [];
    var removed := 0;
    var puzzle := solution;
    while removed < target
      invariant WellFormed(puzzle) && UniquelyCompletes(puzzle, solution)
      invariant Zeros(puzzle) == removed <= target
      invariant removed > 0 ==> SolutionCount(puzzle) == 1
      invariant forall cell :: cell in excluded ==> InGrid(puzzle, cell) && puzzle[cell.0][cell.1] != 0
      invariant forall cell :: cell in excluded ==> Ambiguous(ChangeState(puzzle, cell, 0))
      decreases Eligible(puzzle, excluded)
    {
      var candidates := Eligible(puzzle, excluded);
      if candidates == {} {
        return Exhausted(puzzle, solution, excluded);
      }
      var cell :| cell in candidates;
      var (row, column) := cell;
      ghost var before := puzzle;
      var changedBox := puzzle[row][column];
      ClearStep(puzzle, solution, cell);
      ClearKeepsExcluded(puzzle, cell, excluded);
      ClearKeepsRejected(puzzle, cell, excluded);
      puzzle := ChangeState(puzzle, cell, 0);
      var count := Solve(puzzle, true);
      if count.count > 1 {
        RejectStep(puzzle, solution);
        puzzle := ChangeState(puzzle, cell, changedBox);
        assert puzzle == before;
        excluded := excluded + [cell];
        assert cell !in Eligible(puzzle, excluded);
      } else {
        AcceptStep(puzzle, solution);
        assert cell !in Eligible(puzzle, excluded);
        removed := removed + 1;
      }
    }
    return Puzzle(puzzle, solution);
  }

  /**
   * Generates a puzzle for difficulty. start is the shuffled first row, and each removal
   * tries some eligible cell; which one the random draws land on is left open.
   */
  method GeneratePuzzle(difficulty: int, start: seq<int>) returns (res: Generated)
    requires IsShuffle(start)
    ensures res.UnknownDifficulty? <==> difficulty !in DIFFICULTIES
    ensures res.Puzzle? || res.Exhausted? ==>
      && WellFormed(res.puzzle)
      && UniquelyCompletes(res.puzzle, res.solution)
      && res.solution[0] == start
      && FirstSolution(Seed(start)) == Some(res.solution)
      && (Zeros(res.puzzle) > 0 ==> SolutionCount(res.puzzle) == 1)
    ensures res.Puzzle? ==> difficulty in DIFFICULTIES && Zeros(res.puzzle) == DIFFICULTIES[difficulty]
    ensures res.Exhausted? ==>
      && difficulty in DIFFICULTIES && Zeros(res.puzzle) < DIFFICULTIES[difficulty]
      && Eligible(res.puzzle, res.excluded) == {}
      && (forall cell :: cell in res.excluded ==> InGrid(res.puzzle, cell) && res.puzzle[cell.0][cell.1] != 0)
      && forall cell :: cell in res.excluded ==> Ambiguous(ChangeState(res.puzzle, cell, 0))
  {
    var seed := Seed(start);
    SeedSolvable(start);
    var solved := Solve(seed, false);
    var solution := solved.grid;
    SolvedSeed(start, solution);
    if difficulty !in DIFFICULTIES {
      return UnknownDifficulty;
    }
    res := RemoveValues(solution, DIFFICULTIES[difficulty]);
  }
}
