/**
 * The Python solver (python-version/sudoku.py): the candidate engine and the
 * backtracking search over an explicit LIFO frontier of grid copies. Grids
 * are values here, so the source's deep copies are implicit.
 */
module Sudoku {
  import opened Wrappers
  import opened Grid
  import opened Search
  import opened Frontier

  /** What solve gives back: a grid (first-solution mode), the failure "No solution"
      (first-solution mode), or the number of full grids reached (count mode). */
  datatype SolveResult = Solved(grid: Grid) | NoSolution | Endings(count: nat)

  /** The three row slices of the 3x3 mini-grid holding space, chosen by the source's
      branch table; they are the rows and columns 3*(i/3) .. 3*(i/3)+2. */
  function GetMiniGrid(puzzle: Grid, space: Cell): (minigrid: seq<seq<int>>)
    requires WellFormed(puzzle) && 0 <= space.0 < 9 && 0 <= space.1 < 9
    ensures minigrid == BoxRows(puzzle, 3 * (space.0 / 3), 3 * (space.1 / 3))
  {
    RowSlices(puzzle);
    if space.0 <= 2 then
      if space.1 <= 2 then [puzzle[0][..3], puzzle[1][..3], puzzle[2][..3]]
      else if 3 <= space.1 <= 5 then [puzzle[0][3..6], puzzle[1][3..6], puzzle[2][3..6]]
      else [puzzle[0][6..], puzzle[1][6..], puzzle[2][6..]]
    else if 3 <= space.0 <= 5 then
      if space.1 <= 2 then [puzzle[3][..3], puzzle[4][..3], puzzle[5][..3]]
      else if 3 <= space.1 <= 5 then [puzzle[3][3..6], puzzle[4][3..6], puzzle[5][3..6]]
      else [puzzle[3][6..], puzzle[4][6..], puzzle[5][6..]]
    else
      if space.1 <= 2 then [puzzle[6][..3], puzzle[7][..3], puzzle[8][..3]]
      else if 3 <= space.1 <= 5 then [puzzle[6][3..6], puzzle[7][3..6], puzzle[8][3..6]]
      else [puzzle[6][6..], puzzle[7][6..], puzzle[8][6..]]
  }

  lemma RowSlices(puzzle: Grid)
    requires WellFormed(puzzle)
    ensures forall r :: 0 <= r < 9 ==> puzzle[r][..3] == puzzle[r][0..3] && puzzle[r][6..] == puzzle[r][6..9]
  {
  }

  /** The nonzero values of a list, in their original order. */
  method CheckRowOrColumn(values: seq<int>) returns (numberList: seq<int>)
    ensures numberList == NonZero(values)
    ensures forall x :: x in numberList <==> x in values && x != 0
  {
    numberList := [];
    for i := 0 to |values|
      invariant numberList == NonZero(values[..i])
    {
      assert values[..i + 1][..i] == values[..i];
      if values[i] != 0 {
        numberList := numberList + [values[i]];
      }
    }
    assert values[..|values|] == values;
    NonZeroMembers(values);
  }

  /** The nonzero values of the mini-grid of space, row by row. */
  method CheckMiniGrid(puzzle: Grid, space: Cell) returns (takenNumbers: seq<int>)
    requires WellFormed(puzzle) && 0 <= space.0 < 9 && 0 <= space.1 < 9
    ensures takenNumbers == BoxTaken(puzzle, 3 * (space.0 / 3), 3 * (space.1 / 3))
  {
    var minigrid := GetMiniGrid(puzzle, space);
    takenNumbers := [];
    for k := 0 to 3
      invariant takenNumbers == NonZeroRows(minigrid[..k])
    {
      assert minigrid[..k + 1][..k] == minigrid[..k];
      var nonZero := CheckRowOrColumn(minigrid[k]);
      takenNumbers := takenNumbers + nonZero;
    }
    assert minigrid[..3] == minigrid;
  }

  /** The first cell holding 0 in row-major order, or None. */
  method GetEmptySpace(puzzle: Grid) returns (space: Option<Cell>)
    ensures space == FirstEmpty(puzzle)
  {
    var rowCounter := 0;
    for k := 0 to |puzzle|
      invariant rowCounter == k
      invariant FilledBefore(puzzle, k, 0)
    {
      var row := puzzle[k];
      for i := 0 to |row|
        invariant FilledBefore(puzzle, k, i)
      {
        if row[i] == 0 {
          FirstEmptyUnique(puzzle, (rowCounter, i));
          return Some((rowCounter, i));
        }
      }
      rowCounter := rowCounter + 1;
    }
    return None;
  }

  /** The position of the first occurrence of x in xs. */
  function FirstIndex(xs: seq<int>, x: int): (i: nat)
    requires x in xs
    ensures i < |xs| && xs[i] == x && x !in xs[..i]
  {
    if xs[0] == x then 0 else 1 + FirstIndex(xs[1..], x)
  }

  /** Python's list.remove: drops the first occurrence of x. */
  function RemoveFirst(xs: seq<int>, x: int): (r: seq<int>)
    requires x in xs
  {
    if xs[0] == x then xs[1..] else [xs[0]] + RemoveFirst(xs[1..], x)
  }

  /** The result of list.remove is the list with the entry at FirstIndex cut out. */
  lemma {:induction false} RemoveFirstCuts(xs: seq<int>, x: int)
    requires x in xs
    ensures RemoveFirst(xs, x) == xs[..FirstIndex(xs, x)] + xs[FirstIndex(xs, x) + 1..]
  {
    if xs[0] == x {
      assert xs[..0] == [];
    } else {
      var tail := xs[1..];
      RemoveFirstCuts(tail, x);
      var i := FirstIndex(tail, x);
      assert FirstIndex(xs, x) == i + 1;
      assert xs[..i + 1] == [xs[0]] + tail[..i];
      assert xs[i + 2..] == tail[i + 1..];
    }
  }

  lemma {:induction false} AbsentIgnores(xs: seq<int>, d: set<int>, x: int)
    requires x !in xs
    ensures Absent(xs, d + {x}) == Absent(xs, d)
  {
    if xs != [] {
      AbsentIgnores(xs[1..], d, x);
    }
  }

  /** Removing one more taken value from the list of values still absent. */
  lemma {:induction false} AbsentRemove(xs: seq<int>, d: set<int>, x: int)
    requires x in xs && x !in d
    requires forall i, j :: 0 <= i < j < |xs| ==> xs[i] != xs[j]
    ensures x in Absent(xs, d) && RemoveFirst(Absent(xs, d), x) == Absent(xs, d + {x})
  {
    var tail := xs[1..];
    assert xs == [xs[0]] + tail;
    assert forall i, j :: 0 <= i < j < |tail| ==> tail[i] != tail[j] by {
      forall i, j | 0 <= i < j < |tail| ensures tail[i] != tail[j] {
        assert tail[i] == xs[i + 1] && tail[j] == xs[j + 1];
      }
    }
    if xs[0] == x {
      assert x !in tail by {
        forall j | 0 <= j < |tail| ensures tail[j] != x {
          assert tail[j] == xs[j + 1];
        }
      }
      AbsentIgnores(tail, d, x);
      assert Absent(xs, d) == [x] + Absent(tail, d);
      assert Absent(xs, d + {x}) == Absent(tail, d + {x});
    } else {
      assert x in tail;
      AbsentRemove(tail, d, x);
      if xs[0] in d {
        assert Absent(xs, d) == Absent(tail, d);
        assert Absent(xs, d + {x}) == Absent(tail, d + {x});
      } else {
        assert Absent(xs, d) == [xs[0]] + Absent(tail, d);
        assert Absent(xs, d + {x}) == [xs[0]] + Absent(tail, d + {x});
      }
    }
  }

  lemma {:induction false} AbsentNone(xs: seq<int>)
    ensures Absent(xs, {}) == xs
  {
    if xs != [] {
      AbsentNone(xs[1..]);
      assert xs == [xs[0]] + xs[1..];
    }
  }

  lemma NumbersDistinct()
    ensures forall v :: v in NUMBERS <==> 1 <= v <= 9
    ensures forall i, j :: 0 <= i < j < |NUMBERS| ==> NUMBERS[i] != NUMBERS[j]
  {
  }

  lemma TakenRange(g: Grid, r: int, c: int)
    requires WellFormed(g) && 0 <= r < 9 && 0 <= c < 9
    ensures forall v :: v in Taken(g, r, c) ==> 1 <= v <= 9
  {
    TakenSees(g, r, c);
  }

  lemma NonEmptyMember(s: set<int>)
    requires s != {}
    ensures exists v :: v in s
  {
    if forall v :: v !in s {
      assert false;
    }
  }

  /**
   * Removes every taken value from a copy of numbers, one list removal per value; the
   * order in which the set is walked does not matter.
   */
  method RemoveTaken(numbers: seq<int>, taken: set<int>) returns (available: seq<int>)
    requires forall v :: v in taken ==> v in numbers
    requires forall i, j :: 0 <= i < j < |numbers| ==> numbers[i] != numbers[j]
    ensures available == Absent(numbers, taken)
  {
    available := numbers;
    var rest := taken;
    assert taken - rest == {};
    AbsentNone(numbers);
    while rest != {}
      invariant rest <= taken
      invariant available == Absent(numbers, taken - rest)
      decreases rest
    {
      assert exists v :: v in rest by {
        NonEmptyMember(rest);
      }
      var num :| num in rest;
      AbsentRemove(numbers, taken - rest, num);
      available := RemoveFirst(available, num);
      assert taken - rest + {num} == taken - (rest - {num});
      rest := rest - {num};
    }
    assert taken - rest == taken;
  }

  /** The first empty cell and the ascending candidates for it; ([], None) when the grid is full. */
  method Available(puzzle: Grid) returns (available: seq<int>, space: Option<Cell>)
    requires WellFormed(puzzle)
    ensures space == FirstEmpty(puzzle)
    ensures space.None? ==> available == []
    ensures space.Some? ==> available == Candidates(puzzle, space.value)
  {
    var first := GetEmptySpace(puzzle);
    if first.None? {
      return [], None;
    }
    space := GetEmptySpace(puzzle);
    var (r, c) := space.value;
    var column := [];
    for i := 0 to 9
      invariant column == Column(puzzle, c)[..i]
    {
      column := column + [puzzle[i][c]];
    }
    assert column == Column(puzzle, c);
    var box := CheckMiniGrid(puzzle, space.value);
    var row := CheckRowOrColumn(puzzle[r]);
    var col := CheckRowOrColumn(column);
    var taken := set v | v in box + row + col;
    assert taken == Taken(puzzle, r, c);
    TakenRange(puzzle, r, c);
    NumbersDistinct();
    available := RemoveTaken(NUMBERS, taken);
  }

  /** Adds one child of g per option, in the order of options, each a fresh copy of g with
      the option placed in cell. */
  method PushChildren(frontier: StackFrontier<Grid>, g: Grid, cell: Cell, options: seq<int>)
    requires InGrid(g, cell)
    modifies frontier
    ensures frontier.frontier == old(frontier.frontier) + Children(g, cell, options)
  {
    ghost var start := frontier.frontier;
    for k := 0 to |options|
      invariant frontier.frontier == start + Children(g, cell, options[..k])
    {
      assert options[..k + 1] == options[..k] + [options[k]];
      frontier.Add(ChangeState(g, cell, options[k]));
    }
    assert options[..|options|] == options;
  }

  /**
   * Depth-first search from puzzle. The frontier starts with one child per candidate of
   * the first empty cell; each round pops the last grid, pushes its children in ascending
   * candidate order, and on a full grid returns it (first-solution mode) or counts it
   * (count mode). An empty frontier means "No solution" or the final count.
   */
  method Solve(puzzle: Grid, numEndings: bool) returns (result: SolveResult)
    requires WellFormed(puzzle)
    ensures !numEndings ==> result == (if FirstSolution(puzzle).Some? then Solved(FirstSolution(puzzle).value) else NoSolution)
    ensures numEndings ==> result == Endings(SolutionCount(puzzle))
    ensures result.Solved? ==> SoundResult(puzzle, result.grid)
  {
    var frontier := new StackFrontier<Grid>();
    var options, space := Available(puzzle);
    ExpansionWellFormed(puzzle);
    if space.Some? {
      PushChildren(frontier, puzzle, space.value, options);
    }
    assert frontier.frontier == Expansion(puzzle);
    FirstSolutionSound(puzzle);
    result := Explore(frontier, numEndings);
  }

  /**
   * The while loop of solve, run on a frontier: the first full grid the search pops, or
   * "No solution", in first-solution mode; the number of full grids popped in count mode.
   */
  method Explore(frontier: StackFrontier<Grid>, numEndings: bool) returns (result: SolveResult)
    requires AllWellFormed(frontier.frontier)
    modifies frontier
    ensures !numEndings ==> result == (if StackFirstGoal(old(frontier.frontier)).Some?
                                       then Solved(StackFirstGoal(old(frontier.frontier)).value) else NoSolution)
    ensures numEndings ==> result == Endings(StackCount(old(frontier.frontier)))
  {
    ghost var init := frontier.frontier;
    var counter := 0;
    while true
      invariant AllWellFormed(frontier.frontier)
      invariant counter + StackCount(frontier.frontier) == StackCount(init)
      invariant !numEndings ==> StackFirstGoal(frontier.frontier) == StackFirstGoal(init)
      decreases StackNodes(frontier.frontier)
    {
      var isEmpty := frontier.Empty();
      if isEmpty {
        if !numEndings {
          return NoSolution;
        }
        return Endings(counter);
      }
      PopStep(frontier.frontier);
      var state := frontier.Remove();
      ghost var rest := frontier.frontier;
      var options, space := Available(state);
      RoundStep(rest, state, space, options);
      if |options| > 0 {
        PushChildren(frontier, state, space.value, options);
      }
      if space.None? {
        if numEndings {
          counter := counter + 1;
        } else {
          return Solved(state);
        }
      }
    }
  }
}
