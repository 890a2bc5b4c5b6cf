/**
 * The C++ solver of sudoku.cpp. A puzzle is a 9x9 block of ints on the heap; every
 * explored state is a freshly allocated copy, the frontier is a vector used as a stack,
 * and a search that runs out of states ends the program with "No solution".
 */
module SudokuCpp {
  import opened Wrappers
  import opened Grid
  import opened Search

  /** A puzzle block with the 9x9 shape the program assumes. */
  predicate Shaped(a: array2<int>) {
    a.Length0 == 9 && a.Length1 == 9
  }

  /** The grid an array holds, row by row. */
  function Snapshot(a: array2<int>): (g: Grid)
    requires Shaped(a)
    reads a
    ensures |g| == 9
    ensures forall i :: 0 <= i < 9 ==> |g[i]| == 9
    ensures forall i, j :: 0 <= i < 9 && 0 <= j < 9 ==> g[i][j] == a[i, j]
  {
    seq(9, i requires 0 <= i < 9 reads a => seq(9, j requires 0 <= j < 9 reads a => a[i, j]))
  }

  /** A block holding a well-formed puzzle. */
  predicate IsPuzzle(a: array2<int>)
    reads a
  {
    Shaped(a) && WellFormed(Snapshot(a))
  }

  // ---------------------------------------------------------------------------------
  // Reading and writing rows of digits
  // ---------------------------------------------------------------------------------

  /** The characters of a CSV row that readCSVrow keeps: all but spaces, commas and newlines. */
  function Kept(row: string): (kept: string)
    ensures |kept| <= |row|
    ensures forall ch :: ch in kept <==> ch in row && ch != ' ' && ch != ',' && ch != '\n'
  {
    if row == [] then []
    else
      var last := row[|row| - 1];
      Kept(row[..|row| - 1]) + (if last != ' ' && last != ',' && last != '\n' then [last] else [])
  }

  /** The value readCSVrow stores for a kept character. */
  function DigitValue(ch: char): int {
    ch as int - '0' as int
  }

  /** The character make_answer writes for a single-digit value. */
  function DigitChar(v: int): (ch: char)
    requires 0 <= v <= 9
    ensures '0' <= ch <= '9' && DigitValue(ch) == v
  {
    ('0' as int + v) as char
  }

  /** One row of answer.csv: the values separated by ", ". */
  function FormatRow(values: seq<int>): (row: string)
    requires forall k :: 0 <= k < |values| ==> 0 <= values[k] <= 9
  {
    if values == [] then []
    else if |values| == 1 then [DigitChar(values[0])]
    else FormatRow(values[..|values| - 1]) + ", " + [DigitChar(values[|values| - 1])]
  }

  lemma {:induction false} KeptAppend(a: string, b: string)
    ensures Kept(a + b) == Kept(a) + Kept(b)
    decreases |b|
  {
    if b == [] {
      assert a + b == a;
    } else {
      assert (a + b)[..|a + b| - 1] == a + b[..|b| - 1];
      KeptAppend(a, b[..|b| - 1]);
    }
  }

  /** Reading back a row written in the answer format yields its digits, one per value. */
  lemma {:induction false} FormatRowRoundTrip(values: seq<int>)
    requires forall k :: 0 <= k < |values| ==> 0 <= values[k] <= 9
    ensures |Kept(FormatRow(values))| == |values|
    ensures forall k :: 0 <= k < |values| ==> DigitValue(Kept(FormatRow(values))[k]) == values[k]
  {
    if |values| == 1 {
      assert Kept([DigitChar(values[0])]) == Kept([]) + [DigitChar(values[0])];
    } else if |values| > 1 {
      var init := values[..|values| - 1];
      FormatRowRoundTrip(init);
      KeptSeparated(FormatRow(init), DigitChar(values[|values| - 1]));
      forall k | 0 <= k < |values| ensures DigitValue(Kept(FormatRow(values))[k]) == values[k] {
        if k < |values| - 1 {
          assert values[k] == init[k];
        }
      }
    }
  }

  /** The separator is dropped and a digit kept when a further value is appended. */
  lemma KeptSeparated(a: string, ch: char)
    requires '0' <= ch <= '9'
    ensures Kept(a + ", " + [ch]) == Kept(a) + [ch]
  {
    KeptAppend(a, ", ");
    KeptAppend(a + ", ", [ch]);
    assert Kept(", ") == [] by {
      assert ", "[..1] == ",";
      assert ","[..0] == [];
    }
    assert Kept([ch]) == Kept([]) + [ch];
  }

  /**
   * Converts one CSV row into a new array of 9 ints: each kept character, in order,
   * becomes its distance from '0'. More than 9 kept characters would write past the end
   * of the array, so callers pass rows with at most 9; trailing entries of shorter rows
   * are left as allocated.
   */
  method ReadCsvRow(row: string) returns (p: array<int>)
    requires |Kept(row)| <= 9
    ensures fresh(p) && p.Length == 9
    ensures forall k :: 0 <= k < |Kept(row)| ==> p[k] == DigitValue(Kept(row)[k])
  {
    p := new int[9];
    var counter := 0;
    for i := 0 to |row|
      invariant counter == |Kept(row[..i])| <= |Kept(row)|
      invariant forall k :: 0 <= k < counter ==> p[k] == DigitValue(Kept(row[..i])[k])
    {
      KeptSnoc(row, i);
      KeptPrefixBound(row, i + 1);
      if row[i] != ' ' && row[i] != ',' && row[i] != '\n' {
        p[counter] := DigitValue(row[i]);
        counter := counter + 1;
      }
    }
    assert row[..|row|] == row;
  }

  /** One more character of the row: the kept prefix grows by it exactly when it is kept. */
  lemma KeptSnoc(row: string, i: nat)
    requires i < |row|
    ensures Kept(row[..i + 1]) ==
      Kept(row[..i]) + (if row[i] != ' ' && row[i] != ',' && row[i] != '\n' then [row[i]] else [])
  {
    assert row[..i + 1][..i] == row[..i];
  }

  /** A prefix keeps no more characters than the whole row. */
  lemma KeptPrefixBound(row: string, n: nat)
    requires n <= |row|
    ensures |Kept(row[..n])| <= |Kept(row)|
  {
    KeptAppend(row[..n], row[n..]);
    assert row[..n] + row[n..] == row;
  }

  // ---------------------------------------------------------------------------------
  // Taken values, the first empty space and the available numbers
  // ---------------------------------------------------------------------------------

  /** The nonzero values of the 3x3 block with top-left corner (horistart, vertistart), row by row. */
  method GetTakenMinigrid(horistart: int, vertistart: int, puzzle: array2<int>) returns (taken: seq<int>)
    requires IsPuzzle(puzzle) && 0 <= horistart <= 6 && 0 <= vertistart <= 6
    ensures taken == BoxTaken(Snapshot(puzzle), horistart, vertistart)
  {
    ghost var g := Snapshot(puzzle);
    ghost var rows := BoxRows(g, horistart, vertistart);
    taken := [];
    var horiend := horistart + 3;
    for i := horistart to horiend
      invariant taken == NonZeroRows(rows[..i - horistart])
    {
      assert rows[i - horistart] == g[i][vertistart..vertistart + 3];
      taken := TakeFromRow(taken, puzzle, i, vertistart);
      assert rows[..i - horistart + 1][..i - horistart] == rows[..i - horistart];
    }
    assert rows[..3] == rows;
  }

  /** The inner loop of get_taken_minigrid: appends the nonzero entries of row i in columns
      vertistart .. vertistart + 2, left to right. */
  method TakeFromRow(taken: seq<int>, puzzle: array2<int>, i: int, vertistart: int) returns (result: seq<int>)
    requires IsPuzzle(puzzle) && 0 <= i < 9 && 0 <= vertistart <= 6
    ensures result == taken + NonZero(Snapshot(puzzle)[i][vertistart..vertistart + 3])
  {
    ghost var row := Snapshot(puzzle)[i][vertistart..vertistart + 3];
    result := taken;
    var vertiend := vertistart + 3;
    for j := vertistart to vertiend
      invariant result == taken + NonZero(row[..j - vertistart])
    {
      ghost var k := j - vertistart;
      NonZeroSnoc(row, k);
      assert row[k] == puzzle[i, j];
      if puzzle[i, j] != 0 {
        result := result + [puzzle[i, j]];
        assert result == taken + (NonZero(row[..k]) + [row[k]]);
      }
    }
    assert row[..3] == row;
  }

  /** The taken values of the block containing space, found by branching on its row and column. */
  method CheckMinigrid(space: seq<int>, puzzle: array2<int>) returns (taken: seq<int>)
    requires IsPuzzle(puzzle) && |space| == 2 && 0 <= space[0] < 9 && 0 <= space[1] < 9
    ensures taken == BoxTaken(Snapshot(puzzle), 3 * (space[0] / 3), 3 * (space[1] / 3))
  {
    var horistart := if space[0] <= 2 then 0 else if 3 <= space[0] <= 5 then 3 else 6;
    var vertistart := if space[1] <= 2 then 0 else if 3 <= space[1] <= 5 then 3 else 6;
    assert horistart == BoxStart(space[0]) && vertistart == BoxStart(space[1]);
    taken := GetTakenMinigrid(horistart, vertistart, puzzle);
  }

  /** x as a list of taken values: itself when nonzero, nothing when empty. */
  function Pick(x: int): seq<int> {
    if x != 0 then [x] else []
  }

  /** The first n row entries and column entries, alternating, with zeros dropped. */
  function Interleave(row: seq<int>, col: seq<int>, n: nat): seq<int>
    requires n <= |row| && n <= |col|
  {
    if n == 0 then [] else Interleave(row, col, n - 1) + Pick(row[n - 1]) + Pick(col[n - 1])
  }

  /** Interleaving keeps exactly the nonzero values of both prefixes, with their multiplicities. */
  lemma {:induction false} InterleaveMultiset(row: seq<int>, col: seq<int>, n: nat)
    requires n <= |row| && n <= |col|
    ensures multiset(Interleave(row, col, n)) == multiset(NonZero(row[..n])) + multiset(NonZero(col[..n]))
  {
    if n > 0 {
      InterleaveMultiset(row, col, n - 1);
      NonZeroSnoc(row, n - 1);
      NonZeroSnoc(col, n - 1);
      MultisetStep(Interleave(row, col, n - 1), NonZero(row[..n - 1]), NonZero(col[..n - 1]),
        Pick(row[n - 1]), Pick(col[n - 1]));
    }
  }

  /** A whole row and column: every nonzero value of either, as often as it occurs there. */
  lemma InterleaveAll(row: seq<int>, col: seq<int>)
    requires |row| == 9 && |col| == 9
    ensures multiset(Interleave(row, col, 9)) == multiset(NonZero(row)) + multiset(NonZero(col))
  {
    InterleaveMultiset(row, col, 9);
    assert row[..9] == row && col[..9] == col;
  }

  lemma MultisetStep(t: seq<int>, a: seq<int>, b: seq<int>, x: seq<int>, y: seq<int>)
    requires multiset(t) == multiset(a) + multiset(b)
    ensures multiset(t + x + y) == multiset(a + x) + multiset(b + y)
  {
  }

  /**
   * The nonzero values of the row and the column through space, read in one pass: for each
   * index, the row entry and then the column entry. Values of the row and of the column
   * appear as often as they occur there.
   */
  method CheckRowOrColumn(space: seq<int>, puzzle: array2<int>) returns (taken: seq<int>)
    requires IsPuzzle(puzzle) && |space| == 2 && 0 <= space[0] < 9 && 0 <= space[1] < 9
    ensures taken == Interleave(Snapshot(puzzle)[space[0]], Column(Snapshot(puzzle), space[1]), 9)
  {
    ghost var g := Snapshot(puzzle);
    ghost var row := g[space[0]];
    ghost var col := Column(g, space[1]);
    taken := [];
    for i := 0 to 9
      invariant taken == Interleave(row, col, i)
    {
      SnapshotRowColumn(puzzle, space[0], space[1], i);
      ghost var before := taken;
      if puzzle[space[0], i] != 0 {
        taken := taken + [puzzle[space[0], i]];
      }
      assert taken == before + Pick(row[i]);
      if puzzle[i, space[1]] != 0 {
        taken := taken + [puzzle[i, space[1]]];
      }
      assert taken == before + Pick(row[i]) + Pick(col[i]);
    }
  }

  lemma SnapshotRowColumn(puzzle: array2<int>, r: int, c: int, i: int)
    requires IsPuzzle(puzzle) && 0 <= r < 9 && 0 <= c < 9 && 0 <= i < 9
    ensures Snapshot(puzzle)[r][i] == puzzle[r, i] && Column(Snapshot(puzzle), c)[i] == puzzle[i, c]
  {
  }

  /** The vector form of a cell: [] for none, [row, column] otherwise. */
  function SpaceOf(cell: Option<Cell>): (space: seq<int>)
    ensures cell.None? <==> space == []
    ensures cell.Some? ==> space == [cell.value.0, cell.value.1]
  {
    match cell
    case None => []
    case Some((r, c)) => [r, c]
  }

  /** The first empty cell in row-major order, as [row, column]; [] when the grid is full. */
  method GetEmptySpace(puzzle: array2<int>) returns (space: seq<int>)
    requires IsPuzzle(puzzle)
    ensures space == SpaceOf(FirstEmpty(Snapshot(puzzle)))
  {
    ghost var g := Snapshot(puzzle);
    for i := 0 to 9
      invariant FilledBefore(g, i, 0)
    {
      for j := 0 to 9
        invariant FilledBefore(g, i, j)
      {
        if puzzle[i, j] == 0 {
          FirstEmptyUnique(g, (i, j));
          return [i, j];
        }
      }
    }
    assert Full(g);
    return [];
  }

  /**
   * The available numbers for the first empty space and the space itself. The taken values
   * of the box, row and column are collected into a set; then 1..9 are tried in order.
   */
  method Available(puzzle: array2<int>) returns (available: seq<int>, space: seq<int>)
    requires IsPuzzle(puzzle)
    ensures space == SpaceOf(FirstEmpty(Snapshot(puzzle)))
    ensures space != [] ==> |space| == 2 && 0 <= space[0] < 9 && 0 <= space[1] < 9
    ensures space == [] ==> available == []
    ensures space != [] ==> available == Candidates(Snapshot(puzzle), (space[0], space[1]))
  {
    ghost var g := Snapshot(puzzle);
    available := [];
    space := GetEmptySpace(puzzle);
    if space != [] {
      var takenGrid := CheckMinigrid(space, puzzle);
      var takenColumnRow := CheckRowOrColumn(space, puzzle);
      InterleaveAll(g[space[0]], Column(g, space[1]));
      var takenUnique := InsertAll({}, takenColumnRow);
      takenUnique := InsertAll(takenUnique, takenGrid);
      TakenUniqueIsTaken(g, space[0], space[1], takenGrid, takenColumnRow, takenUnique);
      for i := 1 to 10
        invariant available == Absent(UpTo(i - 1), takenUnique)
      {
        AbsentUpToStep(i, takenUnique);
        if i !in takenUnique {
          available := available + [i];
        }
      }
      UpToNumbers();
    }
  }

  /** Inserts the values of a vector, front to back, into a set. */
  method InsertAll(taken: set<int>, values: seq<int>) returns (result: set<int>)
    ensures result == taken + SetOf(values)
    ensures forall v :: v in result <==> v in taken || v in values
  {
    result := taken;
    for k := 0 to |values|
      invariant result == taken + SetOf(values[..k])
    {
      assert values[..k + 1][..k] == values[..k];
      result := result + {values[k]};
    }
    assert values[..|values|] == values;
    SetOfMembers(values);
  }

  /** The numbers 1..n in ascending order. */
  function UpTo(n: nat): seq<int> {
    if n == 0 then [] else UpTo(n - 1) + [n]
  }

  lemma AbsentUpToStep(i: nat, t: set<int>)
    requires i >= 1
    ensures Absent(UpTo(i), t) == Absent(UpTo(i - 1), t) + (if i in t then [] else [i])
  {
    AbsentAppend(UpTo(i - 1), [i], t);
    assert [i][1..] == [];
  }

  lemma UpToNumbers()
    ensures UpTo(9) == NUMBERS
  {
  }

  /** The values of a list, as the set that inserting them one by one builds. */
  function SetOf(s: seq<int>): set<int> {
    if s == [] then {} else SetOf(s[..|s| - 1]) + {s[|s| - 1]}
  }

  lemma {:induction false} SetOfMembers(s: seq<int>)
    ensures forall v :: v in SetOf(s) <==> v in s
  {
    if s != [] {
      SetOfMembers(s[..|s| - 1]);
      assert s == s[..|s| - 1] + [s[|s| - 1]];
    }
  }

  /** The set built from the box values and the row-and-column values is Taken. */
  lemma TakenUniqueIsTaken(g: Grid, r: int, c: int, box: seq<int>, rowColumn: seq<int>, unique: set<int>)
    requires WellFormed(g) && 0 <= r < 9 && 0 <= c < 9
    requires box == BoxTaken(g, 3 * (r / 3), 3 * (c / 3))
    requires multiset(rowColumn) == multiset(NonZero(g[r])) + multiset(NonZero(Column(g, c)))
    requires forall v :: v in unique <==> v in rowColumn || v in box
    ensures unique == Taken(g, r, c)
  {
    var rowPart, columnPart := NonZero(g[r]), NonZero(Column(g, c));
    var t := Taken(g, r, c);
    forall v ensures v in unique <==> v in t {
      assert v in rowColumn <==> v in multiset(rowColumn);
      assert v in rowPart <==> v in multiset(rowPart);
      assert v in columnPart <==> v in multiset(columnPart);
      assert v in t <==> v in box + rowPart + columnPart;
    }
  }

  // ---------------------------------------------------------------------------------
  // Building states and the search
  // ---------------------------------------------------------------------------------

  /**
   * A new block equal to puzzle except that the cell named by action holds state. An action
   * outside the grid matches no cell, and the block is a plain copy.
   */
  method PuzzleMaker(puzzle: array2<int>, state: int, action: seq<int>) returns (newpuzzle: array2<int>)
    requires Shaped(puzzle) && |action| == 2
    ensures fresh(newpuzzle) && Shaped(newpuzzle)
    ensures InGrid(Snapshot(puzzle), (action[0], action[1])) ==>
      Snapshot(newpuzzle) == ChangeState(Snapshot(puzzle), (action[0], action[1]), state)
    ensures !InGrid(Snapshot(puzzle), (action[0], action[1])) ==> Snapshot(newpuzzle) == Snapshot(puzzle)
  {
    newpuzzle := new int[9, 9];
    for i := 0 to 9
      invariant forall r, c :: 0 <= r < i && 0 <= c < 9 ==>
        newpuzzle[r, c] == if r == action[0] && c == action[1] then state else puzzle[r, c]
    {
      for j := 0 to 9
        invariant forall r, c :: 0 <= r < i && 0 <= c < 9 ==>
          newpuzzle[r, c] == if r == action[0] && c == action[1] then state else puzzle[r, c]
        invariant forall c :: 0 <= c < j ==>
          newpuzzle[i, c] == if i == action[0] && c == action[1] then state else puzzle[i, c]
      {
        if i == action[0] && j == action[1] {
          newpuzzle[i, j] := state;
        } else {
          newpuzzle[i, j] := puzzle[i, j];
        }
      }
    }
    SnapshotEqual(newpuzzle, puzzle, state, action);
  }

  lemma SnapshotEqual(a: array2<int>, puzzle: array2<int>, state: int, action: seq<int>)
    requires Shaped(a) && Shaped(puzzle) && |action| == 2
    requires forall r, c :: 0 <= r < 9 && 0 <= c < 9 ==>
      a[r, c] == if r == action[0] && c == action[1] then state else puzzle[r, c]
    ensures InGrid(Snapshot(puzzle), (action[0], action[1])) ==>
      Snapshot(a) == ChangeState(Snapshot(puzzle), (action[0], action[1]), state)
    ensures !InGrid(Snapshot(puzzle), (action[0], action[1])) ==> Snapshot(a) == Snapshot(puzzle)
  {
    var g, h := Snapshot(puzzle), Snapshot(a);
    if InGrid(g, (action[0], action[1])) {
      var e := ChangeState(g, (action[0], action[1]), state);
      forall i | 0 <= i < 9 ensures h[i] == e[i] {
        assert forall j :: 0 <= j < 9 ==> h[i][j] == e[i][j];
      }
    } else {
      forall i | 0 <= i < 9 ensures h[i] == g[i] {
        assert forall j :: 0 <= j < 9 ==> h[i][j] == g[i][j];
      }
    }
  }

  /** Every block of the vector holds the grid at the same position of the ghost stack. */
  predicate Holds(puzzles: seq<array2<int>>, grids: seq<Grid>)
    reads puzzles
  {
    |puzzles| == |grids| &&
    forall k :: 0 <= k < |puzzles| ==> Shaped(puzzles[k]) && Snapshot(puzzles[k]) == grids[k]
  }

  /** Popping keeps the correspondence for the rest; the popped block holds the last grid. */
  lemma HoldsPop(puzzles: seq<array2<int>>, grids: seq<Grid>)
    requires Holds(puzzles, grids) && |puzzles| > 0
    ensures Holds(puzzles[..|puzzles| - 1], grids[..|grids| - 1])
    ensures Shaped(puzzles[|puzzles| - 1]) && Snapshot(puzzles[|puzzles| - 1]) == grids[|grids| - 1]
  {
  }

  /**
   * Pushes one new block per available number, in order, each a copy of puzzle with the
   * number placed at space.
   */
  method PushStates(puzzles: seq<array2<int>>, ghost grids: seq<Grid>, puzzle: array2<int>,
                    avail: seq<int>, space: seq<int>)
    returns (pushed: seq<array2<int>>, ghost pushedGrids: seq<Grid>)
    requires Holds(puzzles, grids) && IsPuzzle(puzzle)
    requires |space| == 2 && 0 <= space[0] < 9 && 0 <= space[1] < 9
    ensures pushedGrids == grids + Children(Snapshot(puzzle), (space[0], space[1]), avail)
    ensures Holds(pushed, pushedGrids)
    ensures |pushed| == |puzzles| + |avail| && pushed[..|puzzles|] == puzzles
    ensures forall k :: |puzzles| <= k < |pushed| ==> fresh(pushed[k])
  {
    ghost var g := Snapshot(puzzle);
    ghost var cell := (space[0], space[1]);
    pushed, pushedGrids := puzzles, grids;
    for i := 0 to |avail|
      invariant pushedGrids == grids + Children(g, cell, avail[..i])
      invariant Holds(pushed, pushedGrids)
      invariant |pushed| == |puzzles| + i && pushed[..|puzzles|] == puzzles
      invariant forall k :: |puzzles| <= k < |pushed| ==> fresh(pushed[k])
    {
      assert avail[..i + 1] == avail[..i] + [avail[i]];
      var child := PuzzleMaker(puzzle, avail[i], space);
      pushed := pushed + [child];
      pushedGrids := pushedGrids + [ChangeState(g, cell, avail[i])];
    }
    assert avail[..|avail|] == avail;
  }

  /** The vector solve starts from: one new block per available number of the input's first
      empty space, in ascending order; empty when the input is full. */
  method InitialStates(puzzle: array2<int>) returns (puzzles: seq<array2<int>>, ghost grids: seq<Grid>)
    requires IsPuzzle(puzzle)
    ensures Holds(puzzles, grids) && AllWellFormed(grids)
    ensures WellFormed(Snapshot(puzzle)) && grids == Expansion(Snapshot(puzzle))
    ensures StackFirstGoal(grids) == FirstSolution(Snapshot(puzzle))
  {
    ghost var g := Snapshot(puzzle);
    var avail, space := Available(puzzle);
    ExpansionWellFormed(g);
    puzzles, grids := [], [];
    if space != [] {
      puzzles, grids := PushStates(puzzles, grids, puzzle, avail, space);
    }
    assert grids == Expansion(g);
  }

  /**
   * The loop of solve: pops the last block, returns it when it has no empty space, and
   * otherwise pushes one copy per available number of its first empty space. None stands
   * for printing "No solution" and exiting with status 3 once the vector is empty.
   */
  method Explore(puzzles: seq<array2<int>>, ghost grids: seq<Grid>) returns (result: Option<array2<int>>)
    requires Holds(puzzles, grids) && AllWellFormed(grids)
    ensures result.None? <==> StackFirstGoal(grids).None?
    ensures result.Some? ==> Shaped(result.value) && Snapshot(result.value) == StackFirstGoal(grids).value
  {
    var stack := puzzles;
    ghost var states := grids;
    while true
      invariant Holds(stack, states) && AllWellFormed(states)
      invariant StackFirstGoal(states) == StackFirstGoal(grids)
      decreases StackNodes(states)
    {
      if |stack| == 0 {
        return None;
      }
      HoldsPop(stack, states);
      PopStep(states);
      var nextpuzzle := stack[|stack| - 1];
      stack := stack[..|stack| - 1];
      ghost var state := states[|states| - 1];
      states := states[..|states| - 1];
      var avail, space := Available(nextpuzzle);
      RoundStep(states, state, FirstEmpty(state), avail);
      if |space| == 0 {
        return Some(nextpuzzle);
      }
      stack, states := PushStates(stack, states, nextpuzzle, avail, space);
    }
  }

  /**
   * Depth-first search from puzzle, returning the first full grid popped from the stack;
   * None stands for printing "No solution" and exiting with status 3, which is also what
   * happens when the input has no empty cell.
   */
  method Solve(puzzle: array2<int>) returns (result: Option<array2<int>>)
    requires IsPuzzle(puzzle)
    ensures result.None? <==> FirstSolution(Snapshot(puzzle)).None?
    ensures result.Some? ==> Shaped(result.value) && Snapshot(result.value) == FirstSolution(Snapshot(puzzle)).value
  {
    var puzzles, grids := InitialStates(puzzle);
    result := Explore(puzzles, grids);
  }
}
