# Sudoku solver and generator, modelled in Dafny

This project models the core of a 9×9 Sudoku solver and puzzle generator, together with its C++ port.

- **Candidate engine.** It finds the first empty cell in row-major order. It lists the values 1..9 that the cell's row, column and 3×3 box do not already hold, in ascending order.
- **Backtracking solver.** It runs a depth-first search over an explicit LIFO frontier of grid copies, in two modes:
  - first-solution mode returns the first full grid popped, or fails with "No solution";
  - count mode returns how many full grids were popped.
- **Stack frontier.** A list whose last element is removed first.
- **Generator.** It seeds row 0 of an empty grid with a shuffle of 1..9 and solves that grid. It then empties cells one at a time, keeping a removal only while count mode still reports at most one solution.
- **C++ port.** It has the same candidate engine and the first-solution search, built from heap blocks and a vector. It also has the CSV row reader and the answer row format.

The modules are:

- `Grid` (grid.dfy): the grid as `seq<seq<int>>`, with 0 for an empty cell. It holds the first empty cell, `change_state`, the taken values, the candidates, consistency and completions.
- `Search` (search.dfy): reference definitions of the search, with the lemmas that connect a LIFO frontier to them. `FirstGoal`, `Count` and `Nodes` give the first full grid reached below a grid, the number of full grids, and the number of grids popped.
- `Frontier` (frontier.dfy): the `StackFrontier` class.
- `Sudoku` (sudoku.dfy): the Python solver, as methods with loops that are proved against the `Grid`/`Search` functions.
- `Generate` (generate.dfy): the generator loop.
- `SudokuCpp` (sudoku_cpp.dfy): the C++ port, on `array2<int>` blocks. `Snapshot` reads a block back as a `Grid`.

`FirstGoal`, `StackFirstGoal` and the solver lemmas state the search order exactly, as described below. Both solvers are proved to return `FirstSolution(puzzle)`, the first goal of that order. Count mode is proved to return `SolutionCount(puzzle)`.

From that reference, the model proves these facts:

- a returned grid is full and keeps every given value;
- a returned grid is a valid Sudoku whenever the input is consistent, because each placed value was a candidate;
- first-solution mode fails exactly when the count is 0;
- for a consistent input, count mode reports at least one solution exactly when the input has an empty cell and a completion;
- for a consistent input, count mode reports more than one solution exactly when two different grids complete it;
- a puzzle the generator accepts therefore has exactly one completion. Emptying any cell it has rejected from the current puzzle leaves two different completions. This is a loop invariant, and the `Exhausted` outcome returns it.

Count mode is not proved to equal the number of completions when that number exceeds two. The generator only compares the count with 1.

Loop termination uses `StackNodes`, the number of grids the search still has to pop below the frontier. Each round lowers it by exactly one.

Two properties of the search order follow from the code:

- Count mode has no early exit. When the frontier is empty it returns the counter, and every full grid popped adds one to it (python-version/sudoku.py:75-78, 93-96). `SolutionCount` is that total.
- Children are pushed in ascending candidate order, and `remove` returns the newest entry (python-version/sudoku.py:69-71, 81, 88-91; helper.py:26-27). The largest candidate is therefore tried first, and `FirstGoalCands` tries the last value of its list first.

## Model

| member | source | states |
|---|---|---|
| Grid.FirstEmpty | python-version/sudoku.py:134-144 | the result is None exactly when no cell is 0; otherwise it is a zero cell with every earlier cell in row-major order nonzero |
| Grid.FirstEmptyUnique | python-version/sudoku.py:134-144 | a zero cell with all earlier cells filled is the one FirstEmpty returns |
| Grid.ChangeState | python-version/sudoku.py:101-106 | the grid keeps its shape, the cell `action` holds `number`, and every other cell is unchanged |
| Grid.ChangeStateWellFormed | python-version/sudoku.py:101-106 | placing a value 0..9 keeps a grid of 9 rows of 9 values in 0..9 |
| Grid.ChangeStateRestore | python-version/generate.py:48-53 | writing the old value back into a changed cell gives the original grid |
| Grid.NonZero | python-version/sudoku.py:49-57 | the nonzero entries of a list, in order: check_row_or_column's filter (its properties are the next two rows) |
| Grid.NonZeroMembers | python-version/sudoku.py:49-57 | the kept list holds exactly the nonzero values of the input and is no longer than it |
| Grid.NonZeroSnoc | python-version/sudoku.py:54-56 | one more entry extends the filtered list by that entry exactly when it is nonzero |
| Grid.Column | python-version/sudoku.py:118-121 | the column has 9 entries, entry i being row i's value at c |
| Grid.BoxStart | sudoku.cpp:85-119 | the block start chosen by the three-way branch is 3*(i/3) |
| Grid.BoxTakenRows | python-version/sudoku.py:8-17 | the box's taken list is the nonzero entries of its three row slices, top to bottom |
| Grid.BoxTakenMembers | python-version/sudoku.py:8-17 | every value of the box's taken list is a nonzero value of the 3×3 block, and every nonzero value of the block is in the list |
| Grid.SameBox | python-version/sudoku.py:20-46 | r and i share a box band exactly when i lies within 3*(r/3) .. 3*(r/3)+2 |
| Grid.Taken | python-version/sudoku.py:124 | the set of values in the box, row and column lists of the cell (`Grid.TakenSees` states what it holds) |
| Grid.TakenSees | python-version/sudoku.py:124 | a value is taken exactly when it is nonzero and held by a cell in the same row, column or box |
| Grid.AbsentMembers | python-version/sudoku.py:125-129 | the numbers left are exactly those of the list that are not taken |
| Grid.AbsentAppend | sudoku.cpp:206-210 | filtering out taken values distributes over concatenation |
| Grid.AbsentIncreasing | python-version/sudoku.py:125-131 | filtering an ascending list keeps it ascending |
| Grid.Candidates | python-version/sudoku.py:125-131 | NUMBERS with every taken value filtered out, in order (`Grid.CandidatesSpec`, `Grid.CandidatesAscending` and `Grid.CandidatesRange` state its properties) |
| Grid.CandidatesSpec | python-version/sudoku.py:109-131 | a value is a candidate exactly when it is in 1..9 and no cell in the same row, column or box holds it |
| Grid.CandidatesAscending | python-version/sudoku.py:125-131 | the candidates are strictly ascending, with at most 9 of them |
| Grid.CandidatesRange | python-version/sudoku.py:125-131 | every candidate lies in 1..9 |
| Grid.PlaceCandidateConsistent | python-version/sudoku.py:88-91 | placing a candidate into an empty cell of a consistent grid keeps it consistent |
| Grid.CompletionPicksCandidate | python-version/sudoku.py:88-91 | in a completion, the value of an empty cell is one of its candidates, and placing it leaves the completion a completion |
| Grid.ZerosUpdate | python-version/generate.py:47-49 | changing one cell changes the zero count by whether the cell was, and now is, 0 |
| Grid.ZerosFull | python-version/sudoku.py:93-94 | a grid with no empty cell has zero count 0 |
| Grid.CompletedConsistent | python-version/generate.py:47-52 | a grid that some solved Sudoku completes breaks no rule |
| Search.Expansion | python-version/sudoku.py:67-71 | the grids pushed after popping g: one child per candidate of the first empty cell in ascending order, none for a full grid (`Search.ExpansionWellFormed`, `Search.ExpansionOf`) |
| Search.Count | python-version/sudoku.py:84-96 | the number of full grids popped below g, one for a full g (`Search.CountComplete`, `Search.CountTwoWitnesses` relate it to completions) |
| Search.FirstGoal | python-version/sudoku.py:81-98 | the first full grid popped below g, trying the last candidate first (`Search.FirstGoalSound`) |
| Search.Nodes | python-version/sudoku.py:73-91 | the number of grids popped below g, g included: the loop's termination measure |
| Search.Children | python-version/sudoku.py:89-91 | child k is the popped grid with the k-th option placed at the cell |
| Search.ChildStep | python-version/sudoku.py:88-91 | a child is well formed, has exactly one empty cell fewer, and keeps every value of its parent |
| Search.ChildrenWellFormed | python-version/sudoku.py:88-91 | every child of a grid is well formed |
| Search.ExpansionWellFormed | python-version/sudoku.py:67-71 | the grids pushed for any well-formed grid are well formed |
| Search.StackCountAppend | python-version/sudoku.py:73-98 | the goal count of a frontier split in two is the sum of the parts |
| Search.StackNodesAppend | python-version/sudoku.py:73-98 | the grids still to pop in a frontier split in two add up |
| Search.StackFirstGoalAppend | python-version/sudoku.py:80-81 | the part pushed later is searched first; the earlier part only when it finds nothing |
| Search.CountCandsStack | python-version/sudoku.py:88-96 | counting over the candidates equals counting over the frontier of their children |
| Search.NodesCandsStack | python-version/sudoku.py:88-91 | the node count over the candidates equals that over the frontier of their children |
| Search.FirstGoalCandsStack | python-version/sudoku.py:81-98 | the first goal over the candidates, last first, is the first goal of the frontier of their children |
| Search.ExpansionOf | python-version/sudoku.py:84-91 | a grid with an empty cell has the count and first goal of its children, and one node more |
| Search.PushOne | helper.py:9-13 | pushing a grid adds its count and its nodes, and it is searched before the rest |
| Search.ExpandStep | python-version/sudoku.py:81-91 | replacing a popped open grid by its children keeps the frontier's count and first goal and removes one node |
| Search.PopStep | helper.py:21-28 | a nonempty frontier is its prefix followed by its last grid, both well formed |
| Search.RoundStep | python-version/sudoku.py:80-98 | one round of the loop keeps the count still to find (one is counted on a full grid), keeps the first goal or returns the popped full grid, and lowers the node count |
| Search.GoalStep | python-version/sudoku.py:93-98 | popping a full grid pushes nothing, counts once, and is the first goal |
| Search.FullExtendsEqual | python-version/sudoku.py:93-98 | a full grid has no other grid that keeps all its values |
| Search.FirstGoalSound | python-version/sudoku.py:88-98 | the first goal below a grid is full, keeps its values, and is consistent when the grid is |
| Search.FirstGoalCandsSound | python-version/sudoku.py:88-98 | the same soundness for the goal found through any list of candidates |
| Search.CountCandsAtLeast | python-version/sudoku.py:88-96 | the count over a list of candidates is at least the count below any one of them |
| Search.CountCandsPair | python-version/sudoku.py:88-96 | the count over the candidates is at least the sum of the counts below two distinct ones |
| Search.CountComplete | python-version/sudoku.py:94-96 | a grid with a completion counts at least one goal |
| Search.CountTwoCompletions | python-version/sudoku.py:94-96 | a grid with two distinct completions counts at least two goals |
| Search.FirstGoalIffCount | python-version/sudoku.py:73-98 | the search finds a goal exactly when the count is positive |
| Search.ChildCompletion | python-version/sudoku.py:88-98 | the full grid reached below a consistent grid with a candidate v placed completes the grid and holds v at that cell |
| Search.CountCandsPositive | python-version/sudoku.py:88-96 | a positive count over a candidate list is a positive count below one of its candidates |
| Search.CountCandsWitness | python-version/sudoku.py:88-96 | a positive count over candidates of a consistent grid gives a completion whose value at the cell is one of them |
| Search.CountTwoWitnesses | python-version/sudoku.py:84-96 | a count of at least 2 below a consistent grid gives two different completions |
| Search.CountCandsTwoWitnesses | python-version/sudoku.py:88-96 | a count of at least 2 over ascending candidates gives two different completions, from one child or from two children that differ at the cell |
| Search.FirstGoalCandsIffCount | python-version/sudoku.py:88-98 | likewise for a list of candidates |
| Search.FirstSolution | python-version/sudoku.py:60-98 | first-solution mode's answer: the first goal of the seeded frontier, None for "No solution" (`Search.FirstSolutionSound`, `Search.FirstSolutionIffCount`) |
| Search.SolutionCount | python-version/sudoku.py:60-98 | count mode's answer: the number of full grids popped from the seeded frontier (`Search.SolutionCountOneIff`, `Search.SolutionCountTwoIff`) |
| Search.SolveFullGrid | python-version/sudoku.py:67-78 | a grid with no empty cell seeds nothing: count 0 and no first solution |
| Search.SolveOpenGrid | python-version/sudoku.py:67-71 | for a grid with an empty cell, the seeded frontier has that grid's first goal and count |
| Search.FirstSolutionSound | python-version/sudoku.py:60-98 | a first solution is full, agrees with every nonzero input cell, and is a valid Sudoku when the input is consistent |
| Search.FirstSolutionIffCount | python-version/sudoku.py:75-78 | first-solution mode raises "No solution" exactly when count mode returns 0 |
| Search.SolutionCountComplete | python-version/sudoku.py:60-98 | a puzzle with an empty cell and a completion has count at least 1 and a first solution |
| Search.SolutionCountTwo | python-version/sudoku.py:60-98 | two distinct completions make the count at least 2 |
| Search.UniqueCompletion | python-version/generate.py:52-56 | when the count is at most 1, any two completions are equal |
| Search.SolutionCountOneIff | python-version/sudoku.py:60-98 | for a consistent input, the count is at least 1 exactly when the input has an empty cell and a completion |
| Search.SolutionCountTwoIff | python-version/sudoku.py:60-98 | for a consistent input, the count is at least 2 exactly when two different grids complete it |
| Search.AmbiguousFewerGivens | python-version/generate.py:47-56 | a grid with a subset of another's givens keeps both of its two different completions |
| Frontier.StackFrontier.constructor | helper.py:6-7 | a new frontier is empty |
| Frontier.StackFrontier.Add | helper.py:9-13 | the node is appended at the end and earlier contents are unchanged |
| Frontier.StackFrontier.Empty | helper.py:15-19 | true exactly when the frontier has length 0 |
| Frontier.StackFrontier.Remove | helper.py:21-28 | returns the last element and keeps the others in order; the caller ensures the frontier is nonempty |
| Frontier.AddThenRemove | helper.py:9-28 | an add followed by a remove returns the added node and restores the contents |
| Sudoku.GetMiniGrid | python-version/sudoku.py:20-46 | the three 3-wide row slices of the box holding space, rows and columns 3*(i/3) .. 3*(i/3)+2 |
| Sudoku.CheckRowOrColumn | python-version/sudoku.py:49-57 | exactly the nonzero entries, in their original order |
| Sudoku.CheckMiniGrid | python-version/sudoku.py:8-17 | the nonzero values of the space's box, row by row |
| Sudoku.GetEmptySpace | python-version/sudoku.py:134-144 | the first zero cell in row-major order, None exactly when there is none |
| Sudoku.FirstIndex | python-version/sudoku.py:129 | the position list.remove cuts: an occurrence of x with no x before it |
| Sudoku.RemoveFirst | python-version/sudoku.py:129 | list.remove on a list holding x (`Sudoku.RemoveFirstCuts` states the result) |
| Sudoku.RemoveFirstCuts | python-version/sudoku.py:129 | the result of list.remove is the list with its first occurrence of x cut out, everything else in order |
| Sudoku.AbsentRemove | python-version/sudoku.py:128-129 | a taken value is still in the list when removed, and removing it equals filtering it out |
| Sudoku.RemoveTaken | python-version/sudoku.py:125-129 | removing every taken value from a copy of the numbers leaves exactly the untaken ones, whatever order the set is walked in |
| Sudoku.Available | python-version/sudoku.py:109-131 | ([], None) exactly when the grid is full; otherwise the first empty cell and its ascending candidates |
| Sudoku.PushChildren | python-version/sudoku.py:69-71 | the frontier gains one child per option, in option order, each the grid with that option placed |
| Sudoku.Solve | python-version/sudoku.py:60-98 | first-solution mode returns FirstSolution or "No solution" when there is none; count mode returns SolutionCount; a returned grid is sound |
| Sudoku.Explore | python-version/sudoku.py:73-98 | the loop returns the frontier's first goal, or "No solution", in first-solution mode, and its goal count in count mode |
| Generate.DifficultyTargets | python-version/generate.py:17-22 | the levels are 0..3, level d removes 47 + 3d values, and none empties all 81 cells |
| Generate.Seed | python-version/generate.py:29-31 | row 0 is the shuffle and every other cell is 0 |
| Generate.SeedConsistent | python-version/generate.py:29-31 | the seeded grid breaks no Sudoku rule |
| Generate.SeedSolvable | python-version/generate.py:34 | the seeded grid has a completion, so solving it never raises "No solution" |
| Generate.Eligible | python-version/generate.py:40-45 | the cells the resampling loop may settle on: nonzero and not in the exclusion list |
| Generate.SolvedSeed | python-version/generate.py:29-35 | the solution keeps the seed row, is a valid full grid, and is its own only completion |
| Generate.SolvedGrid | python-version/generate.py:35 | a sound solution of a consistent grid is full and its own only completion |
| Generate.KeepsSeedRow | python-version/generate.py:29-34 | a result keeping the seed's values has the shuffle as row 0 |
| Generate.ClearStep | python-version/generate.py:47-49 | emptying a filled cell adds one zero, keeps the solution a completion, and writing the value back restores the puzzle |
| Generate.ClearKeepsExcluded | python-version/generate.py:43-54 | emptying a cell that is not excluded leaves every excluded cell filled |
| Generate.ClearKeepsRejected | python-version/generate.py:43-56 | emptying a cell that is not excluded keeps every rejected removal ambiguous: the puzzle it leaves has two different completions |
| Generate.RejectStep | python-version/generate.py:51-54 | a removal the solver counts more than one solution for leaves a puzzle that two different grids complete |
| Generate.AcceptStep | python-version/generate.py:52-56 | an accepted removal leaves count exactly 1 and the solution the only completion |
| Generate.RemoveValues | python-version/generate.py:37-56 | the result keeps the solution as the puzzle's only completion, and count mode gives 1 once at least one cell is empty. It either reaches the target number of empty cells, or stops short with every filled cell excluded, where emptying any excluded cell leaves two different completions |
| Generate.GeneratePuzzle | python-version/generate.py:17-58 | an unknown difficulty is rejected. Otherwise the result reaches the table's removal count, and the solution keeps the seed row and is the puzzle's only completion, with count 1. If every remaining cell is excluded first, the result says so, and emptying any excluded cell leaves two different completions. |
| SudokuCpp.Kept | sudoku.cpp:31-33 | the characters readCSVrow keeps are exactly those other than ' ', ',' and '\n' |
| SudokuCpp.DigitValue | sudoku.cpp:33 | the value readCSVrow stores for a character: its distance from '0' (`SudokuCpp.DigitChar` states the round trip) |
| SudokuCpp.DigitChar | sudoku.cpp:316 | a single digit is written as the character whose distance from '0' is the value |
| SudokuCpp.KeptAppend | sudoku.cpp:31-36 | the kept characters of a concatenation concatenate |
| SudokuCpp.KeptSnoc | sudoku.cpp:31-36 | one more character extends the kept list by it exactly when it is kept |
| SudokuCpp.KeptPrefixBound | sudoku.cpp:31-36 | a prefix keeps no more characters than the whole row |
| SudokuCpp.KeptSeparated | sudoku.cpp:316-319 | the ", " separator is skipped and the next digit kept |
| SudokuCpp.FormatRow | sudoku.cpp:313-320 | the row make_answer writes: the digits separated by ", " (`SudokuCpp.FormatRowRoundTrip` reads it back) |
| SudokuCpp.FormatRowRoundTrip | sudoku.cpp:313-320 | reading back a row written as in answer.csv gives one value per entry, equal to the entry |
| SudokuCpp.ReadCsvRow | sudoku.cpp:21-39 | returns a new array of 9 where entry k is the k-th kept character minus '0' |
| SudokuCpp.GetTakenMinigrid | sudoku.cpp:126-142 | the nonzero values of the 3×3 block at (horistart, vertistart), row by row |
| SudokuCpp.TakeFromRow | sudoku.cpp:134-139 | appends the nonzero entries of one row of the block, left to right |
| SudokuCpp.CheckMinigrid | sudoku.cpp:80-123 | the block start is (3*(r/3), 3*(c/3)), and the result is that block's nonzero values |
| SudokuCpp.CheckRowOrColumn | sudoku.cpp:145-160 | the row and column entries of each index in turn, row entry first, with zeros dropped |
| SudokuCpp.InterleaveMultiset | sudoku.cpp:149-158 | the interleaved prefix holds each nonzero value of the row and column prefixes as often as they do |
| SudokuCpp.InterleaveAll | sudoku.cpp:145-160 | the whole vector holds every nonzero row and column value as often as they do |
| SudokuCpp.GetEmptySpace | sudoku.cpp:163-178 | [i, j] for the first zero cell in row-major order, or [] exactly when the grid is full |
| SudokuCpp.InsertAll | sudoku.cpp:193-203 | the set afterwards holds exactly its old members and the values of the vector |
| SudokuCpp.SetOfMembers | sudoku.cpp:193-203 | the set built from a list holds exactly its values |
| SudokuCpp.AbsentUpToStep | sudoku.cpp:206-210 | trying one more number appends it exactly when it is not taken |
| SudokuCpp.TakenUniqueIsTaken | sudoku.cpp:189-203 | the set built from the box values and the row-and-column values is the taken set of the cell |
| SudokuCpp.Available | sudoku.cpp:181-219 | the space is the first empty cell or [] when full; the numbers are its ascending candidates, and empty when full |
| SudokuCpp.PuzzleMaker | sudoku.cpp:222-252 | a new block equal to the input except the cell `action`, which holds `state`; the input is not changed |
| SudokuCpp.SnapshotEqual | sudoku.cpp:238-247 | a block filled cell by cell this way reads back as ChangeState of the input |
| SudokuCpp.HoldsPop | sudoku.cpp:279-280 | after popping, the remaining blocks still hold the remaining grids, and the popped block holds the last grid |
| SudokuCpp.PushStates | sudoku.cpp:296-298 | the old blocks stay in place. One freshly allocated block per available number follows them, in order, each holding the child grid with that number placed |
| SudokuCpp.InitialStates | sudoku.cpp:257-263 | the seeded vector's blocks hold exactly the input's expansion: one child per available number, in order, none when the input is full. Its first goal is FirstSolution of the input |
| SudokuCpp.Explore | sudoku.cpp:271-305 | the loop returns a block holding the stack's first goal, or None ("No solution", exit 3) exactly when there is none |
| SudokuCpp.Solve | sudoku.cpp:255-306 | returns a block holding FirstSolution of the input, or None ("No solution", exit 3) exactly when there is none |

## Left out

- python-version/GUI.py and puzzle_scraper.py: rendering, the event loop, and HTTP/HTML scraping are outside the model.
- get_puzzle, make_answer and main in sudoku.cpp: file I/O is not modelled. The row format that make_answer writes is modelled by `SudokuCpp.FormatRow`, and `SudokuCpp.FormatRowRoundTrip` proves that readCSVrow reads it back.
- Memory management: new/delete, the allocation-failure checks and exit(2) are not modelled. Dafny arrays are garbage-collected, and `SudokuCpp.Solve` does not free the input block.
- exit(3) after "No solution" is modelled as the result None. The Python exception is modelled as `NoSolution`, and a KeyError on an unknown difficulty as `UnknownDifficulty`.
- random.shuffle and random.randint: the shuffle is the input `start`, and the cell picked by resampling is a nondeterministic choice among the eligible cells. The generator is proved for every such choice.
- Generate.GeneratePuzzle: the source's resampling loop never ends once every nonzero cell is excluded. The model returns `Exhausted` at that point instead.
- The global EMPTY is overwritten in place by generate_puzzle; the model builds the seeded grid as a fresh value.
- Grid.ChangeState: the source mutates a row of a deep copy in place. Grids are values here, so the copy and the update are one function; no aliasing is observable in the source either.
- SudokuCpp.ReadCsvRow: it requires at most 9 kept characters, since the C++ writes past the end of the array otherwise. Entries past the last kept character stay as the allocator left them, and the model says nothing about them.
- SudokuCpp.ReadCsvRow: the row is a Dafny `string`, a sequence of Unicode characters, and `SudokuCpp.Kept` filters characters. The C++ walks the bytes of a `std::string` and subtracts '0' from each signed `char`. The two agree on ASCII rows. On a multi-byte character such as "é", the C++ stores one negative value per byte, while the model stores one value for the character. The bound of 9 kept entries then counts characters rather than bytes.
- Values outside 0..9: `Grid.WellFormed` and `SudokuCpp.IsPuzzle` ask every cell to hold 0..9, so no contract covers other values. With such a value in the cell's row, column or box, Python's `available` raises ValueError at `available.remove(num)` (python-version/sudoku.py:128-129). The C++ `available` and `solve` accept any int and list only 1..9, and `main` passes whatever readCSVrow produced to `solve` (sudoku.cpp:329-331). That includes -2 for a '.'. Both behaviours are outside the model.
- Search.SolutionCount: count mode is tied to completions at the thresholds the generator uses, at least 1 and at least 2 (`Search.SolutionCountOneIff`, `Search.SolutionCountTwoIff`). It is not proved equal to the number of completions when there are more than two.
- SudokuCpp.CheckRowOrColumn: the vector is stated exactly, but `SudokuCpp.Available` uses only its values and their multiplicities.
- The C++ `int **` puzzle is modelled as one `array2<int>` block. Aliasing between rows of different puzzles cannot occur, because puzzle_maker copies every row.
- The cost of exhaustive count mode is not modelled; only its result is.
