/**
 * Reference definitions of the depth-first search that both solvers run.
 *
 * For one grid: FirstGoal is the first full grid the search reaches, Count the
 * number of full grids it reaches, Nodes the number of grids it pops. The
 * search fills the first empty cell with each candidate; children are pushed
 * in ascending order and popped from the end, so the largest candidate is
 * tried first. The Stack* functions lift these to a LIFO frontier whose last
 * element is popped first.
 */
module Search {
  import opened Wrappers
  import opened Grid

  predicate AllWellFormed(s: seq<Grid>) {
    forall k :: 0 <= k < |s| ==> WellFormed(s[k])
  }

  /** The grids obtained by placing each value of vs, in turn, in cell. */
  function Children(g: Grid, cell: Cell, vs: seq<int>): (kids: seq<Grid>)
    requires InGrid(g, cell)
    ensures |kids| == |vs| && forall k :: 0 <= k < |vs| ==> kids[k] == ChangeState(g, cell, vs[k])
  {
    seq(|vs|, k requires 0 <= k < |vs| => ChangeState(g, cell, vs[k]))
  }

  /** g with an empty cell, and vs values that may be placed there. */
  predicate Expandable(g: Grid, cell: Cell, vs: seq<int>) {
    && WellFormed(g) && 0 <= cell.0 < 9 && 0 <= cell.1 < 9 && g[cell.0][cell.1] == 0
    && forall k :: 0 <= k < |vs| ==> 1 <= vs[k] <= 9
  }

  lemma CandidatesExpandable(g: Grid, cell: Cell)
    requires WellFormed(g) && IsFirstEmpty(g, cell)
    ensures Expandable(g, cell, Candidates(g, cell))
  {
    CandidatesRange(g, cell);
  }

  /** The grids the solver pushes after popping g: none when g is full. */
  function Expansion(g: Grid): seq<Grid>
    requires WellFormed(g)
  {
    match FirstEmpty(g)
    case None => []
    case Some(cell) => Children(g, cell, Candidates(g, cell))
  }

  lemma ChildStep(g: Grid, cell: Cell, v: int)
    requires WellFormed(g) && 0 <= cell.0 < 9 && 0 <= cell.1 < 9 && g[cell.0][cell.1] == 0 && 1 <= v <= 9
    ensures WellFormed(ChangeState(g, cell, v)) && Zeros(ChangeState(g, cell, v)) == Zeros(g) - 1
    ensures Extends(g, ChangeState(g, cell, v))
  {
    ZerosUpdate(g, cell, v);
    ChangeStateWellFormed(g, cell, v);
  }

  lemma ChildrenWellFormed(g: Grid, cell: Cell, vs: seq<int>)
    requires Expandable(g, cell, vs)
    ensures AllWellFormed(Children(g, cell, vs))
  {
    forall k | 0 <= k < |vs| ensures WellFormed(Children(g, cell, vs)[k]) {
      ChildStep(g, cell, vs[k]);
    }
  }

  lemma ExpansionWellFormed(g: Grid)
    requires WellFormed(g)
    ensures AllWellFormed(Expansion(g))
  {
    if FirstEmpty(g).Some? {
      CandidatesExpandable(g, FirstEmpty(g).value);
      ChildrenWellFormed(g, FirstEmpty(g).value, Candidates(g, FirstEmpty(g).value));
    }
  }

  // ---------------------------------------------------------------------------
  // One grid

  /** The number of full grids the search pops below g (g itself when g is full). */
  function Count(g: Grid): nat
    requires WellFormed(g)
    decreases Zeros(g), 1, 0
  {
    match FirstEmpty(g)
    case None => 1
    case Some(cell) =>
      CandidatesExpandable(g, cell);
      CountCands(g, cell, Candidates(g, cell))
  }

  function CountCands(g: Grid, cell: Cell, vs: seq<int>): nat
    requires Expandable(g, cell, vs)
    decreases Zeros(g), 0, |vs|
  {
    if vs == [] then 0
    else
      ChildStep(g, cell, vs[|vs| - 1]);
      CountCands(g, cell, vs[..|vs| - 1]) + Count(ChangeState(g, cell, vs[|vs| - 1]))
  }

  /** The first full grid the search pops below g, or None when it pops none. */
  function FirstGoal(g: Grid): Option<Grid>
    requires WellFormed(g)
    decreases Zeros(g), 1, 0
  {
    match FirstEmpty(g)
    case None => Some(g)
    case Some(cell) =>
      CandidatesExpandable(g, cell);
      FirstGoalCands(g, cell, Candidates(g, cell))
  }

  /** The last value of vs is tried first. */
  function FirstGoalCands(g: Grid, cell: Cell, vs: seq<int>): Option<Grid>
    requires Expandable(g, cell, vs)
    decreases Zeros(g), 0, |vs|
  {
    if vs == [] then None
    else
      ChildStep(g, cell, vs[|vs| - 1]);
      var found := FirstGoal(ChangeState(g, cell, vs[|vs| - 1]));
      if found.Some? then found else FirstGoalCands(g, cell, vs[..|vs| - 1])
  }

  /** The number of grids the search pops below g, g included. */
  function Nodes(g: Grid): nat
    requires WellFormed(g)
    decreases Zeros(g), 1, 0
  {
    match FirstEmpty(g)
    case None => 1
    case Some(cell) =>
      CandidatesExpandable(g, cell);
      1 + NodesCands(g, cell, Candidates(g, cell))
  }

  function NodesCands(g: Grid, cell: Cell, vs: seq<int>): nat
    requires Expandable(g, cell, vs)
    decreases Zeros(g), 0, |vs|
  {
    if vs == [] then 0
    else
      ChildStep(g, cell, vs[|vs| - 1]);
      NodesCands(g, cell, vs[..|vs| - 1]) + Nodes(ChangeState(g, cell, vs[|vs| - 1]))
  }

  // ---------------------------------------------------------------------------
  // A LIFO frontier: the last element is popped first

  function StackCount(s: seq<Grid>): nat
    requires AllWellFormed(s)
  {
    if s == [] then 0 else StackCount(s[..|s| - 1]) + Count(s[|s| - 1])
  }

  function StackFirstGoal(s: seq<Grid>): Option<Grid>
    requires AllWellFormed(s)
  {
    if s == [] then None
    else
      var found := FirstGoal(s[|s| - 1]);
      if found.Some? then found else StackFirstGoal(s[..|s| - 1])
  }

  function StackNodes(s: seq<Grid>): nat
    requires AllWellFormed(s)
  {
    if s == [] then 0 else StackNodes(s[..|s| - 1]) + Nodes(s[|s| - 1])
  }

  /** Counting over a concatenated frontier adds up. */
  lemma {:induction false} StackCountAppend(a: seq<Grid>, b: seq<Grid>)
    requires AllWellFormed(a) && AllWellFormed(b)
    ensures AllWellFormed(a + b) && StackCount(a + b) == StackCount(a) + StackCount(b)
    decreases |b|
  {
    if b == [] {
      assert a + b == a;
    } else {
      assert (a + b)[..|a + b| - 1] == a + b[..|b| - 1];
      StackCountAppend(a, b[..|b| - 1]);
    }
  }

  lemma {:induction false} StackNodesAppend(a: seq<Grid>, b: seq<Grid>)
    requires AllWellFormed(a) && AllWellFormed(b)
    ensures AllWellFormed(a + b) && StackNodes(a + b) == StackNodes(a) + StackNodes(b)
    decreases |b|
  {
    if b == [] {
      assert a + b == a;
    } else {
      assert (a + b)[..|a + b| - 1] == a + b[..|b| - 1];
      StackNodesAppend(a, b[..|b| - 1]);
    }
  }

  /** Entries pushed later (b) are searched before entries pushed earlier (a). */
  lemma {:induction false} StackFirstGoalAppend(a: seq<Grid>, b: seq<Grid>)
    requires AllWellFormed(a) && AllWellFormed(b)
    ensures AllWellFormed(a + b)
    ensures StackFirstGoal(a + b) == if StackFirstGoal(b).Some? then StackFirstGoal(b) else StackFirstGoal(a)
    decreases |b|
  {
    if b == [] {
      assert a + b == a;
    } else {
      assert (a + b)[..|a + b| - 1] == a + b[..|b| - 1];
      StackFirstGoalAppend(a, b[..|b| - 1]);
    }
  }

  lemma ChildrenPrefix(g: Grid, cell: Cell, vs: seq<int>)
    requires InGrid(g, cell) && vs != []
    ensures Children(g, cell, vs[..|vs| - 1]) == Children(g, cell, vs)[..|vs| - 1]
  {
  }

  lemma {:induction false} CountCandsStack(g: Grid, cell: Cell, vs: seq<int>)
    requires Expandable(g, cell, vs)
    ensures AllWellFormed(Children(g, cell, vs))
    ensures CountCands(g, cell, vs) == StackCount(Children(g, cell, vs))
    decreases |vs|
  {
    ChildrenWellFormed(g, cell, vs);
    if vs != [] {
      ChildrenPrefix(g, cell, vs);
      CountCandsStack(g, cell, vs[..|vs| - 1]);
      var kids := Children(g, cell, vs);
      assert kids[|vs| - 1] == ChangeState(g, cell, vs[|vs| - 1]);
      assert StackCount(kids) == StackCount(kids[..|vs| - 1]) + Count(kids[|vs| - 1]);
    }
  }

  lemma {:induction false} NodesCandsStack(g: Grid, cell: Cell, vs: seq<int>)
    requires Expandable(g, cell, vs)
    ensures AllWellFormed(Children(g, cell, vs))
    ensures NodesCands(g, cell, vs) == StackNodes(Children(g, cell, vs))
    decreases |vs|
  {
    ChildrenWellFormed(g, cell, vs);
    if vs != [] {
      ChildrenPrefix(g, cell, vs);
      NodesCandsStack(g, cell, vs[..|vs| - 1]);
      var kids := Children(g, cell, vs);
      assert kids[|vs| - 1] == ChangeState(g, cell, vs[|vs| - 1]);
      assert StackNodes(kids) == StackNodes(kids[..|vs| - 1]) + Nodes(kids[|vs| - 1]);
    }
  }

  lemma {:induction false} FirstGoalCandsStack(g: Grid, cell: Cell, vs: seq<int>)
    requires Expandable(g, cell, vs)
    ensures AllWellFormed(Children(g, cell, vs))
    ensures FirstGoalCands(g, cell, vs) == StackFirstGoal(Children(g, cell, vs))
    decreases |vs|
  {
    ChildrenWellFormed(g, cell, vs);
    if vs != [] {
      ChildrenPrefix(g, cell, vs);
      FirstGoalCandsStack(g, cell, vs[..|vs| - 1]);
      var kids := Children(g, cell, vs);
      assert kids[|vs| - 1] == ChangeState(g, cell, vs[|vs| - 1]);
    }
  }

  /** A non-full grid's own count, first goal and node count are those of its expansion. */
  lemma ExpansionOf(g: Grid)
    requires WellFormed(g) && !Full(g)
    ensures AllWellFormed(Expansion(g))
    ensures Count(g) == StackCount(Expansion(g))
    ensures FirstGoal(g) == StackFirstGoal(Expansion(g))
    ensures Nodes(g) == 1 + StackNodes(Expansion(g))
  {
    var cell := FirstEmpty(g).value;
    CandidatesExpandable(g, cell);
    CountCandsStack(g, cell, Candidates(g, cell));
    NodesCandsStack(g, cell, Candidates(g, cell));
    FirstGoalCandsStack(g, cell, Candidates(g, cell));
  }

  lemma PushOne(rest: seq<Grid>, g: Grid)
    requires AllWellFormed(rest) && WellFormed(g)
    ensures AllWellFormed(rest + [g])
    ensures StackCount(rest + [g]) == StackCount(rest) + Count(g)
    ensures StackNodes(rest + [g]) == StackNodes(rest) + Nodes(g)
    ensures StackFirstGoal(rest + [g]) == if FirstGoal(g).Some? then FirstGoal(g) else StackFirstGoal(rest)
  {
    assert (rest + [g])[..|rest + [g]| - 1] == rest;
  }

  /** Popping g from the frontier rest + [g] and pushing its expansion keeps the frontier's
      first goal and its goal count, and removes exactly one grid still to be popped. */
  lemma ExpandStep(rest: seq<Grid>, g: Grid)
    requires AllWellFormed(rest) && WellFormed(g) && !Full(g)
    ensures AllWellFormed(rest + [g]) && AllWellFormed(rest + Expansion(g))
    ensures StackCount(rest + Expansion(g)) == StackCount(rest + [g])
    ensures StackFirstGoal(rest + Expansion(g)) == StackFirstGoal(rest + [g])
    ensures StackNodes(rest + Expansion(g)) + 1 == StackNodes(rest + [g])
  {
    ExpansionOf(g);
    PushOne(rest, g);
    var kids := Expansion(g);
    StackCountAppend(rest, kids);
    StackNodesAppend(rest, kids);
    StackFirstGoalAppend(rest, kids);
  }

  /** Splitting a nonempty stack into the grid on top and the rest. */
  lemma PopStep(s: seq<Grid>)
    requires AllWellFormed(s) && |s| > 0
    ensures s == s[..|s| - 1] + [s[|s| - 1]]
    ensures AllWellFormed(s[..|s| - 1]) && WellFormed(s[|s| - 1])
  {
  }

  /**
   * One round of the solver on a popped grid g, given the first empty cell of g and its
   * candidates: the stack that results keeps the count and first result still to be found,
   * and has one node fewer.
   */
  lemma RoundStep(rest: seq<Grid>, g: Grid, space: Option<Cell>, options: seq<int>)
    requires AllWellFormed(rest) && WellFormed(g)
    requires space == FirstEmpty(g)
    requires space.Some? ==> options == Candidates(g, space.value)
    ensures space.Some? ==> InGrid(g, space.value)
    ensures var next := if space.Some? then rest + Children(g, space.value, options) else rest;
      && AllWellFormed(next)
      && (space.Some? && |options| == 0 ==> next == rest)
      && StackCount(rest + [g]) == StackCount(next) + (if space.None? then 1 else 0)
      && StackNodes(next) < StackNodes(rest + [g])
      && (space.None? ==> StackFirstGoal(rest + [g]) == Some(g))
      && (space.Some? ==> StackFirstGoal(next) == StackFirstGoal(rest + [g]))
  {
    if space.Some? {
      ExpandStep(rest, g);
      assert Expansion(g) == Children(g, space.value, options);
      if |options| == 0 {
        assert rest + Children(g, space.value, options) == rest;
      }
    } else {
      GoalStep(rest, g);
    }
  }

  /** Popping a full grid g: it is the frontier's first goal and counts once. */
  lemma GoalStep(rest: seq<Grid>, g: Grid)
    requires AllWellFormed(rest) && WellFormed(g) && Full(g)
    ensures AllWellFormed(rest + [g])
    ensures StackCount(rest + [g]) == StackCount(rest) + 1
    ensures StackFirstGoal(rest + [g]) == Some(g)
    ensures StackNodes(rest + [g]) == StackNodes(rest) + 1
    ensures Expansion(g) == []
  {
    PushOne(rest, g);
  }

  // ---------------------------------------------------------------------------
  // What the search finds

  lemma ExtendsTrans(a: Grid, b: Grid, c: Grid)
    requires WellFormed(a) && WellFormed(b) && WellFormed(c) && Extends(a, b) && Extends(b, c)
    ensures Extends(a, c)
  {
  }

  /** A full grid has no completion but itself. */
  lemma FullExtendsEqual(g: Grid, h: Grid)
    requires WellFormed(g) && WellFormed(h) && Full(g) && Extends(g, h)
    ensures h == g
  {
    forall r | 0 <= r < 9 ensures h[r] == g[r] {
      assert forall c :: 0 <= c < 9 ==> h[r][c] == g[r][c];
    }
  }

  /** h is full, keeps every value of g, and is consistent when g is. */
  predicate SoundResult(g: Grid, h: Grid)
    requires WellFormed(g)
  {
    WellFormed(h) && Full(h) && Extends(g, h) && (Consistent(g) ==> Consistent(h))
  }

  /** Whatever the search returns is full, keeps the input's values, and is a valid
      Sudoku whenever the input is consistent: every value placed was a candidate. */
  lemma {:induction false} FirstGoalSound(g: Grid)
    requires WellFormed(g)
    ensures FirstGoal(g).Some? ==> SoundResult(g, FirstGoal(g).value)
    decreases Zeros(g), 1, 0
  {
    match FirstEmpty(g)
    case None =>
    case Some(cell) =>
      CandidatesExpandable(g, cell);
      FirstGoalCandsSound(g, cell, Candidates(g, cell));
  }

  lemma {:induction false} FirstGoalCandsSound(g: Grid, cell: Cell, vs: seq<int>)
    requires Expandable(g, cell, vs)
    requires forall k :: 0 <= k < |vs| ==> vs[k] in Candidates(g, cell)
    ensures FirstGoalCands(g, cell, vs).Some? ==> SoundResult(g, FirstGoalCands(g, cell, vs).value)
    decreases Zeros(g), 0, |vs|
  {
    if vs != [] {
      var v := vs[|vs| - 1];
      var child := ChangeState(g, cell, v);
      ChildStep(g, cell, v);
      FirstGoalSound(child);
      if Consistent(g) {
        PlaceCandidateConsistent(g, cell, v);
      }
      if FirstGoal(child).Some? {
        ExtendsTrans(g, child, FirstGoal(child).value);
      } else {
        FirstGoalCandsSound(g, cell, vs[..|vs| - 1]);
      }
    }
  }

  lemma {:induction false} CountCandsAtLeast(g: Grid, cell: Cell, vs: seq<int>, v: int)
    requires Expandable(g, cell, vs) && v in vs
    ensures 1 <= v <= 9 && WellFormed(ChangeState(g, cell, v))
    ensures CountCands(g, cell, vs) >= Count(ChangeState(g, cell, v))
    decreases |vs|
  {
    var n := |vs|;
    ChildStep(g, cell, vs[n - 1]);
    if vs[n - 1] != v {
      assert vs == vs[..n - 1] + [vs[n - 1]];
      CountCandsAtLeast(g, cell, vs[..n - 1], v);
    }
  }

  lemma {:induction false} CountCandsPair(g: Grid, cell: Cell, vs: seq<int>, v1: int, v2: int)
    requires Expandable(g, cell, vs) && v1 in vs && v2 in vs && v1 != v2
    ensures 1 <= v1 <= 9 && 1 <= v2 <= 9
    ensures WellFormed(ChangeState(g, cell, v1)) && WellFormed(ChangeState(g, cell, v2))
    ensures CountCands(g, cell, vs) >= Count(ChangeState(g, cell, v1)) + Count(ChangeState(g, cell, v2))
    decreases |vs|
  {
    var n := |vs|;
    var last := vs[n - 1];
    ChildStep(g, cell, last);
    assert vs == vs[..n - 1] + [last];
    if last == v1 {
      CountCandsAtLeast(g, cell, vs[..n - 1], v2);
    } else if last == v2 {
      CountCandsAtLeast(g, cell, vs[..n - 1], v1);
    } else {
      CountCandsPair(g, cell, vs[..n - 1], v1, v2);
    }
  }

  /** Completeness: a grid that has a completion makes the search reach a full grid. */
  lemma {:induction false} CountComplete(g: Grid, h: Grid)
    requires WellFormed(g) && Completion(g, h)
    ensures Count(g) >= 1
    decreases Zeros(g)
  {
    match FirstEmpty(g)
    case None =>
    case Some(cell) =>
      var v := h[cell.0][cell.1];
      CompletionPicksCandidate(g, h, cell);
      CandidatesExpandable(g, cell);
      CountCandsAtLeast(g, cell, Candidates(g, cell), v);
      ChildStep(g, cell, v);
      CountComplete(ChangeState(g, cell, v), h);
  }

  /** Two different completions make the search reach at least two full grids. */
  lemma {:induction false} CountTwoCompletions(g: Grid, h1: Grid, h2: Grid)
    requires WellFormed(g) && Completion(g, h1) && Completion(g, h2) && h1 != h2
    ensures Count(g) >= 2
    decreases Zeros(g)
  {
    if Full(g) {
      FullExtendsEqual(g, h1);
      FullExtendsEqual(g, h2);
      assert false;
    }
    var cell := FirstEmpty(g).value;
    var v1, v2 := h1[cell.0][cell.1], h2[cell.0][cell.1];
    CompletionPicksCandidate(g, h1, cell);
    CompletionPicksCandidate(g, h2, cell);
    CandidatesExpandable(g, cell);
    var cs := Candidates(g, cell);
    if v1 == v2 {
      CountCandsAtLeast(g, cell, cs, v1);
      ChildStep(g, cell, v1);
      CountTwoCompletions(ChangeState(g, cell, v1), h1, h2);
    } else {
      CountCandsPair(g, cell, cs, v1, v2);
      ChildStep(g, cell, v1);
      ChildStep(g, cell, v2);
      CountComplete(ChangeState(g, cell, v1), h1);
      CountComplete(ChangeState(g, cell, v2), h2);
    }
  }

  /** The search returns a grid exactly when it reaches at least one full grid. */
  lemma {:induction false} FirstGoalIffCount(g: Grid)
    requires WellFormed(g)
    ensures FirstGoal(g).Some? <==> Count(g) > 0
    decreases Zeros(g), 1, 0
  {
    match FirstEmpty(g)
    case None =>
    case Some(cell) =>
      CandidatesExpandable(g, cell);
      FirstGoalCandsIffCount(g, cell, Candidates(g, cell));
  }

  lemma {:induction false} FirstGoalCandsIffCount(g: Grid, cell: Cell, vs: seq<int>)
    requires Expandable(g, cell, vs)
    ensures FirstGoalCands(g, cell, vs).Some? <==> CountCands(g, cell, vs) > 0
    decreases Zeros(g), 0, |vs|
  {
    if vs != [] {
      ChildStep(g, cell, vs[|vs| - 1]);
      FirstGoalIffCount(ChangeState(g, cell, vs[|vs| - 1]));
      FirstGoalCandsIffCount(g, cell, vs[..|vs| - 1]);
    }
  }

  // ---------------------------------------------------------------------------
  // What a count proves about the completions of a consistent grid

  /** Some grid completes g. */
  ghost predicate Solvable(g: Grid) {
    WellFormed(g) && exists h :: Completion(g, h)
  }

  /** Two different grids complete g. */
  ghost predicate Ambiguous(g: Grid) {
    WellFormed(g) && exists h1, h2 :: Completion(g, h1) && Completion(g, h2) && h1 != h2
  }

  /** The full grid the search reaches below a consistent grid with candidate v placed at
      cell completes the grid and holds v at cell. */
  lemma ChildCompletion(g: Grid, cell: Cell, v: int) returns (h: Grid)
    requires WellFormed(g) && Consistent(g) && 0 <= cell.0 < 9 && 0 <= cell.1 < 9
    requires g[cell.0][cell.1] == 0 && 1 <= v <= 9 && v in Candidates(g, cell)
    requires WellFormed(ChangeState(g, cell, v)) && Count(ChangeState(g, cell, v)) > 0
    ensures Completion(g, h) && h[cell.0][cell.1] == v
  {
    var child := ChangeState(g, cell, v);
    ChildStep(g, cell, v);
    PlaceCandidateConsistent(g, cell, v);
    FirstGoalIffCount(child);
    FirstGoalSound(child);
    h := FirstGoal(child).value;
    ExtendsTrans(g, child, h);
  }

  /** A positive count over candidates vs is a positive count below one of them. */
  lemma {:induction false} CountCandsPositive(g: Grid, cell: Cell, vs: seq<int>) returns (k: nat)
    requires Expandable(g, cell, vs) && CountCands(g, cell, vs) > 0
    ensures k < |vs| && WellFormed(ChangeState(g, cell, vs[k])) && Count(ChangeState(g, cell, vs[k])) > 0
    decreases |vs|
  {
    var n := |vs|;
    ChildStep(g, cell, vs[n - 1]);
    if Count(ChangeState(g, cell, vs[n - 1])) > 0 {
      k := n - 1;
    } else {
      k := CountCandsPositive(g, cell, vs[..n - 1]);
      assert vs[..n - 1][k] == vs[k];
    }
  }

  /** A positive count over candidates vs gives a completion whose value at cell is in vs. */
  lemma CountCandsWitness(g: Grid, cell: Cell, vs: seq<int>) returns (h: Grid)
    requires Expandable(g, cell, vs) && Consistent(g)
    requires forall k :: 0 <= k < |vs| ==> vs[k] in Candidates(g, cell)
    requires CountCands(g, cell, vs) > 0
    ensures Completion(g, h) && h[cell.0][cell.1] in vs
  {
    var k := CountCandsPositive(g, cell, vs);
    h := ChildCompletion(g, cell, vs[k]);
  }

  /** A count of at least two below a consistent grid gives two different completions. */
  lemma {:induction false} CountTwoWitnesses(g: Grid) returns (h1: Grid, h2: Grid)
    requires WellFormed(g) && Consistent(g) && Count(g) >= 2
    ensures Completion(g, h1) && Completion(g, h2) && h1 != h2
    decreases Zeros(g), 1, 0
  {
    match FirstEmpty(g)
    case None =>
      assert false;
    case Some(cell) =>
      CandidatesExpandable(g, cell);
      CandidatesAscending(g, cell);
      h1, h2 := CountCandsTwoWitnesses(g, cell, Candidates(g, cell));
  }

  lemma {:induction false} CountCandsTwoWitnesses(g: Grid, cell: Cell, vs: seq<int>) returns (h1: Grid, h2: Grid)
    requires Expandable(g, cell, vs) && Consistent(g)
    requires forall k :: 0 <= k < |vs| ==> vs[k] in Candidates(g, cell)
    requires forall i, j :: 0 <= i < j < |vs| ==> vs[i] < vs[j]
    requires CountCands(g, cell, vs) >= 2
    ensures Completion(g, h1) && Completion(g, h2) && h1 != h2
    decreases Zeros(g), 0, |vs|
  {
    var n := |vs|;
    var v := vs[n - 1];
    var child := ChangeState(g, cell, v);
    ChildStep(g, cell, v);
    if Count(child) >= 2 {
      PlaceCandidateConsistent(g, cell, v);
      h1, h2 := CountTwoWitnesses(child);
      ExtendsTrans(g, child, h1);
      ExtendsTrans(g, child, h2);
    } else if CountCands(g, cell, vs[..n - 1]) >= 2 {
      h1, h2 := CountCandsTwoWitnesses(g, cell, vs[..n - 1]);
    } else {
      // One full grid below the last candidate, one below the others: they differ at cell.
      h1 := CountCandsWitness(g, cell, vs[..n - 1]);
      h2 := ChildCompletion(g, cell, v);
      assert h1[cell.0][cell.1] < v;
    }
  }

  // ---------------------------------------------------------------------------
  // The solver's answer for an input grid: its frontier starts as the input's expansion

  /** First-solution mode: the first full grid popped, or None for "No solution". */
  function FirstSolution(puzzle: Grid): Option<Grid>
    requires WellFormed(puzzle)
  {
    ExpansionWellFormed(puzzle);
    StackFirstGoal(Expansion(puzzle))
  }

  /** Count mode: the number of full grids popped. */
  function SolutionCount(puzzle: Grid): nat
    requires WellFormed(puzzle)
  {
    ExpansionWellFormed(puzzle);
    StackCount(Expansion(puzzle))
  }

  /** A grid with no empty cell seeds no child: count mode gives 0, first-solution mode fails. */
  lemma SolveFullGrid(puzzle: Grid)
    requires WellFormed(puzzle) && Full(puzzle)
    ensures FirstSolution(puzzle) == None && SolutionCount(puzzle) == 0
  {
  }

  /** Otherwise the solver's answers are the search's answers for the input grid. */
  lemma SolveOpenGrid(puzzle: Grid)
    requires WellFormed(puzzle) && !Full(puzzle)
    ensures FirstSolution(puzzle) == FirstGoal(puzzle) && SolutionCount(puzzle) == Count(puzzle)
  {
    ExpansionOf(puzzle);
  }

  /** First-solution mode returns a full grid that keeps the input's values; for a consistent
      input it is a valid Sudoku. */
  lemma FirstSolutionSound(puzzle: Grid)
    requires WellFormed(puzzle)
    ensures FirstSolution(puzzle).Some? ==> SoundResult(puzzle, FirstSolution(puzzle).value)
  {
    if !Full(puzzle) {
      SolveOpenGrid(puzzle);
      FirstGoalSound(puzzle);
    }
  }

  /** The two modes agree: first-solution mode fails exactly when count mode gives 0. */
  lemma FirstSolutionIffCount(puzzle: Grid)
    requires WellFormed(puzzle)
    ensures FirstSolution(puzzle).None? <==> SolutionCount(puzzle) == 0
  {
    if !Full(puzzle) {
      SolveOpenGrid(puzzle);
      FirstGoalIffCount(puzzle);
    }
  }

  /** A grid with an empty cell and a completion: count mode reports at least one solution
      and first-solution mode succeeds. */
  lemma SolutionCountComplete(puzzle: Grid, h: Grid)
    requires WellFormed(puzzle) && !Full(puzzle) && Completion(puzzle, h)
    ensures SolutionCount(puzzle) >= 1 && FirstSolution(puzzle).Some?
  {
    SolveOpenGrid(puzzle);
    CountComplete(puzzle, h);
    FirstGoalIffCount(puzzle);
  }

  /** Two different completions: count mode reports more than one solution. */
  lemma SolutionCountTwo(puzzle: Grid, h1: Grid, h2: Grid)
    requires WellFormed(puzzle) && Completion(puzzle, h1) && Completion(puzzle, h2) && h1 != h2
    ensures SolutionCount(puzzle) >= 2
  {
    if Full(puzzle) {
      FullExtendsEqual(puzzle, h1);
      FullExtendsEqual(puzzle, h2);
      assert false;
    }
    SolveOpenGrid(puzzle);
    CountTwoCompletions(puzzle, h1, h2);
  }

  /** For a consistent input, count mode reports a solution exactly when the input has an
      empty cell and some grid completes it. */
  lemma SolutionCountOneIff(puzzle: Grid)
    requires WellFormed(puzzle) && Consistent(puzzle)
    ensures SolutionCount(puzzle) >= 1 <==> !Full(puzzle) && Solvable(puzzle)
  {
    if !Full(puzzle) {
      SolveOpenGrid(puzzle);
      if Count(puzzle) >= 1 {
        FirstGoalIffCount(puzzle);
        FirstGoalSound(puzzle);
        assert Completion(puzzle, FirstGoal(puzzle).value);
      }
      if Solvable(puzzle) {
        var h :| Completion(puzzle, h);
        CountComplete(puzzle, h);
      }
    }
  }

  /** For a consistent input, count mode reports more than one solution exactly when two
      different grids complete it. */
  lemma SolutionCountTwoIff(puzzle: Grid)
    requires WellFormed(puzzle) && Consistent(puzzle)
    ensures SolutionCount(puzzle) >= 2 <==> Ambiguous(puzzle)
  {
    if !Full(puzzle) {
      SolveOpenGrid(puzzle);
      if Count(puzzle) >= 2 {
        var h1, h2 := CountTwoWitnesses(puzzle);
      }
    }
    if Ambiguous(puzzle) {
      var h1, h2 :| Completion(puzzle, h1) && Completion(puzzle, h2) && h1 != h2;
      SolutionCountTwo(puzzle, h1, h2);
    }
  }

  /** A grid with fewer givens keeps every completion, so it stays ambiguous. */
  lemma AmbiguousFewerGivens(a: Grid, b: Grid)
    requires WellFormed(a) && WellFormed(b) && Extends(b, a) && Ambiguous(a)
    ensures Ambiguous(b)
  {
    var h1, h2 :| Completion(a, h1) && Completion(a, h2) && h1 != h2;
    ExtendsTrans(b, a, h1);
    ExtendsTrans(b, a, h2);
    assert Completion(b, h1) && Completion(b, h2);
  }

  /** A count of at most one with a known completion h: h is the only completion. */
  lemma UniqueCompletion(puzzle: Grid, h: Grid, h': Grid)
    requires WellFormed(puzzle) && SolutionCount(puzzle) <= 1 && Completion(puzzle, h) && Completion(puzzle, h')
    ensures h' == h
  {
    if h' != h {
      SolutionCountTwo(puzzle, h, h');
    }
  }
}
