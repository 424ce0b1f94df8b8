/** `solve_maze` of `demos/maze.c`: a backtracking walk whose only stack is the
    marks it leaves in the grid (0 unvisited, 1 wall, 2 on the path, 3 dead end). */
module MazeSolver {
  import opened MazeGrid

  const START := Cell(1, 1)
  const ENTRY := Cell(1, 0)

  function Goal(w: nat, h: nat): Cell { Cell(w - 2, h - 2) }

  function Exit(w: nat, h: nat): Cell { Cell(w - 2, h - 1) }

  /** The locals of `solve_maze` together with the grid. */
  datatype State = State(cells: map<Cell, int>, at: Cell, dir: int, count: int, forward: bool)

  /** What the caller hands over: walls and passages, a border closed except for
      the entry and the exit, and an open start cell. */
  ghost predicate Solvable(w: nat, h: nat, cells: map<Cell, int>) {
    && w >= 3 && h >= 3
    && Covers(w, h, cells)
    && (forall c :: c in cells ==> cells[c] == 0 || cells[c] == 1)
    && (forall c :: c in cells && cells[c] == 0 ==> Interior(w, h, c) || c == ENTRY || c == Exit(w, h))
    && START in cells && cells[START] == 0
  }

  /** The state on entry to the loop: both openings walled up again. */
  function Start(w: nat, h: nat, cells: map<Cell, int>): State {
    State(cells[ENTRY := 1][Exit(w, h) := 1], START, 0, 0, true)
  }

  ghost function Open(s: State): set<Cell> {
    set c | c in s.cells && s.cells[c] != 1
  }

  /** Enough to keep every array access inside the grid. */
  ghost predicate Safe(w: nat, h: nat, s: State) {
    && w >= 3 && h >= 3
    && Covers(w, h, s.cells)
    && (forall c :: c in s.cells && s.cells[c] != 1 ==> Interior(w, h, c))
    && Interior(w, h, s.at)
    && 0 <= s.dir < 4 && s.count == s.dir
  }

  /** The mark of a cell; outside the grid nothing is read. */
  function Mark(cells: map<Cell, int>, c: Cell): int {
    if c in cells then cells[c] else 1
  }

  /** The mark seen in direction `d` of the current cell. */
  function Ahead(s: State, d: int): int {
    Mark(s.cells, Neighbour(s.at, d))
  }

  /** One iteration of the `while`; the goal state is left as it is. */
  function Step(w: nat, h: nat, s: State): State {
    if s.at == Goal(w, h) then
      s
    else if Ahead(s, s.dir) == Wanted(s.forward) then
      State(s.cells[s.at := if s.forward then 2 else 3], Neighbour(s.at, s.dir), 0, 0, true)
    else if s.count + 1 > 3 then
      State(s.cells, s.at, (s.dir + 1) % 4, 0, false)
    else
      State(s.cells, s.at, (s.dir + 1) % 4, s.count + 1, s.forward)
  }

  /** The value the loop tests for: unvisited going forward, path going back. */
  function Wanted(forward: bool): int { if forward then 0 else 2 }

  function Run(w: nat, h: nat, s: State, k: nat): State {
    if k == 0 then s else Step(w, h, Run(w, h, s, k - 1))
  }

  // ----- What every iteration keeps, on any grid

  /** Walls stay walls, marks lie on cells reachable from the start, the goal is
      unmarked until it is reached, and the scan has seen what `count` says. */
  ghost predicate Inv(open: set<Cell>, w: nat, h: nat, s: State) {
    && Safe(w, h, s)
    && open <= s.cells.Keys
    && (forall c :: c in s.cells ==> 0 <= s.cells[c] <= 3 && (s.cells[c] == 1 <==> c !in open))
    && s.at in open && s.cells[s.at] != 3
    && Reachable(open, START, s.at)
    && (forall c :: c in s.cells && s.cells[c] >= 2 ==> Reachable(open, START, c))
    && (s.at != Goal(w, h) && Goal(w, h) in s.cells ==> s.cells[Goal(w, h)] <= 1)
    && Scanned(s)
  }

  ghost predicate Scanned(s: State) {
    && (forall d :: 0 <= d < (if s.forward then s.count else 4) ==> Ahead(s, d) != 0)
    && (!s.forward ==> forall d :: 0 <= d < s.count ==> Ahead(s, d) != 2)
  }

  lemma StartKeepsInv(w: nat, h: nat, cells: map<Cell, int>)
    requires Solvable(w, h, cells)
    ensures var s := Start(w, h, cells); Inv(Open(s), w, h, s)
  {
    var s := Start(w, h, cells);
    assert Covers(w, h, s.cells);
    ReachableRefl(Open(s), START);
  }

  lemma StepKeepsInv(open: set<Cell>, w: nat, h: nat, s: State)
    requires Inv(open, w, h, s)
    ensures Inv(open, w, h, Step(w, h, s))
  {
    var n := Neighbour(s.at, s.dir);
    if s.at == Goal(w, h) {
    } else if Ahead(s, s.dir) == Wanted(s.forward) {
      ReachableExtend(open, START, s.at, n);
    } else {
      var r := Step(w, h, s);
      assert forall d :: Ahead(r, d) == Ahead(s, d);
    }
  }

  lemma {:induction false} RunKeepsInv(open: set<Cell>, w: nat, h: nat, s: State, k: nat)
    requires Inv(open, w, h, s)
    ensures Inv(open, w, h, Run(w, h, s, k))
  {
    if k == 0 {
    } else {
      RunKeepsInv(open, w, h, s, k - 1);
      StepKeepsInv(open, w, h, Run(w, h, s, k - 1));
    }
  }

  lemma {:induction false} GoalAbsorbs(w: nat, h: nat, s: State, j: nat, k: nat)
    requires j <= k && Run(w, h, s, j).at == Goal(w, h)
    ensures Run(w, h, s, k) == Run(w, h, s, j)
  {
    if j == k {
    } else {
      GoalAbsorbs(w, h, s, j, k - 1);
    }
  }

  // ----- Which way the walk goes

  /** Looking in directions `s.dir` to `d` without finding what is wanted. */
  lemma {:induction false} Turn(w: nat, h: nat, s: State, d: int)
    requires 0 <= s.dir == s.count <= d < 4 && s.at != Goal(w, h)
    requires forall e :: s.dir <= e < d ==> Ahead(s, e) != Wanted(s.forward)
    ensures Run(w, h, s, d - s.dir) == s.(dir := d, count := d)
    decreases d - s.dir
  {
    if s.dir < d {
      Turn(w, h, s, d - 1);
      assert Ahead(s.(dir := d - 1, count := d - 1), d - 1) == Ahead(s, d - 1);
    }
  }

  /** The whole turn: nothing unvisited is next to the cell. */
  lemma TurnAbout(w: nat, h: nat, s: State)
    requires s.dir == s.count == 0 && s.forward && s.at != Goal(w, h)
    requires forall e :: 0 <= e < 4 ==> Ahead(s, e) != 0
    ensures Run(w, h, s, 4) == s.(forward := false)
  {
    Turn(w, h, s, 3);
    assert Ahead(s.(dir := 3, count := 3), 3) == Ahead(s, 3);
  }

  lemma ForthBy(w: nat, h: nat, s: State, d: int)
    requires s.dir == s.count == 0 && s.forward && s.at != Goal(w, h) && 0 <= d < 4
    requires Ahead(s, d) == 0 && forall e :: 0 <= e < d ==> Ahead(s, e) != 0
    ensures Run(w, h, s, d + 1) == State(s.cells[s.at := 2], Neighbour(s.at, d), 0, 0, true)
  {
    Turn(w, h, s, d);
    assert Ahead(s.(dir := d, count := d), d) == Ahead(s, d);
  }

  lemma BackBy(w: nat, h: nat, s: State, d: int)
    requires s.dir == s.count == 0 && s.forward && s.at != Goal(w, h) && 0 <= d < 4
    requires Ahead(s, d) == 2 && (forall e :: 0 <= e < d ==> Ahead(s, e) != 2)
    requires forall e :: 0 <= e < 4 ==> Ahead(s, e) != 0
    ensures Run(w, h, s, 4 + (d + 1)) == State(s.cells[s.at := 3], Neighbour(s.at, d), 0, 0, true)
  {
    var about := s.(forward := false);
    TurnAbout(w, h, s);
    forall e ensures Ahead(about, e) == Ahead(s, e) {
    }
    Turn(w, h, about, d);
    assert Ahead(about.(dir := d, count := d), d) == Ahead(about, d);
    RunSplits(w, h, s, 4, d + 1);
  }

  /** Where the walk goes next, by coordinates. To the first unvisited neighbour, right,
      down, left, up, leaving the mark 2. If there is none, to the first neighbour
      marked 2 in the same order, leaving the mark 3. */
  lemma GoesNext(w: nat, h: nat, s: State, x: int, y: int)
    requires s.dir == s.count == 0 && s.forward && s.at == Cell(x, y) && s.at != Goal(w, h)
    ensures var right, down := Mark(s.cells, Cell(x + 1, y)), Mark(s.cells, Cell(x, y + 1));
      var left, up := Mark(s.cells, Cell(x - 1, y)), Mark(s.cells, Cell(x, y - 1));
      var forth, back := s.cells[Cell(x, y) := 2], s.cells[Cell(x, y) := 3];
      if right == 0 then Run(w, h, s, 1) == State(forth, Cell(x + 1, y), 0, 0, true)
      else if down == 0 then Run(w, h, s, 2) == State(forth, Cell(x, y + 1), 0, 0, true)
      else if left == 0 then Run(w, h, s, 3) == State(forth, Cell(x - 1, y), 0, 0, true)
      else if up == 0 then Run(w, h, s, 4) == State(forth, Cell(x, y - 1), 0, 0, true)
      else if right == 2 then Run(w, h, s, 5) == State(back, Cell(x + 1, y), 0, 0, true)
      else if down == 2 then Run(w, h, s, 6) == State(back, Cell(x, y + 1), 0, 0, true)
      else if left == 2 then Run(w, h, s, 7) == State(back, Cell(x - 1, y), 0, 0, true)
      else if up == 2 then Run(w, h, s, 8) == State(back, Cell(x, y - 1), 0, 0, true)
      else Stuck(w, h, s)
  {
    var d := if Ahead(s, 0) == 0 then 0 else if Ahead(s, 1) == 0 then 1 else if Ahead(s, 2) == 0 then 2 else 3;
    var e := if Ahead(s, 0) == 2 then 0 else if Ahead(s, 1) == 2 then 1 else if Ahead(s, 2) == 2 then 2 else 3;
    if Ahead(s, d) == 0 {
      ForthBy(w, h, s, d);
    } else if Ahead(s, e) == 2 {
      BackBy(w, h, s, e);
    }
  }

  // ----- Finitely many moves, then the goal or an endless spin

  /** Neither an unvisited neighbour nor a path neighbour is left: the loop only
      turns on the spot from here. */
  ghost predicate Stuck(w: nat, h: nat, s: State) {
    && s.at != Goal(w, h)
    && forall d :: 0 <= d < 4 ==> Ahead(s, d) != 0 && Ahead(s, d) != 2
  }

  lemma {:induction false} StuckSpinsForever(w: nat, h: nat, s: State, k: nat)
    requires Stuck(w, h, s) && 0 <= s.dir < 4
    ensures var r := Run(w, h, s, k);
            Stuck(w, h, r) && 0 <= r.dir < 4 && r.at == s.at && r.cells == s.cells
  {
    if k == 0 {
    } else {
      StuckSpinsForever(w, h, s, k - 1);
      var r := Run(w, h, s, k - 1);
      var r' := Step(w, h, r);
      assert forall d :: Ahead(r', d) == Ahead(r, d);
    }
  }

  ghost function Live(s: State): set<Cell> { set c | c in s.cells && s.cells[c] != 3 }

  ghost function Fresh(s: State): set<Cell> { set c | c in s.cells && s.cells[c] == 0 }

  ghost function Turns(s: State): nat {
    (if s.forward then 5 else 0) + (if s.count <= 4 then 4 - s.count else 0)
  }

  ghost function Revisited(s: State): nat { if s.at in s.cells && s.cells[s.at] == 0 then 0 else 1 }

  /** Lexicographic: cells not yet dead, cells not yet visited, whether the walk
      stands on an old path cell, directions left to try. */
  ghost predicate Smaller(r: State, s: State) {
    || Live(r) < Live(s)
    || (Live(r) == Live(s) && Fresh(r) < Fresh(s))
    || (Live(r) == Live(s) && Fresh(r) == Fresh(s) && Revisited(r) < Revisited(s))
    || (Live(r) == Live(s) && Fresh(r) == Fresh(s) && Revisited(r) == Revisited(s) && Turns(r) < Turns(s))
  }

  lemma StepShrinks(open: set<Cell>, w: nat, h: nat, s: State)
    requires Inv(open, w, h, s) && s.at != Goal(w, h) && !Stuck(w, h, s)
    ensures Smaller(Step(w, h, s), s)
  {
    var n := Neighbour(s.at, s.dir);
    var r := Step(w, h, s);
    if Ahead(s, s.dir) == Wanted(s.forward) {
      if !s.forward {
        assert Live(r) == Live(s) - {s.at};
        assert s.at in Live(s);
      } else {
        assert Live(r) == Live(s);
        assert Fresh(r) == Fresh(s) - {s.at};
        if s.cells[s.at] == 0 {
          assert s.at in Fresh(s);
        } else {
          assert Fresh(r) == Fresh(s);
        }
      }
    } else {
      assert Live(r) == Live(s) && Fresh(r) == Fresh(s);
      if s.count == 3 && !s.forward {
        assert false;
      }
    }
  }

  /** Every run reaches the goal or the endless spin after finitely many iterations. */
  lemma {:induction false} RunSettles(open: set<Cell>, w: nat, h: nat, s0: State, k: nat) returns (n: nat)
    requires Inv(open, w, h, s0)
    ensures n >= k
    ensures var r := Run(w, h, s0, n); r.at == Goal(w, h) || Stuck(w, h, r)
    decreases Live(Run(w, h, s0, k)), Fresh(Run(w, h, s0, k)), Revisited(Run(w, h, s0, k)), Turns(Run(w, h, s0, k))
  {
    var s := Run(w, h, s0, k);
    if s.at == Goal(w, h) || Stuck(w, h, s) {
      n := k;
    } else {
      RunKeepsInv(open, w, h, s0, k);
      StepShrinks(open, w, h, s);
      assert Run(w, h, s0, k + 1) == Step(w, h, s);
      n := RunSettles(open, w, h, s0, k + 1);
    }
  }

  // ----- Where no cycle can be reached before the goal the marks are a depth-first search

  /** No cycle can be reached from the start; elsewhere there may be cycles. */
  ghost predicate Treelike(open: set<Cell>) { Acyclic(Component(open, START)) }

  /** None can be reached without the goal, where the loop stops: cycles may close
      through it. */
  ghost predicate NoLoop(w: nat, h: nat, open: set<Cell>) { Acyclic(Component(open - {Goal(w, h)}, START)) }

  lemma TreelikeHasNoLoop(w: nat, h: nat, open: set<Cell>)
    requires Treelike(open)
    ensures NoLoop(w, h, open)
  {
    var less := open - {Goal(w, h)};
    forall p | Path(Component(less, START), p) && Distinct(p) && |p| >= 3 ensures !Adjacent(p[0], p[|p| - 1]) {
      forall i | 0 <= i < |p| ensures p[i] in Component(open, START) {
        assert p[i] in Component(less, START);
        var q :| Path(less, q) && q[0] == START && q[|q| - 1] == p[i];
        assert Path(open, q);
      }
      assert Path(Component(open, START), p);
    }
  }

  /** `stack` is the search stack that the marks encode. */
  ghost predicate Dfs(open: set<Cell>, s: State, stack: seq<Cell>) {
    && SimplePath(open, stack, START, s.at)
    && (forall i :: 0 <= i < |stack| - 1 ==> stack[i] in s.cells && s.cells[stack[i]] == 2)
    && (forall c :: c in s.cells && s.cells[c] == 2 ==> c in stack)
    && DeadEndsExplored(s)
  }

  /** No dead end has an unvisited neighbour. */
  ghost predicate DeadEndsExplored(s: State) {
    forall c, n :: c in s.cells && s.cells[c] == 3 && Adjacent(c, n) && n in s.cells ==> s.cells[n] != 0
  }

  /** On a simple path that no cycle touches, the last cell has one neighbour. */
  lemma OneWayBack(open: set<Cell>, stack: seq<Cell>, i: nat)
    requires Path(open, stack) && Distinct(stack) && Acyclic(Component(open, stack[0]))
    requires i < |stack| && Adjacent(stack[|stack| - 1], stack[i])
    ensures |stack| >= 2 && i == |stack| - 2
  {
    PathInComponent(open, stack);
    var loop := stack[i..];
    assert Path(Component(open, stack[0]), loop) && Distinct(loop);
  }

  /** Before the goal is reached it is not on the stack. */
  lemma StackAvoidsGoal(open: set<Cell>, w: nat, h: nat, s: State, stack: seq<Cell>)
    requires Inv(open, w, h, s) && Dfs(open, s, stack) && s.at != Goal(w, h)
    ensures Path(open - {Goal(w, h)}, stack)
  {
    forall i | 0 <= i < |stack| ensures stack[i] != Goal(w, h) {
      if i < |stack| - 1 {
        assert s.cells[stack[i]] == 2;
      }
    }
  }

  /** A path-marked neighbour of the current cell is its parent on the stack. */
  lemma PathNeighbourIsParent(open: set<Cell>, w: nat, h: nat, s: State, stack: seq<Cell>, n: Cell)
    requires NoLoop(w, h, open) && Inv(open, w, h, s) && Dfs(open, s, stack) && s.at != Goal(w, h)
    requires n in s.cells && s.cells[n] == 2 && Adjacent(s.at, n)
    ensures |stack| >= 2 && n == stack[|stack| - 2]
  {
    var i :| 0 <= i < |stack| && stack[i] == n;
    StackAvoidsGoal(open, w, h, s, stack);
    OneWayBack(open - {Goal(w, h)}, stack, i);
  }

  /** With the last cell closed off, the stack without it is what the marks encode. */
  lemma StackPopped(open: set<Cell>, s: State, stack: seq<Cell>, r: State)
    requires Dfs(open, s, stack) && |stack| >= 2
    requires r.cells == s.cells[s.at := 3] && r.at == stack[|stack| - 2] && DeadEndsExplored(r)
    ensures Dfs(open, r, stack[..|stack| - 1])
  {
    var stack' := stack[..|stack| - 1];
    assert SimplePath(open, stack', START, r.at);
    forall c | c in r.cells && r.cells[c] == 2 ensures c in stack' {
      var i :| 0 <= i < |stack| && stack[i] == c;
      assert c == stack'[i];
    }
  }

  lemma DfsPush(open: set<Cell>, w: nat, h: nat, s: State, stack: seq<Cell>)
    requires Inv(open, w, h, s) && Dfs(open, s, stack)
    requires s.at != Goal(w, h) && s.forward && Ahead(s, s.dir) == 0
    ensures Dfs(open, Step(w, h, s), stack + [Neighbour(s.at, s.dir)])
  {
    var n := Neighbour(s.at, s.dir);
    var r := Step(w, h, s);
    var stack' := stack + [n];
    assert n != s.at && n !in stack;
    assert SimplePath(open, stack', START, n);
    assert r.cells == s.cells[s.at := 2];
  }

  lemma DeadEndAdded(open: set<Cell>, w: nat, h: nat, s: State)
    requires Inv(open, w, h, s) && DeadEndsExplored(s) && !s.forward
    ensures DeadEndsExplored(s.(cells := s.cells[s.at := 3]))
  {
    forall m | Adjacent(s.at, m) && m in s.cells
      ensures s.cells[m] != 0
    {
      var d := DirectionTo(s.at, m);
      assert Ahead(s, d) == s.cells[m];
    }
  }

  lemma DfsPop(open: set<Cell>, w: nat, h: nat, s: State, stack: seq<Cell>)
    requires NoLoop(w, h, open) && Inv(open, w, h, s) && Dfs(open, s, stack)
    requires s.at != Goal(w, h) && !s.forward && Ahead(s, s.dir) == 2
    ensures Dfs(open, Step(w, h, s), stack[..|stack| - 1])
  {
    PathNeighbourIsParent(open, w, h, s, stack, Neighbour(s.at, s.dir));
    DeadEndAdded(open, w, h, s);
    StackPopped(open, s, stack, Step(w, h, s));
  }

  lemma DfsStep(open: set<Cell>, w: nat, h: nat, s: State, stack: seq<Cell>) returns (stack': seq<Cell>)
    requires NoLoop(w, h, open) && Inv(open, w, h, s) && Dfs(open, s, stack)
    ensures Dfs(open, Step(w, h, s), stack')
  {
    stack' := stack;
    if s.at != Goal(w, h) && Ahead(s, s.dir) == Wanted(s.forward) {
      if s.forward {
        stack' := stack + [Neighbour(s.at, s.dir)];
        DfsPush(open, w, h, s, stack);
      } else {
        stack' := stack[..|stack| - 1];
        DfsPop(open, w, h, s, stack);
      }
    }
  }

  lemma {:induction false} DfsRun(open: set<Cell>, w: nat, h: nat, s: State, k: nat) returns (stack: seq<Cell>)
    requires NoLoop(w, h, open) && Inv(open, w, h, s) && Dfs(open, s, [START])
    ensures Dfs(open, Run(w, h, s, k), stack)
  {
    if k == 0 {
      stack := [START];
    } else {
      stack := DfsRun(open, w, h, s, k - 1);
      RunKeepsInv(open, w, h, s, k - 1);
      stack := DfsStep(open, w, h, Run(w, h, s, k - 1), stack);
    }
  }

  lemma StartIsDfs(w: nat, h: nat, cells: map<Cell, int>)
    requires Solvable(w, h, cells)
    ensures var s := Start(w, h, cells); Dfs(Open(s), s, [START])
  {
  }

  /** Getting stuck where no cycle comes before the goal means everything reachable was visited. */
  lemma StuckMeansUnreachable(open: set<Cell>, w: nat, h: nat, s: State, stack: seq<Cell>)
    requires NoLoop(w, h, open) && Inv(open, w, h, s) && Dfs(open, s, stack) && Stuck(w, h, s)
    ensures !Reachable(open, START, Goal(w, h))
  {
    if |stack| >= 2 {
      var parent := stack[|stack| - 2];
      assert Adjacent(parent, stack[|stack| - 1]);
      var mark := Ahead(s, DirectionTo(s.at, parent));
    }
    assert stack == [START];
    var visited := set c | c in s.cells && (s.cells[c] >= 2 || c == START);
    forall c, d | c in visited && d in open && Adjacent(c, d)
      ensures d in visited
    {
      if s.cells[c] != 3 {
        assert c == START;
        assert Ahead(s, DirectionTo(c, d)) == s.cells[d];
      }
    }
    forall p | Path(open, p) && p[0] == START
      ensures p[|p| - 1] != Goal(w, h)
    {
      ClosedSetHoldsPath(open, visited, p);
    }
  }

  // ----- Theorems about whole runs

  /** On any grid: the loop exits only if an open path leads to the goal, and
      only cells reachable from the start ever carry a mark. */
  lemma SolverIsSound(w: nat, h: nat, cells: map<Cell, int>, k: nat)
    requires Solvable(w, h, cells)
    ensures var s := Start(w, h, cells);
            Inv(Open(s), w, h, s) && Inv(Open(s), w, h, Run(w, h, s, k))
            && (Run(w, h, s, k).at == Goal(w, h) ==> Reachable(Open(s), START, Goal(w, h)))
  {
    StartKeepsInv(w, h, cells);
    var s := Start(w, h, cells);
    RunKeepsInv(Open(s), w, h, s, k);
  }

  /** Where no cycle comes before the goal the loop exits exactly when the goal is reachable. */
  lemma TreeSolverTerminatesIff(w: nat, h: nat, cells: map<Cell, int>)
    requires Solvable(w, h, cells) && NoLoop(w, h, Open(Start(w, h, cells)))
    ensures var s := Start(w, h, cells);
            ((exists k: nat :: Run(w, h, s, k).at == Goal(w, h)) <==> Reachable(Open(s), START, Goal(w, h)))
  {
    var s := Start(w, h, cells);
    StartKeepsInv(w, h, cells);
    StartIsDfs(w, h, cells);
    forall k: nat | Run(w, h, s, k).at == Goal(w, h)
      ensures Reachable(Open(s), START, Goal(w, h))
    {
      SolverIsSound(w, h, cells, k);
    }
    var n := RunSettles(Open(s), w, h, s, 0);
    if Run(w, h, s, n).at != Goal(w, h) {
      var stack := DfsRun(Open(s), w, h, s, n);
      RunKeepsInv(Open(s), w, h, s, n);
      StuckMeansUnreachable(Open(s), w, h, Run(w, h, s, n), stack);
    }
  }

  /** The grid after the final two writes. */
  ghost function Finish(w: nat, h: nat, s: State): map<Cell, int> {
    s.cells[Goal(w, h) := 2][Exit(w, h) := 2]
  }

  /** The cells left marked 2 are a simple path to the goal, and the exit. */
  lemma SolutionIsAPath(w: nat, h: nat, cells: map<Cell, int>, k: nat) returns (p: seq<Cell>)
    requires Solvable(w, h, cells)
    requires var s := Start(w, h, cells); NoLoop(w, h, Open(s)) && Run(w, h, s, k).at == Goal(w, h)
    ensures SimplePath(Open(Start(w, h, cells)), p, START, Goal(w, h))
    ensures MarksExactly(w, h, Finish(w, h, Run(w, h, Start(w, h, cells), k)), p)
  {
    var s := Start(w, h, cells);
    StartKeepsInv(w, h, cells);
    StartIsDfs(w, h, cells);
    p := DfsRun(Open(s), w, h, s, k);
    assert p[|p| - 1] == Goal(w, h);
  }

  /** Where no cycle can be reached at all, it is the only one. */
  lemma TreeSolutionIsThePath(w: nat, h: nat, cells: map<Cell, int>, k: nat, p: seq<Cell>)
    requires Solvable(w, h, cells)
    requires var s := Start(w, h, cells);
             Treelike(Open(s)) && SimplePath(Open(s), p, START, Goal(w, h))
             && Run(w, h, s, k).at == Goal(w, h)
    ensures MarksExactly(w, h, Finish(w, h, Run(w, h, Start(w, h, cells), k)), p)
  {
    var s := Start(w, h, cells);
    StartKeepsInv(w, h, cells);
    TreelikeHasNoLoop(w, h, Open(s));
    var stack := SolutionIsAPath(w, h, cells, k);
    PathInComponent(Open(s), stack);
    PathInComponent(Open(s), p);
    UniqueSimplePath(Component(Open(s), START), stack, p, START, Goal(w, h));
  }

  // ----- The C function

  /** `p` is exactly what is marked 2, apart from the exit. */
  ghost predicate MarksExactly(w: nat, h: nat, final: map<Cell, int>, p: seq<Cell>) {
    forall c :: c in final ==> (final[c] == 2 <==> c in p || c == Cell(w - 2, h - 1))
  }

  /** The grid left is the one given, with the entry walled up and marks on cells that
      were open: the exit is reopened, and goal and exit marked, on the way out only. */
  ghost predicate Walls(w: nat, h: nat, cells: map<Cell, int>, finished: bool, final: map<Cell, int>) {
    && final.Keys == cells.Keys
    && (forall c :: c in final ==> 0 <= final[c] <= 3)
    && (forall c :: c in final && final[c] == 0 ==> cells[c] == 0)
    && (forall c :: c in final ==>
          (final[c] == 1 <==>
            c == Cell(1, 0) || (c == Cell(w - 2, h - 1) && !finished) || (cells[c] == 1 && c != Cell(w - 2, h - 1))))
    && (finished && w >= 2 && h >= 2 ==>
          && Cell(w - 2, h - 2) in final && final[Cell(w - 2, h - 2)] == 2
          && Cell(w - 2, h - 1) in final && final[Cell(w - 2, h - 1)] == 2)
  }

  /** One cell during a run. */
  lemma CellDuringRun(w: nat, h: nat, cells: map<Cell, int>, r: State, c: Cell)
    requires Solvable(w, h, cells) && Inv(Open(Start(w, h, cells)), w, h, r)
    ensures c in r.cells <==> c in cells
    ensures c in r.cells ==>
      && 0 <= r.cells[c] <= 3 && (r.cells[c] == 0 ==> cells[c] == 0)
      && (r.cells[c] == 1 <==> c == Cell(1, 0) || c == Cell(w - 2, h - 1) || cells[c] == 1)
  {
    var s := Start(w, h, cells);
    assert InGrid(w, h, Exit(w, h)) && InGrid(w, h, ENTRY);
    assert c in r.cells <==> InGrid(w, h, c);
    assert c in cells ==> (c in Open(s) <==> s.cells[c] != 1);
  }

  lemma SpinningWalls(w: nat, h: nat, cells: map<Cell, int>, r: State)
    requires Solvable(w, h, cells) && Inv(Open(Start(w, h, cells)), w, h, r)
    ensures Walls(w, h, cells, false, r.cells)
  {
    forall c ensures c in r.cells <==> c in cells {
      CellDuringRun(w, h, cells, r, c);
    }
    forall c | c in r.cells
      ensures 0 <= r.cells[c] <= 3 && (r.cells[c] == 0 ==> cells[c] == 0)
      ensures r.cells[c] == 1 <==> c == Cell(1, 0) || c == Cell(w - 2, h - 1) || cells[c] == 1
    {
      CellDuringRun(w, h, cells, r, c);
    }
  }

  lemma FinishedWalls(w: nat, h: nat, cells: map<Cell, int>, r: State)
    requires Solvable(w, h, cells) && Inv(Open(Start(w, h, cells)), w, h, r) && r.at == Goal(w, h)
    ensures Walls(w, h, cells, true, Finish(w, h, r))
  {
    var final := Finish(w, h, r);
    assert InGrid(w, h, Exit(w, h)) && r.at in r.cells && r.cells[r.at] != 1;
    forall c ensures c in final <==> c in cells {
      CellDuringRun(w, h, cells, r, c);
      CellDuringRun(w, h, cells, r, Exit(w, h));
      assert c in r.cells <==> InGrid(w, h, c);
    }
    forall c | c in final
      ensures 0 <= final[c] <= 3 && (final[c] == 0 ==> cells[c] == 0)
      ensures final[c] == 1 <==> c == Cell(1, 0) || (cells[c] == 1 && c != Cell(w - 2, h - 1))
    {
      CellDuringRun(w, h, cells, r, c);
    }
  }

  /** Everything promised of one call: `finished` says whether the C loop exits,
      `final` is the grid then (or while it spins). */
  ghost predicate Outcome(w: nat, h: nat, cells: map<Cell, int>, finished: bool, final: map<Cell, int>) {
    var s := Start(w, h, cells);
    var open := Open(s);
    && (finished <==> exists k: nat :: Run(w, h, s, k).at == Goal(w, h))
    && (finished ==> exists k: nat :: Run(w, h, s, k).at == Goal(w, h) && final == Finish(w, h, Run(w, h, s, k)))
    && (finished ==> Reachable(open, START, Goal(w, h)))
    && (forall c :: c in final && final[c] >= 2 && c != Exit(w, h) ==> Reachable(open, START, c))
    && Walls(w, h, cells, finished, final)
    && (NoLoop(w, h, open) ==> (finished <==> Reachable(open, START, Goal(w, h))))
    && (NoLoop(w, h, open) && finished ==>
          exists p :: SimplePath(open, p, START, Goal(w, h)) && MarksExactly(w, h, final, p))
    && (Treelike(open) && finished ==>
          forall p :: SimplePath(open, p, START, Goal(w, h)) ==> MarksExactly(w, h, final, p))
  }

  /** The body of the loop: look in one direction, then move or turn. */
  method Iteration(maze: array<int>, w: nat, h: nat, at: Cell, dir: int, count: int, forward: bool, ghost s: State)
    returns (at': Cell, dir': int, count': int, forward': bool)
    requires maze.Length == w * h && Safe(w, h, s) && s == State(View(maze[..], w, h), at, dir, count, forward)
    requires at != Goal(w, h)
    modifies maze
    ensures State(View(maze[..], w, h), at', dir', count', forward') == Step(w, h, s)
  {
    var next := Neighbour(at, dir);
    var mark := ReadCell(maze, w, h, next);
    assert mark == Ahead(s, dir);
    if mark == Wanted(forward) {
      WriteCell(maze, w, h, at, if forward then 2 else 3);
      at', dir', count', forward' := next, 0, 0, true;
    } else {
      at', dir', count', forward' := at, (dir + 1) % 4, count + 1, forward;
      if count' > 3 {
        forward', count' := false, 0;
      }
    }
  }

  /** Runs the C loop on the array. `finished` is false exactly when the C loop
      never exits: the method returns where that loop starts to spin. */
  method SolveMaze(maze: array<int>, w: nat, h: nat) returns (finished: bool)
    requires maze.Length == w * h && Solvable(w, h, View(maze[..], w, h))
    modifies maze
    ensures Outcome(w, h, old(View(maze[..], w, h)), finished, View(maze[..], w, h))
  {
    ghost var cells := View(maze[..], w, h);
    ghost var s := Start(w, h, cells);
    ghost var s0, open, k := s, Open(s), 0;
    StartKeepsInv(w, h, cells);
    WriteCell(maze, w, h, ENTRY, 1);
    WriteCell(maze, w, h, Exit(w, h), 1);
    var x, y, dir, count, forward := 1, 1, 0, 0, true;
    while x != w - 2 || y != h - 2
      invariant View(maze[..], w, h) == s.cells
      invariant s == State(s.cells, Cell(x, y), dir, count, forward)
      invariant Inv(open, w, h, s0) && Inv(open, w, h, s) && s == Run(w, h, s0, k)
      decreases Live(s), Fresh(s), Revisited(s), Turns(s)
    {
      var at := Cell(x, y);
      var stuck := LooksStuck(maze, w, h, at, s);
      if stuck {
        NeverFinishes(w, h, cells, k);
        return false;
      }
      StepShrinks(open, w, h, s);
      StepKeepsInv(open, w, h, s);
      at, dir, count, forward := Iteration(maze, w, h, at, dir, count, forward, s);
      x, y := at.x, at.y;
      s, k := Step(w, h, s), k + 1;
    }
    WriteCell(maze, w, h, Goal(w, h), 2);
    WriteCell(maze, w, h, Exit(w, h), 2);
    FinishedFacts(w, h, cells, k);
    return true;
  }

  /** What holds of the grid once the run has arrived at the goal. */
  lemma FinishedFacts(w: nat, h: nat, cells: map<Cell, int>, k: nat)
    requires Solvable(w, h, cells) && Run(w, h, Start(w, h, cells), k).at == Goal(w, h)
    ensures Outcome(w, h, cells, true, Finish(w, h, Run(w, h, Start(w, h, cells), k)))
  {
    SolverIsSound(w, h, cells, k);
    FinishedWalls(w, h, cells, Run(w, h, Start(w, h, cells), k));
    TreeMarks(w, h, cells, k);
    MarkedIsReachable(w, h, cells, k);
  }

  lemma TreeMarks(w: nat, h: nat, cells: map<Cell, int>, k: nat)
    requires Solvable(w, h, cells) && Run(w, h, Start(w, h, cells), k).at == Goal(w, h)
    ensures var s := Start(w, h, cells); var final := Finish(w, h, Run(w, h, s, k));
      && (NoLoop(w, h, Open(s)) ==>
            exists p :: SimplePath(Open(s), p, START, Goal(w, h)) && MarksExactly(w, h, final, p))
      && (Treelike(Open(s)) ==>
            forall p :: SimplePath(Open(s), p, START, Goal(w, h)) ==> MarksExactly(w, h, final, p))
  {
    var s := Start(w, h, cells);
    if NoLoop(w, h, Open(s)) {
      var p := SolutionIsAPath(w, h, cells, k);
    }
    if Treelike(Open(s)) {
      forall p | SimplePath(Open(s), p, START, Goal(w, h))
        ensures MarksExactly(w, h, Finish(w, h, Run(w, h, s, k)), p)
      {
        TreeSolutionIsThePath(w, h, cells, k, p);
      }
    }
  }

  lemma MarkedIsReachable(w: nat, h: nat, cells: map<Cell, int>, k: nat)
    requires Solvable(w, h, cells) && Run(w, h, Start(w, h, cells), k).at == Goal(w, h)
    ensures var s := Start(w, h, cells); var final := Finish(w, h, Run(w, h, s, k));
      forall c :: c in final && final[c] >= 2 && c != Exit(w, h) ==> Reachable(Open(s), START, c)
  {
    SolverIsSound(w, h, cells, k);
  }

  /** A stuck state reached by a run rules out every exit of that run. */
  lemma NeverFinishes(w: nat, h: nat, cells: map<Cell, int>, k: nat)
    requires Solvable(w, h, cells)
    requires Stuck(w, h, Run(w, h, Start(w, h, cells), k))
    ensures var s := Start(w, h, cells);
            Outcome(w, h, cells, false, Run(w, h, s, k).cells)
  {
    var s := Start(w, h, cells);
    SolverIsSound(w, h, cells, k);
    SpinningWalls(w, h, cells, Run(w, h, s, k));
    forall j: nat
      ensures Run(w, h, s, j).at != Goal(w, h)
    {
      StuckRunNeverArrives(w, h, s, k, j);
    }
    if NoLoop(w, h, Open(s)) {
      TreeSolverTerminatesIff(w, h, cells);
    }
  }

  lemma StuckRunNeverArrives(w: nat, h: nat, s: State, k: nat, j: nat)
    requires Stuck(w, h, Run(w, h, s, k)) && 0 <= Run(w, h, s, k).dir < 4
    ensures Run(w, h, s, j).at != Goal(w, h)
  {
    if j <= k {
      if Run(w, h, s, j).at == Goal(w, h) {
        GoalAbsorbs(w, h, s, j, k);
      }
    } else {
      RunSplits(w, h, s, k, j - k);
      StuckSpinsForever(w, h, Run(w, h, s, k), j - k);
    }
  }

  lemma {:induction false} RunSplits(w: nat, h: nat, s: State, j: nat, k: nat)
    ensures Run(w, h, s, j + k) == Run(w, h, Run(w, h, s, j), k)
  {
    if k == 0 {
    } else {
      RunSplits(w, h, s, j, k - 1);
      assert Run(w, h, s, j + k) == Step(w, h, Run(w, h, s, j + k - 1));
    }
  }

  method WriteCell(maze: array<int>, w: nat, h: nat, c: Cell, v: int)
    requires maze.Length == w * h && InGrid(w, h, c)
    modifies maze
    ensures View(maze[..], w, h) == old(View(maze[..], w, h))[c := v]
  {
    ViewUpdate(maze[..], w, h, c, v);
    ghost var before := maze[..];
    maze[c.y * w + c.x] := v;
    assert maze[..] == before[Index(w, c) := v];
  }

  method ReadCell(maze: array<int>, w: nat, h: nat, c: Cell) returns (v: int)
    requires maze.Length == w * h && InGrid(w, h, c)
    ensures v == View(maze[..], w, h)[c]
  {
    IndexInRange(w, h, c);
    v := maze[c.y * w + c.x];
    assert v == maze[..][Index(w, c)];
  }

  method LooksStuck(maze: array<int>, w: nat, h: nat, at: Cell, ghost s: State) returns (stuck: bool)
    requires maze.Length == w * h && Safe(w, h, s) && View(maze[..], w, h) == s.cells
    requires s.at == at != Goal(w, h)
    ensures stuck <==> Stuck(w, h, s)
  {
    stuck := true;
    for d := 0 to 4
      invariant stuck <==> forall e :: 0 <= e < d ==> Ahead(s, e) != 0 && Ahead(s, e) != 2
    {
      var mark := ReadCell(maze, w, h, Neighbour(at, d));
      assert mark == Ahead(s, d);
      if mark == 0 || mark == 2 {
        stuck := false;
      }
    }
  }
}
