/** `carve_maze` and `generate_maze` of `demos/maze.c`. The grid only holds
    0 and 1 here, so the model is the set of open cells. */
module MazeCarver {
  import opened MazeGrid
  import S = MazeSolver

  /** Rooms sit at odd/odd positions, doors between two rooms. */
  predicate IsRoom(c: Cell) { c.x % 2 == 1 && c.y % 2 == 1 }

  predicate IsDoor(c: Cell) { c.x % 2 != c.y % 2 }

  /** The locals of `carve_maze`, the open cells and the number of draws so far. */
  datatype Walk = Walk(open: set<Cell>, at: Cell, dir: int, count: int, next: nat)

  /** `maze_rand() % 4`, drawn for the i-th time. A run draws finitely often, so a
      finite list of draws stands for the generator; past its end the draw is 0. */
  function Draw(draws: seq<nat>, i: nat): (d: int)
    ensures 0 <= d < 4 && (i < |draws| && draws[i] < 4 ==> d == draws[i])
  {
    if i < |draws| then draws[i] % 4 else 0
  }

  function Door(c: Cell, dir: int): Cell { Neighbour(c, dir) }

  function Room(c: Cell, dir: int): Cell { Neighbour(Neighbour(c, dir), dir) }

  /** The test before a move: the room two steps on is inside, and it and the
      door on the way are still walls. */
  predicate CanCarve(w: nat, h: nat, open: set<Cell>, c: Cell, dir: int) {
    var r := Room(c, dir);
    0 < r.x < w && 0 < r.y < h && Door(c, dir) !in open && r !in open
  }

  /** No direction can be carved from `at`. */
  ghost predicate NoWayOn(w: nat, h: nat, open: set<Cell>, at: Cell) {
    forall d :: 0 <= d < 4 ==> !CanCarve(w, h, open, at, d)
  }

  ghost function Walls(w: nat, h: nat, open: set<Cell>): set<Cell> {
    set x, y | 0 <= x < w && 0 <= y < h && Cell(x, y) !in open :: Cell(x, y)
  }

  lemma CarvingUsesUpWalls(w: nat, h: nat, open: set<Cell>, c: Cell, dir: int)
    requires CanCarve(w, h, open, c, dir)
    ensures Walls(w, h, open + {Door(c, dir), Room(c, dir)}) < Walls(w, h, open)
  {
    var r := Room(c, dir);
    assert r == Cell(r.x, r.y);
    assert r in Walls(w, h, open);
  }

  /** The loop of `carve_maze`, to its end. */
  ghost function Carve(w: nat, h: nat, draws: seq<nat>, s: Walk): Walk
    decreases Walls(w, h, s.open), 4 - s.count
  {
    if s.count >= 4 then
      s
    else if CanCarve(w, h, s.open, s.at, s.dir) then
      CarvingUsesUpWalls(w, h, s.open, s.at, s.dir);
      Carve(w, h, draws, Moved(draws, s))
    else
      Carve(w, h, draws, Turned(s))
  }

  lemma CarveUnfolds(w: nat, h: nat, draws: seq<nat>, s: Walk)
    requires s.count < 4
    ensures Carve(w, h, draws, s)
         == Carve(w, h, draws, if CanCarve(w, h, s.open, s.at, s.dir) then Moved(draws, s) else Turned(s))
  {
  }

  function Moved(draws: seq<nat>, s: Walk): Walk {
    Walk(s.open + {Door(s.at, s.dir), Room(s.at, s.dir)}, Room(s.at, s.dir), Draw(draws, s.next), 0, s.next + 1)
  }

  function Turned(s: Walk): Walk {
    s.(dir := (s.dir + 1) % 4, count := s.count + 1)
  }

  /** One call of `carve_maze`. */
  ghost function CarveFrom(w: nat, h: nat, draws: seq<nat>, open: set<Cell>, c: Cell, next: nat): Walk {
    Carve(w, h, draws, Walk(open, c, Draw(draws, next), 0, next + 1))
  }

  /** The two nested `for` loops of `generate_maze`, from position `(x, y)` on. */
  ghost function Generate(w: nat, h: nat, draws: seq<nat>, open: set<Cell>, next: nat, x: nat, y: nat): set<Cell>
    decreases h - y, w - x
  {
    if y >= h then open
    else if x >= w then Generate(w, h, draws, open, next, 1, y + 2)
    else
      var s := CarveFrom(w, h, draws, open, Cell(x, y), next);
      Generate(w, h, draws, s.open, s.next, x + 2, y)
  }

  ghost function Generated(w: nat, h: nat, draws: seq<nat>): set<Cell> {
    Generate(w, h, draws, {S.START}, 0, 1, 1)
  }

  // ----- What every call of the carver keeps, for all draws

  ghost predicate OddSize(w: nat, h: nat) { w >= 3 && h >= 3 && w % 2 == 1 && h % 2 == 1 }

  ghost function Rooms(open: set<Cell>): set<Cell> { set c | c in open && IsRoom(c) }

  ghost function Doors(open: set<Cell>): set<Cell> { set c | c in open && IsDoor(c) }

  /** Only interior rooms and doors are open, and there is one more room than doors. */
  ghost predicate Legal(w: nat, h: nat, open: set<Cell>) {
    && (forall c :: c in open ==> Interior(w, h, c) && (IsRoom(c) || IsDoor(c)))
    && |Rooms(open)| == 1 + |Doors(open)|
  }

  /** Where `carve_maze` stands: always on a room. */
  ghost predicate Standing(w: nat, h: nat, c: Cell) { IsRoom(c) && 0 < c.x < w && 0 < c.y < h }

  /** From a room, one step is a door and two steps are a room again. */
  lemma MoveShape(c: Cell, dir: int)
    requires IsRoom(c) && 0 <= dir < 4
    ensures IsDoor(Door(c, dir)) && IsRoom(Room(c, dir))
    ensures Adjacent(c, Door(c, dir)) && Adjacent(Door(c, dir), Room(c, dir))
  {
  }

  lemma MoveStaysInside(w: nat, h: nat, c: Cell, dir: int)
    requires OddSize(w, h) && Standing(w, h, c) && 0 <= dir < 4
    requires 0 < Room(c, dir).x < w && 0 < Room(c, dir).y < h
    ensures Interior(w, h, Door(c, dir)) && Interior(w, h, Room(c, dir))
  {
    MoveShape(c, dir);
  }

  /** A door joins just the two rooms of the move; rooms touch only doors. */
  lemma DoorJoins(c: Cell, dir: int, m: Cell)
    requires IsRoom(c) && 0 <= dir < 4
    ensures Adjacent(Door(c, dir), m) && IsRoom(m) ==> m == c || m == Room(c, dir)
    ensures Adjacent(Door(c, dir), m) ==> !IsDoor(m)
  {
    MoveShape(c, dir);
  }

  lemma RoomTouchesDoors(c: Cell, m: Cell)
    requires IsRoom(c) && Adjacent(c, m)
    ensures IsDoor(m) && !IsRoom(m)
  {
  }

  lemma MoveIsLegal(w: nat, h: nat, open: set<Cell>, c: Cell, dir: int)
    requires OddSize(w, h) && Legal(w, h, open) && Standing(w, h, c) && 0 <= dir < 4 && CanCarve(w, h, open, c, dir)
    ensures Legal(w, h, open + {Door(c, dir), Room(c, dir)}) && Standing(w, h, Room(c, dir))
  {
    MoveShape(c, dir);
    MoveStaysInside(w, h, c, dir);
    OneMoreOfEach(open, Door(c, dir), Room(c, dir));
  }

  lemma OneMoreOfEach(open: set<Cell>, d: Cell, r: Cell)
    requires IsDoor(d) && IsRoom(r) && d !in open && r !in open
    ensures |Rooms(open + {d, r})| == |Rooms(open)| + 1 && |Doors(open + {d, r})| == |Doors(open)| + 1
  {
    assert !IsRoom(d) && !IsDoor(r);
    assert Rooms(open + {d, r}) == Rooms(open) + {r};
    assert Doors(open + {d, r}) == Doors(open) + {d};
  }

  lemma {:induction false} CarveKeepsLegal(w: nat, h: nat, draws: seq<nat>, s: Walk)
    requires OddSize(w, h) && Legal(w, h, s.open) && Standing(w, h, s.at) && 0 <= s.dir < 4
    ensures var r := Carve(w, h, draws, s); Legal(w, h, r.open) && s.open <= r.open
    decreases Walls(w, h, s.open), 4 - s.count
  {
    if s.count >= 4 {
    } else if CanCarve(w, h, s.open, s.at, s.dir) {
      CarvingUsesUpWalls(w, h, s.open, s.at, s.dir);
      MoveIsLegal(w, h, s.open, s.at, s.dir);
      CarveKeepsLegal(w, h, draws, Moved(draws, s));
    } else {
      CarveKeepsLegal(w, h, draws, Turned(s));
    }
  }

  lemma NextOdd(x: nat)
    ensures (x + 2) % 2 == x % 2
  {
  }

  lemma {:induction false} GenerateKeepsLegal(
    w: nat, h: nat, draws: seq<nat>, open: set<Cell>, next: nat, x: nat, y: nat)
    requires OddSize(w, h) && Legal(w, h, open) && x % 2 == 1 && y % 2 == 1
    ensures var r := Generate(w, h, draws, open, next, x, y); Legal(w, h, r) && open <= r
    decreases h - y, w - x
  {
    if y >= h {
    } else if x >= w {
      NextOdd(y);
      GenerateKeepsLegal(w, h, draws, open, next, 1, y + 2);
    } else {
      CarveKeepsLegal(w, h, draws, Walk(open, Cell(x, y), Draw(draws, next), 0, next + 1));
      var s := CarveFrom(w, h, draws, open, Cell(x, y), next);
      NextOdd(x);
      GenerateKeepsLegal(w, h, draws, s.open, s.next, x + 2, y);
    }
  }

  /** For every sequence of draws: no border cell and no even/even cell is open,
      the start is, and the rooms outnumber the doors by one. */
  lemma GeneratedIsLegal(w: nat, h: nat, draws: seq<nat>)
    requires OddSize(w, h)
    ensures Legal(w, h, Generated(w, h, draws)) && S.START in Generated(w, h, draws)
  {
    assert Rooms({S.START}) == {S.START} && Doors({S.START}) == {};
    GenerateKeepsLegal(w, h, draws, {S.START}, 0, 1, 1);
  }

  // ----- The array code

  /** The array `m` has its zeros exactly at `open`. */
  ghost predicate Shows(m: seq<int>, w: nat, h: nat, open: set<Cell>) {
    && |m| == w * h
    && (forall i :: 0 <= i < |m| ==> m[i] == 0 || m[i] == 1)
    && (forall c :: c in open ==> InGrid(w, h, c))
    && (forall c :: InGrid(w, h, c) ==> (View(m, w, h)[c] == 0 <==> c in open))
  }

  method IsWall(maze: array<int>, w: nat, h: nat, c: Cell, ghost open: set<Cell>) returns (wall: bool)
    requires Shows(maze[..], w, h, open) && InGrid(w, h, c)
    ensures wall <==> c !in open
  {
    var v := S.ReadCell(maze, w, h, c);
    assert maze[..][Index(w, c)] == v;
    wall := v == 1;
  }

  method OpenCell(maze: array<int>, w: nat, h: nat, c: Cell, ghost open: set<Cell>)
    requires Shows(maze[..], w, h, open) && InGrid(w, h, c)
    modifies maze
    ensures Shows(maze[..], w, h, open + {c})
  {
    ViewUpdate(maze[..], w, h, c, 0);
    ghost var before := maze[..];
    maze[c.y * w + c.x] := 0;
    assert maze[..] == before[Index(w, c) := 0];
  }

  /** The test and the two writes of one iteration. */
  method TryCarve(maze: array<int>, w: nat, h: nat, at: Cell, dir: int, ghost open: set<Cell>) returns (carved: bool)
    requires OddSize(w, h) && Shows(maze[..], w, h, open) && Standing(w, h, at) && 0 <= dir < 4
    modifies maze
    ensures carved <==> CanCarve(w, h, open, at, dir)
    ensures Shows(maze[..], w, h, if carved then open + {Door(at, dir), Room(at, dir)} else open)
    ensures carved ==> Standing(w, h, Room(at, dir))
  {
    var door, room := Door(at, dir), Room(at, dir);
    if !(room.x > 0 && room.x < w && room.y > 0 && room.y < h) {
      return false;
    }
    MoveShape(at, dir);
    MoveStaysInside(w, h, at, dir);
    carved := IsWall(maze, w, h, door, open);
    if carved {
      carved := IsWall(maze, w, h, room, open);
    }
    if carved {
      OpenCell(maze, w, h, door, open);
      OpenCell(maze, w, h, room, open + {door});
      assert open + {door} + {room} == open + {door, room};
    }
  }

  /** One iteration: move on and draw again, or turn. */
  method CarveStep(
    maze: array<int>, w: nat, h: nat, draws: seq<nat>, at: Cell, dir: int, count: int, next: nat, ghost s: Walk)
    returns (at': Cell, dir': int, count': int, next': nat, ghost s': Walk)
    requires OddSize(w, h) && Shows(maze[..], w, h, s.open) && Standing(w, h, at) && 0 <= dir < 4
    requires s == Walk(s.open, at, dir, count, next)
    modifies maze
    ensures s' == if CanCarve(w, h, s.open, at, dir) then Moved(draws, s) else Turned(s)
    ensures s' == Walk(s'.open, at', dir', count', next')
    ensures Shows(maze[..], w, h, s'.open) && Standing(w, h, at') && 0 <= dir' < 4
  {
    var carved := TryCarve(maze, w, h, at, dir, s.open);
    if carved {
      at', dir', count', next' := Room(at, dir), Draw(draws, next), 0, next + 1;
      s' := Moved(draws, s);
    } else {
      at', dir', count', next' := at, (dir + 1) % 4, count + 1, next;
      s' := Turned(s);
    }
  }

  /** `carve_maze`: the array ends up showing what `CarveFrom` says. */
  method CarveMaze(
    maze: array<int>, w: nat, h: nat, x0: nat, y0: nat, draws: seq<nat>, first: nat, ghost open: set<Cell>)
    returns (next: nat)
    requires OddSize(w, h) && Shows(maze[..], w, h, open) && Standing(w, h, Cell(x0, y0))
    modifies maze
    ensures Shows(maze[..], w, h, CarveFrom(w, h, draws, open, Cell(x0, y0), first).open)
    ensures next == CarveFrom(w, h, draws, open, Cell(x0, y0), first).next
  {
    var at, dir, count := Cell(x0, y0), Draw(draws, first), 0;
    next := first + 1;
    ghost var s := Walk(open, at, dir, count, next);
    ghost var end := CarveFrom(w, h, draws, open, at, first);
    while count < 4
      invariant Shows(maze[..], w, h, s.open) && Standing(w, h, at) && 0 <= dir < 4
      invariant s == Walk(s.open, at, dir, count, next) && Carve(w, h, draws, s) == end
      decreases Walls(w, h, s.open), 4 - count
    {
      CarveUnfolds(w, h, draws, s);
      if CanCarve(w, h, s.open, at, dir) {
        CarvingUsesUpWalls(w, h, s.open, at, dir);
      }
      at, dir, count, next, s := CarveStep(maze, w, h, draws, at, dir, count, next, s);
    }
  }

  method FillWithWalls(maze: array<int>, w: nat, h: nat)
    requires maze.Length == w * h
    modifies maze
    ensures Shows(maze[..], w, h, {})
  {
    for i := 0 to w * h
      invariant forall k :: 0 <= k < i ==> maze[k] == 1
    {
      maze[i] := 1;
    }
    forall c | InGrid(w, h, c)
      ensures View(maze[..], w, h)[c] == 1
    {
      assert View(maze[..], w, h)[c] == maze[..][Index(w, c)];
    }
  }

  /** The inner loop of `generate_maze`: a call of `carve_maze` for every odd cell
      of row `y`. */
  method CarveRow(maze: array<int>, w: nat, h: nat, y: nat, draws: seq<nat>, first: nat, ghost before: set<Cell>)
    returns (next: nat, ghost open: set<Cell>)
    requires OddSize(w, h) && maze.Length == w * h && y % 2 == 1 && y < h && Shows(maze[..], w, h, before)
    modifies maze
    ensures Shows(maze[..], w, h, open)
    ensures Generate(w, h, draws, open, next, 1, y + 2) == Generate(w, h, draws, before, first, 1, y)
  {
    next, open := first, before;
    var x := 1;
    while x < w
      invariant x % 2 == 1 && Shows(maze[..], w, h, open)
      invariant Generate(w, h, draws, open, next, x, y) == Generate(w, h, draws, before, first, 1, y)
    {
      ghost var s := CarveFrom(w, h, draws, open, Cell(x, y), next);
      next := CarveMaze(maze, w, h, x, y, draws, next, open);
      open := s.open;
      NextOdd(x);
      x := x + 2;
    }
  }

  /** Both loops of `generate_maze`, from the one open cell. */
  method CarveRows(maze: array<int>, w: nat, h: nat, draws: seq<nat>)
    requires OddSize(w, h) && maze.Length == w * h && Shows(maze[..], w, h, {S.START})
    modifies maze
    ensures Shows(maze[..], w, h, Generated(w, h, draws))
  {
    ghost var open := {S.START};
    var next, y := 0, 1;
    while y < h
      invariant y % 2 == 1 && Shows(maze[..], w, h, open)
      invariant Generate(w, h, draws, open, next, 1, y) == Generated(w, h, draws)
    {
      next, open := CarveRow(maze, w, h, y, draws, next, open);
      NextOdd(y);
      y := y + 2;
    }
  }

  /** `generate_maze`: the carved grid plus the two openings, which is what
      `solve_maze` expects of its caller. */
  method GenerateMaze(maze: array<int>, w: nat, h: nat, draws: seq<nat>)
    requires OddSize(w, h) && maze.Length == w * h
    modifies maze
    ensures Shows(maze[..], w, h, Generated(w, h, draws) + {S.ENTRY, S.Exit(w, h)})
    ensures S.Solvable(w, h, View(maze[..], w, h))
    ensures S.Open(S.Start(w, h, View(maze[..], w, h))) == Generated(w, h, draws)
    ensures OpenBorder(w, h, View(maze[..], w, h))
  {
    FillWithWalls(maze, w, h);
    OpenCell(maze, w, h, S.START, {});
    assert {} + {S.START} == {S.START};
    CarveRows(maze, w, h, draws);
    ghost var open := Generated(w, h, draws);
    GeneratedIsLegal(w, h, draws);
    OpenCell(maze, w, h, S.ENTRY, open);
    OpenCell(maze, w, h, S.Exit(w, h), open + {S.ENTRY});
    assert open + {S.ENTRY} + {S.Exit(w, h)} == open + {S.ENTRY, S.Exit(w, h)};
    ShownIsSolvable(maze[..], w, h, open);
  }

  /** Of the border only (1, 0) and (w - 2, h - 1) are open. */
  ghost predicate OpenBorder(w: nat, h: nat, cells: map<Cell, int>) {
    forall c :: c in cells && (c.x == 0 || c.y == 0 || c.x == w - 1 || c.y == h - 1) ==>
      (cells[c] == 0 <==> c == Cell(1, 0) || c == Cell(w - 2, h - 1))
  }

  lemma ShownIsSolvable(m: seq<int>, w: nat, h: nat, open: set<Cell>)
    requires OddSize(w, h) && Legal(w, h, open) && S.START in open
    requires Shows(m, w, h, open + {S.ENTRY, S.Exit(w, h)})
    ensures S.Solvable(w, h, View(m, w, h))
    ensures S.Open(S.Start(w, h, View(m, w, h))) == open
    ensures OpenBorder(w, h, View(m, w, h))
  {
    var v := View(m, w, h);
    forall c | c in v
      ensures v[c] == 0 || v[c] == 1
    {
      assert v[c] == m[Index(w, c)];
    }
    assert InGrid(w, h, S.START);
    var s := S.Start(w, h, v);
    forall c
      ensures c in S.Open(s) <==> c in open
    {
    }
  }
}
