/** The shape of what `generate_maze` of `demos/maze.c` makes, and what `solve_maze`
    therefore does on it. */
module MazeShape {
  import opened MazeGrid
  import opened MazeCarver
  import S = MazeSolver

  // ----- No cycle can be reached from the start, for all draws

  /** `kid[d]` is the room opened together with the door `d`: every open door has
      one of its own, next to it, and the start is nobody's. */
  ghost predicate Kids(open: set<Cell>, kid: map<Cell, Cell>) {
    && S.START in open && kid.Keys == Doors(open)
    && (forall d :: d in kid ==> kid[d] in open && kid[d] != S.START && IsRoom(kid[d]) && Adjacent(d, kid[d]))
    && (forall d, e :: d in kid && e in kid && kid[d] == kid[e] ==> d == e)
  }

  lemma MoveKeepsKids(w: nat, h: nat, open: set<Cell>, kid: map<Cell, Cell>, c: Cell, dir: int)
    requires Kids(open, kid) && IsRoom(c) && 0 <= dir < 4 && CanCarve(w, h, open, c, dir)
    ensures Kids(open + {Door(c, dir), Room(c, dir)}, kid[Door(c, dir) := Room(c, dir)])
  {
    MoveShape(c, dir);
    var d, r := Door(c, dir), Room(c, dir);
    assert !IsDoor(r);
    assert Doors(open + {d, r}) == Doors(open) + {d};
  }

  lemma {:induction false} CarveKeepsKids(w: nat, h: nat, draws: seq<nat>, s: Walk, kid: map<Cell, Cell>)
    returns (kid': map<Cell, Cell>)
    requires OddSize(w, h) && Kids(s.open, kid) && Standing(w, h, s.at) && 0 <= s.dir < 4
    ensures Kids(Carve(w, h, draws, s).open, kid')
    decreases Walls(w, h, s.open), 4 - s.count
  {
    if s.count >= 4 {
      kid' := kid;
    } else if CanCarve(w, h, s.open, s.at, s.dir) {
      CarvingUsesUpWalls(w, h, s.open, s.at, s.dir);
      MoveShape(s.at, s.dir);
      MoveKeepsKids(w, h, s.open, kid, s.at, s.dir);
      kid' := CarveKeepsKids(w, h, draws, Moved(draws, s), kid[Door(s.at, s.dir) := Room(s.at, s.dir)]);
    } else {
      kid' := CarveKeepsKids(w, h, draws, Turned(s), kid);
    }
  }

  ghost predicate HasKids(open: set<Cell>) { exists kid :: Kids(open, kid) }

  /** What every call keeps, the generation keeps. */
  lemma {:induction false} GenerationKeeps(
    keep: iset<set<Cell>>, w: nat, h: nat, draws: seq<nat>, open: set<Cell>, next: nat, x: nat, y: nat)
    requires open in keep && x % 2 == 1 && y % 2 == 1
    requires forall o, c, n: nat :: o in keep && Standing(w, h, c) ==> CarveFrom(w, h, draws, o, c, n).open in keep
    ensures Generate(w, h, draws, open, next, x, y) in keep
    decreases h - y, w - x
  {
    if y >= h {
    } else if x >= w {
      NextOdd(y);
      GenerationKeeps(keep, w, h, draws, open, next, 1, y + 2);
    } else {
      assert Standing(w, h, Cell(x, y));
      var s := CarveFrom(w, h, draws, open, Cell(x, y), next);
      NextOdd(x);
      GenerationKeeps(keep, w, h, draws, s.open, s.next, x + 2, y);
    }
  }

  lemma GeneratedHasKids(w: nat, h: nat, draws: seq<nat>)
    requires OddSize(w, h)
    ensures HasKids(Generated(w, h, draws))
  {
    var keep := iset o | HasKids(o);
    forall o, c, n: nat | o in keep && Standing(w, h, c) ensures CarveFrom(w, h, draws, o, c, n).open in keep {
      var kid :| Kids(o, kid);
      var kid' := CarveKeepsKids(w, h, draws, Walk(o, c, Draw(draws, n), 0, n + 1), kid);
    }
    assert Doors({S.START}) == {};
    assert Kids({S.START}, map[]);
    GenerationKeeps(keep, w, h, draws, {S.START}, 0, 1, 1);
  }

  /** A door lies between just two rooms. */
  lemma DoorHasTwoRooms(d: Cell, a: Cell, b: Cell, c: Cell)
    requires IsDoor(d) && IsRoom(a) && IsRoom(b) && IsRoom(c) && Adjacent(d, a) && Adjacent(d, b) && Adjacent(d, c)
    ensures a == b || a == c || b == c
  {
  }

  ghost predicate RoomsAndDoors(open: set<Cell>) { forall c :: c in open ==> IsRoom(c) || IsDoor(c) }

  /** On a simple path from the start every room is the kid of the door before it,
      and no door's kid is the room before it. */
  ghost predicate Onward(kid: map<Cell, Cell>, p: seq<Cell>, i: nat)
    requires 0 < i < |p|
  {
    if IsRoom(p[i]) then p[i - 1] in kid && kid[p[i - 1]] == p[i]
    else p[i] in kid && kid[p[i]] != p[i - 1]
  }

  lemma {:induction false} PathsLeadOnward(open: set<Cell>, kid: map<Cell, Cell>, p: seq<Cell>, i: nat)
    requires RoomsAndDoors(open) && Kids(open, kid) && Path(open, p) && Distinct(p) && p[0] == S.START && 0 < i < |p|
    ensures Onward(kid, p, i) && IsRoom(p[i]) == IsDoor(p[i - 1])
  {
    assert Adjacent(p[i - 1], p[i]) && p[i] in open && p[i - 1] in open;
    if IsRoom(p[i - 1]) {
      RoomTouchesDoors(p[i - 1], p[i]);
    }
    if i > 1 {
      PathsLeadOnward(open, kid, p, i - 1);
      assert p[i - 2] != p[i];
      if IsRoom(p[i]) {
        assert Adjacent(p[i - 2], p[i - 1]);
        DoorHasTwoRooms(p[i - 1], p[i - 2], p[i], kid[p[i - 1]]);
      }
    }
  }

  /** So the cell before any cell is the same on every such path. */
  lemma SamePredecessor(open: set<Cell>, kid: map<Cell, Cell>, p: seq<Cell>, q: seq<Cell>)
    requires RoomsAndDoors(open) && Kids(open, kid)
    requires Path(open, p) && Distinct(p) && Path(open, q) && Distinct(q) && p[0] == q[0] == S.START
    requires |p| >= 2 && |q| >= 2 && p[|p| - 1] == q[|q| - 1]
    ensures p[|p| - 2] == q[|q| - 2]
  {
    var i, j := |p| - 1, |q| - 1;
    PathsLeadOnward(open, kid, p, i);
    PathsLeadOnward(open, kid, q, j);
    assert Adjacent(p[i - 1], p[i]) && Adjacent(q[j - 1], q[j]);
    if IsDoor(p[i]) {
      assert p[i - 1] in open && q[j - 1] in open;
      DoorHasTwoRooms(p[i], p[i - 1], q[j - 1], kid[p[i]]);
    }
  }

  lemma {:induction false} OnePathFromStart(open: set<Cell>, kid: map<Cell, Cell>, p: seq<Cell>, q: seq<Cell>)
    requires RoomsAndDoors(open) && Kids(open, kid)
    requires Path(open, p) && Distinct(p) && Path(open, q) && Distinct(q) && p[0] == q[0] == S.START
    requires p[|p| - 1] == q[|q| - 1]
    ensures p == q
    decreases |p|
  {
    if |p| >= 2 && |q| >= 2 {
      SamePredecessor(open, kid, p, q);
      var p', q' := p[..|p| - 1], q[..|q| - 1];
      OnePathFromStart(open, kid, p', q');
      assert p == p' + [p[|p| - 1]] && q == q' + [q[|q| - 1]];
    }
  }

  /** For every sequence of draws: the cells that can be reached from the start form
      no cycle, whatever was carved elsewhere. */
  lemma GeneratedIsTreelike(w: nat, h: nat, draws: seq<nat>)
    requires OddSize(w, h)
    ensures S.Treelike(Generated(w, h, draws))
  {
    var open := Generated(w, h, draws);
    GeneratedIsLegal(w, h, draws);
    GeneratedHasKids(w, h, draws);
    var kid :| Kids(open, kid);
    forall p, q, b | SimplePath(open, p, S.START, b) && SimplePath(open, q, S.START, b) ensures p == q {
      OnePathFromStart(open, kid, p, q);
    }
    OnePathMeansAcyclic(open, S.START);
  }

  // ----- Calls that start in an open room grow a tree

  /** The open cells form one tree, and every open door has a room on both sides. */
  ghost predicate Tree(open: set<Cell>) {
    && S.START in open && Acyclic(open)
    && (forall c :: c in open ==> Reachable(open, S.START, c))
    && (forall c, r :: c in open && IsDoor(c) && IsRoom(r) && Adjacent(c, r) ==> r in open)
  }

  lemma ReachableGrows(open: set<Cell>, open': set<Cell>, a: Cell, b: Cell)
    requires open <= open' && Reachable(open, a, b)
    ensures Reachable(open', a, b)
  {
    var p :| Path(open, p) && p[0] == a && p[|p| - 1] == b;
    assert Path(open', p);
  }

  /** Opening a cell with a single open neighbour closes no cycle. */
  lemma LeafKeepsAcyclic(open: set<Cell>, a: Cell, n: Cell)
    requires Acyclic(open) && a in open && n !in open && Adjacent(a, n)
    requires forall m :: m in open && Adjacent(n, m) ==> m == a
    ensures Acyclic(open + {n})
  {
    forall p | Path(open + {n}, p) && Distinct(p) && |p| >= 3
      ensures !Adjacent(p[0], p[|p| - 1])
    {
      if n in p {
        var i :| 0 <= i < |p| && p[i] == n;
        var before := if i == 0 then |p| - 1 else i - 1;
        var after := if i == |p| - 1 then 0 else i + 1;
        var left, right := p[before], p[after];
        assert left != right && left in open && right in open;
        assert Adjacent(p[0], p[|p| - 1]) ==> Adjacent(n, left) && Adjacent(n, right);
      } else {
        assert Path(open, p);
      }
    }
  }

  lemma MoveKeepsTree(w: nat, h: nat, open: set<Cell>, c: Cell, dir: int)
    requires OddSize(w, h) && Legal(w, h, open) && Standing(w, h, c) && 0 <= dir < 4 && CanCarve(w, h, open, c, dir)
    requires Tree(open) && c in open
    ensures Tree(open + {Door(c, dir), Room(c, dir)})
  {
    MoveShape(c, dir);
    var d, r := Door(c, dir), Room(c, dir);
    var mid := open + {d};
    var all := mid + {r};
    forall m | m in open && Adjacent(d, m)
      ensures m == c
    {
      DoorJoins(c, dir, m);
    }
    LeafKeepsAcyclic(open, c, d);
    forall m | m in mid && Adjacent(r, m)
      ensures m == d
    {
      RoomTouchesDoors(r, m);
    }
    LeafKeepsAcyclic(mid, d, r);
    forall m | m in all
      ensures Reachable(all, S.START, m)
    {
      ReachableGrows(open, all, S.START, c);
      ReachableExtend(all, S.START, c, d);
      ReachableExtend(all, S.START, d, r);
      if m in open {
        ReachableGrows(open, all, S.START, m);
      }
    }
    forall e, m | e in all && IsDoor(e) && IsRoom(m) && Adjacent(e, m)
      ensures m in all
    {
      DoorJoins(c, dir, m);
    }
    assert all == open + {d, r};
  }

  lemma {:induction false} CarveKeepsTree(w: nat, h: nat, draws: seq<nat>, s: Walk)
    requires OddSize(w, h) && Legal(w, h, s.open) && Standing(w, h, s.at) && 0 <= s.dir < 4
    requires Tree(s.open) && s.at in s.open
    ensures Tree(Carve(w, h, draws, s).open)
    decreases Walls(w, h, s.open), 4 - s.count
  {
    if s.count >= 4 {
    } else if CanCarve(w, h, s.open, s.at, s.dir) {
      CarvingUsesUpWalls(w, h, s.open, s.at, s.dir);
      MoveIsLegal(w, h, s.open, s.at, s.dir);
      MoveKeepsTree(w, h, s.open, s.at, s.dir);
      CarveKeepsTree(w, h, draws, Moved(draws, s));
    } else {
      CarveKeepsTree(w, h, draws, Turned(s));
    }
  }

  /** The call starts on an open room or opens nothing. */
  ghost predicate CleanCall(w: nat, h: nat, draws: seq<nat>, open: set<Cell>, next: nat, c: Cell) {
    c !in open ==> CarveFrom(w, h, draws, open, c, next).open == open
  }

  /** No call that starts on a wall opens anything. */
  ghost predicate Clean(w: nat, h: nat, draws: seq<nat>, open: set<Cell>, next: nat, x: nat, y: nat)
    decreases h - y, w - x
  {
    if y >= h then true
    else if x >= w then Clean(w, h, draws, open, next, 1, y + 2)
    else
      var s := CarveFrom(w, h, draws, open, Cell(x, y), next);
      CleanCall(w, h, draws, open, next, Cell(x, y)) && Clean(w, h, draws, s.open, s.next, x + 2, y)
  }

  lemma CleanCallKeepsTree(w: nat, h: nat, draws: seq<nat>, open: set<Cell>, next: nat, c: Cell)
    requires OddSize(w, h) && Legal(w, h, open) && Tree(open) && Standing(w, h, c)
    requires CleanCall(w, h, draws, open, next, c)
    ensures var s := CarveFrom(w, h, draws, open, c, next); Legal(w, h, s.open) && Tree(s.open)
  {
    var s := Walk(open, c, Draw(draws, next), 0, next + 1);
    CarveKeepsLegal(w, h, draws, s);
    if c in open {
      CarveKeepsTree(w, h, draws, s);
    }
  }

  lemma StartIsTree()
    ensures Tree({S.START}) && Rooms({S.START}) == {S.START} && Doors({S.START}) == {}
  {
    ReachableRefl({S.START}, S.START);
    forall p: seq<Cell> | |p| >= 2 && p[0] in {S.START} && p[1] in {S.START} ensures !Distinct(p) {
      assert p[0] == p[1];
    }
  }

  // ----- A clean generation always opens the goal

  /** The room from which the goal is reached last in the scan, and the way there. */
  function Last(w: nat, h: nat): Cell { if w >= 5 then Cell(w - 4, h - 2) else Cell(1, h - 4) }
  function Onto(w: nat): int { if w >= 5 then 0 else 1 }

  /** A way from there that stays inside and does not lead to the goal. */
  predicate Other(w: nat, h: nat, d: int) {
    var r := Room(Last(w, h), d);
    0 <= d < 4 && d != Onto(w) && 0 < r.x < w && 0 < r.y < h
  }

  predicate Pending(w: nat, h: nat, open: set<Cell>, d: int) { Other(w, h, d) && Room(Last(w, h), d) !in open }

  ghost predicate OthersOpen(w: nat, h: nat, open: set<Cell>) { forall d :: !Pending(w, h, open, d) }

  /** While the goal is a wall, a walk that has left the last room left nothing but
      the goal to carve there; one that stands on it has at most one other way. */
  ghost predicate LeftAlone(w: nat, h: nat, open: set<Cell>, at: Cell) {
    S.Goal(w, h) !in open && Last(w, h) in open ==>
      if at != Last(w, h) then OthersOpen(w, h, open)
      else forall d, e :: Pending(w, h, open, d) && Pending(w, h, open, e) ==> d == e
  }

  lemma GoalIsNext(w: nat, h: nat, open: set<Cell>)
    requires OddSize(w, h) && (w >= 5 || h >= 5)
    ensures Room(Last(w, h), Onto(w)) == S.Goal(w, h) && Standing(w, h, Last(w, h)) && Standing(w, h, S.Goal(w, h))
    ensures Tree(open) && S.Goal(w, h) !in open ==> CanCarve(w, h, open, Last(w, h), Onto(w))
  {
    var q, g := Last(w, h), S.Goal(w, h);
    assert IsRoom(q) && IsRoom(g);
    MoveShape(q, Onto(w));
  }

  lemma MoveLeavesAlone(w: nat, h: nat, open: set<Cell>, at: Cell, dir: int)
    requires OddSize(w, h) && (w >= 5 || h >= 5) && Standing(w, h, at) && at in open && 0 <= dir < 4
    requires CanCarve(w, h, open, at, dir) && LeftAlone(w, h, open, at)
    ensures LeftAlone(w, h, open + {Door(at, dir), Room(at, dir)}, Room(at, dir))
  {
    var q, r := Last(w, h), Room(at, dir);
    var all := open + {Door(at, dir), r};
    GoalIsNext(w, h, open);
    MoveShape(at, dir);
    if S.Goal(w, h) !in all && q in all {
      if r == q {
        forall d, e | Pending(w, h, all, d) && Pending(w, h, all, e) ensures d == e {
          assert at == Room(q, (dir + 2) % 4);
        }
      } else {
        assert q != Door(at, dir);
        forall d ensures !Pending(w, h, all, d) {
          if at == q {
            assert Pending(w, h, open, dir);
          }
          assert !Pending(w, h, open, d) || d == dir;
        }
      }
    }
  }

  /** The goal is open, or the walk stands on the last room with nothing else to carve. */
  ghost predicate Settling(w: nat, h: nat, open: set<Cell>, at: Cell) {
    S.Goal(w, h) in open || (at == Last(w, h) && OthersOpen(w, h, open))
  }

  lemma MoveSettles(w: nat, h: nat, open: set<Cell>, at: Cell, dir: int)
    requires OddSize(w, h) && (w >= 5 || h >= 5) && 0 <= dir < 4
    requires CanCarve(w, h, open, at, dir) && Settling(w, h, open, at)
    ensures S.Goal(w, h) in open + {Door(at, dir), Room(at, dir)}
  {
    GoalIsNext(w, h, open);
    if S.Goal(w, h) !in open {
      assert !Pending(w, h, open, dir);
    }
  }

  /** The directions not tried since the last move. */
  predicate Untried(s: Walk, d: int) { (if d >= s.dir then d - s.dir else d - s.dir + 4) < 4 - s.count }

  ghost predicate Tried(w: nat, h: nat, s: Walk) {
    0 <= s.dir < 4 && forall d :: 0 <= d < 4 && !Untried(s, d) ==> !CanCarve(w, h, s.open, s.at, d)
  }

  /** A walk ends where nothing can be carved; if it opened nothing, that is where it began. */
  lemma {:induction false} CarveEndsStuck(w: nat, h: nat, draws: seq<nat>, s: Walk)
    requires Tried(w, h, s)
    ensures var r := Carve(w, h, draws, s);
      NoWayOn(w, h, r.open, r.at) && s.open <= r.open && (r.open == s.open ==> r.at == s.at)
    decreases Walls(w, h, s.open), 4 - s.count
  {
    if s.count >= 4 {
    } else if CanCarve(w, h, s.open, s.at, s.dir) {
      CarvingUsesUpWalls(w, h, s.open, s.at, s.dir);
      CarveEndsStuck(w, h, draws, Moved(draws, s));
    } else {
      CarveEndsStuck(w, h, draws, Turned(s));
    }
  }

  lemma {:induction false} CarveLeavesAlone(w: nat, h: nat, draws: seq<nat>, s: Walk)
    requires OddSize(w, h) && (w >= 5 || h >= 5) && Standing(w, h, s.at) && s.at in s.open && 0 <= s.dir < 4
    requires LeftAlone(w, h, s.open, s.at)
    ensures var r := Carve(w, h, draws, s); LeftAlone(w, h, r.open, r.at)
    decreases Walls(w, h, s.open), 4 - s.count
  {
    if s.count >= 4 {
    } else if CanCarve(w, h, s.open, s.at, s.dir) {
      CarvingUsesUpWalls(w, h, s.open, s.at, s.dir);
      MoveShape(s.at, s.dir);
      MoveLeavesAlone(w, h, s.open, s.at, s.dir);
      CarveLeavesAlone(w, h, draws, Moved(draws, s));
    } else {
      CarveLeavesAlone(w, h, draws, Turned(s));
    }
  }

  lemma {:induction false} CarveSettles(w: nat, h: nat, draws: seq<nat>, s: Walk)
    requires OddSize(w, h) && (w >= 5 || h >= 5) && 0 <= s.dir < 4 && Settling(w, h, s.open, s.at)
    ensures var r := Carve(w, h, draws, s); Settling(w, h, r.open, r.at)
    decreases Walls(w, h, s.open), 4 - s.count
  {
    if s.count >= 4 {
    } else if CanCarve(w, h, s.open, s.at, s.dir) {
      CarvingUsesUpWalls(w, h, s.open, s.at, s.dir);
      MoveSettles(w, h, s.open, s.at, s.dir);
      CarveSettles(w, h, draws, Moved(draws, s));
    } else {
      CarveSettles(w, h, draws, Turned(s));
    }
  }

  /** Between two calls: only the goal may be left to carve at the last room. */
  ghost predicate Waiting(w: nat, h: nat, open: set<Cell>) {
    S.Goal(w, h) !in open && Last(w, h) in open ==> OthersOpen(w, h, open)
  }

  lemma CleanCallWaits(w: nat, h: nat, draws: seq<nat>, open: set<Cell>, next: nat, c: Cell)
    requires OddSize(w, h) && (w >= 5 || h >= 5) && Legal(w, h, open) && Tree(open) && Standing(w, h, c)
    requires CleanCall(w, h, draws, open, next, c) && Waiting(w, h, open)
    ensures var r := CarveFrom(w, h, draws, open, c, next).open;
      Waiting(w, h, r) && (c == Last(w, h) ==> S.Goal(w, h) in r)
  {
    var s := Walk(open, c, Draw(draws, next), 0, next + 1);
    var r := Carve(w, h, draws, s);
    CarveEndsStuck(w, h, draws, s);
    CleanCallKeepsTree(w, h, draws, open, next, c);
    GoalIsNext(w, h, r.open);
    if c in open {
      CarveLeavesAlone(w, h, draws, s);
      if c == Last(w, h) {
        CarveSettles(w, h, draws, s);
      }
    }
  }

  /** The scan has not yet passed the last room. */
  predicate Ahead(w: nat, h: nat, x: nat, y: nat) {
    var q := Last(w, h);
    y < q.y || (y == q.y && x <= q.x)
  }

  lemma ScanMovesOn(w: nat, h: nat, x: nat, y: nat)
    requires OddSize(w, h) && (w >= 5 || h >= 5) && x % 2 == 1 && y % 2 == 1 && Ahead(w, h, x, y)
    ensures y < h
    ensures x >= w ==> Ahead(w, h, 1, y + 2)
    ensures x < w && Cell(x, y) != Last(w, h) ==> Ahead(w, h, x + 2, y)
  {
    assert Last(w, h).x % 2 == 1 && Last(w, h).y % 2 == 1;
  }

  /** A call keeps `keep`, and opens the goal if it is the one on the last room. */
  ghost predicate CallKeeps(keep: iset<set<Cell>>, w: nat, h: nat, draws: seq<nat>, o: set<Cell>, c: Cell, n: nat) {
    var r := CarveFrom(w, h, draws, o, c, n).open;
    r in keep && o <= r && (c == Last(w, h) ==> S.Goal(w, h) in r)
  }

  ghost predicate CallsKeep(keep: iset<set<Cell>>, w: nat, h: nat, draws: seq<nat>) {
    forall o, c, n: nat :: o in keep && Standing(w, h, c) && CleanCall(w, h, draws, o, n, c) ==>
      CallKeeps(keep, w, h, draws, o, c, n)
  }

  lemma CleanStep(keep: iset<set<Cell>>, w: nat, h: nat, draws: seq<nat>, open: set<Cell>, next: nat, x: nat, y: nat)
    requires CallsKeep(keep, w, h, draws) && open in keep && x % 2 == 1 && y % 2 == 1 && x < w && y < h
    requires Clean(w, h, draws, open, next, x, y)
    ensures var s := CarveFrom(w, h, draws, open, Cell(x, y), next);
      CallKeeps(keep, w, h, draws, open, Cell(x, y), next) && Clean(w, h, draws, s.open, s.next, x + 2, y)
      && Generate(w, h, draws, open, next, x, y) == Generate(w, h, draws, s.open, s.next, x + 2, y)
  {
    assert Standing(w, h, Cell(x, y)) && CleanCall(w, h, draws, open, next, Cell(x, y));
  }

  lemma {:induction false} CleanGeneration(
    keep: iset<set<Cell>>, w: nat, h: nat, draws: seq<nat>, open: set<Cell>, next: nat, x: nat, y: nat)
    requires OddSize(w, h) && (w >= 5 || h >= 5) && CallsKeep(keep, w, h, draws) && open in keep
    requires x % 2 == 1 && y % 2 == 1 && Clean(w, h, draws, open, next, x, y)
    ensures var r := Generate(w, h, draws, open, next, x, y);
      r in keep && open <= r && (Ahead(w, h, x, y) ==> S.Goal(w, h) in r)
    decreases h - y, w - x
  {
    if Ahead(w, h, x, y) {
      ScanMovesOn(w, h, x, y);
    }
    if y >= h {
    } else if x >= w {
      NextOdd(y);
      CleanGeneration(keep, w, h, draws, open, next, 1, y + 2);
    } else {
      CleanStep(keep, w, h, draws, open, next, x, y);
      var s := CarveFrom(w, h, draws, open, Cell(x, y), next);
      NextOdd(x);
      CleanGeneration(keep, w, h, draws, s.open, s.next, x + 2, y);
    }
  }

  lemma CleanCallsKeep(w: nat, h: nat, draws: seq<nat>) returns (keep: iset<set<Cell>>)
    requires OddSize(w, h) && (w >= 5 || h >= 5)
    ensures keep == iset o | Legal(w, h, o) && Tree(o) && Waiting(w, h, o)
    ensures CallsKeep(keep, w, h, draws)
  {
    keep := iset o | Legal(w, h, o) && Tree(o) && Waiting(w, h, o);
    forall o, c, n: nat | o in keep && Standing(w, h, c) && CleanCall(w, h, draws, o, n, c)
      ensures CallKeeps(keep, w, h, draws, o, c, n)
    {
      CleanCallKeepsTree(w, h, draws, o, n, c);
      CleanCallWaits(w, h, draws, o, n, c);
      CarveKeepsLegal(w, h, draws, Walk(o, c, Draw(draws, n), 0, n + 1));
    }
  }

  lemma StartWaits(w: nat, h: nat)
    requires OddSize(w, h) && (w >= 5 || h >= 5)
    ensures Legal(w, h, {S.START}) && Waiting(w, h, {S.START}) && Ahead(w, h, 1, 1)
  {
    StartIsTree();
    assert Last(w, h) == S.START ==> forall d :: !Pending(w, h, {S.START}, d);
  }

  /** When no call that starts on a wall opens anything, the maze is one tree and
      the goal is open. */
  lemma CleanGeneratesTree(w: nat, h: nat, draws: seq<nat>)
    requires OddSize(w, h) && Clean(w, h, draws, {S.START}, 0, 1, 1)
    ensures Tree(Generated(w, h, draws)) && S.Goal(w, h) in Generated(w, h, draws)
  {
    StartIsTree();
    if w >= 5 || h >= 5 {
      var keep := CleanCallsKeep(w, h, draws);
      StartWaits(w, h);
      CleanGeneration(keep, w, h, draws, {S.START}, 0, 1, 1);
    } else {
      SmallestMaze(w, h, draws);
    }
  }

  /** In a 3 by 3 maze there is nothing to carve. */
  lemma SmallestMaze(w: nat, h: nat, draws: seq<nat>)
    requires w == 3 && h == 3
    ensures Generated(w, h, draws) == {S.START} && S.Goal(w, h) == S.START
  {
    NothingFits(w, h, draws, Walk({S.START}, Cell(1, 1), Draw(draws, 0), 0, 1));
    var s := CarveFrom(w, h, draws, {S.START}, Cell(1, 1), 0);
    assert Generate(w, h, draws, {S.START}, 0, 1, 1) == Generate(w, h, draws, s.open, s.next, 3, 1);
  }

  lemma {:induction false} NothingFits(w: nat, h: nat, draws: seq<nat>, s: Walk)
    requires w == 3 && h == 3 && s.at == Cell(1, 1) && 0 <= s.dir < 4
    ensures Carve(w, h, draws, s).open == s.open
    decreases 4 - s.count
  {
    if s.count < 4 {
      NothingFits(w, h, draws, Turned(s));
    }
  }

  // ----- Generator and solver together

  /** For every sequence of draws: the solver returns exactly when the goal can be
      reached, and then the cells it marks are one simple path there, and the exit. */
  lemma GeneratedMazeIsSolvedIff(w: nat, h: nat, draws: seq<nat>, cells: map<Cell, int>)
    requires OddSize(w, h) && S.Solvable(w, h, cells) && S.Open(S.Start(w, h, cells)) == Generated(w, h, draws)
    ensures (exists k: nat :: S.Run(w, h, S.Start(w, h, cells), k).at == S.Goal(w, h))
            <==> Reachable(Generated(w, h, draws), S.START, S.Goal(w, h))
    ensures forall k: nat, p :: S.Run(w, h, S.Start(w, h, cells), k).at == S.Goal(w, h)
              && SimplePath(Generated(w, h, draws), p, S.START, S.Goal(w, h))
              ==> S.MarksExactly(w, h, S.Finish(w, h, S.Run(w, h, S.Start(w, h, cells), k)), p)
  {
    GeneratedIsTreelike(w, h, draws);
    S.TreelikeHasNoLoop(w, h, Generated(w, h, draws));
    S.TreeSolverTerminatesIff(w, h, cells);
    forall k: nat, p | S.Run(w, h, S.Start(w, h, cells), k).at == S.Goal(w, h)
      && SimplePath(Generated(w, h, draws), p, S.START, S.Goal(w, h))
      ensures S.MarksExactly(w, h, S.Finish(w, h, S.Run(w, h, S.Start(w, h, cells), k)), p)
    {
      S.TreeSolutionIsThePath(w, h, cells, k, p);
    }
  }

  /** When no call that starts on a wall opens anything, the whole maze is one tree,
      the goal is open, and the solver returns, whatever was drawn. */
  lemma CleanMazeIsSolved(w: nat, h: nat, draws: seq<nat>, cells: map<Cell, int>)
    requires OddSize(w, h) && Clean(w, h, draws, {S.START}, 0, 1, 1)
    requires S.Solvable(w, h, cells) && S.Open(S.Start(w, h, cells)) == Generated(w, h, draws)
    ensures Tree(Generated(w, h, draws)) && S.Goal(w, h) in Generated(w, h, draws)
    ensures exists k: nat :: S.Run(w, h, S.Start(w, h, cells), k).at == S.Goal(w, h)
  {
    CleanGeneratesTree(w, h, draws);
    GeneratedMazeIsSolvedIff(w, h, draws, cells);
  }

  /** What is wall in the end: all that was not carved, but for the exit of a solved maze. */
  ghost predicate WallsLeft(w: nat, h: nat, open: set<Cell>, finished: bool, final: map<Cell, int>) {
    forall c :: c in final ==> (final[c] == 1 <==> c !in open && (c == Cell(w - 2, h - 1) ==> !finished))
  }

  lemma WallsAreLeft(w: nat, h: nat, open: set<Cell>, finished: bool, made: map<Cell, int>, final: map<Cell, int>)
    requires OddSize(w, h) && S.Solvable(w, h, made) && S.Open(S.Start(w, h, made)) == open
    requires S.Walls(w, h, made, finished, final)
    ensures WallsLeft(w, h, open, finished, final)
  {
    var s := S.Start(w, h, made);
    assert InGrid(w, h, S.ENTRY) && InGrid(w, h, S.Exit(w, h));
    forall c | c in final ensures final[c] == 1 <==> c !in open && (c == Cell(w - 2, h - 1) ==> !finished) {
      assert c in S.Open(s) <==> s.cells[c] != 1;
    }
  }

  /** `generate_maze` and then `solve_maze` on the same array: for every sequence of
      draws it returns exactly when the goal can be reached, and then one simple
      path there is what is marked. */
  method MakeAndSolve(maze: array<int>, w: nat, h: nat, draws: seq<nat>) returns (finished: bool)
    requires OddSize(w, h) && maze.Length == w * h
    modifies maze
    ensures finished <==> Reachable(Generated(w, h, draws), Cell(1, 1), Cell(w - 2, h - 2))
    ensures finished ==> exists p :: SimplePath(Generated(w, h, draws), p, Cell(1, 1), Cell(w - 2, h - 2))
                              && S.MarksExactly(w, h, View(maze[..], w, h), p)
    ensures WallsLeft(w, h, Generated(w, h, draws), finished, View(maze[..], w, h))
  {
    GenerateMaze(maze, w, h, draws);
    GeneratedIsTreelike(w, h, draws);
    S.TreelikeHasNoLoop(w, h, Generated(w, h, draws));
    ghost var made := View(maze[..], w, h);
    finished := S.SolveMaze(maze, w, h);
    WallsAreLeft(w, h, Generated(w, h, draws), finished, made, View(maze[..], w, h));
    if finished {
      var open := Generated(w, h, draws);
      ghost var walk :| Path(open, walk) && walk[0] == S.START && walk[|walk| - 1] == S.Goal(w, h);
      ghost var p := SimplePathTo(open, walk);
    }
  }
}
