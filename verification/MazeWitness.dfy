/** A sequence of draws for which `generate_maze` makes a 7 by 9 maze whose exit
    cannot be reached, so that `solve_maze` never returns on it. The second call
    of `carve_maze` starts on a wall and walks a ring of its own. */
module MazeWitness {
  import opened MazeGrid
  import opened MazeCarver
  import S = MazeSolver

  // ----- Calls of the carver along a known walk

  ghost function WalkOpen(open: set<Cell>, at: Cell, ds: seq<int>): set<Cell>
    decreases ds
  {
    if ds == [] then open
    else WalkOpen(open + {Door(at, ds[0]), Room(at, ds[0])}, Room(at, ds[0]), ds[1..])
  }

  /** The walk `ds` is possible and ends where no direction can be carved. */
  ghost predicate CanWalk(w: nat, h: nat, open: set<Cell>, at: Cell, ds: seq<int>)
    decreases ds
  {
    if ds == [] then NoWayOn(w, h, open, at)
    else CanCarve(w, h, open, at, ds[0])
         && CanWalk(w, h, open + {Door(at, ds[0]), Room(at, ds[0])}, Room(at, ds[0]), ds[1..])
  }

  lemma {:induction false} NoWayOnTurnsOut(w: nat, h: nat, draws: seq<nat>, s: Walk)
    requires NoWayOn(w, h, s.open, s.at) && 0 <= s.dir < 4
    ensures var r := Carve(w, h, draws, s); r.open == s.open && r.next == s.next
    decreases 4 - s.count
  {
    if s.count < 4 {
      NoWayOnTurnsOut(w, h, draws, Turned(s));
    }
  }

  /** A call that draws the directions `ds` walks along them and stops. */
  lemma {:induction false} WalkingCall(
    w: nat, h: nat, draws: seq<nat>, open: set<Cell>, at: Cell, next: nat, ds: seq<int>)
    requires CanWalk(w, h, open, at, ds)
    requires forall i :: 0 <= i < |ds| ==> Draw(draws, next + i) == ds[i]
    ensures var r := CarveFrom(w, h, draws, open, at, next);
            r.open == WalkOpen(open, at, ds) && r.next == next + |ds| + 1
    decreases |ds|
  {
    var s := Walk(open, at, Draw(draws, next), 0, next + 1);
    if ds == [] {
      NoWayOnTurnsOut(w, h, draws, s);
    } else {
      assert Draw(draws, next + 0) == ds[0];
      forall i | 0 <= i < |ds[1..]|
        ensures Draw(draws, next + 1 + i) == ds[1..][i]
      {
        assert Draw(draws, next + (i + 1)) == ds[i + 1];
      }
      WalkingCall(w, h, draws, Moved(draws, s).open, Room(at, ds[0]), next + 1, ds[1..]);
      assert CarveFrom(w, h, draws, open, at, next) == Carve(w, h, draws, Moved(draws, s));
    }
  }

  /** The loops of `generate_maze` pass over a cell whose call makes the walk `ds`. */
  lemma Advance(w: nat, h: nat, draws: seq<nat>, open: set<Cell>, next: nat, x: nat, y: nat, ds: seq<int>)
    requires x < w && y < h && CanWalk(w, h, open, Cell(x, y), ds)
    requires forall i :: 0 <= i < |ds| ==> Draw(draws, next + i) == ds[i]
    ensures Generate(w, h, draws, open, next, x, y)
         == Generate(w, h, draws, WalkOpen(open, Cell(x, y), ds), next + |ds| + 1, x + 2, y)
  {
    WalkingCall(w, h, draws, open, Cell(x, y), next, ds);
  }

  // ----- The 7 by 9 maze

  const DRAWS: seq<nat> := [1, 1, 0, 1, 2, 0, 0, 1, 2, 3, 0, 0, 0, 0, 1, 1]

  /** The first call's walk down the left side. */
  ghost function LeftPart(): set<Cell> {
    {Cell(1, 1), Cell(1, 2), Cell(1, 3), Cell(1, 4), Cell(1, 5), Cell(2, 5), Cell(3, 5), Cell(3, 6), Cell(3, 7),
     Cell(2, 7), Cell(1, 7)}
  }

  /** The ring carved from the wall cell (3, 1). */
  ghost function Ring(): set<Cell> {
    {Cell(4, 1), Cell(5, 1), Cell(5, 2), Cell(5, 3), Cell(4, 3), Cell(3, 3), Cell(3, 2), Cell(3, 1)}
  }

  /** The last walk, from the ring down to the goal room. */
  ghost function Tail(): set<Cell> {
    {Cell(5, 4), Cell(5, 5), Cell(5, 6), Cell(5, 7)}
  }

  /** One step of a walk, with the set it opens written out. */
  lemma OneStep(w: nat, h: nat, open: set<Cell>, at: Cell, d: int, rest: seq<int>, room: Cell, open': set<Cell>)
    requires CanCarve(w, h, open, at, d) && room == Room(at, d) && open' == open + {Door(at, d), room}
    requires CanWalk(w, h, open', room, rest)
    ensures CanWalk(w, h, open, at, [d] + rest)
    ensures WalkOpen(open, at, [d] + rest) == WalkOpen(open', room, rest)
  {
    assert ([d] + rest)[1..] == rest;
  }

  lemma FirstWalk(w: nat, h: nat, start: set<Cell>, left: set<Cell>, at: Cell, ds: seq<int>)
    requires w == 7 && h == 9 && start == {S.START} && left == LeftPart() && at == Cell(1, 1) && ds == [1, 1, 0, 1, 2]
    ensures CanWalk(w, h, start, at, ds) && WalkOpen(start, at, ds) == left
  {
    var o1 := {S.START, Cell(1, 2), Cell(1, 3)};
    var o2 := o1 + {Cell(1, 4), Cell(1, 5)};
    var o3 := o2 + {Cell(2, 5), Cell(3, 5)};
    var o4 := o3 + {Cell(3, 6), Cell(3, 7)};
    OneStep(w, h, o4, Cell(3, 7), 2, [], Cell(1, 7), LeftPart());
    OneStep(w, h, o3, Cell(3, 5), 1, [2], Cell(3, 7), o4);
    OneStep(w, h, o2, Cell(1, 5), 0, [1, 2], Cell(3, 5), o3);
    OneStep(w, h, o1, Cell(1, 3), 1, [0, 1, 2], Cell(1, 5), o2);
    OneStep(w, h, start, at, 1, [1, 0, 1, 2], Cell(1, 3), o1);
    assert [1] + [1, 0, 1, 2] == ds && [1] + [0, 1, 2] == [1, 0, 1, 2];
    assert [0] + [1, 2] == [0, 1, 2] && [1] + [2] == [1, 2] && [2] + [] == [2];
  }

  lemma RingWalk(ds: seq<int>)
    requires ds == [0, 1, 2, 3]
    ensures CanWalk(7, 9, LeftPart(), Cell(3, 1), ds)
    ensures WalkOpen(LeftPart(), Cell(3, 1), ds) == LeftPart() + Ring()
  {
    var o1 := LeftPart() + {Cell(4, 1), Cell(5, 1)};
    var o2 := o1 + {Cell(5, 2), Cell(5, 3)};
    var o3 := o2 + {Cell(4, 3), Cell(3, 3)};
    OneStep(7, 9, o3, Cell(3, 3), 3, [], Cell(3, 1), LeftPart() + Ring());
    OneStep(7, 9, o2, Cell(5, 3), 2, [3], Cell(3, 3), o3);
    OneStep(7, 9, o1, Cell(5, 1), 1, [2, 3], Cell(5, 3), o2);
    OneStep(7, 9, LeftPart(), Cell(3, 1), 0, [1, 2, 3], Cell(5, 1), o1);
    assert [0] + [1, 2, 3] == [0, 1, 2, 3] && [1] + [2, 3] == [1, 2, 3] && [2] + [3] == [2, 3] && [3] + [] == [3];
  }

  lemma TailWalk(ds: seq<int>)
    requires ds == [1, 1]
    ensures var o := LeftPart() + Ring();
            CanWalk(7, 9, o, Cell(5, 3), ds) && WalkOpen(o, Cell(5, 3), ds) == o + Tail()
  {
    var o := LeftPart() + Ring();
    var o1 := o + {Cell(5, 4), Cell(5, 5)};
    OneStep(7, 9, o1, Cell(5, 5), 1, [], Cell(5, 7), o + Tail());
    OneStep(7, 9, o, Cell(5, 3), 1, [1], Cell(5, 5), o1);
    assert [1] + [1] == [1, 1] && [1] + [] == [1];
  }

  /** The size and the draws, kept symbolic. */
  ghost predicate Chosen(w: nat, h: nat, draws: seq<nat>) { w == 7 && h == 9 && draws == DRAWS }

  /** A call that can carve nothing leaves the maze alone. */
  lemma PassOver(w: nat, h: nat, draws: seq<nat>, open: set<Cell>, next: nat, x: nat, y: nat)
    requires x < w && y < h && NoWayOn(w, h, open, Cell(x, y))
    ensures Generate(w, h, draws, open, next, x, y) == Generate(w, h, draws, open, next + 1, x + 2, y)
  {
    Advance(w, h, draws, open, next, x, y, []);
  }

  lemma RowEnds(w: nat, h: nat, draws: seq<nat>, open: set<Cell>, next: nat, x: nat, y: nat)
    requires w <= x && y < h
    ensures Generate(w, h, draws, open, next, x, y) == Generate(w, h, draws, open, next, 1, y + 2)
  {
  }

  /** Nothing can be carved where every room two steps away is open or outside. */
  lemma Hemmed(w: nat, h: nat, open: set<Cell>, c: Cell)
    requires Cell(c.x + 2, c.y) in open || c.x + 2 >= w
    requires Cell(c.x, c.y + 2) in open || c.y + 2 >= h
    requires Cell(c.x - 2, c.y) in open || c.x - 2 <= 0
    requires Cell(c.x, c.y - 2) in open || c.y - 2 <= 0
    ensures NoWayOn(w, h, open, c)
  {
    assert Room(c, 0) == Cell(c.x + 2, c.y) && Room(c, 1) == Cell(c.x, c.y + 2);
    assert Room(c, 2) == Cell(c.x - 2, c.y) && Room(c, 3) == Cell(c.x, c.y - 2);
  }

  lemma RingHemsIn(w: nat, h: nat, o: set<Cell>)
    requires w == 7 && h == 9 && o == LeftPart() + Ring()
    ensures NoWayOn(w, h, o, Cell(5, 1)) && NoWayOn(w, h, o, Cell(1, 3)) && NoWayOn(w, h, o, Cell(3, 3))
  {
    Hemmed(w, h, o, Cell(5, 1));
    Hemmed(w, h, o, Cell(1, 3));
    Hemmed(w, h, o, Cell(3, 3));
  }

  lemma TailHemsIn(w: nat, h: nat, all: set<Cell>, y: nat)
    requires w == 7 && h == 9 && all == LeftPart() + Ring() + Tail() && (y == 5 || y == 7)
    ensures NoWayOn(w, h, all, Cell(1, y)) && NoWayOn(w, h, all, Cell(3, y)) && NoWayOn(w, h, all, Cell(5, y))
  {
    Hemmed(w, h, all, Cell(1, y));
    Hemmed(w, h, all, Cell(3, y));
    Hemmed(w, h, all, Cell(5, y));
  }

  /** The next draws are the directions `ds`. */
  ghost predicate Draws(draws: seq<nat>, next: nat, ds: seq<int>) {
    forall i :: 0 <= i < |ds| ==> Draw(draws, next + i) == ds[i]
  }

  lemma ChosenDraws(draws: seq<nat>, first: seq<int>, ring: seq<int>, tail: seq<int>)
    requires draws == DRAWS && first == [1, 1, 0, 1, 2] && ring == [0, 1, 2, 3] && tail == [1, 1]
    ensures Draws(draws, 0, first) && Draws(draws, 6, ring) && Draws(draws, 14, tail)
  {
  }

  /** A call along `ds` that opens exactly what `open'` adds. */
  lemma Call(
    w: nat, h: nat, draws: seq<nat>, open: set<Cell>, open': set<Cell>, next: nat, x: nat, y: nat, ds: seq<int>)
    requires x < w && y < h && CanWalk(w, h, open, Cell(x, y), ds) && WalkOpen(open, Cell(x, y), ds) == open'
    requires Draws(draws, next, ds)
    ensures Generate(w, h, draws, open, next, x, y) == Generate(w, h, draws, open', next + |ds| + 1, x + 2, y)
  {
    Advance(w, h, draws, open, next, x, y, ds);
  }

  lemma FirstCall(w: nat, h: nat, draws: seq<nat>, start: set<Cell>, left: set<Cell>, ds: seq<int>)
    requires w >= 2 && h >= 2 && |ds| == 5 && Draws(draws, 0, ds)
    requires CanWalk(w, h, start, Cell(1, 1), ds) && WalkOpen(start, Cell(1, 1), ds) == left
    ensures Generate(w, h, draws, start, 0, 1, 1) == Generate(w, h, draws, left, 6, 3, 1)
  {
    Call(w, h, draws, start, left, 0, 1, 1, ds);
  }

  lemma RingCall(w: nat, h: nat, draws: seq<nat>, left: set<Cell>, o: set<Cell>, ds: seq<int>)
    requires w == 7 && h == 9 && ds == [0, 1, 2, 3] && Draws(draws, 6, ds)
    requires left == LeftPart() && o == LeftPart() + Ring()
    ensures Generate(w, h, draws, left, 6, 3, 1) == Generate(w, h, draws, o, 11, 5, 1)
  {
    RingWalk(ds);
    Call(w, h, draws, left, o, 6, 3, 1, ds);
  }

  lemma TailCall(w: nat, h: nat, draws: seq<nat>, o: set<Cell>, all: set<Cell>, ds: seq<int>)
    requires w == 7 && h == 9 && ds == [1, 1] && Draws(draws, 14, ds)
    requires o == LeftPart() + Ring() && all == o + Tail()
    ensures Generate(w, h, draws, o, 14, 5, 3) == Generate(w, h, draws, all, 17, 7, 3)
  {
    TailWalk(ds);
    Call(w, h, draws, o, all, 14, 5, 3, ds);
  }

  lemma TailRow(w: nat, h: nat, draws: seq<nat>, o: set<Cell>)
    requires Chosen(w, h, draws) && o == LeftPart() + Ring()
    ensures Generate(w, h, draws, o, 14, 5, 3) == Generate(w, h, draws, o + Tail(), 17, 1, 5)
  {
    ChosenDraws(draws, [1, 1, 0, 1, 2], [0, 1, 2, 3], [1, 1]);
    TailCall(w, h, draws, o, o + Tail(), [1, 1]);
    RowEnds(w, h, draws, o + Tail(), 17, 7, 3);
  }

  /** Two calls that change nothing. */
  lemma PassOverTwo(w: nat, h: nat, draws: seq<nat>, open: set<Cell>, next: nat, y: nat)
    requires w == 7 && y < h && NoWayOn(w, h, open, Cell(1, y)) && NoWayOn(w, h, open, Cell(3, y))
    ensures Generate(w, h, draws, open, next, 1, y) == Generate(w, h, draws, open, next + 2, 5, y)
  {
    PassOver(w, h, draws, open, next, 1, y);
    PassOver(w, h, draws, open, next + 1, 3, y);
  }

  /** The last call of a row, changing nothing, and the step to the next row. */
  lemma PassOverLast(w: nat, h: nat, draws: seq<nat>, open: set<Cell>, next: nat, y: nat)
    requires w == 7 && y < h && NoWayOn(w, h, open, Cell(5, y))
    ensures Generate(w, h, draws, open, next, 5, y) == Generate(w, h, draws, open, next + 1, 1, y + 2)
  {
    PassOver(w, h, draws, open, next, 5, y);
    RowEnds(w, h, draws, open, next + 1, 7, y);
  }

  lemma StartRow(w: nat, h: nat, draws: seq<nat>, first: seq<int>, ring: seq<int>)
    requires Chosen(w, h, draws) && first == [1, 1, 0, 1, 2] && ring == [0, 1, 2, 3]
    ensures Generated(w, h, draws) == Generate(w, h, draws, LeftPart(), 6, 3, 1)
    ensures Draws(draws, 6, ring)
  {
    ChosenDraws(draws, first, ring, [1, 1]);
    FirstWalk(w, h, {S.START}, LeftPart(), Cell(1, 1), first);
    FirstCall(w, h, draws, {S.START}, LeftPart(), first);
  }

  lemma FirstRow(w: nat, h: nat, draws: seq<nat>, o: set<Cell>)
    requires Chosen(w, h, draws) && o == LeftPart() + Ring()
    ensures Generated(w, h, draws) == Generate(w, h, draws, o, 12, 1, 3)
  {
    RingHemsIn(w, h, o);
    PassOverLast(w, h, draws, o, 11, 1);
    StartRow(w, h, draws, [1, 1, 0, 1, 2], [0, 1, 2, 3]);
    RingCall(w, h, draws, LeftPart(), o, [0, 1, 2, 3]);
  }

  lemma SecondRowStarts(w: nat, h: nat, draws: seq<nat>, o: set<Cell>)
    requires w == 7 && h == 9 && o == LeftPart() + Ring()
    ensures Generate(w, h, draws, o, 12, 1, 3) == Generate(w, h, draws, o, 14, 5, 3)
  {
    RingHemsIn(w, h, o);
    PassOverTwo(w, h, draws, o, 12, 3);
  }

  lemma SecondRow(w: nat, h: nat, draws: seq<nat>, o: set<Cell>)
    requires Chosen(w, h, draws) && o == LeftPart() + Ring()
    ensures Generate(w, h, draws, o, 12, 1, 3) == Generate(w, h, draws, o + Tail(), 17, 1, 5)
  {
    SecondRowStarts(w, h, draws, o);
    TailRow(w, h, draws, o);
  }

  lemma LowerRow(w: nat, h: nat, draws: seq<nat>, all: set<Cell>, next: nat, y: nat)
    requires w == 7 && h == 9 && all == LeftPart() + Ring() + Tail() && (y == 5 || y == 7)
    ensures Generate(w, h, draws, all, next, 1, y) == Generate(w, h, draws, all, next + 3, 1, y + 2)
  {
    TailHemsIn(w, h, all, y);
    PassOverTwo(w, h, draws, all, next, y);
    PassOverLast(w, h, draws, all, next + 2, y);
  }

  lemma LastRows(w: nat, h: nat, draws: seq<nat>, all: set<Cell>)
    requires w == 7 && h == 9 && all == LeftPart() + Ring() + Tail()
    ensures Generate(w, h, draws, all, 17, 1, 5) == all
  {
    LowerRow(w, h, draws, all, 17, 5);
    LowerRow(w, h, draws, all, 20, 7);
  }

  lemma BadMaze(w: nat, h: nat, draws: seq<nat>)
    requires Chosen(w, h, draws)
    ensures Generated(w, h, draws) == LeftPart() + Ring() + Tail()
  {
    var o := LeftPart() + Ring();
    FirstRow(w, h, draws, o);
    SecondRow(w, h, draws, o);
    LastRows(w, h, draws, o + Tail());
  }

  lemma PartsApart(c: Cell, d: Cell)
    requires c in LeftPart() && d in Ring() + Tail()
    ensures !Adjacent(c, d)
  {
    assert c.x <= 1 || (c.y >= 5 && c.x <= 3);
    assert d.x >= 5 || (d.y <= 3 && d.x >= 3);
  }

  lemma GoalCutOff(open: set<Cell>)
    requires open == LeftPart() + Ring() + Tail()
    ensures S.Goal(7, 9) in open && !Reachable(open, S.START, S.Goal(7, 9))
  {
    forall c, d | c in LeftPart() && d in open && Adjacent(c, d)
      ensures d in LeftPart()
    {
      if d !in LeftPart() {
        PartsApart(c, d);
      }
    }
    forall p | Path(open, p) && p[0] == S.START
      ensures p[|p| - 1] != S.Goal(7, 9)
    {
      ClosedSetHoldsPath(open, LeftPart(), p);
    }
  }

  /** Any legal maze is the open part of a grid the solver can be given. */
  lemma AsGrid(w: nat, h: nat, open: set<Cell>) returns (cells: map<Cell, int>)
    requires OddSize(w, h) && Legal(w, h, open) && S.START in open
    ensures S.Solvable(w, h, cells) && S.Open(S.Start(w, h, cells)) == open
  {
    var all := set x, y | 0 <= x < w && 0 <= y < h :: Cell(x, y);
    assert forall c :: InGrid(w, h, c) ==> c == Cell(c.x, c.y);
    cells := map c | c in all :: if c in open then 0 else 1;
    var s := S.Start(w, h, cells);
    forall c ensures c in S.Open(s) <==> c in open {
      assert c in open ==> InGrid(w, h, c);
    }
  }

  /** With these draws the goal room is open but cut off, and the solver, which takes
      the maze, never returns. */
  lemma GeneratedMazeMayBeUnsolvable() returns (draws: seq<nat>, cells: map<Cell, int>)
    ensures S.Solvable(7, 9, cells) && S.Open(S.Start(7, 9, cells)) == Generated(7, 9, draws)
    ensures S.Goal(7, 9) in Generated(7, 9, draws)
    ensures !Reachable(Generated(7, 9, draws), S.START, S.Goal(7, 9))
    ensures forall k: nat :: S.Run(7, 9, S.Start(7, 9, cells), k).at != S.Goal(7, 9)
  {
    draws := DRAWS;
    cells := UnsolvableMaze(7, 9, draws);
  }

  lemma UnsolvableMaze(w: nat, h: nat, draws: seq<nat>) returns (cells: map<Cell, int>)
    requires Chosen(w, h, draws)
    ensures S.Solvable(w, h, cells) && S.Open(S.Start(w, h, cells)) == Generated(w, h, draws)
    ensures S.Goal(w, h) in Generated(w, h, draws)
    ensures !Reachable(Generated(w, h, draws), S.START, S.Goal(w, h))
    ensures forall k: nat :: S.Run(w, h, S.Start(w, h, cells), k).at != S.Goal(w, h)
  {
    BadMaze(w, h, draws);
    GoalCutOff(Generated(w, h, draws));
    GeneratedIsLegal(w, h, draws);
    cells := AsGrid(w, h, Generated(w, h, draws));
    forall k: nat ensures S.Run(w, h, S.Start(w, h, cells), k).at != S.Goal(w, h) {
      S.SolverIsSound(w, h, cells, k);
    }
  }
}
