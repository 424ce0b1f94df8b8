/** Why `solve_maze` needs a maze in which no cycle can be reached: a 7 by 7 grid whose
    goal can be reached and on which the loop never exits. Backing out of a dead end it
    follows the first cell marked 2, which on a ring need not be the cell it came from.
    `generate_maze` never makes such a grid (`MazeShape.GeneratedIsTreelike`).

        #######
        #....##
        #.#..##
        #.#..##
        #.#####
        #.....#
        #######                                                             */
module MazeCycle {
  import opened MazeGrid
  import S = MazeSolver

  /** The open cells of the picture. */
  predicate Passage(c: Cell) {
    || (c.y == 1 && 1 <= c.x <= 4)
    || (2 <= c.y <= 3 && (c.x == 1 || c.x == 3 || c.x == 4))
    || (c.y == 4 && c.x == 1)
    || (c.y == 5 && 1 <= c.x <= 5)
  }

  /** The mark of a cell once `path` is marked 2 and `dead` 3. */
  ghost function Paint(path: set<Cell>, dead: set<Cell>, c: Cell): int {
    if c in dead then 3 else if c in path then 2 else if Passage(c) then 0 else 1
  }

  /** The loop is about to look around `at` for the first time. */
  ghost predicate Arrived(s: S.State, at: Cell, path: set<Cell>, dead: set<Cell>) {
    && s == S.State(s.cells, at, 0, 0, true) && at in s.cells && at != S.Goal(7, 7)
    && forall c :: S.Mark(s.cells, c) == Paint(path, dead, c)
  }

  lemma Painting(cells: map<Cell, int>, at: Cell, path: set<Cell>, dead: set<Cell>)
    requires forall c :: S.Mark(cells, c) == Paint(path, dead, c)
    ensures at !in dead ==> forall c :: S.Mark(cells[at := 2], c) == Paint(path + {at}, dead, c)
    ensures forall c :: S.Mark(cells[at := 3], c) == Paint(path, dead + {at}, c)
  {
    forall c ensures S.Mark(cells[at := 3], c) == Paint(path, dead + {at}, c) {
      assert S.Mark(cells, c) == Paint(path, dead, c);
    }
    forall c | at !in dead ensures S.Mark(cells[at := 2], c) == Paint(path + {at}, dead, c) {
      assert S.Mark(cells, c) == Paint(path, dead, c);
    }
  }

  /** The first unvisited neighbour lies in direction `d`. */
  lemma Forth(s: S.State, at: Cell, path: set<Cell>, dead: set<Cell>, d: int) returns (k: nat, r: S.State)
    requires Arrived(s, at, path, dead) && 0 <= d < 4 && at !in dead
    requires Paint(path, dead, Neighbour(at, d)) == 0 && Neighbour(at, d) != S.Goal(7, 7)
    requires forall e :: 0 <= e < d ==> Paint(path, dead, Neighbour(at, e)) != 0
    ensures r == S.Run(7, 7, s, k) && Arrived(r, Neighbour(at, d), path + {at}, dead)
  {
    forall e ensures S.Ahead(s, e) == Paint(path, dead, Neighbour(at, e)) {
    }
    S.ForthBy(7, 7, s, d);
    Painting(s.cells, at, path, dead);
    k, r := d + 1, S.Run(7, 7, s, d + 1);
  }

  /** No neighbour is unvisited and the first one marked 2 lies in direction `d`. */
  lemma Back(s: S.State, at: Cell, path: set<Cell>, dead: set<Cell>, d: int) returns (k: nat, r: S.State)
    requires Arrived(s, at, path, dead) && 0 <= d < 4
    requires Paint(path, dead, Neighbour(at, d)) == 2 && Neighbour(at, d) != S.Goal(7, 7)
    requires forall e :: 0 <= e < 4 ==> Paint(path, dead, Neighbour(at, e)) != 0
    requires forall e :: 0 <= e < d ==> Paint(path, dead, Neighbour(at, e)) != 2
    ensures r == S.Run(7, 7, s, k) && Arrived(r, Neighbour(at, d), path, dead + {at})
  {
    forall e ensures S.Ahead(s, e) == Paint(path, dead, Neighbour(at, e)) {
    }
    S.BackBy(7, 7, s, d);
    Painting(s.cells, at, path, dead);
    k, r := 4 + (d + 1), S.Run(7, 7, s, 4 + (d + 1));
  }

  /** The walk up to here took some number of iterations. */
  ghost predicate Comes(s0: S.State, at: Cell, path: set<Cell>, dead: set<Cell>) {
    exists k: nat :: Arrived(S.Run(7, 7, s0, k), at, path, dead)
  }

  lemma Go(s0: S.State, at: Cell, path: set<Cell>, dead: set<Cell>, d: int)
    requires Comes(s0, at, path, dead) && 0 <= d < 4 && at !in dead
    requires Paint(path, dead, Neighbour(at, d)) == 0 && Neighbour(at, d) != S.Goal(7, 7)
    requires forall e :: 0 <= e < d ==> Paint(path, dead, Neighbour(at, e)) != 0
    ensures Comes(s0, Neighbour(at, d), path + {at}, dead)
  {
    var j: nat :| Arrived(S.Run(7, 7, s0, j), at, path, dead);
    var k, r := Forth(S.Run(7, 7, s0, j), at, path, dead, d);
    S.RunSplits(7, 7, s0, j, k);
  }

  lemma GoBack(s0: S.State, at: Cell, path: set<Cell>, dead: set<Cell>, d: int)
    requires Comes(s0, at, path, dead) && 0 <= d < 4
    requires Paint(path, dead, Neighbour(at, d)) == 2 && Neighbour(at, d) != S.Goal(7, 7)
    requires forall e :: 0 <= e < 4 ==> Paint(path, dead, Neighbour(at, e)) != 0
    requires forall e :: 0 <= e < d ==> Paint(path, dead, Neighbour(at, e)) != 2
    ensures Comes(s0, Neighbour(at, d), path, dead + {at})
  {
    var j: nat :| Arrived(S.Run(7, 7, s0, j), at, path, dead);
    var k, r := Back(S.Run(7, 7, s0, j), at, path, dead, d);
    S.RunSplits(7, 7, s0, j, k);
  }

  /** Along the top and down the right side. */
  ghost function FirstPart(): set<Cell> { {Cell(1, 1), Cell(2, 1), Cell(3, 1), Cell(4, 1)} }

  lemma WalkOut(s0: S.State)
    requires Comes(s0, Cell(1, 1), {}, {})
    ensures Comes(s0, Cell(4, 2), FirstPart(), {})
  {
    Go(s0, Cell(1, 1), {}, {}, 0);
    Go(s0, Cell(2, 1), {} + {Cell(1, 1)}, {}, 0);
    Go(s0, Cell(3, 1), {} + {Cell(1, 1)} + {Cell(2, 1)}, {}, 0);
    Go(s0, Cell(4, 1), {} + {Cell(1, 1)} + {Cell(2, 1)} + {Cell(3, 1)}, {}, 1);
    assert {} + {Cell(1, 1)} + {Cell(2, 1)} + {Cell(3, 1)} + {Cell(4, 1)} == FirstPart();
  }

  lemma WalkRing(s0: S.State)
    requires Comes(s0, Cell(4, 2), FirstPart(), {})
    ensures Comes(s0, Cell(3, 2), FirstPart() + {Cell(4, 2)} + {Cell(4, 3)} + {Cell(3, 3)}, {})
  {
    var p := FirstPart();
    Go(s0, Cell(4, 2), p, {}, 1);
    Go(s0, Cell(4, 3), p + {Cell(4, 2)}, {}, 2);
    Go(s0, Cell(3, 3), p + {Cell(4, 2)} + {Cell(4, 3)}, {}, 3);
  }

  /** Out of the dead end the wrong way round: to (4, 2), not back to (3, 3). */
  lemma WalkBack(s0: S.State, p: set<Cell>)
    requires p == FirstPart() + {Cell(4, 2)} + {Cell(4, 3)} + {Cell(3, 3)} && Comes(s0, Cell(3, 2), p, {})
    ensures Comes(s0, Cell(3, 3), p, {} + {Cell(3, 2)} + {Cell(4, 2)} + {Cell(4, 3)})
  {
    GoBack(s0, Cell(3, 2), p, {}, 0);
    GoBack(s0, Cell(4, 2), p, {} + {Cell(3, 2)}, 1);
    GoBack(s0, Cell(4, 3), p, {} + {Cell(3, 2)} + {Cell(4, 2)}, 2);
  }

  lemma Trapped(s: S.State, p: set<Cell>, dead: set<Cell>)
    requires p == FirstPart() + {Cell(4, 2)} + {Cell(4, 3)} + {Cell(3, 3)}
    requires dead == {} + {Cell(3, 2)} + {Cell(4, 2)} + {Cell(4, 3)}
    requires Arrived(s, Cell(3, 3), p, dead)
    ensures S.Stuck(7, 7, s)
  {
    forall d | 0 <= d < 4 ensures S.Ahead(s, d) != 0 && S.Ahead(s, d) != 2 {
      assert S.Ahead(s, d) == Paint(p, dead, Neighbour(s.at, d));
    }
  }

  lemma GoalIsReachable(open: set<Cell>)
    requires forall c :: Passage(c) ==> c in open
    ensures Reachable(open, S.START, S.Goal(7, 7))
  {
    var p := [Cell(1, 1), Cell(1, 2), Cell(1, 3), Cell(1, 4), Cell(1, 5),
              Cell(2, 5), Cell(3, 5), Cell(4, 5), Cell(5, 5)];
    assert Path(open, p);
  }

  /** The picture as an array. */
  lemma Picture() returns (cells: map<Cell, int>)
    ensures S.Solvable(7, 7, cells) && forall c :: c in S.Open(S.Start(7, 7, cells)) <==> Passage(c)
  {
    var m := seq(49, i => if Passage(Cell(i % 7, i / 7)) then 0 else 1);
    cells := View(m, 7, 7);
    forall c | InGrid(7, 7, c) ensures cells[c] == if Passage(c) then 0 else 1 {
      assert 0 <= Index(7, c) < 49 && cells[c] == m[Index(7, c)];
      RowAndColumn(c.x, c.y);
    }
    assert InGrid(7, 7, S.START);
  }

  lemma RowAndColumn(x: int, y: int)
    requires 0 <= x < 7 && 0 <= y < 7
    ensures (y * 7 + x) % 7 == x && (y * 7 + x) / 7 == y
  {
  }

  /** There is a closed grid on which the goal is reachable and no run arrives. */
  lemma CyclicMazeMayTrap() returns (cells: map<Cell, int>)
    ensures S.Solvable(7, 7, cells) && Reachable(S.Open(S.Start(7, 7, cells)), S.START, S.Goal(7, 7))
    ensures forall k: nat :: S.Run(7, 7, S.Start(7, 7, cells), k).at != S.Goal(7, 7)
  {
    cells := Picture();
    forall k: nat ensures S.Run(7, 7, S.Start(7, 7, cells), k).at != S.Goal(7, 7) {
      PictureTraps(7, 7, cells, k);
    }
    GoalIsReachable(S.Open(S.Start(7, 7, cells)));
  }

  lemma PictureTraps(w: nat, h: nat, cells: map<Cell, int>, k: nat)
    requires w == 7 && h == 7 && S.Solvable(w, h, cells)
    requires forall c :: c in S.Open(S.Start(w, h, cells)) <==> Passage(c)
    ensures S.Run(w, h, S.Start(w, h, cells), k).at != S.Goal(w, h)
  {
    var s0 := S.Start(7, 7, cells);
    StartsOff(s0, cells);
    WalkOut(s0);
    WalkRing(s0);
    var p := FirstPart() + {Cell(4, 2)} + {Cell(4, 3)} + {Cell(3, 3)};
    var dead := {} + {Cell(3, 2)} + {Cell(4, 2)} + {Cell(4, 3)};
    WalkBack(s0, p);
    var j: nat :| Arrived(S.Run(7, 7, s0, j), Cell(3, 3), p, dead);
    Trapped(S.Run(7, 7, s0, j), p, dead);
    S.StuckRunNeverArrives(7, 7, s0, j, k);
  }

  lemma StartsOff(s0: S.State, cells: map<Cell, int>)
    requires S.Solvable(7, 7, cells) && s0 == S.Start(7, 7, cells)
    requires forall c :: c in S.Open(s0) <==> Passage(c)
    ensures Comes(s0, Cell(1, 1), {}, {})
  {
    forall c ensures S.Mark(s0.cells, c) == Paint({}, {}, c) {
      assert c in S.Open(s0) <==> Passage(c);
    }
    assert Arrived(S.Run(7, 7, s0, 0), Cell(1, 1), {}, {});
  }
}
