/** The order in which `carve_maze` and `generate_maze` of `demos/maze.c` go about
    their cells, by coordinates. */
module MazeOrder {
  import opened MazeGrid
  import opened MazeCarver
  import S = MazeSolver

  // ----- One call

  /** The four ways: right, down, left, up. */
  function Dx(d: int): int { if d == 0 then 1 else if d == 2 then -1 else 0 }
  function Dy(d: int): int { if d == 1 then 1 else if d == 3 then -1 else 0 }

  /** Two steps on the grid goes on, and both cells on the way are walls. */
  predicate Free(w: nat, h: nat, open: set<Cell>, x: int, y: int, d: int) {
    && 0 < x + 2 * Dx(d) < w && 0 < y + 2 * Dy(d) < h
    && Cell(x + Dx(d), y + Dy(d)) !in open && Cell(x + 2 * Dx(d), y + 2 * Dy(d)) !in open
  }

  /** The `i`-th way tried after `dir`: each next one is a quarter turn to the right. */
  function Way(dir: int, i: int): int { if dir + i < 4 then dir + i else dir + i - 4 }

  lemma WaysAgree(w: nat, h: nat, open: set<Cell>, x: int, y: int, d: int)
    requires 0 <= d < 4
    ensures CanCarve(w, h, open, Cell(x, y), d) <==> Free(w, h, open, x, y, d)
    ensures Door(Cell(x, y), d) == Cell(x + Dx(d), y + Dy(d))
    ensures Room(Cell(x, y), d) == Cell(x + 2 * Dx(d), y + 2 * Dy(d))
  {
  }

  /** A walk that has tried `i` ways after `dir`. */
  function Tried(s: Walk, dir: int, i: nat): Walk { s.(dir := if i == 4 then dir else Way(dir, i), count := i) }

  lemma TurnTriesNext(s: Walk, dir: int, i: nat)
    requires 0 <= dir < 4 && i < 4
    ensures Turned(Tried(s, dir, i)) == Tried(s, dir, i + 1)
  {
  }

  /** The ways up to the `i`-th are tried and left. */
  lemma {:induction false} TriesOn(w: nat, h: nat, draws: seq<nat>, s: Walk, i: nat)
    requires s.count == 0 && 0 <= s.dir < 4 && i <= 4
    requires forall j :: 0 <= j < i ==> !CanCarve(w, h, s.open, s.at, Way(s.dir, j))
    ensures Carve(w, h, draws, s) == Carve(w, h, draws, Tried(s, s.dir, i))
  {
    if i == 0 {
      assert Tried(s, s.dir, 0) == s;
    } else {
      TriesOn(w, h, draws, s, i - 1);
      TurnTriesNext(s, s.dir, i - 1);
      assert !CanCarve(w, h, s.open, s.at, Way(s.dir, i - 1));
      CarveUnfolds(w, h, draws, Tried(s, s.dir, i - 1));
    }
  }

  lemma LeavesWays(w: nat, h: nat, draws: seq<nat>, open: set<Cell>, x: int, y: int, dir: int, next: nat, i: nat)
    requires 0 <= dir < 4 && i <= 4
    requires forall j :: 0 <= j < i ==> !Free(w, h, open, x, y, Way(dir, j))
    ensures var s := Walk(open, Cell(x, y), dir, 0, next);
      Carve(w, h, draws, s) == Carve(w, h, draws, Tried(s, dir, i))
  {
    forall j | 0 <= j < i ensures !CanCarve(w, h, open, Cell(x, y), Way(dir, j)) {
      WaysAgree(w, h, open, x, y, Way(dir, j));
    }
    TriesOn(w, h, draws, Walk(open, Cell(x, y), dir, 0, next), i);
  }

  lemma TakesWay(w: nat, h: nat, draws: seq<nat>, s: Walk, x: int, y: int, d: int)
    requires s.at == Cell(x, y) && s.dir == d && 0 <= d < 4 && s.count < 4 && Free(w, h, s.open, x, y, d)
    ensures var room := Cell(x + 2 * Dx(d), y + 2 * Dy(d));
      Carve(w, h, draws, s)
      == Carve(w, h, draws,
               Walk(s.open + {Cell(x + Dx(d), y + Dy(d)), room}, room, Draw(draws, s.next), 0, s.next + 1))
  {
    WaysAgree(w, h, s.open, x, y, d);
    CarveUnfolds(w, h, draws, s);
  }

  /** From a room the walk takes the first free way from the one drawn on, turning
      right, opens both cells and draws again. */
  lemma CarvesNext(
    w: nat, h: nat, draws: seq<nat>, open: set<Cell>, x: int, y: int, dir: int, next: nat, i: nat, d: int)
    requires 0 <= dir < 4 && i < 4 && d == Way(dir, i) && Free(w, h, open, x, y, d)
    requires forall j :: 0 <= j < i ==> !Free(w, h, open, x, y, Way(dir, j))
    ensures var room := Cell(x + 2 * Dx(d), y + 2 * Dy(d));
      Carve(w, h, draws, Walk(open, Cell(x, y), dir, 0, next))
      == Carve(w, h, draws, Walk(open + {Cell(x + Dx(d), y + Dy(d)), room}, room, Draw(draws, next), 0, next + 1))
  {
    LeavesWays(w, h, draws, open, x, y, dir, next, i);
    TakesWay(w, h, draws, Walk(open, Cell(x, y), d, i, next), x, y, d);
  }

  /** With no free way the call ends there. */
  lemma CallEnds(w: nat, h: nat, draws: seq<nat>, open: set<Cell>, x: int, y: int, dir: int, next: nat)
    requires 0 <= dir < 4 && forall j :: 0 <= j < 4 ==> !Free(w, h, open, x, y, Way(dir, j))
    ensures var r := Carve(w, h, draws, Walk(open, Cell(x, y), dir, 0, next)); r.open == open && r.next == next
  {
    LeavesWays(w, h, draws, open, x, y, dir, next, 4);
  }

  // ----- All calls

  /** The cells `generate_maze` calls `carve_maze` on, from `(x, y)` on. */
  function OddCells(w: nat, h: nat, x: nat, y: nat): seq<Cell>
    decreases h - y, w - x
  {
    if y >= h then []
    else if x >= w then OddCells(w, h, 1, y + 2)
    else [Cell(x, y)] + OddCells(w, h, x + 2, y)
  }

  /** Row by row, left to right. */
  predicate Before(a: Cell, b: Cell) { a.y < b.y || (a.y == b.y && a.x < b.x) }

  lemma {:induction false} OddCellsAre(w: nat, h: nat, x: nat, y: nat, c: Cell)
    requires x % 2 == 1 && y % 2 == 1
    ensures c in OddCells(w, h, x, y) <==>
      && 0 < c.x < w && 0 < c.y < h && c.x % 2 == 1 && c.y % 2 == 1
      && (c.y > y || (c.y == y && c.x >= x))
    decreases h - y, w - x
  {
    if y >= h {
    } else if x >= w {
      NextOdd(y);
      OddCellsAre(w, h, 1, y + 2, c);
    } else {
      NextOdd(x);
      OddCellsAre(w, h, x + 2, y, c);
    }
  }

  lemma {:induction false} OddCellsInOrder(w: nat, h: nat, x: nat, y: nat, i: nat, j: nat)
    requires x % 2 == 1 && y % 2 == 1 && i < j < |OddCells(w, h, x, y)|
    ensures Before(OddCells(w, h, x, y)[i], OddCells(w, h, x, y)[j])
    decreases h - y, w - x
  {
    if x >= w {
      NextOdd(y);
      OddCellsInOrder(w, h, 1, y + 2, i, j);
    } else {
      NextOdd(x);
      var rest := OddCells(w, h, x + 2, y);
      if i == 0 {
        OddCellsAre(w, h, x + 2, y, rest[j - 1]);
      } else {
        OddCellsInOrder(w, h, x + 2, y, i - 1, j - 1);
      }
    }
  }

  /** One call after the other on the cells of a list. */
  ghost function Calls(w: nat, h: nat, draws: seq<nat>, cells: seq<Cell>, open: set<Cell>, next: nat): set<Cell>
    decreases |cells|
  {
    if cells == [] then open
    else
      var s := CarveFrom(w, h, draws, open, cells[0], next);
      Calls(w, h, draws, cells[1..], s.open, s.next)
  }

  lemma {:induction false} GenerateCalls(
    w: nat, h: nat, draws: seq<nat>, open: set<Cell>, next: nat, x: nat, y: nat)
    ensures Generate(w, h, draws, open, next, x, y) == Calls(w, h, draws, OddCells(w, h, x, y), open, next)
    decreases h - y, w - x
  {
    if y >= h {
    } else if x >= w {
      GenerateCalls(w, h, draws, open, next, 1, y + 2);
    } else {
      var s := CarveFrom(w, h, draws, open, Cell(x, y), next);
      GenerateCalls(w, h, draws, s.open, s.next, x + 2, y);
      assert OddCells(w, h, x, y)[1..] == OddCells(w, h, x + 2, y);
    }
  }

  /** The maze is what one call on every odd cell leaves, row by row and left to
      right, starting with the one open cell (1, 1). */
  lemma GeneratedByCalls(w: nat, h: nat, draws: seq<nat>) returns (cells: seq<Cell>)
    ensures Generated(w, h, draws) == Calls(w, h, draws, cells, {Cell(1, 1)}, 0)
    ensures forall c :: c in cells <==> 0 < c.x < w && 0 < c.y < h && c.x % 2 == 1 && c.y % 2 == 1
    ensures forall i, j :: 0 <= i < j < |cells| ==> Before(cells[i], cells[j])
  {
    cells := OddCells(w, h, 1, 1);
    GenerateCalls(w, h, draws, {Cell(1, 1)}, 0, 1, 1);
    forall c ensures c in cells <==> 0 < c.x < w && 0 < c.y < h && c.x % 2 == 1 && c.y % 2 == 1 {
      OddCellsAre(w, h, 1, 1, c);
    }
    forall i, j | 0 <= i < j < |cells| ensures Before(cells[i], cells[j]) {
      OddCellsInOrder(w, h, 1, 1, i, j);
    }
  }
}
