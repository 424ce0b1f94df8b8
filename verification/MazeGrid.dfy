/** The maze as a graph: cells, steps between neighbouring cells, open paths,
    and the row-major array layout that `demos/maze.c` uses. */
module MazeGrid {

  datatype Cell = Cell(x: int, y: int)

  /** The cell one step away: the `switch (dir)` shared by the carver and the solver. */
  function Neighbour(c: Cell, dir: int): Cell {
    match dir
    case 0 => Cell(c.x + 1, c.y)
    case 1 => Cell(c.x, c.y + 1)
    case 2 => Cell(c.x - 1, c.y)
    case _ => Cell(c.x, c.y - 1)
  }

  predicate Adjacent(a: Cell, b: Cell) {
    || (a.y == b.y && (a.x == b.x + 1 || b.x == a.x + 1))
    || (a.x == b.x && (a.y == b.y + 1 || b.y == a.y + 1))
  }

  /** The direction that leads from `a` to an adjacent `b`. */
  function DirectionTo(a: Cell, b: Cell): (dir: int)
    requires Adjacent(a, b)
    ensures 0 <= dir < 4 && Neighbour(a, dir) == b
  {
    if b.x > a.x then 0 else if b.y > a.y then 1 else if b.x < a.x then 2 else 3
  }

  // ----- Paths through a set of open cells

  ghost predicate Path(open: set<Cell>, p: seq<Cell>) {
    && |p| > 0
    && (forall i :: 0 <= i < |p| ==> p[i] in open)
    && (forall i :: 0 < i < |p| ==> Adjacent(p[i - 1], p[i]))
  }

  ghost predicate Distinct(p: seq<Cell>) {
    forall i, j :: 0 <= i < j < |p| ==> p[i] != p[j]
  }

  ghost predicate SimplePath(open: set<Cell>, p: seq<Cell>, a: Cell, b: Cell) {
    Path(open, p) && Distinct(p) && p[0] == a && p[|p| - 1] == b
  }

  ghost predicate Reachable(open: set<Cell>, a: Cell, b: Cell) {
    exists p :: Path(open, p) && p[0] == a && p[|p| - 1] == b
  }

  /** No closed walk through three or more different open cells. */
  ghost predicate Acyclic(open: set<Cell>) {
    forall p :: Path(open, p) && Distinct(p) && |p| >= 3 ==> !Adjacent(p[0], p[|p| - 1])
  }

  lemma ReachableRefl(open: set<Cell>, a: Cell)
    requires a in open
    ensures Reachable(open, a, a)
  {
    assert Path(open, [a]);
  }

  lemma ReachableExtend(open: set<Cell>, a: Cell, b: Cell, c: Cell)
    requires Reachable(open, a, b) && Adjacent(b, c) && c in open
    ensures Reachable(open, a, c)
  {
    var p :| Path(open, p) && p[0] == a && p[|p| - 1] == b;
    assert Path(open, p + [c]);
  }

  /** A path never leaves a set that is closed under open steps. */
  lemma {:induction false} ClosedSetHoldsPath(open: set<Cell>, s: set<Cell>, p: seq<Cell>)
    requires Path(open, p) && p[0] in s
    requires forall c, d :: c in s && d in open && Adjacent(c, d) ==> d in s
    ensures p[|p| - 1] in s
  {
    if |p| == 1 {
    } else {
      assert Adjacent(p[0], p[1]);
      ClosedSetHoldsPath(open, s, p[1..]);
    }
  }

  // ----- In an acyclic maze a simple path is determined by its ends

  function Reverse(p: seq<Cell>): (r: seq<Cell>)
    ensures |r| == |p|
    ensures forall i :: 0 <= i < |p| ==> r[i] == p[|p| - 1 - i]
  {
    seq(|p|, i requires 0 <= i < |p| => p[|p| - 1 - i])
  }

  /** Two simple paths that part at their first step and meet again close a cycle. */
  lemma DivergingPathsMakeCycle(open: set<Cell>, p: seq<Cell>, q: seq<Cell>, i: nat, j: nat)
    requires Path(open, p) && Distinct(p) && Path(open, q) && Distinct(q) && p[0] == q[0]
    requires 1 <= i < |p| && 1 <= j < |q| && p[i] == q[j]
    requires forall k :: 1 <= k < i ==> p[k] !in q
    requires i + j >= 3
    ensures !Acyclic(open)
  {
    var back := Reverse(q[1..j]);
    var cycle := p[..i + 1] + back;
    assert forall k :: 0 <= k < |back| ==> back[k] == q[j - 1 - k];
    assert forall k :: i + 1 <= k < |cycle| ==> cycle[k] == q[j + i - k];
    assert Path(open, cycle) by {
      forall k | 0 < k < |cycle|
        ensures Adjacent(cycle[k - 1], cycle[k])
      {
        if k <= i {
          assert Adjacent(p[k - 1], p[k]);
        } else {
          assert cycle[k] == q[j + i - k];
          assert cycle[k - 1] == q[j + i - k + 1];
          assert Adjacent(q[j + i - k], q[j + i - k + 1]);
        }
      }
    }
    assert Distinct(cycle) by {
      forall a, b | 0 <= a < b < |cycle|
        ensures cycle[a] != cycle[b]
      {
        if b <= i {
        } else {
          assert cycle[b] == q[j + i - b];
          if a == 0 {
            assert cycle[a] == q[0];
          } else if a < i {
            assert cycle[a] == p[a];
          } else if a == i {
            assert cycle[a] == q[j];
          } else {
            assert cycle[a] == q[j + i - a];
          }
        }
      }
    }
    assert cycle[|cycle| - 1] == q[1];
    assert Adjacent(q[0], q[1]);
  }

  /** The first position after the start at which `p` meets `q`. */
  lemma FirstMeeting(p: seq<Cell>, q: seq<Cell>) returns (i: nat)
    requires |p| >= 2 && p[|p| - 1] in q
    ensures 1 <= i < |p| && p[i] in q && forall k :: 1 <= k < i ==> p[k] !in q
  {
    i := 1;
    while p[i] !in q
      invariant 1 <= i < |p|
      invariant forall k :: 1 <= k < i ==> p[k] !in q
      decreases |p| - i
    {
      i := i + 1;
    }
  }

  lemma {:induction false} UniqueSimplePath(open: set<Cell>, p: seq<Cell>, q: seq<Cell>, a: Cell, b: Cell)
    requires Acyclic(open) && SimplePath(open, p, a, b) && SimplePath(open, q, a, b)
    ensures p == q
    decreases |p|
  {
    if a == b {
      assert p == [a] && q == [a];
    } else if p[1] == q[1] {
      assert SimplePath(open, p[1..], p[1], b) && SimplePath(open, q[1..], p[1], b);
      UniqueSimplePath(open, p[1..], q[1..], p[1], b);
      assert p == [a] + p[1..] && q == [a] + q[1..];
    } else {
      var i := FirstMeeting(p, q);
      var j :| 0 <= j < |q| && q[j] == p[i];
      assert p[0] != p[i];
      DivergingPathsMakeCycle(open, p, q, i, j);
    }
  }

  // ----- The cells a walk from one cell can reach

  ghost function Component(open: set<Cell>, a: Cell): set<Cell> { set c | c in open && Reachable(open, a, c) }

  /** A path stays in the component of its first cell. */
  lemma PathInComponent(open: set<Cell>, p: seq<Cell>)
    requires Path(open, p)
    ensures Path(Component(open, p[0]), p)
  {
    forall i | 0 <= i < |p| ensures Reachable(open, p[0], p[i]) {
      assert Path(open, p[..i + 1]);
    }
  }

  /** Whatever is reachable is the end of a path that repeats no cell. */
  lemma {:induction false} SimplePathTo(open: set<Cell>, p: seq<Cell>) returns (q: seq<Cell>)
    requires Path(open, p)
    ensures SimplePath(open, q, p[0], p[|p| - 1])
    decreases |p|
  {
    q := p;
    if !Distinct(p) {
      var i, j :| 0 <= i < j < |p| && p[i] == p[j];
      var shorter := p[..i] + p[j..];
      assert Path(open, shorter) by {
        forall k | 0 < k < |shorter| ensures Adjacent(shorter[k - 1], shorter[k]) {
          if k < i {
            assert Adjacent(p[k - 1], p[k]);
          } else if k == i {
            assert Adjacent(p[i - 1], p[i]);
          } else {
            assert Adjacent(p[k + (j - i) - 1], p[k + (j - i)]);
          }
        }
      }
      q := SimplePathTo(open, shorter);
    }
  }

  /** Simple paths from `a` are determined by their ends. */
  ghost predicate OnePathEach(open: set<Cell>, a: Cell) {
    forall p, q, b :: SimplePath(open, p, a, b) && SimplePath(open, q, a, b) ==> p == q
  }

  /** A cycle, read from another of its cells on. */
  lemma Rotated(open: set<Cell>, p: seq<Cell>, j: nat) returns (r: seq<Cell>)
    requires Path(open, p) && Distinct(p) && Adjacent(p[0], p[|p| - 1]) && j < |p|
    ensures Path(open, r) && Distinct(r) && Adjacent(r[0], r[|r| - 1])
    ensures r[0] == p[j] && |r| == |p| && forall c :: c in r ==> c in p
  {
    r := p[j..] + p[..j];
    forall k | 0 < k < |r| ensures Adjacent(r[k - 1], r[k]) {
      if k < |p| - j {
        assert Adjacent(p[j + k - 1], p[j + k]);
      } else if k > |p| - j {
        assert Adjacent(p[k - (|p| - j) - 1], p[k - (|p| - j)]);
      }
    }
    if j > 0 {
      assert Adjacent(p[j - 1], p[j]);
    }
  }

  /** The first cell of `q` that lies on `p`. */
  lemma FirstTouch(p: seq<Cell>, q: seq<Cell>) returns (i: nat)
    requires q != [] && q[|q| - 1] in p
    ensures i < |q| && q[i] in p && forall k :: 0 <= k < i ==> q[k] !in p
  {
    i := 0;
    while q[i] !in p
      invariant i < |q| && forall k :: 0 <= k < i ==> q[k] !in p
      decreases |q| - i
    {
      i := i + 1;
    }
  }

  /** A way onto a cycle and then once around it. */
  lemma OntoCycle(open: set<Cell>, q: seq<Cell>, r: seq<Cell>, n: nat)
    requires Path(open, q) && Distinct(q) && Path(open, r) && Distinct(r)
    requires q[|q| - 1] == r[0] && forall k :: 0 <= k < |q| - 1 ==> q[k] !in r
    requires 1 <= n <= |r|
    ensures Path(open, q + r[1..n]) && Distinct(q + r[1..n])
  {
    var p := q + r[1..n];
    forall k | 0 < k < |p| ensures Adjacent(p[k - 1], p[k]) {
      if k < |q| {
        assert Adjacent(q[k - 1], q[k]);
      } else {
        assert Adjacent(r[k - |q|], r[k - |q| + 1]);
      }
    }
    forall i, j | 0 <= i < j < |p| ensures p[i] != p[j] {
      if j >= |q| {
        assert p[j] == r[j - |q| + 1] && p[j] in r;
        if i >= |q| - 1 {
          assert p[i] == r[i - |q| + 1];
        }
      }
    }
  }

  /** Where paths from `a` are unique, the component of `a` has no cycle. */
  lemma OnePathMeansAcyclic(open: set<Cell>, a: Cell)
    requires OnePathEach(open, a)
    ensures Acyclic(Component(open, a))
  {
    forall p | Path(Component(open, a), p) && Distinct(p) && |p| >= 3
      ensures !Adjacent(p[0], p[|p| - 1])
    {
      if Adjacent(p[0], p[|p| - 1]) {
        TwoWaysRound(open, a, p);
      }
    }
  }

  lemma TwoWaysRound(open: set<Cell>, a: Cell, p: seq<Cell>)
    requires Path(Component(open, a), p) && Distinct(p) && |p| >= 3 && Adjacent(p[0], p[|p| - 1])
    ensures !OnePathEach(open, a)
  {
    assert p[0] in Component(open, a);
    var walk :| Path(open, walk) && walk[0] == a && walk[|walk| - 1] == p[0];
    var q := SimplePathTo(open, walk);
    var i := FirstTouch(p, q);
    var j :| 0 <= j < |p| && p[j] == q[i];
    assert Path(open, p);
    var r := Rotated(open, p, j);
    var on := q[..i + 1];
    assert SimplePath(open, on, a, r[0]);
    TwoWaysOn(open, a, on, r);
  }

  lemma TwoWaysOn(open: set<Cell>, a: Cell, on: seq<Cell>, r: seq<Cell>)
    requires Path(open, r) && Distinct(r) && |r| >= 3 && Adjacent(r[0], r[|r| - 1])
    requires SimplePath(open, on, a, r[0]) && forall k :: 0 <= k < |on| - 1 ==> on[k] !in r
    ensures !OnePathEach(open, a)
  {
    OntoCycle(open, on, r, |r|);
    BackOntoCycle(open, on, r);
    var long, short := on + r[1..|r|], on + [r[|r| - 1]];
    assert SimplePath(open, long, a, r[|r| - 1]) && SimplePath(open, short, a, r[|r| - 1]);
    assert |long| > |short|;
  }

  /** A way onto a cycle and one step the other way. */
  lemma BackOntoCycle(open: set<Cell>, q: seq<Cell>, r: seq<Cell>)
    requires Path(open, q) && Distinct(q) && Path(open, r) && Distinct(r) && |r| >= 2
    requires q[|q| - 1] == r[0] && (forall k :: 0 <= k < |q| - 1 ==> q[k] !in r) && Adjacent(r[0], r[|r| - 1])
    ensures Path(open, q + [r[|r| - 1]]) && Distinct(q + [r[|r| - 1]])
  {
    var last := r[|r| - 1];
    assert last in r;
    assert last != q[|q| - 1];
  }

  // ----- Row-major layout

  predicate InGrid(w: nat, h: nat, c: Cell) {
    0 <= c.x < w && 0 <= c.y < h
  }

  /** `cells` has an entry for every cell of the grid and no other. */
  ghost predicate Covers(w: nat, h: nat, cells: map<Cell, int>) {
    forall c :: c in cells <==> InGrid(w, h, c)
  }

  predicate Interior(w: nat, h: nat, c: Cell) {
    0 < c.x < w - 1 && 0 < c.y < h - 1
  }

  function Index(w: nat, c: Cell): int {
    c.y * w + c.x
  }

  lemma IndexInRange(w: nat, h: nat, c: Cell)
    requires InGrid(w, h, c)
    ensures 0 <= Index(w, c) < w * h
  {
    assert c.y * w <= (h - 1) * w;
    assert (h - 1) * w == w * h - w;
  }

  lemma RowGap(w: nat, lo: int, hi: int)
    requires lo < hi
    ensures lo * w + w <= hi * w
  {
    var gap := hi - lo - 1;
    assert hi * w == lo * w + w + gap * w;
    assert gap * w >= 0;
  }

  lemma IndexInjective(w: nat, a: Cell, b: Cell)
    requires 0 <= a.x < w && 0 <= b.x < w && Index(w, a) == Index(w, b)
    ensures a == b
  {
    if a.y < b.y {
      RowGap(w, a.y, b.y);
    } else if b.y < a.y {
      RowGap(w, b.y, a.y);
    }
  }

  /** The grid held by the flat array `m`. */
  ghost function View(m: seq<int>, w: nat, h: nat): (v: map<Cell, int>)
    requires |m| == w * h
    ensures Covers(w, h, v)
    ensures forall c :: InGrid(w, h, c) ==> 0 <= Index(w, c) < |m| && v[c] == m[Index(w, c)]
  {
    forall c | InGrid(w, h, c) ensures 0 <= Index(w, c) < w * h { IndexInRange(w, h, c); }
    var all := set x, y | 0 <= x < w && 0 <= y < h :: Cell(x, y);
    assert forall c :: InGrid(w, h, c) ==> c == Cell(c.x, c.y);
    map c | c in all :: m[Index(w, c)]
  }

  /** Writing one array element changes one cell of the grid. */
  lemma ViewUpdate(m: seq<int>, w: nat, h: nat, c: Cell, v: int)
    requires |m| == w * h && InGrid(w, h, c)
    ensures 0 <= Index(w, c) < |m|
    ensures View(m[Index(w, c) := v], w, h) == View(m, w, h)[c := v]
  {
    IndexInRange(w, h, c);
    var m' := m[Index(w, c) := v];
    forall d | InGrid(w, h, d)
      ensures View(m', w, h)[d] == View(m, w, h)[c := v][d]
    {
      if d != c && Index(w, d) == Index(w, c) {
        IndexInjective(w, c, d);
      }
    }
  }
}
