/** The parallel-copy scheduler of `src/c5/codegen/ssa/emit_common.rs`:
    `schedule_place_moves`, `break_place_cycle` and `emit_place_move`. */
module PlaceMoves {

  datatype Place = IntReg(r: nat) | Spill(slot: nat) | FpReg(f: nat) | NoPlace

  datatype Kind = I8 | I16 | I32

  datatype Ext = Keep | Extend(kind: Kind)

  datatype Move = Move(src: Place, dst: Place, ext: Ext)

  /** `place_same_loc` */
  predicate SameLoc(a: Place, b: Place) { a == b && !a.NoPlace? }

  predicate IsNop(m: Move) { m.ext.Keep? && SameLoc(m.src, m.dst) }

  predicate Integer(p: Place) { p.IntReg? || p.Spill? }

  // ----- The machine the emitted code runs on

  type State = map<Place, int>

  function Get(st: State, p: Place): int { if p in st then st[p] else 0 }

  function SignExtend(v: int, span: int): int
    requires span > 0
  {
    var low := v % span;
    if 2 * low < span then low else low - span
  }

  function Convert(ext: Ext, v: int): int {
    match ext
    case Keep => v
    case Extend(I8) => SignExtend(v, 0x100)
    case Extend(I16) => SignExtend(v, 0x1_0000)
    case Extend(I32) => SignExtend(v, 0x1_0000_0000)
  }

  /** What an extending move must leave: the value of its width's bits, as a signed
      number of that width. */
  predicate Narrowed(ext: Ext, v: int, r: int) {
    match ext
    case Keep => r == v
    case Extend(I8) => (r - v) % 256 == 0 && -128 <= r < 128
    case Extend(I16) => (r - v) % 65536 == 0 && -32768 <= r < 32768
    case Extend(I32) => (r - v) % 4294967296 == 0 && -2147483648 <= r < 2147483648
  }

  lemma ByteNarrows(v: int)
    ensures Narrowed(Extend(I8), v, Convert(Extend(I8), v))
  {
    var q := v / 256;
    assert Convert(Extend(I8), v) - v == 256 * -q || Convert(Extend(I8), v) - v == 256 * (-q - 1);
  }

  lemma HalfNarrows(v: int)
    ensures Narrowed(Extend(I16), v, Convert(Extend(I16), v))
  {
    var q := v / 65536;
    assert Convert(Extend(I16), v) - v == 65536 * -q || Convert(Extend(I16), v) - v == 65536 * (-q - 1);
  }

  lemma WordNarrows(v: int)
    ensures Narrowed(Extend(I32), v, Convert(Extend(I32), v))
  {
    var q := v / 4294967296;
    assert Convert(Extend(I32), v) - v == 4294967296 * -q || Convert(Extend(I32), v) - v == 4294967296 * (-q - 1);
  }

  lemma ConvertNarrows(ext: Ext, v: int)
    ensures Narrowed(ext, v, Convert(ext, v))
  {
    match ext {
      case Keep =>
      case Extend(I8) => ByteNarrows(v);
      case Extend(I16) => HalfNarrows(v);
      case Extend(I32) => WordNarrows(v);
    }
  }

  /** Numbers a multiple of `span` from `v` and less than `span` apart are the same. */
  lemma SameResidue(v: int, r: int, q: int, span: int)
    requires span > 0 && (r - v) % span == 0 && (q - v) % span == 0 && -span < r - q < span
    ensures r == q
  {
    var a, b := (r - v) / span, (q - v) / span;
    assert r - v == span * a && q - v == span * b;
    NoMultipleBetween(a - b, span);
    assert r - q == span * (a - b);
  }

  lemma NoMultipleBetween(k: int, span: int)
    requires span > 0
    ensures k >= 1 ==> span * k >= span
    ensures k <= -1 ==> span * k <= -span
  {
    if k >= 1 {
      assert span * k == span + span * (k - 1);
    } else if k <= -1 {
      assert span * k == -span + span * (k + 1);
    }
  }

  /** There is only one such value. */
  lemma NarrowedIsUnique(ext: Ext, v: int, r: int, q: int)
    requires Narrowed(ext, v, r) && Narrowed(ext, v, q)
    ensures r == q
  {
    match ext {
      case Keep =>
      case Extend(I8) => SameResidue(v, r, q, 256);
      case Extend(I16) => SameResidue(v, r, q, 65536);
      case Extend(I32) => SameResidue(v, r, q, 4294967296);
    }
  }

  /** `StoreVia` may use `base` to form the slot's address; `Store` puts back
      whatever register it borrows for that. */
  datatype Instr =
    | RegMove(dst: nat, src: nat, ext: Ext)
    | Xchg(a: nat, b: nat)
    | StoreVia(slot: nat, src: nat, base: nat)
    | Store(slot: nat, src: nat)
    | Load(dst: nat, slot: nat)

  /** One instruction; `junk` is what an address computation leaves behind. */
  function Exec1(i: Instr, st: State, junk: int): State {
    match i
    case RegMove(t, s, ext) => st[IntReg(t) := Convert(ext, Get(st, IntReg(s)))]
    case Xchg(a, b) => st[IntReg(a) := Get(st, IntReg(b))][IntReg(b) := Get(st, IntReg(a))]
    case StoreVia(slot, s, base) => st[Spill(slot) := Get(st, IntReg(s))][IntReg(base) := junk]
    case Store(slot, s) => st[Spill(slot) := Get(st, IntReg(s))]
    case Load(t, slot) => st[IntReg(t) := Get(st, Spill(slot))]
  }

  function Exec(code: seq<Instr>, st: State, junk: int): State {
    if code == [] then st else Exec1(code[|code| - 1], Exec(code[..|code| - 1], st, junk), junk)
  }

  lemma {:induction false} ExecAppend(a: seq<Instr>, b: seq<Instr>, st: State, junk: int)
    ensures Exec(a + b, st, junk) == Exec(b, Exec(a, st, junk), junk)
  {
    if b == [] {
      assert a + b == a;
    } else {
      var init := b[..|b| - 1];
      assert (a + b)[..|a + b| - 1] == a + init;
      ExecAppend(a, init, st, junk);
    }
  }

  // ----- Emitting one move

  function EmitMove(m: Move, stage: nat): seq<Instr> {
    match (m.src, m.dst)
    case (IntReg(s), IntReg(t)) => [RegMove(t, s, m.ext)]
    case (IntReg(s), Spill(slot)) =>
      if m.ext.Keep? then [StoreVia(slot, s, stage)] else [RegMove(stage, s, m.ext), Store(slot, stage)]
    case (Spill(slot), IntReg(t)) =>
      [Load(t, slot)] + if m.ext.Keep? then [] else [RegMove(t, t, m.ext)]
    case (Spill(from), Spill(to)) =>
      [Load(stage, from)] + (if m.ext.Keep? then [] else [RegMove(stage, stage, m.ext)]) + [Store(to, stage)]
    case _ => []
  }

  /** Whatever the two ends are, the code writes the converted source to the
      destination and disturbs nothing but the staging register. */
  lemma EmitMoveIs(m: Move, stage: nat, st: State, junk: int)
    requires Integer(m.src) && Integer(m.dst) && m.src != IntReg(stage) && m.dst != IntReg(stage)
    ensures var r := Exec(EmitMove(m, stage), st, junk);
            && Get(r, m.dst) == Convert(m.ext, Get(st, m.src))
            && forall p :: p != m.dst && p != IntReg(stage) ==> Get(r, p) == Get(st, p)
  {
    match (m.src, m.dst) {
      case (IntReg(s), IntReg(t)) =>
        ExecShort(EmitMove(m, stage), st, junk);
      case (IntReg(s), Spill(slot)) =>
        ExecShort(EmitMove(m, stage), st, junk);
      case (Spill(slot), IntReg(t)) =>
        ExecShort(EmitMove(m, stage), st, junk);
      case (Spill(from), Spill(to)) =>
        ExecShort(EmitMove(m, stage), st, junk);
    }
  }

  lemma ExecShort(code: seq<Instr>, st: State, junk: int)
    requires 1 <= |code| <= 3
    ensures Exec(code, st, junk)
         == var one := Exec1(code[0], st, junk);
            if |code| == 1 then one
            else if |code| == 2 then Exec1(code[1], one, junk)
            else Exec1(code[2], Exec1(code[1], one, junk), junk)
  {
    assert code[..1][..0] == [] && Exec(code[..1], st, junk) == Exec1(code[0], st, junk);
    if |code| == 1 {
      assert code[..1] == code;
    } else {
      assert code[..2][..1] == code[..1];
      if |code| == 2 {
        assert code[..2] == code;
      }
    }
  }

  // ----- The parallel copy and the scheduler's invariant

  /** Every target takes its converted source as it was on entry. */
  function Parallel(moves: seq<Move>, st: State): State {
    if moves == [] then st
    else Parallel(moves[1..], st)[moves[0].dst := Convert(moves[0].ext, Get(st, moves[0].src))]
  }

  ghost predicate DistinctTargets(moves: seq<Move>) {
    forall i, j :: 0 <= i < j < |moves| ==> moves[i].dst != moves[j].dst
  }

  lemma {:induction false} ParallelIs(moves: seq<Move>, st: State)
    requires DistinctTargets(moves)
    ensures forall m :: m in moves ==> Get(Parallel(moves, st), m.dst) == Convert(m.ext, Get(st, m.src))
    ensures forall p :: (forall m :: m in moves ==> m.dst != p) ==> Get(Parallel(moves, st), p) == Get(st, p)
  {
    if moves == [] {
    } else {
      ParallelIs(moves[1..], st);
      forall m | m in moves
        ensures Get(Parallel(moves, st), m.dst) == Convert(m.ext, Get(st, m.src))
      {
        var i :| 0 <= i < |moves| && moves[i] == m;
        if i > 0 {
          assert m in moves[1..];
        }
      }
      forall p | forall m :: m in moves ==> m.dst != p
        ensures Get(Parallel(moves, st), p) == Get(st, p)
      {
        assert moves[0] in moves;
        assert forall m :: m in moves[1..] ==> m in moves;
      }
    }
  }

  /** The registers set aside for the scheduler, outside the allocator's bank. */
  datatype Scratch = Scratch(hold: nat, stage: nat)

  predicate IsScratch(sc: Scratch, p: Place) { p == IntReg(sc.hold) || p == IntReg(sc.stage) }

  /** Pending moves: integer ends, targets distinct and in the bank, sources in
      the bank or already saved in `hold`. */
  ghost predicate Ready(sc: Scratch, moves: seq<Move>) {
    && sc.hold != sc.stage
    && DistinctTargets(moves)
    && forall m :: m in moves ==>
         Integer(m.src) && Integer(m.dst) && !IsScratch(sc, m.dst) && m.src != IntReg(sc.stage)
  }

  /** Performing `moves` in parallel on `cur` yields `goal`, apart from the scratch. */
  ghost predicate Leads(sc: Scratch, moves: seq<Move>, cur: State, goal: State) {
    && (forall m :: m in moves ==> Get(goal, m.dst) == Convert(m.ext, Get(cur, m.src)))
    && (forall p :: !IsScratch(sc, p) && (forall m :: m in moves ==> m.dst != p) ==> Get(cur, p) == Get(goal, p))
  }

  /** Some other pending move still reads the target of move `i`. */
  predicate Blocked(moves: seq<Move>, i: nat)
    requires i < |moves|
  {
    exists j :: 0 <= j < |moves| && j != i && SameLoc(moves[j].src, moves[i].dst)
  }

  /** `swap_remove` */
  function SwapRemove<T>(s: seq<T>, i: nat): (r: seq<T>)
    requires i < |s|
    ensures |r| == |s| - 1
    ensures forall k :: 0 <= k < |r| ==> r[k] == if k == i then s[|s| - 1] else s[k]
  {
    s[i := s[|s| - 1]][..|s| - 1]
  }

  lemma SwapRemoveMembers(moves: seq<Move>, i: nat)
    requires i < |moves| && DistinctTargets(moves)
    ensures DistinctTargets(SwapRemove(moves, i))
    ensures forall m :: m in SwapRemove(moves, i) ==> m in moves && m.dst != moves[i].dst
    ensures forall m :: m in moves && m != moves[i] ==> m in SwapRemove(moves, i)
  {
    var r := SwapRemove(moves, i);
    forall m | m in r
      ensures m in moves && m.dst != moves[i].dst
    {
      var k :| 0 <= k < |r| && r[k] == m;
    }
    forall m | m in moves && m != moves[i]
      ensures m in r
    {
      var k :| 0 <= k < |moves| && moves[k] == m;
      assert m == r[if k == |moves| - 1 then i else k];
    }
  }

  /** Emitting an unblocked move and dropping it keeps the goal in sight. */
  lemma EmitUnblocked(sc: Scratch, moves: seq<Move>, i: nat, cur: State, goal: State, junk: int)
    requires Ready(sc, moves) && i < |moves| && !Blocked(moves, i) && Leads(sc, moves, cur, goal)
    ensures Ready(sc, SwapRemove(moves, i))
    ensures Leads(sc, SwapRemove(moves, i), Exec(EmitMove(moves[i], sc.stage), cur, junk), goal)
  {
    var m, rest := moves[i], SwapRemove(moves, i);
    var next := Exec(EmitMove(m, sc.stage), cur, junk);
    assert m in moves;
    SwapRemoveMembers(moves, i);
    EmitMoveIs(m, sc.stage, cur, junk);
    forall o | o in rest
      ensures Get(goal, o.dst) == Convert(o.ext, Get(next, o.src))
    {
      var j :| 0 <= j < |moves| && moves[j] == o;
      assert o.src != m.dst;
    }
    forall p | !IsScratch(sc, p) && (forall o :: o in rest ==> o.dst != p)
      ensures Get(next, p) == Get(goal, p)
    {
      if p != m.dst {
        assert forall o :: o in moves ==> o.dst != p;
      }
    }
  }

  // ----- When nothing is unblocked, the sources are exactly the targets

  ghost predicate Stuck(moves: seq<Move>) {
    forall i :: 0 <= i < |moves| ==> Blocked(moves, i)
  }

  function Sources(moves: seq<Move>): (r: seq<Place>)
    ensures |r| == |moves| && forall i :: 0 <= i < |moves| ==> r[i] == moves[i].src
  {
    seq(|moves|, i requires 0 <= i < |moves| => moves[i].src)
  }

  function Targets(moves: seq<Move>): (r: seq<Place>)
    ensures |r| == |moves| && forall i :: 0 <= i < |moves| ==> r[i] == moves[i].dst
  {
    seq(|moves|, i requires 0 <= i < |moves| => moves[i].dst)
  }

  ghost function Elements(s: seq<Place>): set<Place> { set x | x in s }

  ghost predicate AllDifferent(s: seq<Place>) { forall i, j :: 0 <= i < j < |s| ==> s[i] != s[j] }

  /** A sequence has as many elements as places exactly when they all differ. */
  lemma {:induction false} CountElements(s: seq<Place>)
    ensures |Elements(s)| <= |s| && (|Elements(s)| == |s| <==> AllDifferent(s))
  {
    if s == [] {
    } else {
      var init, last := s[..|s| - 1], s[|s| - 1];
      CountElements(init);
      assert s == init + [last];
      assert Elements(s) == Elements(init) + {last};
      if last in init {
        assert Elements(s) == Elements(init);
        var i :| 0 <= i < |init| && init[i] == last;
        assert s[i] == s[|s| - 1];
      } else {
        assert |Elements(s)| == |Elements(init)| + 1;
        assert forall i :: 0 <= i < |init| ==> s[i] == init[i];
      }
    }
  }

  lemma SubsetOfSameSize(a: set<Place>, b: set<Place>)
    requires a <= b && |a| >= |b|
    ensures a == b
  {
    if a != b {
      var x :| x in b && x !in a;
      assert a <= b - {x};
      SubsetSize(a, b - {x});
    }
  }

  lemma {:induction false} SubsetSize(a: set<Place>, b: set<Place>)
    requires a <= b
    ensures |a| <= |b|
  {
    if a != {} {
      var x :| x in a;
      SubsetSize(a - {x}, b - {x});
    }
  }

  /** Stuck moves form cycles: each place read is written, and read just once. */
  lemma StuckIsPermutation(moves: seq<Move>)
    requires DistinctTargets(moves) && Stuck(moves)
    ensures Elements(Sources(moves)) == Elements(Targets(moves)) && AllDifferent(Sources(moves))
  {
    var from, to := Sources(moves), Targets(moves);
    forall p | p in to
      ensures p in from
    {
      var i :| 0 <= i < |to| && to[i] == p;
      assert Blocked(moves, i);
      var j :| 0 <= j < |moves| && j != i && SameLoc(moves[j].src, moves[i].dst);
      assert from[j] == p;
    }
    CountElements(from);
    CountElements(to);
    SubsetOfSameSize(Elements(to), Elements(from));
  }

  lemma StuckSourceIsTarget(moves: seq<Move>, j: nat) returns (i: nat)
    requires DistinctTargets(moves) && Stuck(moves) && j < |moves|
    ensures i < |moves| && moves[i].dst == moves[j].src
  {
    StuckIsPermutation(moves);
    assert moves[j].src in Elements(Sources(moves)) by { assert Sources(moves)[j] == moves[j].src; }
    assert moves[j].src in Targets(moves);
    i :| 0 <= i < |moves| && Targets(moves)[i] == moves[j].src;
  }

  // ----- Breaking a cycle through the hold register

  /** Every move that reads `from` reads `to` instead. */
  function Redirect(moves: seq<Move>, from: Place, to: Place): (r: seq<Move>)
    ensures |r| == |moves|
    ensures forall i :: 0 <= i < |moves| ==>
              r[i] == if SameLoc(moves[i].src, from) then moves[i].(src := to) else moves[i]
  {
    seq(|moves|, i requires 0 <= i < |moves| => if SameLoc(moves[i].src, from) then moves[i].(src := to) else moves[i])
  }

  lemma HoldIsFree(sc: Scratch, moves: seq<Move>)
    requires Ready(sc, moves) && Stuck(moves)
    ensures forall m :: m in moves ==> m.src != IntReg(sc.hold)
  {
    forall m | m in moves
      ensures m.src != IntReg(sc.hold)
    {
      var j :| 0 <= j < |moves| && moves[j] == m;
      var i := StuckSourceIsTarget(moves, j);
      assert moves[i] in moves;
    }
  }

  lemma StageOneSource(sc: Scratch, moves: seq<Move>, cur: State, goal: State, junk: int)
    requires Ready(sc, moves) && Stuck(moves) && moves != [] && Leads(sc, moves, cur, goal)
    ensures var cyc := moves[0].src;
            var code := EmitMove(Move(cyc, IntReg(sc.hold), Keep), sc.stage);
            Leads(sc, Redirect(moves, cyc, IntReg(sc.hold)), Exec(code, cur, junk), goal)
  {
    var cyc := moves[0].src;
    var saving := Move(cyc, IntReg(sc.hold), Keep);
    var next := Exec(EmitMove(saving, sc.stage), cur, junk);
    var moves' := Redirect(moves, cyc, IntReg(sc.hold));
    assert moves[0] in moves;
    HoldIsFree(sc, moves);
    EmitMoveIs(saving, sc.stage, cur, junk);
    forall m | m in moves'
      ensures Get(goal, m.dst) == Convert(m.ext, Get(next, m.src))
    {
      var i :| 0 <= i < |moves'| && moves'[i] == m;
      assert moves[i] in moves;
    }
    forall p | !IsScratch(sc, p) && (forall m :: m in moves' ==> m.dst != p)
      ensures Get(next, p) == Get(goal, p)
    {
      forall m | m in moves
        ensures m.dst != p
      {
        var i :| 0 <= i < |moves| && moves[i] == m;
        assert moves'[i] in moves';
      }
    }
  }

  /** Saving a source frees the move that writes it. */
  lemma StagingFreesAMove(sc: Scratch, moves: seq<Move>)
    requires Ready(sc, moves) && Stuck(moves) && moves != []
    ensures var moves' := Redirect(moves, moves[0].src, IntReg(sc.hold)); Ready(sc, moves') && !Stuck(moves')
  {
    var cyc := moves[0].src;
    var moves' := Redirect(moves, cyc, IntReg(sc.hold));
    forall m | m in moves'
      ensures Integer(m.src) && Integer(m.dst) && !IsScratch(sc, m.dst) && m.src != IntReg(sc.stage)
    {
      var i :| 0 <= i < |moves'| && moves'[i] == m;
      assert moves[i] in moves;
    }
    assert moves[0] in moves;
    HoldIsFree(sc, moves);
    var k := StuckSourceIsTarget(moves, 0);
    assert !Blocked(moves', k);
  }

  // ----- Breaking a cycle by exchanging two registers

  predicate PlainPair(m: Move) { m.ext.Keep? && m.src.IntReg? && m.dst.IntReg? }

  function WithoutNops(moves: seq<Move>): (r: seq<Move>)
    ensures |r| <= |moves|
    ensures forall m :: m in r <==> m in moves && !IsNop(m)
  {
    if moves == [] then []
    else
      var rest := WithoutNops(moves[1..]);
      assert moves == [moves[0]] + moves[1..];
      if IsNop(moves[0]) then rest else [moves[0]] + rest
  }

  lemma {:induction false} WithoutNopsKeepsDistinct(moves: seq<Move>)
    requires DistinctTargets(moves)
    ensures DistinctTargets(WithoutNops(moves))
  {
    if moves == [] {
    } else {
      WithoutNopsKeepsDistinct(moves[1..]);
      var rest := WithoutNops(moves[1..]);
      forall k | 0 <= k < |rest|
        ensures rest[k].dst != moves[0].dst
      {
        assert rest[k] in moves[1..];
        var j :| 0 <= j < |moves[1..]| && moves[1..][j] == rest[k];
      }
    }
  }

  lemma {:induction false} WithoutNopsShrinks(moves: seq<Move>, i: nat)
    requires i < |moves| && IsNop(moves[i])
    ensures |WithoutNops(moves)| < |moves|
  {
    if i > 0 {
      WithoutNopsShrinks(moves[1..], i - 1);
    }
  }

  /** After the exchange of move `i`: its target's reader reads its source. */
  function Exchanged(moves: seq<Move>, i: nat): (r: seq<Move>)
    requires i < |moves|
    ensures |r| == |moves|
  {
    var m := moves[i];
    var turned := Redirect(moves, m.dst, m.src);
    turned[i := turned[i].(src := m.dst)]
  }

  lemma ExchangedIs(moves: seq<Move>, i: nat, k: nat)
    requires i < |moves| && k < |moves| && PlainPair(moves[i]) && !IsNop(moves[i])
    requires DistinctTargets(moves) && Stuck(moves)
    ensures var o := Exchanged(moves, i)[k];
            && o.dst == moves[k].dst && o.ext == moves[k].ext
            && o.src == (if k == i then moves[i].dst
                         else if moves[k].src == moves[i].dst then moves[i].src else moves[k].src)
            && (k != i ==> moves[k].src != moves[i].src)
  {
    StuckIsPermutation(moves);
    if k != i {
      assert Sources(moves)[k] != Sources(moves)[i];
    }
  }

  lemma ExchangeLeads(sc: Scratch, moves: seq<Move>, i: nat, cur: State, goal: State, junk: int)
    requires Ready(sc, moves) && Stuck(moves) && i < |moves| && PlainPair(moves[i]) && !IsNop(moves[i])
    requires Leads(sc, moves, cur, goal)
    ensures Leads(sc, Exchanged(moves, i), Exec([Xchg(moves[i].src.r, moves[i].dst.r)], cur, junk), goal)
  {
    var s, t := moves[i].src, moves[i].dst;
    var code := [Xchg(s.r, t.r)];
    assert code[..0] == [];
    var next := Exec(code, cur, junk);
    assert next == Exec1(code[0], Exec(code[..0], cur, junk), junk);
    assert Get(next, s) == Get(cur, t) && Get(next, t) == Get(cur, s);
    assert forall p :: p != s && p != t ==> Get(next, p) == Get(cur, p);
    var moves' := Exchanged(moves, i);
    forall m | m in moves'
      ensures Get(goal, m.dst) == Convert(m.ext, Get(next, m.src))
    {
      var k :| 0 <= k < |moves'| && moves'[k] == m;
      ExchangedIs(moves, i, k);
      assert moves[k] in moves;
    }
    forall p | !IsScratch(sc, p) && (forall m :: m in moves' ==> m.dst != p)
      ensures Get(next, p) == Get(goal, p)
    {
      forall m | m in moves
        ensures m.dst != p
      {
        var k :| 0 <= k < |moves| && moves[k] == m;
        ExchangedIs(moves, i, k);
        assert moves'[k] in moves';
      }
      var w := StuckSourceIsTarget(moves, i);
      assert moves[w] in moves && moves[i] in moves;
    }
  }

  lemma ExchangeReady(sc: Scratch, moves: seq<Move>, i: nat)
    requires Ready(sc, moves) && Stuck(moves) && i < |moves| && PlainPair(moves[i]) && !IsNop(moves[i])
    ensures Ready(sc, Exchanged(moves, i)) && IsNop(Exchanged(moves, i)[i])
  {
    var moves' := Exchanged(moves, i);
    forall k | 0 <= k < |moves|
      ensures moves'[k].dst == moves[k].dst
      ensures Integer(moves'[k].src) && moves'[k].src != IntReg(sc.stage)
      ensures Integer(moves'[k].dst) && !IsScratch(sc, moves'[k].dst)
    {
      ExchangedIs(moves, i, k);
      assert moves[k] in moves && moves[i] in moves;
    }
    ExchangedIs(moves, i, i);
  }

  /** Dropping moves that change nothing keeps the goal in sight. */
  lemma DropNops(sc: Scratch, moves: seq<Move>, cur: State, goal: State)
    requires Ready(sc, moves) && Leads(sc, moves, cur, goal)
    ensures Ready(sc, WithoutNops(moves)) && Leads(sc, WithoutNops(moves), cur, goal)
  {
    WithoutNopsKeepsDistinct(moves);
    forall p | !IsScratch(sc, p) && (forall m :: m in WithoutNops(moves) ==> m.dst != p)
      ensures Get(cur, p) == Get(goal, p)
    {
      if m :| m in moves && m.dst == p {
        assert IsNop(m);
      }
    }
  }

  // ----- The scheduler

  ghost predicate NoNops(moves: seq<Move>) { forall m :: m in moves ==> !IsNop(m) }

  /** `code` takes every state in which `moves` leads to a goal to one in which `moves'` does. */
  ghost predicate Advances(sc: Scratch, moves: seq<Move>, code: seq<Instr>, moves': seq<Move>) {
    forall cur, goal, junk :: Leads(sc, moves, cur, goal) ==> Leads(sc, moves', Exec(code, cur, junk), goal)
  }

  /** The first source other than `hold`; the first of all if there is none. */
  function CycleSource(moves: seq<Move>, from: nat, hold: Place): Place
    requires moves != [] && from <= |moves|
    decreases |moves| - from
  {
    if from == |moves| then moves[0].src
    else if !SameLoc(moves[from].src, hold) then moves[from].src
    else CycleSource(moves, from + 1, hold)
  }

  /** `break_place_cycle`; `canXchg` says whether the target has an exchange instruction. */
  method BreakCycle(sc: Scratch, moves: seq<Move>, canXchg: bool) returns (code: seq<Instr>, moves': seq<Move>)
    requires Ready(sc, moves) && Stuck(moves) && NoNops(moves) && moves != []
    ensures Ready(sc, moves') && NoNops(moves') && Advances(sc, moves, code, moves')
    ensures |moves'| < |moves| || (|moves'| == |moves| && !Stuck(moves'))
  {
    var i := 0;
    while i < |moves| && !PlainPair(moves[i])
      invariant 0 <= i <= |moves|
    {
      i := i + 1;
    }
    if i < |moves| && canXchg {
      assert moves[i] in moves;
      code := [Xchg(moves[i].src.r, moves[i].dst.r)];
      moves' := WithoutNops(Exchanged(moves, i));
      ExchangeReady(sc, moves, i);
      WithoutNopsShrinks(Exchanged(moves, i), i);
      WithoutNopsKeepsDistinct(Exchanged(moves, i));
      forall cur, goal, junk | Leads(sc, moves, cur, goal)
        ensures Leads(sc, moves', Exec(code, cur, junk), goal)
      {
        ExchangeLeads(sc, moves, i, cur, goal, junk);
        DropNops(sc, Exchanged(moves, i), Exec(code, cur, junk), goal);
      }
      return;
    }
    HoldIsFree(sc, moves);
    assert moves[0] in moves;
    var cyc := CycleSource(moves, 0, IntReg(sc.hold));
    code := EmitMove(Move(cyc, IntReg(sc.hold), Keep), sc.stage);
    moves' := Redirect(moves, cyc, IntReg(sc.hold));
    StagingFreesAMove(sc, moves);
    RedirectMakesNoNops(sc, moves, cyc);
    forall cur, goal, junk | Leads(sc, moves, cur, goal)
      ensures Leads(sc, moves', Exec(code, cur, junk), goal)
    {
      StageOneSource(sc, moves, cur, goal, junk);
    }
  }

  lemma RedirectMakesNoNops(sc: Scratch, moves: seq<Move>, from: Place)
    requires Ready(sc, moves) && NoNops(moves)
    ensures NoNops(Redirect(moves, from, IntReg(sc.hold)))
  {
    forall m | m in Redirect(moves, from, IntReg(sc.hold))
      ensures !IsNop(m)
    {
      var i :| 0 <= i < |moves| && Redirect(moves, from, IntReg(sc.hold))[i] == m;
      assert moves[i] in moves;
    }
  }

  datatype Outcome = Ok(code: seq<Instr>) | Err

  /** `schedule_place_moves`: the code performs all moves at once. It fails exactly
      on a move, other than one in place, with an FP or absent end. */
  method ScheduleMoves(all: seq<Move>, sc: Scratch, canXchg: bool) returns (r: Outcome)
    requires sc.hold != sc.stage && DistinctTargets(all)
    requires forall m :: m in all ==> !IsScratch(sc, m.src) && !IsScratch(sc, m.dst)
    ensures r.Err? <==> exists m :: m in all && !IsNop(m) && !(Integer(m.src) && Integer(m.dst))
    ensures r.Ok? ==> forall st, junk, m :: m in all ==>
              Get(Exec(r.code, st, junk), m.dst) == Convert(m.ext, Get(st, m.src))
    ensures r.Ok? ==> forall st, junk, m :: m in all ==>
              Narrowed(m.ext, Get(st, m.src), Get(Exec(r.code, st, junk), m.dst))
    ensures r.Ok? ==> forall st, junk, p :: !IsScratch(sc, p) && (forall m :: m in all ==> m.dst != p) ==>
              Get(Exec(r.code, st, junk), p) == Get(st, p)
  {
    var moves := WithoutNops(all);
    var n := 0;
    while n < |moves|
      invariant 0 <= n <= |moves|
      invariant forall k :: 0 <= k < n ==> Integer(moves[k].src) && Integer(moves[k].dst)
    {
      if !(Integer(moves[n].src) && Integer(moves[n].dst)) {
        assert moves[n] in moves;
        return Err;
      }
      n := n + 1;
    }
    var code: seq<Instr> := [];
    InitiallyLeads(sc, all);
    while moves != []
      invariant Ready(sc, moves) && NoNops(moves)
      invariant forall st, junk :: Leads(sc, moves, Exec(code, st, junk), Parallel(all, st))
      decreases |moves|, if Stuck(moves) then 1 else 0
    {
      var emitted, rest := DrainUnblocked(sc, moves);
      Compose(sc, all, moves, code, emitted, rest);
      code := code + emitted;
      if |rest| == |moves| {
        var more, rest' := BreakCycle(sc, rest, canXchg);
        Compose(sc, all, rest, code, more, rest');
        code := code + more;
        rest := rest';
      }
      moves := rest;
    }
    Finished(sc, all, code);
    forall ext, v ensures Narrowed(ext, v, Convert(ext, v)) {
      ConvertNarrows(ext, v);
    }
    return Ok(code);
  }

  /** One pass of the inner loop: emit what is unblocked as it is met. The list is
      left as long as it was exactly when everything in it was blocked. */
  method DrainUnblocked(sc: Scratch, start: seq<Move>) returns (code: seq<Instr>, moves: seq<Move>)
    requires Ready(sc, start) && NoNops(start)
    ensures Ready(sc, moves) && NoNops(moves) && Advances(sc, start, code, moves)
    ensures |moves| <= |start| && (|moves| == |start| <==> Stuck(start))
    ensures |moves| == |start| ==> moves == start
  {
    moves, code := start, [];
    var i := 0;
    while i < |moves|
      invariant 0 <= i <= |moves| <= |start|
      invariant Ready(sc, moves) && NoNops(moves) && Advances(sc, start, code, moves)
      invariant |moves| == |start| ==> moves == start && forall k :: 0 <= k < i ==> Blocked(start, k)
      invariant |moves| < |start| ==> !Stuck(start)
      decreases |moves| - i
    {
      if !Blocked(moves, i) {
        EmitAdvances(sc, start, code, moves, i);
        code := code + EmitMove(moves[i], sc.stage);
        SwapRemoveMembers(moves, i);
        moves := SwapRemove(moves, i);
      } else {
        i := i + 1;
      }
    }
  }

  lemma EmitAdvances(sc: Scratch, start: seq<Move>, code: seq<Instr>, moves: seq<Move>, i: nat)
    requires Ready(sc, moves) && i < |moves| && !Blocked(moves, i) && Advances(sc, start, code, moves)
    ensures Ready(sc, SwapRemove(moves, i))
    ensures Advances(sc, start, code + EmitMove(moves[i], sc.stage), SwapRemove(moves, i))
  {
    var emitted := EmitMove(moves[i], sc.stage);
    SwapRemoveMembers(moves, i);
    forall cur, goal, junk | Leads(sc, start, cur, goal)
      ensures Leads(sc, SwapRemove(moves, i), Exec(code + emitted, cur, junk), goal)
    {
      ExecAppend(code, emitted, cur, junk);
      EmitUnblocked(sc, moves, i, Exec(code, cur, junk), goal, junk);
    }
  }

  lemma InitiallyLeads(sc: Scratch, all: seq<Move>)
    requires DistinctTargets(all)
    ensures forall st, junk :: Leads(sc, WithoutNops(all), Exec([], st, junk), Parallel(all, st))
    ensures DistinctTargets(WithoutNops(all))
  {
    WithoutNopsKeepsDistinct(all);
    forall st, junk
      ensures Leads(sc, WithoutNops(all), Exec([], st, junk), Parallel(all, st))
    {
      ParallelIs(all, st);
      forall p | !IsScratch(sc, p) && (forall m :: m in WithoutNops(all) ==> m.dst != p)
        ensures Get(st, p) == Get(Parallel(all, st), p)
      {
        if m :| m in all && m.dst == p {
          assert IsNop(m);
        }
      }
    }
  }

  lemma Compose(sc: Scratch, all: seq<Move>, moves: seq<Move>, code: seq<Instr>, more: seq<Instr>, rest: seq<Move>)
    requires forall st, junk :: Leads(sc, moves, Exec(code, st, junk), Parallel(all, st))
    requires Advances(sc, moves, more, rest)
    ensures forall st, junk :: Leads(sc, rest, Exec(code + more, st, junk), Parallel(all, st))
  {
    forall st, junk
      ensures Leads(sc, rest, Exec(code + more, st, junk), Parallel(all, st))
    {
      ExecAppend(code, more, st, junk);
    }
  }

  lemma Finished(sc: Scratch, all: seq<Move>, code: seq<Instr>)
    requires DistinctTargets(all) && forall m :: m in all ==> !IsScratch(sc, m.dst)
    requires forall st, junk :: Leads(sc, [], Exec(code, st, junk), Parallel(all, st))
    ensures forall st, junk, m :: m in all ==> Get(Exec(code, st, junk), m.dst) == Convert(m.ext, Get(st, m.src))
    ensures forall st, junk, p :: !IsScratch(sc, p) && (forall m :: m in all ==> m.dst != p) ==>
              Get(Exec(code, st, junk), p) == Get(st, p)
  {
    forall st, junk
      ensures forall m :: m in all ==> Get(Exec(code, st, junk), m.dst) == Convert(m.ext, Get(st, m.src))
      ensures forall p :: !IsScratch(sc, p) && (forall m :: m in all ==> m.dst != p) ==>
                Get(Exec(code, st, junk), p) == Get(st, p)
    {
      ParallelIs(all, st);
      assert Leads(sc, [], Exec(code, st, junk), Parallel(all, st));
    }
  }
}
