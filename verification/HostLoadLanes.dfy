/** When exactly an exclusive block or call of `scripts/host_load.py` is alone on the
    host. A lane is a process that set a mark and those that inherited it. */
module HostLoadLanes {
  import opened Options
  import opened HostLoad
  import opened HostLoadRuns

  // ----- Exclusive calls that are not alone

  /** A call that asks for exclusive use inside a shared block gets nothing: two
      processes hold the lock shared while one is inside an exclusive call. */
  lemma NestedExclusiveIsNotAlone() returns (r: State)
    ensures Reachable(r) && |r.procs| == 2
    ensures r.procs[0].nested == [true] && HasLock(r.procs[0].pc) && HasLock(r.procs[1].pc)
  {
    var s := Start(2);
    var actions := Enter(s, [], s, 0, false, true);
    var one := Entered(s, 0, false);
    actions := Enter(s, actions, one, 1, false, true);
    var two := Entered(one, 1, false);
    RunsThen(s, actions, two, Request(0, true), true);
    r := Apply(two, Request(0, true), true);
  }

  /** So does one inside a call whose block has been left: an orphan of an exclusive
      block is inside an exclusive call while another process holds the lock. */
  lemma OrphanIsNotAlone() returns (r: State)
    ensures Reachable(r) && |r.procs| == 3
    ensures r.procs[2].nested == [true] && r.procs[2].parent == Some(0)
    ensures r.procs[0].pc.Idle? && HasLock(r.procs[1].pc) && r.procs[1].excl
  {
    var s := Start(2);
    var actions, left := LeaveOrphan();
    actions := Enter(s, actions, left, 1, true, true);
    var other := Entered(left, 1, true);
    RunsThen(s, actions, other, Request(2, true), true);
    r := Apply(other, Request(2, true), true);
  }

  /** A process takes the lock exclusively, starts a child and leaves its block. */
  lemma LeaveOrphan() returns (actions: seq<Action>, r: State)
    ensures Runs(Start(2), actions, r, true)
    ensures r == State([Proc(Idle, true, false, false, [], None, None), NEW_PROC,
                        Proc(Idle, false, true, true, [], Some(0), None)],
                       None, None, {})
  {
    var s := Start(2);
    actions := Enter(s, [], s, 0, true, true);
    var held := Entered(s, 0, true);
    RunsThen(s, actions, held, Spawn(0), true);
    actions := actions + [Spawn(0)];
    var family := Apply(held, Spawn(0), true);
    RunsThen(s, actions, family, DeleteMark(0), true);
    actions := actions + [DeleteMark(0)];
    var closing := Apply(family, DeleteMark(0), true);
    RunsThen(s, actions, closing, Unlock(0), true);
    actions := actions + [Unlock(0)];
    r := Apply(closing, Unlock(0), true);
  }

  /** Even inside an exclusive block its lane need not be alone: an orphan of another
      lane is inside an exclusive call at the same time, holding nothing. */
  lemma TwoLanesInside() returns (r: State)
    ensures Reachable(r) && Inv(r) && |r.procs| == 4 && r.procs[1].pc.Body? && r.procs[1].excl
    ensures r.procs[3].nested == [true] && Origin(r, 3) == 1
    ensures r.procs[2].nested == [true] && Origin(r, 2) == 0
  {
    var s := Start(2);
    var actions, left := LeaveOrphan();
    actions := Enter(s, actions, left, 1, true, true);
    var other := Entered(left, 1, true);
    RunsThen(s, actions, other, Spawn(1), true);
    actions := actions + [Spawn(1)];
    var family := Apply(other, Spawn(1), true);
    RunsThen(s, actions, family, Request(2, true), true);
    actions := actions + [Request(2, true)];
    var orphan := Apply(family, Request(2, true), true);
    RunsThen(s, actions, orphan, Request(3, true), true);
    r := Apply(orphan, Request(3, true), true);
    ReachableInv(r);
  }

  // ----- Who is inside a block, and by whose mark

  /** The process whose call of `held` set the mark that `p` carries. */
  function Origin(s: State, p: nat): (o: nat)
    requires Births(s) && p < |s.procs|
    ensures o <= p
    decreases p
  {
    assert BirthOk(s, p);
    if s.procs[p].born then Origin(s, s.procs[p].parent.value) else p
  }

  lemma {:induction false} OriginIsUnborn(s: State, p: nat)
    requires Births(s) && p < |s.procs|
    ensures !s.procs[Origin(s, p)].born
    ensures !s.procs[p].born ==> Origin(s, p) == p
    decreases p
  {
    assert BirthOk(s, p);
    if s.procs[p].born {
      OriginIsUnborn(s, s.procs[p].parent.value);
    }
  }

  /** The `k`-th nested call of `p` is open and asked for exclusive use. */
  ghost predicate NestedOpen(s: State, p: nat, k: nat) {
    p < |s.procs| && k < |s.procs[p].nested| && s.procs[p].nested[k]
  }

  /** A run throughout which that call stays open and, if `block`, `o` in its block. */
  ghost predicate Lasting(s: State, actions: seq<Action>, r: State, p: nat, k: nat, o: nat, block: bool)
    decreases |actions|
  {
    && NestedOpen(s, p, k) && o < |s.procs| && (block ==> s.procs[o].pc.Body?)
    && if actions == [] then r == s
       else Enabled(s, actions[0]) && Lasting(Apply(s, actions[0], true), actions[1..], r, p, k, o, block)
  }

  /** A run throughout which `o` stays in its block. */
  ghost predicate StaysIn(s: State, actions: seq<Action>, r: State, o: nat)
    decreases |actions|
  {
    && o < |s.procs| && s.procs[o].pc.Body?
    && if actions == [] then r == s
       else Enabled(s, actions[0]) && StaysIn(Apply(s, actions[0], true), actions[1..], r, o)
  }

  lemma StepKeepsBlock(s: State, a: Action, o: nat)
    requires Inv(s) && Enabled(s, a) && o < |s.procs| && s.procs[o].pc.Body?
    ensures var r := Apply(s, a, true);
      o < |r.procs| && (r.procs[o].pc.Body? ==> r.procs[o].excl == s.procs[o].excl)
  {
    assert MarkOk(s.procs[o]);
  }

  /** An exclusive block keeps every other process from the lock for as long as it lasts. */
  lemma {:induction false} BlockShields(s: State, actions: seq<Action>, r: State, o: nat, h: nat)
    requires Inv(s) && StaysIn(s, actions, r, o) && s.procs[o].excl && Holds(r, h)
    ensures h == o
    decreases |actions|
  {
    if actions == [] {
      assert s.writer == Some(o);
    } else {
      StepKeepsInv(s, actions[0]);
      StepKeepsBlock(s, actions[0], o);
      BlockShields(Apply(s, actions[0], true), actions[1..], r, o, h);
    }
  }

  lemma {:induction false} LastingStays(
    s: State, actions: seq<Action>, r: State, p: nat, k: nat, o: nat)
    requires Lasting(s, actions, r, p, k, o, true)
    ensures StaysIn(s, actions, r, o)
    decreases |actions|
  {
    if actions != [] {
      LastingStays(Apply(s, actions[0], true), actions[1..], r, p, k, o);
    }
  }

  lemma {:induction false} QuietLasts(
    s: State, actions: seq<Action>, r: State, keep: set<nat>, p: nat, k: nat, o: nat, block: bool)
    requires Quiet(s, actions, r, keep) && p in keep && (block ==> o in keep)
    requires NestedOpen(s, p, k) && o < |s.procs| && (block ==> s.procs[o].pc.Body?)
    ensures Lasting(s, actions, r, p, k, o, block)
    decreases |actions|
  {
    if actions != [] {
      var m := Apply(s, actions[0], true);
      assert m.procs[p] == s.procs[p] && |m.procs| >= |s.procs| && (o in keep ==> m.procs[o] == s.procs[o]);
      QuietLasts(m, actions[1..], r, keep, p, k, o, block);
    }
  }

  lemma {:induction false} QuietStays(s: State, actions: seq<Action>, r: State, keep: set<nat>, o: nat)
    requires Quiet(s, actions, r, keep) && o in keep && o < |s.procs| && s.procs[o].pc.Body?
    ensures StaysIn(s, actions, r, o)
    decreases |actions|
  {
    if actions != [] {
      var m := Apply(s, actions[0], true);
      assert m.procs[o] == s.procs[o] && |m.procs| >= |s.procs|;
      QuietStays(m, actions[1..], r, keep, o);
    }
  }

  // ----- A stranger to an exclusive block

  /** The process is inside a block of `held`: its own, or one entered on the mark. */
  predicate InBlock(q: Proc) { !q.pc.Exited? && (q.pc.Body? || q.nested != []) }

  /** Every live process that carries a mark has it from `o`. */
  ghost predicate OneLane(s: State, o: nat)
    requires Births(s)
  {
    forall q :: 0 <= q < |s.procs| && s.procs[q].marked && !s.procs[q].pc.Exited? ==> Origin(s, q) == o
  }

  lemma {:induction false} OriginStays(s: State, a: Action, q: nat)
    requires Inv(s) && Enabled(s, a) && q < |s.procs|
    ensures var r := Apply(s, a, true); Births(r) && q < |r.procs| && Origin(r, q) == Origin(s, q)
    decreases q
  {
    StepKeepsBirths(s, a);
    StepKeepsRecord(s, a, q);
    assert BirthOk(s, q);
    if s.procs[q].born {
      OriginStays(s, a, s.procs[q].parent.value);
    }
  }

  lemma OthersHoldNothing(s: State, o: nat, q: nat)
    requires Inv(s) && o < |s.procs| && s.procs[o].pc.Body? && s.procs[o].excl && q < |s.procs|
    ensures q != o ==> !HasLock(s.procs[q].pc)
  {
    var holds, excl := HasLock(s.procs[q].pc), s.procs[q].excl;
    assert s.writer == Some(o);
    assert holds && excl ==> s.writer == Some(q);
    assert holds && !excl ==> q in s.readers;
  }

  /** Nobody else sets a mark while `o` holds the lock exclusively. */
  lemma MarkedBefore(s: State, a: Action, o: nat, q: nat)
    requires Inv(s) && Enabled(s, a) && o < |s.procs| && s.procs[o].pc.Body? && s.procs[o].excl && q < |s.procs|
    requires var r := Apply(s, a, true); q < |r.procs| && r.procs[q].marked && !r.procs[q].pc.Exited?
    ensures s.procs[q].marked && !s.procs[q].pc.Exited?
  {
    OthersHoldNothing(s, o, q);
  }

  lemma StepKeepsLane(s: State, a: Action, o: nat)
    requires Inv(s) && Enabled(s, a) && o < |s.procs| && s.procs[o].pc.Body? && s.procs[o].excl && OneLane(s, o)
    ensures var r := Apply(s, a, true); Births(r) && OneLane(r, o)
  {
    var r := Apply(s, a, true);
    StepKeepsBirths(s, a);
    forall q | 0 <= q < |r.procs| && r.procs[q].marked && !r.procs[q].pc.Exited? ensures Origin(r, q) == o {
      if q < |s.procs| {
        MarkedBefore(s, a, o, q);
        OriginStays(s, a, q);
      } else {
        OriginStays(s, a, a.p);
      }
    }
  }

  lemma {:induction false} LaneStaysAlone(s: State, actions: seq<Action>, r: State, o: nat, h: nat)
    requires Inv(s) && StaysIn(s, actions, r, o) && s.procs[o].excl && OneLane(s, o)
    requires h < |r.procs| && InBlock(r.procs[h])
    ensures Births(r) && Origin(r, h) == o
    decreases |actions|
  {
    if actions == [] {
      assert MarkOk(s.procs[h]);
    } else {
      StepKeepsInv(s, actions[0]);
      StepKeepsBlock(s, actions[0], o);
      StepKeepsLane(s, actions[0], o);
      LaneStaysAlone(Apply(s, actions[0], true), actions[1..], r, o, h);
    }
  }

  /** A stranger carries an inherited mark; so do its children, with the same origin. */
  lemma StrangerIsBorn(s: State, o: nat, q: nat)
    requires Inv(s) && o < |s.procs| && s.procs[o].pc.Body? && s.procs[o].excl
    requires q < |s.procs| && s.procs[q].marked && !s.procs[q].pc.Exited? && Origin(s, q) != o
    ensures s.procs[q].born && s.procs[q].pc.Idle?
    ensures s.procs[q].waits.Some? ==>
      var c := s.procs[q].waits.value; c < |s.procs| && c != q && Origin(s, c) == Origin(s, q)
  {
    OriginIsUnborn(s, o);
    assert MarkOk(s.procs[q]) && MarkOk(s.procs[o]);
    OthersHoldNothing(s, o, q);
    if !s.procs[q].born {
      OriginIsUnborn(s, q);
    }
    if s.procs[q].waits.Some? {
      assert BirthOk(s, s.procs[q].waits.value);
    }
  }

  /** One step on the way, with what is kept of it. */
  lemma Onward(s: State, m: State, a: Action, keep: set<nat>, q: nat)
    requires CanGo(s, m, keep) && Inv(m) && Enabled(m, a) && !a.Await? && a.p !in keep && q < |m.procs|
    ensures var r := Apply(m, a, true);
      CanGo(s, r, keep) && Inv(r) && q < |r.procs| && Origin(r, q) == Origin(m, q)
  {
    GoOn(s, m, a, keep);
    StepKeepsInv(m, a);
    OriginStays(m, a, q);
  }

  /** Whatever the stranger waits for is killed, and it stops waiting. */
  lemma StrangerWakes(s: State, o: nat, q: nat, keep: set<nat>) returns (r: State)
    requires Inv(s) && o < |s.procs| && s.procs[o].pc.Body? && s.procs[o].excl
    requires q < |s.procs| && s.procs[q].marked && !s.procs[q].pc.Exited? && Origin(s, q) != o
    requires forall j :: j in keep ==> j < |s.procs| && Origin(s, j) == o
    ensures CanGo(s, r, keep) && Inv(r) && q < |r.procs| && Origin(r, q) == Origin(s, q)
    ensures r.procs[q] == s.procs[q].(waits := None)
  {
    StrangerIsBorn(s, o, q);
    GoNowhere(s, keep);
    r := s;
    if s.procs[q].waits.Some? {
      var c := s.procs[q].waits.value;
      if !s.procs[c].pc.Exited? {
        Onward(s, s, Kill(c), keep, q);
        r := Apply(s, Kill(c), true);
      }
      Onward(s, r, Wake(q), keep, q);
      r := Apply(r, Wake(q), true);
    }
  }

  /** A live marked process of another lane can get into a call beside the block. */
  lemma StrangerGetsIn(s: State, o: nat, q: nat, keep: set<nat>) returns (r: State)
    requires Inv(s) && o < |s.procs| && s.procs[o].pc.Body? && s.procs[o].excl
    requires q < |s.procs| && s.procs[q].marked && !s.procs[q].pc.Exited? && Origin(s, q) != o
    requires forall j :: j in keep ==> j < |s.procs| && Origin(s, j) == o
    ensures CanGo(s, r, keep) && Inv(r) && q < |r.procs| && Origin(r, q) != o && InBlock(r.procs[q])
  {
    StrangerIsBorn(s, o, q);
    r := StrangerWakes(s, o, q, keep);
    Onward(s, r, Request(q, true), keep, q);
    r := Apply(r, Request(q, true), true);
  }

  /** As long as `o` stays in its block no process of another lane is inside one. */
  ghost predicate BlockAlone(s: State, o: nat) {
    forall actions, r, h: nat ::
      StaysIn(s, actions, r, o) && Births(r) && h < |r.procs| && InBlock(r.procs[h]) ==> Origin(r, h) == o
  }

  /** An exclusive block has the host to its lane, whatever happens while it lasts,
      exactly when no live process carries a mark from elsewhere. */
  lemma ExclusiveBlockIsAloneIff(s: State, o: nat)
    requires Inv(s) && o < |s.procs| && s.procs[o].pc.Body? && s.procs[o].excl
    ensures BlockAlone(s, o) <==> OneLane(s, o)
  {
    if OneLane(s, o) {
      forall actions, r, h: nat | StaysIn(s, actions, r, o) && Births(r) && h < |r.procs| && InBlock(r.procs[h])
        ensures Origin(r, h) == o
      {
        LaneStaysAlone(s, actions, r, o, h);
      }
    } else {
      var q :| 0 <= q < |s.procs| && s.procs[q].marked && !s.procs[q].pc.Exited? && Origin(s, q) != o;
      assert MarkOk(s.procs[o]);
      OriginIsUnborn(s, o);
      var r := StrangerGetsIn(s, o, q, {o});
      var actions :| Quiet(s, actions, r, {o});
      QuietStays(s, actions, r, {o}, o);
    }
  }

  // ----- When exactly a nested exclusive call is alone

  /** As long as the call is open, and its origin in the block it is in, if any, no
      process but the origin ever holds the lock. */
  ghost predicate NobodyElseHolds(s: State, p: nat, k: nat)
    requires Inv(s) && p < |s.procs|
  {
    var o := Origin(s, p);
    forall actions, r, h: nat :: Lasting(s, actions, r, p, k, o, s.procs[o].pc.Body?) && Holds(r, h) ==> h == o
  }

  /** For as long no process of another lane is inside a block. */
  ghost predicate CallAlone(s: State, p: nat, k: nat)
    requires Inv(s) && p < |s.procs|
  {
    var o := Origin(s, p);
    forall actions, r, h: nat ::
      Lasting(s, actions, r, p, k, o, s.procs[o].pc.Body?) && Births(r) && h < |r.procs| && InBlock(r.procs[h])
      ==> Origin(r, h) == o
  }

  /** With only spared processes left, and none of them in the lock's way, a
      newcomer gets the lock and into its block. */
  lemma NewcomerGetsIn(s: State, m: State, keep: set<nat>, n: nat) returns (r: State)
    requires CanGo(s, m, keep) && Inv(m) && n < |m.procs| && n !in keep && m.procs[n] == NEW_PROC
    requires m.turn.None? && m.writer.None?
    ensures CanGo(s, r, keep) && Holds(r, n) && |r.procs| == |m.procs| && r.procs[n].pc.Body? && !r.procs[n].born
  {
    var q := NEW_PROC;
    GoOn(s, m, Request(n, false), keep);
    var a := Put(m, n, q.(pc := WantTurn, excl := false));
    GoOn(s, a, TakeTurn(n), keep);
    var b := Put(m, n, q.(pc := WantLock, excl := false)).(turn := Some(n));
    assert Apply(a, TakeTurn(n), true) == b;
    GoOn(s, b, TakeLock(n), keep);
    var c := Apply(b, TakeLock(n), true);
    GoOn(s, c, DropTurn(n), keep);
    var d := Apply(c, DropTurn(n), true);
    GoOn(s, d, SetMark(n), keep);
    r := Apply(d, SetMark(n), true);
  }

  /** What stands in nobody's way: a marked process, unless it holds the lock exclusively. */
  lemma NobodyInTheWay(s: State, keep: set<nat>, n: nat)
    requires Inv(s) && n < |s.procs| && s.procs[n].pc.Idle?
    requires forall j :: 0 <= j < |s.procs| && j !in keep && j != n ==> s.procs[j].pc.Exited?
    requires forall j :: j in keep ==> j < |s.procs| && s.procs[j].marked && !(s.procs[j].pc.Body? && s.procs[j].excl)
    ensures s.turn.None? && s.writer.None?
  {
    forall t: nat ensures s.turn != Some(t) && s.writer != Some(t) {
      assert t < |s.procs| ==> MarkOk(s.procs[t]);
    }
  }

  /** Where the origin is not in an exclusive block, a run with the call open
      throughout leads to an outsider that holds the lock and is in its block. */
  lemma OutsiderGetsIn(s: State, p: nat, k: nat, o: nat) returns (actions: seq<Action>, r: State, h: nat)
    requires Inv(s) && NestedOpen(s, p, k) && o == Origin(s, p)
    requires !(s.procs[o].pc.Body? && s.procs[o].excl)
    ensures Lasting(s, actions, r, p, k, o, s.procs[o].pc.Body?)
    ensures Holds(r, h) && h == |s.procs| < |r.procs| && InBlock(r.procs[h]) && Births(r) && Origin(r, h) == h
  {
    OriginIsUnborn(s, p);
    assert MarkOk(s.procs[p]) && MarkOk(s.procs[o]);
    h := |s.procs|;
    var keep := if s.procs[o].pc.Body? then {p, o} else {p};
    GoNowhere(s, keep);
    GoOn(s, s, Launch(h), keep);
    StepKeepsInv(s, Launch(h));
    var m := KillOthers(s, Apply(s, Launch(h), true), keep, keep + {h}, h + 1);
    NobodyInTheWay(m, keep, h);
    r := NewcomerGetsIn(s, m, keep, h);
    actions :| Quiet(s, actions, r, keep);
    QuietLasts(s, actions, r, keep, p, k, o, s.procs[o].pc.Body?);
    QuietKeepsInv(s, actions, r, keep);
    OriginIsUnborn(r, h);
  }

  /** A nested exclusive call keeps everybody but its origin from the lock, whatever
      happens while it is open, exactly when the process that set its mark is in an
      exclusive block. Calls entered on a mark hold nothing and are not counted. */
  lemma NestedExclusiveHoldsOffIff(s: State, p: nat, k: nat)
    requires Reachable(s) && NestedOpen(s, p, k)
    ensures Inv(s)
    ensures NobodyElseHolds(s, p, k) <==> s.procs[Origin(s, p)].pc.Body? && s.procs[Origin(s, p)].excl
  {
    ReachableInv(s);
    var o := Origin(s, p);
    if s.procs[o].pc.Body? && s.procs[o].excl {
      forall actions, r, h: nat | Lasting(s, actions, r, p, k, o, true) && Holds(r, h) ensures h == o {
        LastingStays(s, actions, r, p, k, o);
        BlockShields(s, actions, r, o, h);
      }
    } else {
      var actions, r, h := OutsiderGetsIn(s, p, k, o);
    }
  }

  /** A nested exclusive call has the host to its lane, whatever happens while it is
      open, exactly when the process that set its mark is in an exclusive block and
      no live process carries a mark from elsewhere. */
  lemma NestedExclusiveIsAloneIff(s: State, p: nat, k: nat)
    requires Reachable(s) && NestedOpen(s, p, k)
    ensures Inv(s)
    ensures var o := Origin(s, p);
      CallAlone(s, p, k) <==> s.procs[o].pc.Body? && s.procs[o].excl && OneLane(s, o)
  {
    ReachableInv(s);
    var o := Origin(s, p);
    if !(s.procs[o].pc.Body? && s.procs[o].excl) {
      var actions, r, h := OutsiderGetsIn(s, p, k, o);
    } else if OneLane(s, o) {
      forall actions, r, h: nat
        | Lasting(s, actions, r, p, k, o, true) && Births(r) && h < |r.procs| && InBlock(r.procs[h])
        ensures Origin(r, h) == o
      {
        LastingStays(s, actions, r, p, k, o);
        LaneStaysAlone(s, actions, r, o, h);
      }
    } else {
      StrangerBesideCall(s, p, k, o);
    }
  }

  lemma StrangerBesideCall(s: State, p: nat, k: nat, o: nat)
    requires Inv(s) && NestedOpen(s, p, k) && o == Origin(s, p) && s.procs[o].pc.Body? && s.procs[o].excl
    requires !OneLane(s, o)
    ensures !CallAlone(s, p, k)
  {
    var q :| 0 <= q < |s.procs| && s.procs[q].marked && !s.procs[q].pc.Exited? && Origin(s, q) != o;
    OriginIsUnborn(s, p);
    OriginIsUnborn(s, o);
    var r := StrangerGetsIn(s, o, q, {p, o});
    var actions :| Quiet(s, actions, r, {p, o});
    QuietLasts(s, actions, r, {p, o}, p, k, o, true);
  }
}
