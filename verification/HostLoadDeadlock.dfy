/** When exactly a run of `scripts/host_load.py` can deadlock, and that otherwise
    everybody can finish. */
module HostLoadDeadlock {
  import opened Options
  import opened HostLoad
  import opened HostLoadRuns

  ghost predicate Deadlocked(s: State) {
    !CanFinish(s) && exists p :: 0 <= p < |s.procs| && Busy(s.procs[p])
  }

  /** `o` waits in the turnstile for the lock that `p` holds, and `p` waits for the
      process `c`, which is `o` itself or waits for the turnstile. */
  lemma CircleOfWaits(s: State, p: nat, o: nat, c: nat)
    requires p < |s.procs| && o < |s.procs| && c < |s.procs| && p != o
    requires forall q :: q in s.procs ==>
               q == s.procs[p] || q == s.procs[o] || q == s.procs[c] || (q.pc.Exited? && q.waits.None?)
    requires s.procs[p].pc.Body? && s.procs[p].waits == Some(c)
    requires s.procs[o].pc.WantLock? && s.procs[o].waits.None? && s.turn.Some?
    requires s.writer.Some? || (s.procs[o].excl && s.readers != {})
    requires c == o || (s.procs[c].pc.WantTurn? && s.procs[c].waits.None?)
    ensures Deadlocked(s)
  {
    assert Busy(s.procs[p]);
    forall a | Finishing(a)
      ensures !Enabled(s, a)
    {
      if a.p < |s.procs| {
        assert s.procs[a.p] in s.procs;
      }
    }
  }

  /** The discipline is needed: a holder that waits for a child it spawned before
      taking the lock never wakes once that child requests the lock too. */
  lemma WaitingForAnOutsiderDeadlocks() returns (r: State)
    ensures Reachable(r) && Deadlocked(r)
  {
    var s := Start(1);
    var family := Apply(s, Spawn(0), true);
    RunsThen(s, [], s, Spawn(0), true);
    var actions := Enter(s, [] + [Spawn(0)], family, 0, true, true);
    var held := Entered(family, 0, true);
    actions := EnterTurnstile(s, actions, held, 1, false, true);
    var both := Put(held, 1, held.procs[1].(pc := WantLock, excl := false)).(turn := Some(1));
    RunsThen(s, actions, both, Await(0, 1), true);
    r := Apply(both, Await(0, 1), true);
    CircleOfWaits(r, 0, 1, 1);
  }

  /** A shared holder, and an exclusive requester in the turnstile behind it. */
  lemma SharedThenExclusive(useMark: bool) returns (actions: seq<Action>, r: State)
    ensures Runs(Start(2), actions, r, useMark)
    ensures r == State([Proc(Body, false, true, false, [], None, None),
                        Proc(WantLock, true, false, false, [], None, None)],
                       Some(1), None, {0})
  {
    var s := Start(2);
    actions := Enter(s, [], s, 0, false, useMark);
    var held := Entered(s, 0, false);
    actions := EnterTurnstile(s, actions, held, 1, true, useMark);
    r := Put(held, 1, held.procs[1].(pc := WantLock, excl := true)).(turn := Some(1));
  }

  /** The shared holder then starts a child and waits for it. */
  lemma SharedHolderWaits() returns (actions: seq<Action>, r: State)
    ensures Runs(Start(2), actions, r, false)
    ensures r == State([Proc(Body, false, true, false, [], None, Some(2)),
                        Proc(WantLock, true, false, false, [], None, None),
                        Proc(Idle, false, true, true, [], Some(0), None)], Some(1), None, {0})
  {
    var behind: State;
    actions, behind := SharedThenExclusive(false);
    RunsThen(Start(2), actions, behind, Spawn(0), false);
    actions := actions + [Spawn(0)];
    var family := Apply(behind, Spawn(0), false);
    RunsThen(Start(2), actions, family, Await(0, 2), false);
    actions := actions + [Await(0, 2)];
    r := Apply(family, Await(0, 2), false);
  }

  /** The mark is needed: without its test, a shared holder's child that requests
      the lock behind a waiting exclusive requester waits for ever. */
  lemma WithoutTheMarkChildrenDeadlock() returns (actions: seq<Action>, r: State)
    ensures Runs(Start(2), actions, r, false) && WaitsInside(r) && Deadlocked(r)
  {
    var waiting: State;
    actions, waiting := SharedHolderWaits();
    RunsThen(Start(2), actions, waiting, Request(2, false), false);
    actions := actions + [Request(2, false)];
    r := Apply(waiting, Request(2, false), false);
    assert 0 in r.readers;
    CircleOfWaits(r, 0, 1, 2);
  }

  // ----- When exactly a run can deadlock

  /** `p` waits in its block for the live, unmarked child `c`; all others have exited. */
  ghost predicate Pair(s: State, p: nat, c: nat) {
    && Inv(s) && p < |s.procs| && c < |s.procs|
    && s.procs[p].pc.Body? && s.procs[p].waits == Some(c) && s.procs[c].parent == Some(p)
    && !s.procs[c].born && !s.procs[c].pc.Exited?
    && forall j :: 0 <= j < |s.procs| && j != p && j != c ==> s.procs[j].pc.Exited?
  }

  /** How far the child is from waiting for the lock its parent holds. */
  ghost function Distance(parent: Proc, child: Proc): nat {
    var blocked := child.excl || parent.excl;
    var wait := if child.waits.Some? then 1 else 0;
    match child.pc
    case WantLock => if blocked then 0 else 9
    case WantTurn => if blocked then 1 else 10
    case Idle => 2 + wait
    case Closing => 4
    case Body => 5 + |child.nested| + wait
    case Released => 7
    case GotLock => 8
    case Exited => 11
  }

  /** The child finishes what it is at and then asks for the lock exclusively. */
  function NextMove(s: State, c: nat): Action
    requires c < |s.procs|
  {
    var q := s.procs[c];
    match q.pc
    case Idle => if q.waits.Some? then Wake(c) else Request(c, true)
    case WantTurn => TakeTurn(c)
    case WantLock => TakeLock(c)
    case GotLock => DropTurn(c)
    case Released => SetMark(c)
    case Body => if q.waits.Some? then Wake(c) else if q.nested != [] then LeaveNested(c) else DeleteMark(c)
    case Closing => Unlock(c)
    case Exited => Kill(c)
  }

  lemma PairLocks(s: State, p: nat, c: nat)
    requires Pair(s, p, c)
    ensures !InTurnstile(s.procs[c].pc) ==> s.turn.None?
    ensures !HasLock(s.procs[c].pc) && !s.procs[p].excl ==> s.writer.None?
    ensures if s.procs[p].excl then s.writer == Some(p) else p in s.readers
  {
    if s.turn.Some? {
      assert InTurnstile(s.procs[s.turn.value].pc);
    }
    if s.writer.Some? {
      var o := s.writer.value;
      assert HasLock(s.procs[o].pc) && s.procs[o].excl;
    }
  }

  /** What the child waits for has exited. */
  lemma GrandchildIsGone(s: State, p: nat, c: nat)
    requires Pair(s, p, c) && s.procs[c].waits.Some?
    ensures s.procs[c].waits.value < |s.procs| && s.procs[s.procs[c].waits.value].pc.Exited?
  {
    var g := s.procs[c].waits.value;
    assert s.procs[g].parent == Some(c);
    assert BirthOk(s, g) && BirthOk(s, c);
  }

  lemma ChildCanMove(s: State, p: nat, c: nat)
    requires Pair(s, p, c) && Distance(s.procs[p], s.procs[c]) > 0
    ensures Enabled(s, NextMove(s, c))
  {
    PairLocks(s, p, c);
    assert MarkOk(s.procs[c]);
    if s.procs[c].waits.Some? {
      GrandchildIsGone(s, p, c);
    }
  }

  lemma ChildMoves(s: State, p: nat, c: nat)
    requires Pair(s, p, c) && Distance(s.procs[p], s.procs[c]) > 0
    ensures Enabled(s, NextMove(s, c))
    ensures var r := Apply(s, NextMove(s, c), true);
      Pair(r, p, c) && Distance(r.procs[p], r.procs[c]) < Distance(s.procs[p], s.procs[c])
  {
    ChildCanMove(s, p, c);
    StepKeepsInv(s, NextMove(s, c));
    assert MarkOk(s.procs[c]) && BirthOk(s, c);
  }

  lemma {:induction false} ChildGetsThere(s: State, m: State, p: nat, c: nat) returns (r: State)
    requires CanGo(s, m, {p}) && Pair(m, p, c)
    ensures CanGo(s, r, {p}) && Pair(r, p, c) && Distance(r.procs[p], r.procs[c]) == 0
    decreases Distance(m.procs[p], m.procs[c])
  {
    r := m;
    if Distance(m.procs[p], m.procs[c]) > 0 {
      assert BirthOk(m, c);
      ChildMoves(m, p, c);
      GoOn(s, m, NextMove(m, c), {p});
      r := ChildGetsThere(s, Apply(m, NextMove(m, c), true), p, c);
    }
  }

  lemma PairDeadlocks(s: State, p: nat, c: nat)
    requires Pair(s, p, c) && Distance(s.procs[p], s.procs[c]) == 0
    ensures Deadlocked(s)
  {
    PairLocks(s, p, c);
    assert BirthOk(s, c) && MarkOk(s.procs[c]);
    assert s.turn == Some(c);
    forall q | q in s.procs ensures q == s.procs[p] || q == s.procs[c] || (q.pc.Exited? && q.waits.None?) {
      var j :| 0 <= j < |s.procs| && s.procs[j] == q;
      assert MarkOk(s.procs[j]);
    }
    CircleOfWaits(s, p, c, c);
  }

  /** Some run that keeps to the discipline from here on deadlocks. */
  ghost predicate CanDeadlock(s: State) {
    exists actions, r :: RunsInside(s, actions, r) && Deadlocked(r)
  }

  lemma {:induction false} QuietIsInside(s: State, actions: seq<Action>, r: State, keep: set<nat>)
    requires Quiet(s, actions, r, keep)
    ensures RunsInside(s, actions, r)
    decreases |actions|
  {
    if actions != [] {
      QuietIsInside(Apply(s, actions[0], true), actions[1..], r, keep);
    }
  }

  /** A marked process that waits for a live child without the mark is in its block. */
  lemma OutsiderIsWaitedFor(s: State) returns (p: nat, c: nat)
    requires Inv(s) && !WaitsInside(s)
    ensures p < |s.procs| && c < |s.procs| && p != c && s.procs[p].pc.Body? && s.procs[p].waits == Some(c)
    ensures s.procs[c].parent == Some(p) && !Harmless(s.procs[c])
  {
    p :| p < |s.procs| && s.procs[p].waits.Some? && s.procs[p].marked
      && !(s.procs[p].waits.value < |s.procs| && Harmless(s.procs[s.procs[p].waits.value]));
    c := s.procs[p].waits.value;
    assert MarkOk(s.procs[p]) && BirthOk(s, c);
  }

  lemma OutsiderDeadlocks(s: State)
    requires Inv(s) && !WaitsInside(s)
    ensures CanDeadlock(s)
  {
    var p, c := OutsiderIsWaitedFor(s);
    GoNowhere(s, {p});
    var m := KillOthers(s, s, {p}, {p, c}, |s.procs|);
    var r := ChildGetsThere(s, m, p, c);
    PairDeadlocks(r, p, c);
    var actions :| Quiet(s, actions, r, {p});
    QuietIsInside(s, actions, r, {p});
  }

  /** From a state of any run, a run that keeps to the discipline from there on can
      deadlock exactly when some marked process waits for a live unmarked child. */
  lemma DeadlockIff(s: State)
    requires Inv(s)
    ensures CanDeadlock(s) <==> !WaitsInside(s)
  {
    if CanDeadlock(s) && WaitsInside(s) {
      var actions, r :| RunsInside(s, actions, r) && Deadlocked(r);
      var p :| 0 <= p < |r.procs| && Busy(r.procs[p]);
      DisciplinedRunsNeverDeadlock(s, actions, r, p);
    }
    if !WaitsInside(s) {
      OutsiderDeadlocks(s);
    }
  }

  /** The discipline is the exact guard: of all steps from a state that keeps to it,
      those that break it are the ones after which a deadlock can come. */
  lemma GuardIsExact(s: State, a: Action)
    requires Reachable(s) && WaitsInside(s) && Enabled(s, a)
    ensures CanDeadlock(Apply(s, a, true)) <==> !WaitsForOwn(s, a)
  {
    ReachableInv(s);
    var r := Apply(s, a, true);
    StepKeepsInv(s, a);
    DeadlockIff(r);
    if WaitsForOwn(s, a) {
      StepKeepsWaitsInside(s, a);
    } else {
      assert BirthOk(s, a.c);
      assert r.procs[a.p].waits == Some(a.c) && r.procs[a.p].marked && r.procs[a.c] == s.procs[a.c];
    }
  }

  // ----- What is under way can always be finished

  /** How many steps a process is from the end of what it is at. */
  function Rank(q: Proc): nat {
    var at := match q.pc
      case WantTurn => 8
      case WantLock => 7
      case GotLock => 6
      case Released => 5
      case Body => 4
      case Closing => 3
      case Idle => 2
      case Exited => 0;
    at + |q.nested| + (if q.waits.Some? then 1 else 0)
  }

  function Ranks(procs: seq<Proc>): nat {
    if procs == [] then 0 else Rank(procs[0]) + Ranks(procs[1..])
  }

  lemma {:induction false} RanksUpdate(procs: seq<Proc>, p: nat, q: Proc)
    requires p < |procs|
    ensures Ranks(procs[p := q]) + Rank(procs[p]) == Ranks(procs) + Rank(q)
  {
    if p == 0 {
      assert procs[p := q][1..] == procs[1..];
    } else {
      assert procs[p := q][1..] == procs[1..][p - 1 := q];
      RanksUpdate(procs[1..], p - 1, q);
    }
  }

  /** A finishing step changes one process, and brings it closer to its end. */
  lemma FinishingLowers(s: State, a: Action)
    requires Enabled(s, a) && Finishing(a)
    ensures Ranks(Apply(s, a, true).procs) < Ranks(s.procs)
  {
    var r := Apply(s, a, true);
    RanksUpdate(s.procs, a.p, r.procs[a.p]);
    assert r.procs == s.procs[a.p := r.procs[a.p]];
  }

  /** A run of finishing steps alone: no new calls, programs, waits or kills. */
  ghost predicate Finishes(s: State, actions: seq<Action>, r: State)
    decreases |actions|
  {
    if actions == [] then r == s
    else
      Enabled(s, actions[0]) && Finishing(actions[0]) && Finishes(Apply(s, actions[0], true), actions[1..], r)
  }

  /** No such run is longer than the ranks it starts from. */
  lemma {:induction false} FinishingIsBounded(s: State, actions: seq<Action>, r: State)
    requires Finishes(s, actions, r)
    ensures |actions| + Ranks(r.procs) <= Ranks(s.procs)
    decreases |actions|
  {
    if actions != [] {
      FinishingLowers(s, actions[0]);
      FinishingIsBounded(Apply(s, actions[0], true), actions[1..], r);
    }
  }

  ghost predicate AllDone(s: State) { forall p :: 0 <= p < |s.procs| ==> !Busy(s.procs[p]) }

  /** Every call that is open can be brought to its end, everybody's at once. */
  ghost predicate CanClear(s: State) { exists actions, r :: Finishes(s, actions, r) && AllDone(r) }

  lemma ClearsBefore(s: State, a: Action)
    requires Enabled(s, a) && Finishing(a) && CanClear(Apply(s, a, true))
    ensures CanClear(s)
  {
    var actions, r :| Finishes(Apply(s, a, true), actions, r) && AllDone(r);
    assert ([a] + actions)[1..] == actions;
    assert Finishes(s, [a] + actions, r);
  }

  lemma {:induction false} DisciplinedClears(s: State)
    requires Inv(s) && WaitsInside(s)
    ensures CanClear(s)
    decreases Ranks(s.procs)
  {
    if AllDone(s) {
      assert Finishes(s, [], s);
    } else {
      var p :| 0 <= p < |s.procs| && Busy(s.procs[p]);
      DisciplinedRunsNeverDeadlock(s, [], s, p);
      var a :| Finishing(a) && Enabled(s, a);
      var m := Apply(s, a, true);
      FinishingLowers(s, a);
      StepKeepsInv(s, a);
      StepKeepsWaitsInside(s, a);
      DisciplinedClears(m);
      ClearsBefore(s, a);
    }
  }

  /** Wherever a disciplined run goes from here, everybody can finish. */
  ghost predicate AlwaysClears(s: State) {
    forall actions, r :: RunsInside(s, actions, r) ==> CanClear(r)
  }

  lemma {:induction false} InsideStaysInside(s: State, actions: seq<Action>, r: State)
    requires Inv(s) && WaitsInside(s) && RunsInside(s, actions, r)
    ensures Inv(r) && WaitsInside(r)
    decreases |actions|
  {
    if actions != [] {
      StepKeepsInv(s, actions[0]);
      StepKeepsWaitsInside(s, actions[0]);
      InsideStaysInside(Apply(s, actions[0], true), actions[1..], r);
    }
  }

  lemma DeadlockedNeverClears(s: State)
    requires Deadlocked(s)
    ensures !CanClear(s)
  {
    forall actions, r | Finishes(s, actions, r) ensures !AllDone(r) {
      assert actions == [];
    }
  }

  /** No process is ever stuck, alone or with others, exactly under the discipline:
      from every state of every disciplined run finishing steps alone can bring
      everybody to an end, if and only if no marked process waits for a live
      unmarked child now. */
  lemma ClearsIff(s: State)
    requires Inv(s)
    ensures AlwaysClears(s) <==> WaitsInside(s)
  {
    if WaitsInside(s) {
      forall actions, r | RunsInside(s, actions, r) ensures CanClear(r) {
        InsideStaysInside(s, actions, r);
        DisciplinedClears(r);
      }
    } else {
      OutsiderDeadlocks(s);
      var actions, r :| RunsInside(s, actions, r) && Deadlocked(r);
      DeadlockedNeverClears(r);
    }
  }
}
