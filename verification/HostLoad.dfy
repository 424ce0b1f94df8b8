/** The host load lock of `scripts/host_load.py` as a transition system: any number
    of processes, two advisory file locks, and an environment mark that children
    inherit. One action is one line of `held`, or something its caller may do. */
module HostLoad {

  import opened Options

  /** Where a process is in `held`. `Body` is the `with` block of a call that took
      the lock; calls that found the mark are counted in `Proc.nested`. */
  datatype Pc =
    | Idle       // outside, running its own code
    | WantTurn   // line 45, waiting for the turnstile
    | WantLock   // line 46, in the turnstile, waiting for the lock
    | GotLock    // line 47, holding both
    | Released   // line 48, turnstile released, mark not set yet
    | Body       // line 50
    | Closing    // line 53, mark deleted, lock not released yet
    | Exited

  /** `born`: the mark was inherited; `nested`: the modes of the open calls that
      yielded at once; `waits`: the child this process is waiting for. */
  datatype Proc = Proc(
    pc: Pc, excl: bool, marked: bool, born: bool, nested: seq<bool>, parent: Option<nat>, waits: Option<nat>)

  /** `turn` and `writer`/`readers` are what the kernel records for the two files. */
  datatype State = State(procs: seq<Proc>, turn: Option<nat>, writer: Option<nat>, readers: set<nat>)

  datatype Action =
    | Launch(p: nat)   // another program is started, as process `p`
    | Request(p: nat, excl: bool)
    | TakeTurn(p: nat)
    | TakeLock(p: nat)
    | DropTurn(p: nat)
    | SetMark(p: nat)
    | DeleteMark(p: nat)
    | Unlock(p: nat)
    | LeaveNested(p: nat)
    | Spawn(p: nat)
    | Await(p: nat, c: nat)
    | Wake(p: nat)
    | Exit(p: nat)
    | Kill(p: nat)

  /** The process runs code of its own: it may call, spawn, wait and exit. */
  predicate OwnCode(q: Proc) { (q.pc.Idle? || q.pc.Body?) && q.waits.None? }

  predicate Enabled(s: State, a: Action) {
    if a.Launch? then a.p == |s.procs| else a.p < |s.procs| && EnabledAt(s, s.procs[a.p], a)
  }

  predicate EnabledAt(s: State, q: Proc, a: Action) {
    match a
    case Launch(_) => false
    case Request(_, _) => OwnCode(q)
    case TakeTurn(_) => q.pc.WantTurn? && s.turn.None?
    case TakeLock(_) => q.pc.WantLock? && s.writer.None? && (q.excl ==> s.readers == {})
    case DropTurn(_) => q.pc.GotLock?
    case SetMark(_) => q.pc.Released?
    case DeleteMark(_) => q.pc.Body? && q.nested == [] && q.waits.None?
    case Unlock(_) => q.pc.Closing?
    case LeaveNested(_) => OwnCode(q) && q.nested != []
    case Spawn(_) => OwnCode(q)
    case Await(_, c) => OwnCode(q) && c < |s.procs| && s.procs[c].parent == Some(a.p)
    case Wake(_) => q.waits.Some? && q.waits.value < |s.procs| && s.procs[q.waits.value].pc.Exited?
    case Exit(_) => q.pc.Idle? && q.nested == [] && q.waits.None?
    case Kill(_) => !q.pc.Exited?
  }

  /** A process started outside any block. */
  const NEW_PROC := Proc(Idle, false, false, false, [], None, None)

  function Put(s: State, p: nat, q: Proc): State
    requires p < |s.procs|
  {
    s.(procs := s.procs[p := q])
  }

  /** The kernel drops every lock of a process that is gone or closes its files. */
  function DropLocks(s: State, p: nat): State {
    s.(turn := if s.turn == Some(p) then None else s.turn,
       writer := if s.writer == Some(p) then None else s.writer,
       readers := s.readers - {p})
  }

  /** `useMark` is true for the program; false leaves out the test of the mark. */
  function Apply(s: State, a: Action, useMark: bool): State
    requires Enabled(s, a)
  {
    if a.Launch? then s.(procs := s.procs + [NEW_PROC]) else ApplyAt(s, s.procs[a.p], a, useMark)
  }

  function ApplyAt(s: State, q: Proc, a: Action, useMark: bool): State
    requires a.p < |s.procs| && EnabledAt(s, q, a)
  {
    match a
    case Request(p, excl) =>
      if useMark && q.marked then Put(s, p, q.(nested := q.nested + [excl]))
      else Put(s, p, q.(pc := WantTurn, excl := excl))
    case TakeTurn(p) => Put(s, p, q.(pc := WantLock)).(turn := Some(p))
    case TakeLock(p) =>
      if q.excl then Put(s, p, q.(pc := GotLock)).(writer := Some(p))
      else Put(s, p, q.(pc := GotLock)).(readers := s.readers + {p})
    case DropTurn(p) => Put(s, p, q.(pc := Released)).(turn := None)
    case SetMark(p) => Put(s, p, q.(pc := Body, marked := true))
    case DeleteMark(p) => Put(s, p, q.(pc := Closing, marked := false))
    case Unlock(p) => DropLocks(Put(s, p, q.(pc := Idle)), p)
    case LeaveNested(p) => Put(s, p, q.(nested := q.nested[..|q.nested| - 1]))
    case Spawn(p) => s.(procs := s.procs + [Proc(Idle, false, q.marked, q.marked, [], Some(p), None)])
    case Await(p, c) => Put(s, p, q.(waits := Some(c)))
    case Wake(p) => Put(s, p, q.(waits := None))
    case Exit(p) => Put(s, p, q.(pc := Exited))
    case Kill(p) => DropLocks(Put(s, p, q.(pc := Exited, nested := [], waits := None)), p)
  }

  predicate Initial(s: State) {
    && s.turn.None? && s.writer.None? && s.readers == {}
    && forall p :: 0 <= p < |s.procs| ==> s.procs[p] == NEW_PROC
  }

  /** The state after a list of actions, each possible in its turn. */
  ghost predicate Runs(s: State, actions: seq<Action>, r: State, useMark: bool)
    decreases |actions|
  {
    if actions == [] then r == s
    else Enabled(s, actions[0]) && Runs(Apply(s, actions[0], useMark), actions[1..], r, useMark)
  }

  // ----- What every action keeps

  predicate InTurnstile(pc: Pc) { pc.WantLock? || pc.GotLock? }

  predicate HasLock(pc: Pc) { pc.GotLock? || pc.Released? || pc.Body? || pc.Closing? }

  /** What the kernel records agrees with where the processes are. */
  ghost predicate Locks(s: State) {
    && (forall p: nat :: s.turn == Some(p) <==> p < |s.procs| && InTurnstile(s.procs[p].pc))
    && (forall p: nat :: s.writer == Some(p) <==> p < |s.procs| && HasLock(s.procs[p].pc) && s.procs[p].excl)
    && (forall p: nat :: p in s.readers <==> p < |s.procs| && HasLock(s.procs[p].pc) && !s.procs[p].excl)
    && (s.writer.Some? ==> s.readers == {})
  }

  /** A mark is carried only outside the lock's code or inside the block; only a
      marked process has nested calls; an inherited mark is never lost. */
  ghost predicate MarkOk(q: Proc) {
    && (q.marked ==> q.pc.Idle? || q.pc.Body? || q.pc.Exited?)
    && (q.pc.Body? ==> q.marked)
    && (q.nested != [] ==> q.marked)
    && (q.born ==> q.marked && !q.pc.Body?)
    && (q.marked && !q.born ==> q.pc.Body? || q.pc.Exited?)
    && (q.waits.Some? ==> q.pc.Idle? || q.pc.Body?)
  }

  /** A process comes after its parent; a mark is inherited from one; marked children
      have none but marked children. */
  ghost predicate Births(s: State) {
    forall p :: 0 <= p < |s.procs| ==> BirthOk(s, p)
  }

  predicate BirthOk(s: State, p: nat)
    requires p < |s.procs|
  {
    var q := s.procs[p];
    && (q.born ==> q.parent.Some?)
    && (q.parent.Some? ==> q.parent.value < p && (s.procs[q.parent.value].born ==> q.born))
  }

  /** Only children are waited for. */
  ghost predicate Waits(s: State) {
    forall p :: 0 <= p < |s.procs| && s.procs[p].waits.Some? ==>
      s.procs[p].waits.value < |s.procs| && s.procs[s.procs[p].waits.value].parent == Some(p)
  }

  ghost predicate Inv(s: State) {
    && Locks(s) && Births(s) && Waits(s)
    && forall p :: 0 <= p < |s.procs| ==> MarkOk(s.procs[p])
  }

  lemma StepKeepsMarks(s: State, a: Action)
    requires Inv(s) && Enabled(s, a)
    ensures var r := Apply(s, a, true); forall p :: 0 <= p < |r.procs| ==> MarkOk(r.procs[p])
  {
    var r := Apply(s, a, true);
    assert a.p < |s.procs| ==> MarkOk(s.procs[a.p]);
    forall p | 0 <= p < |r.procs|
      ensures MarkOk(r.procs[p])
    {
      if p < |s.procs| {
        assert MarkOk(s.procs[p]);
        if p != a.p {
          assert r.procs[p] == s.procs[p];
        }
      }
    }
  }

  /** Nobody's parent or birth changes, and only `Await` sets what is waited for. */
  lemma StepKeepsRecord(s: State, a: Action, p: nat)
    requires Enabled(s, a) && p < |s.procs|
    ensures var r := Apply(s, a, true);
      && |s.procs| <= |r.procs| && r.procs[p].parent == s.procs[p].parent && r.procs[p].born == s.procs[p].born
      && (r.procs[p].waits == s.procs[p].waits || r.procs[p].waits.None? || (a.Await? && p == a.p))
  {
  }

  lemma StepKeepsBirths(s: State, a: Action)
    requires Inv(s) && Enabled(s, a)
    ensures Births(Apply(s, a, true))
  {
    var r := Apply(s, a, true);
    forall p | 0 <= p < |r.procs| ensures BirthOk(r, p) {
      if p < |s.procs| {
        assert BirthOk(s, p);
        StepKeepsRecord(s, a, p);
        if s.procs[p].parent.Some? {
          StepKeepsRecord(s, a, s.procs[p].parent.value);
        }
      } else if a.Spawn? {
        assert MarkOk(s.procs[a.p]);
      }
    }
  }

  lemma StepKeepsWaits(s: State, a: Action)
    requires Inv(s) && Enabled(s, a)
    ensures Waits(Apply(s, a, true))
  {
    var r := Apply(s, a, true);
    forall p | 0 <= p < |r.procs| && r.procs[p].waits.Some?
      ensures r.procs[p].waits.value < |r.procs| && r.procs[r.procs[p].waits.value].parent == Some(p)
    {
      if p < |s.procs| {
        StepKeepsRecord(s, a, p);
        StepKeepsRecord(s, a, r.procs[p].waits.value);
      }
    }
  }

  lemma StepKeepsInv(s: State, a: Action)
    requires Inv(s) && Enabled(s, a)
    ensures Inv(Apply(s, a, true))
  {
    StepKeepsLocks(s, a);
    StepKeepsBirths(s, a);
    StepKeepsWaits(s, a);
    StepKeepsMarks(s, a);
  }

  /** A change that leaves a process's lock standing alone. */
  lemma PutKeepsLocks(s: State, p: nat, q: Proc)
    requires Locks(s) && p < |s.procs|
    requires InTurnstile(q.pc) == InTurnstile(s.procs[p].pc) && HasLock(q.pc) == HasLock(s.procs[p].pc)
    requires HasLock(q.pc) ==> q.excl == s.procs[p].excl
    ensures Locks(Put(s, p, q))
  {
  }

  lemma DropKeepsLocks(s: State, p: nat, q: Proc)
    requires Locks(s) && p < |s.procs| && !InTurnstile(q.pc) && !HasLock(q.pc)
    ensures Locks(DropLocks(Put(s, p, q), p))
  {
    var r := DropLocks(Put(s, p, q), p);
    forall o: nat
      ensures r.turn == Some(o) <==> o < |r.procs| && InTurnstile(r.procs[o].pc)
      ensures r.writer == Some(o) <==> o < |r.procs| && HasLock(r.procs[o].pc) && r.procs[o].excl
      ensures o in r.readers <==> o < |r.procs| && HasLock(r.procs[o].pc) && !r.procs[o].excl
    {
      assert s.turn == Some(o) <==> o < |s.procs| && InTurnstile(s.procs[o].pc);
      assert s.writer == Some(o) <==> o < |s.procs| && HasLock(s.procs[o].pc) && s.procs[o].excl;
      assert o in s.readers <==> o < |s.procs| && HasLock(s.procs[o].pc) && !s.procs[o].excl;
    }
  }

  lemma TurnKeepsLocks(s: State, a: Action)
    requires Inv(s) && Enabled(s, a) && (a.TakeTurn? || a.DropTurn?)
    ensures Locks(Apply(s, a, true))
  {
    assert a.DropTurn? ==> s.turn == Some(a.p);
  }

  lemma LockKeepsLocks(s: State, a: Action)
    requires Inv(s) && Enabled(s, a) && a.TakeLock?
    ensures Locks(Apply(s, a, true))
  {
    var r := Apply(s, a, true);
    forall o: nat
      ensures r.writer == Some(o) <==> o < |r.procs| && HasLock(r.procs[o].pc) && r.procs[o].excl
      ensures o in r.readers <==> o < |r.procs| && HasLock(r.procs[o].pc) && !r.procs[o].excl
    {
      assert s.writer == Some(o) <==> o < |s.procs| && HasLock(s.procs[o].pc) && s.procs[o].excl;
      assert o in s.readers <==> o < |s.procs| && HasLock(s.procs[o].pc) && !s.procs[o].excl;
    }
  }

  lemma StepKeepsLocks(s: State, a: Action)
    requires Inv(s) && Enabled(s, a)
    ensures Locks(Apply(s, a, true))
  {
    if a.Launch? {
      return;
    }
    var q := s.procs[a.p];
    assert MarkOk(q);
    match a {
      case TakeTurn(_) => TurnKeepsLocks(s, a);
      case DropTurn(_) => TurnKeepsLocks(s, a);
      case TakeLock(_) => LockKeepsLocks(s, a);
      case Unlock(p) => DropKeepsLocks(s, p, q.(pc := Idle));
      case Kill(p) => DropKeepsLocks(s, p, q.(pc := Exited, nested := [], waits := None));
      case Request(p, excl) =>
        PutKeepsLocks(s, p, q.(nested := q.nested + [excl]));
        if !q.marked {
          PutKeepsLocks(s, p, q.(pc := WantTurn, excl := excl));
        }
      case SetMark(p) => PutKeepsLocks(s, p, q.(pc := Body, marked := true));
      case DeleteMark(p) => PutKeepsLocks(s, p, q.(pc := Closing, marked := false));
      case LeaveNested(p) => PutKeepsLocks(s, p, q.(nested := q.nested[..|q.nested| - 1]));
      case Spawn(_) =>
      case Await(p, c) => PutKeepsLocks(s, p, q.(waits := Some(c)));
      case Wake(p) => PutKeepsLocks(s, p, q.(waits := None));
      case Exit(p) => PutKeepsLocks(s, p, q.(pc := Exited));
    }
  }

  // ----- Calls on a mark are nested

  /** A call on a mark and its return change nothing in between: the innermost call
      returns first, and the calls opened before it stay as they were. */
  lemma CallAndReturn(s: State, p: nat, excl: bool)
    requires p < |s.procs| && s.procs[p].marked && Enabled(s, Request(p, excl))
    ensures var inside := Apply(s, Request(p, excl), true);
      && inside.procs[p].nested == s.procs[p].nested + [excl]
      && Enabled(inside, LeaveNested(p)) && Apply(inside, LeaveNested(p), true) == s
  {
    var q := s.procs[p];
    var inside := Apply(s, Request(p, excl), true);
    assert inside.procs[p].nested[..|q.nested|] == q.nested;
    assert Apply(inside, LeaveNested(p), true).procs == s.procs;
  }

  // ----- Safety

  /** Every state of every run of any number of processes keeps the invariant. */
  lemma {:induction false} RunKeepsInv(s: State, actions: seq<Action>, r: State)
    requires Inv(s) && Runs(s, actions, r, true)
    ensures Inv(r)
    decreases |actions|
  {
    if actions != [] {
      StepKeepsInv(s, actions[0]);
      RunKeepsInv(Apply(s, actions[0], true), actions[1..], r);
    }
  }

  ghost predicate Reachable(r: State) {
    exists s, actions :: Initial(s) && Runs(s, actions, r, true)
  }

  lemma ReachableInv(r: State)
    requires Reachable(r)
    ensures Inv(r)
  {
    var s, actions :| Initial(s) && Runs(s, actions, r, true);
    RunKeepsInv(s, actions, r);
  }

  /** An exclusive holder is the only holder, the turnstile admits one process, and
      no process waits for the turnstile or the lock while it holds the lock. */
  lemma ExclusiveIsAlone(r: State, p: nat, o: nat)
    requires Reachable(r) && p < |r.procs| && o < |r.procs| && p != o
    ensures HasLock(r.procs[p].pc) && r.procs[p].excl ==> !HasLock(r.procs[o].pc)
    ensures InTurnstile(r.procs[p].pc) ==> !InTurnstile(r.procs[o].pc)
    ensures r.procs[p].marked || HasLock(r.procs[p].pc) ==> !r.procs[p].pc.WantTurn? && !r.procs[p].pc.WantLock?
  {
    ReachableInv(r);
    assert MarkOk(r.procs[p]) && MarkOk(r.procs[o]);
    assert r.turn == Some(p) <==> InTurnstile(r.procs[p].pc);
    assert r.turn == Some(o) <==> InTurnstile(r.procs[o].pc);
    assert r.writer == Some(p) <==> HasLock(r.procs[p].pc) && r.procs[p].excl;
    assert r.writer == Some(o) <==> HasLock(r.procs[o].pc) && r.procs[o].excl;
    assert o in r.readers <==> HasLock(r.procs[o].pc) && !r.procs[o].excl;
  }

  // ----- An exclusive requester is not starved

  ghost predicate Holds(s: State, p: nat) { p in s.readers || s.writer == Some(p) }

  /** While `p` waits in the turnstile, no action of another process adds a holder. */
  lemma NoNewHolder(s: State, a: Action, p: nat, o: nat)
    requires Inv(s) && Enabled(s, a) && p < |s.procs| && s.procs[p].pc.WantLock? && a.p != p
    ensures var r := Apply(s, a, true);
            (Holds(r, o) ==> Holds(s, o)) && p < |r.procs| && r.procs[p] == s.procs[p]
  {
    assert s.turn == Some(p);
    assert s.turn == Some(a.p) <==> a.p < |s.procs| && InTurnstile(s.procs[a.p].pc);
  }

  /** Over any run in which `p` itself does not act, the holders only become fewer,
      so `p` waits for none but those that held the lock when it entered. */
  lemma {:induction false} HoldersOnlyShrink(s: State, actions: seq<Action>, r: State, p: nat, o: nat)
    requires Inv(s) && Runs(s, actions, r, true) && p < |s.procs| && s.procs[p].pc.WantLock?
    requires forall i :: 0 <= i < |actions| ==> actions[i].p != p
    ensures Inv(r) && p < |r.procs| && r.procs[p] == s.procs[p] && (Holds(r, o) ==> Holds(s, o))
    decreases |actions|
  {
    if actions != [] {
      var a := actions[0];
      assert a.p != p;
      NoNewHolder(s, a, p, o);
      StepKeepsInv(s, a);
      HoldersOnlyShrink(Apply(s, a, true), actions[1..], r, p, o);
    }
  }

  /** Once those have left, the lock is the requester's for the taking. */
  lemma NoHolderMeansEnabled(s: State, p: nat)
    requires Inv(s) && p < |s.procs| && s.procs[p].pc.WantLock? && forall o: nat :: !Holds(s, o)
    ensures Enabled(s, TakeLock(p))
  {
    if s.writer.Some? {
      assert Holds(s, s.writer.value);
    }
    if s.readers != {} {
      var o :| o in s.readers;
      assert Holds(s, o);
    }
  }

  // ----- No deadlock

  /** Steps that finish something; new programs, calls, spawns, waits and kills are not. */
  predicate Finishing(a: Action) {
    !a.Launch? && !a.Request? && !a.Spawn? && !a.Await? && !a.Kill?
  }

  ghost predicate CanFinish(s: State) {
    exists a :: Finishing(a) && Enabled(s, a)
  }

  predicate Busy(q: Proc) {
    !q.pc.Exited? && (!q.pc.Idle? || q.nested != [] || q.waits.Some?)
  }

  /** A marked process waits only for children that inherited the mark, as a child
      spawned inside the block does, or have exited. */
  predicate Harmless(child: Proc) { child.born || child.pc.Exited? }

  ghost predicate WaitsInside(s: State) {
    forall p :: 0 <= p < |s.procs| && s.procs[p].waits.Some? && s.procs[p].marked ==>
      s.procs[p].waits.value < |s.procs| && Harmless(s.procs[s.procs[p].waits.value])
  }

  /** A marked process can get on, or one of its descendants can. */
  lemma {:induction false} MarkedGetsOn(s: State, p: nat)
    requires Inv(s) && WaitsInside(s) && p < |s.procs| && s.procs[p].marked && !s.procs[p].pc.Exited?
    ensures CanFinish(s)
    decreases |s.procs| - p
  {
    var q := s.procs[p];
    assert MarkOk(q);
    if q.waits.Some? {
      var c := q.waits.value;
      assert s.procs[c].parent == Some(p) && MarkOk(s.procs[c]) && BirthOk(s, c);
      if s.procs[c].pc.Exited? {
        assert Finishing(Wake(p)) && Enabled(s, Wake(p));
      } else {
        MarkedGetsOn(s, c);
      }
    } else if q.nested != [] {
      assert Finishing(LeaveNested(p)) && Enabled(s, LeaveNested(p));
    } else if q.pc.Body? {
      assert Finishing(DeleteMark(p)) && Enabled(s, DeleteMark(p));
    } else {
      assert Finishing(Exit(p)) && Enabled(s, Exit(p));
    }
  }

  lemma HolderGetsOn(s: State, p: nat)
    requires Inv(s) && WaitsInside(s) && p < |s.procs| && HasLock(s.procs[p].pc)
    ensures CanFinish(s)
  {
    var q := s.procs[p];
    assert MarkOk(q);
    match q.pc {
      case GotLock => assert Finishing(DropTurn(p)) && Enabled(s, DropTurn(p));
      case Released => assert Finishing(SetMark(p)) && Enabled(s, SetMark(p));
      case Closing => assert Finishing(Unlock(p)) && Enabled(s, Unlock(p));
      case Body => MarkedGetsOn(s, p);
    }
  }

  lemma TurnstileGetsOn(s: State, p: nat)
    requires Inv(s) && WaitsInside(s) && s.turn == Some(p)
    ensures CanFinish(s)
  {
    if HasLock(s.procs[p].pc) {
      HolderGetsOn(s, p);
    } else if o: nat :| Holds(s, o) {
      HolderGetsOn(s, o);
    } else {
      NoHolderMeansEnabled(s, p);
      assert Finishing(TakeLock(p));
    }
  }

  lemma {:induction false} BusyGetsOn(s: State, p: nat)
    requires Inv(s) && WaitsInside(s) && s.turn.None? && p < |s.procs| && !s.procs[p].pc.Exited?
    ensures CanFinish(s)
    decreases |s.procs| - p
  {
    var q := s.procs[p];
    assert MarkOk(q);
    assert !InTurnstile(q.pc) by { assert s.turn != Some(p); }
    if q.pc.WantTurn? {
      assert Finishing(TakeTurn(p)) && Enabled(s, TakeTurn(p));
    } else if HasLock(q.pc) {
      HolderGetsOn(s, p);
    } else if q.waits.Some? {
      var c := q.waits.value;
      assert s.procs[c].parent == Some(p) && BirthOk(s, c);
      if s.procs[c].pc.Exited? {
        assert Finishing(Wake(p)) && Enabled(s, Wake(p));
      } else {
        BusyGetsOn(s, c);
      }
    } else if q.nested != [] {
      assert Finishing(LeaveNested(p)) && Enabled(s, LeaveNested(p));
    } else {
      assert Finishing(Exit(p)) && Enabled(s, Exit(p));
    }
  }

  /** In every reachable state with anything under way some step that finishes
      something is possible, as long as blocks wait only for children spawned in them. */
  lemma NoDeadlock(s: State, p: nat)
    requires Reachable(s) && WaitsInside(s) && p < |s.procs| && Busy(s.procs[p])
    ensures CanFinish(s)
  {
    ReachableInv(s);
    if s.turn.Some? {
      TurnstileGetsOn(s, s.turn.value);
    } else {
      BusyGetsOn(s, p);
    }
  }

  /** The discipline, as a condition on the wait itself. */
  predicate WaitsForOwn(s: State, a: Action)
    requires Enabled(s, a)
  {
    a.Await? && s.procs[a.p].marked ==> Harmless(s.procs[a.c])
  }

  ghost predicate RunsInside(s: State, actions: seq<Action>, r: State)
    decreases |actions|
  {
    if actions == [] then r == s
    else Enabled(s, actions[0]) && WaitsForOwn(s, actions[0]) && RunsInside(Apply(s, actions[0], true), actions[1..], r)
  }

  lemma StepKeepsWaitsInside(s: State, a: Action)
    requires Inv(s) && WaitsInside(s) && Enabled(s, a) && WaitsForOwn(s, a)
    ensures WaitsInside(Apply(s, a, true))
  {
    var r := Apply(s, a, true);
    assert a.p < |s.procs| ==> MarkOk(s.procs[a.p]);
    forall p | 0 <= p < |r.procs| && r.procs[p].waits.Some? && r.procs[p].marked
      ensures r.procs[p].waits.value < |r.procs| && Harmless(r.procs[r.procs[p].waits.value])
    {
      assert p < |s.procs|;
      if a.p != p {
        assert r.procs[p] == s.procs[p];
      }
    }
  }

  /** No run that keeps to the discipline ever deadlocks, whatever its children request. */
  lemma {:induction false} DisciplinedRunsNeverDeadlock(s: State, actions: seq<Action>, r: State, p: nat)
    requires Inv(s) && WaitsInside(s) && RunsInside(s, actions, r)
    requires p < |r.procs| && Busy(r.procs[p])
    ensures CanFinish(r)
    decreases |actions|
  {
    if actions == [] {
      if s.turn.Some? {
        TurnstileGetsOn(s, s.turn.value);
      } else {
        BusyGetsOn(s, p);
      }
    } else {
      StepKeepsInv(s, actions[0]);
      StepKeepsWaitsInside(s, actions[0]);
      DisciplinedRunsNeverDeadlock(Apply(s, actions[0], true), actions[1..], r, p);
    }
  }
}
