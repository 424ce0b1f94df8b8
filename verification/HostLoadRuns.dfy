/** Building runs of the protocol of `scripts/host_load.py`. */
module HostLoadRuns {
  import opened Options
  import opened HostLoad

  function Start(n: nat): (s: State)
    ensures Initial(s) && |s.procs| == n
  {
    State(seq(n, i => NEW_PROC), None, None, {})
  }

  lemma {:induction false} RunsThen(s: State, actions: seq<Action>, m: State, a: Action, useMark: bool)
    requires Runs(s, actions, m, useMark) && Enabled(m, a)
    ensures Runs(s, actions + [a], Apply(m, a, useMark), useMark)
    decreases |actions|
  {
    if actions == [] {
      assert [a][1..] == [];
    } else {
      assert (actions + [a])[1..] == actions[1..] + [a];
      RunsThen(Apply(s, actions[0], useMark), actions[1..], m, a, useMark);
    }
  }

  /** What a process that has the lock to itself, or shares it, has done. */
  function Entered(s: State, p: nat, excl: bool): State
    requires p < |s.procs|
  {
    var r := Put(s, p, s.procs[p].(pc := Body, excl := excl, marked := true));
    if excl then r.(writer := Some(p)) else r.(readers := s.readers + {p})
  }

  /** The lines of one call of `held` up to its block, when nothing is in the way. */
  lemma Enter(s0: State, before: seq<Action>, s: State, p: nat, excl: bool, useMark: bool)
    returns (actions: seq<Action>)
    requires Runs(s0, before, s, useMark)
    requires p < |s.procs| && s.procs[p].pc.Idle? && !s.procs[p].marked && s.procs[p].waits.None?
    requires s.turn.None? && s.writer.None? && (excl ==> s.readers == {})
    ensures Runs(s0, actions, Entered(s, p, excl), useMark)
  {
    actions := EnterTurnstile(s0, before, s, p, excl, useMark);
    var q := s.procs[p];
    var b := Put(s, p, q.(pc := WantLock, excl := excl)).(turn := Some(p));
    RunsThen(s0, actions, b, TakeLock(p), useMark);
    actions := actions + [TakeLock(p)];
    var c := Entered(s, p, excl).(procs := s.procs[p := q.(pc := GotLock, excl := excl)], turn := Some(p));
    assert Apply(b, TakeLock(p), useMark) == c;
    actions := LeaveTurnstile(s0, actions, c, p, useMark);
    assert Put(c, p, q.(pc := Body, excl := excl, marked := true)).(turn := None) == Entered(s, p, excl);
  }

  /** The last two lines before the block: the turnstile is dropped and the mark set. */
  lemma LeaveTurnstile(s0: State, before: seq<Action>, c: State, p: nat, useMark: bool) returns (actions: seq<Action>)
    requires Runs(s0, before, c, useMark) && p < |c.procs| && c.procs[p].pc.GotLock?
    ensures Runs(s0, actions, Put(c, p, c.procs[p].(pc := Body, marked := true)).(turn := None), useMark)
  {
    var q := c.procs[p];
    RunsThen(s0, before, c, DropTurn(p), useMark);
    actions := before + [DropTurn(p)];
    var d := Put(c, p, q.(pc := Released)).(turn := None);
    RunsThen(s0, actions, d, SetMark(p), useMark);
    actions := actions + [SetMark(p)];
    assert Apply(d, SetMark(p), useMark) == Put(c, p, q.(pc := Body, marked := true)).(turn := None);
  }

  /** The first two lines: a request and the turnstile. */
  lemma EnterTurnstile(s0: State, before: seq<Action>, s: State, p: nat, excl: bool, useMark: bool)
    returns (actions: seq<Action>)
    requires Runs(s0, before, s, useMark)
    requires p < |s.procs| && OwnCode(s.procs[p]) && !s.procs[p].marked && s.turn.None?
    ensures Runs(s0, actions, Put(s, p, s.procs[p].(pc := WantLock, excl := excl)).(turn := Some(p)), useMark)
  {
    var q := s.procs[p];
    RunsThen(s0, before, s, Request(p, excl), useMark);
    var a := Put(s, p, q.(pc := WantTurn, excl := excl));
    RunsThen(s0, before + [Request(p, excl)], a, TakeTurn(p), useMark);
    actions := before + [Request(p, excl)] + [TakeTurn(p)];
    assert Apply(a, TakeTurn(p), useMark) == Put(s, p, q.(pc := WantLock, excl := excl)).(turn := Some(p));
  }

  // ----- Runs that leave some processes alone

  /** A run without waits in which no process of `keep` acts. */
  ghost predicate Quiet(s: State, actions: seq<Action>, r: State, keep: set<nat>)
    decreases |actions|
  {
    if actions == [] then r == s
    else
      && Enabled(s, actions[0]) && !actions[0].Await? && actions[0].p !in keep
      && Quiet(Apply(s, actions[0], true), actions[1..], r, keep)
  }

  lemma {:induction false} QuietThen(s: State, actions: seq<Action>, m: State, a: Action, keep: set<nat>)
    requires Quiet(s, actions, m, keep) && Enabled(m, a) && !a.Await? && a.p !in keep
    ensures Quiet(s, actions + [a], Apply(m, a, true), keep)
    decreases |actions|
  {
    if actions == [] {
      assert [a][1..] == [];
    } else {
      assert (actions + [a])[1..] == actions[1..] + [a];
      QuietThen(Apply(s, actions[0], true), actions[1..], m, a, keep);
    }
  }

  ghost predicate CanGo(s: State, r: State, keep: set<nat>) { exists actions :: Quiet(s, actions, r, keep) }

  lemma GoNowhere(s: State, keep: set<nat>)
    ensures CanGo(s, s, keep)
  {
    assert Quiet(s, [], s, keep);
  }

  lemma GoOn(s: State, m: State, a: Action, keep: set<nat>)
    requires CanGo(s, m, keep) && Enabled(m, a) && !a.Await? && a.p !in keep
    ensures CanGo(s, Apply(m, a, true), keep)
  {
    var actions :| Quiet(s, actions, m, keep);
    QuietThen(s, actions, m, a, keep);
  }

  /** All of the first `n` processes but the spared ones are killed. */
  lemma {:induction false} KillOthers(s: State, m: State, keep: set<nat>, spare: set<nat>, n: nat) returns (r: State)
    requires CanGo(s, m, keep) && Inv(m) && keep <= spare && n <= |m.procs|
    ensures CanGo(s, r, keep) && Inv(r) && |r.procs| == |m.procs|
    ensures forall j :: 0 <= j < |m.procs| && (j in spare || j >= n) ==> r.procs[j] == m.procs[j]
    ensures forall j :: 0 <= j < n && j !in spare ==> r.procs[j].pc.Exited?
  {
    r := m;
    if n > 0 {
      r := KillOthers(s, m, keep, spare, n - 1);
      if n - 1 !in spare && !r.procs[n - 1].pc.Exited? {
        GoOn(s, r, Kill(n - 1), keep);
        StepKeepsInv(r, Kill(n - 1));
        r := Apply(r, Kill(n - 1), true);
      }
    }
  }

  lemma {:induction false} QuietKeepsInv(s: State, actions: seq<Action>, r: State, keep: set<nat>)
    requires Quiet(s, actions, r, keep) && Inv(s)
    ensures Inv(r)
    decreases |actions|
  {
    if actions != [] {
      StepKeepsInv(s, actions[0]);
      QuietKeepsInv(Apply(s, actions[0], true), actions[1..], r, keep);
    }
  }
}
