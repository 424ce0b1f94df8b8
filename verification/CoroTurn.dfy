/** What one turn of a worker of `demos/coro_pool.c` does, queue by queue and task by
    task, and what that makes of whole passes. */
module CoroTurn {
  import opened CoroModel

  // ----- One task

  /** `u` is `t` after one step of its iteration on worker `w`: the pair (a, b) moves
      on to (b, a + b) until step `n`, where `a` is the result. */
  predicate OneTick(t: Task, u: Task, w: int) {
    && u.n == t.n && u.worker == w
    && (if t.step < t.n then u.step == t.step + 1 && u.a == t.b && u.b == t.a + t.b
        else u.step == t.step && u.a == t.a && u.b == t.b)
    && (u.done <==> t.done || u.step >= t.n)
    && u.result == (if u.step >= t.n then u.a else t.result)
  }

  /** What a turn on task `id` leaves: the task one step on, the counts of `w`, and
      all other tasks and counts as they were. */
  ghost predicate Ticks(s: State, r: State, w: nat, id: int, stolen: bool) {
    && w < |s.ticks| == |r.ticks| == |s.steals| == |r.steals|
    && 0 <= id < |s.tasks| == |r.tasks| && OneTick(s.tasks[id], r.tasks[id], w)
    && (forall i :: 0 <= i < |s.tasks| && i != id ==> r.tasks[i] == s.tasks[i])
    && (forall v :: 0 <= v < |s.ticks| ==> r.ticks[v] == s.ticks[v] + (if v == w then 1 else 0))
    && (forall v :: 0 <= v < |s.steals| ==> r.steals[v] == s.steals[v] + (if v == w && stolen then 1 else 0))
  }

  /** What goes back to the end of the queue: an unfinished task. */
  function Back(s: State, id: int): seq<int> {
    if 0 <= id < |s.tasks| && !s.tasks[id].done then [id] else []
  }

  // ----- One turn

  /** A worker with work takes the oldest entry of its own queue, ticks it, and puts
      it back at the end unless it is finished; nothing is stolen. */
  lemma OwnTurn(s: State, w: nat)
    requires Inv(s) && w < |s.queues| && s.queues[w] != []
    ensures var r := Turn(s, w); var q := s.queues[w];
      && Ticks(s, r, w, q[0], false) && |r.queues| == |s.queues|
      && r.queues[w] == q[1..] + Back(r, q[0])
      && forall v :: 0 <= v < |s.queues| && v != w ==> r.queues[v] == s.queues[v]
  {
    TakeOwned(s, w);
  }

  /** A worker without work takes the newest entry of the first other worker that has
      some, ticks it, and keeps it unless it is finished; one steal is counted. */
  lemma StolenTurn(s: State, w: nat, v: nat)
    requires Inv(s) && w < |s.queues| && s.queues[w] == [] && v < |s.queues| && s.queues[v] != []
    requires forall u :: 0 <= u < v ==> s.queues[u] == []
    ensures var r := Turn(s, w); var q := s.queues[v]; var id := q[|q| - 1];
      && Ticks(s, r, w, id, true) && |r.queues| == |s.queues|
      && r.queues[v] == q[..|q| - 1] && r.queues[w] == Back(r, id)
      && forall u :: 0 <= u < |s.queues| && u != w && u != v ==> r.queues[u] == s.queues[u]
  {
    TakeOwned(s, w);
    assert Victim(s.queues, w, 0) == v;
  }

  // ----- Passes

  /** The first `k` workers have had their turn, in the order of their numbers. */
  function Turns(s: State, k: nat): (r: State)
    requires Sized(s) && k <= |s.queues|
    ensures Sized(r) && |r.queues| == |s.queues|
  {
    if k == 0 then s else Turn(Turns(s, k - 1), k - 1)
  }

  lemma {:induction false} RoundFrom(s: State, k: nat)
    requires Sized(s) && k <= |s.queues|
    ensures Round(Turns(s, k), k) == Round(s, 0)
  {
    if k > 0 {
      RoundFrom(s, k - 1);
    }
  }

  /** A pass is one turn of every worker, the lowest number first. */
  lemma RoundIsTurns(s: State)
    requires Sized(s)
    ensures Round(s, 0) == Turns(s, |s.queues|)
  {
    RoundFrom(s, |s.queues|);
  }

  // ----- A worker on its own serves its queue in turn

  /** `k` passes. */
  function Passes(s: State, k: nat): (r: State)
    requires Sized(s)
    ensures Sized(r) && |r.queues| == |s.queues|
  {
    if k == 0 then s else Round(Passes(s, k - 1), 0)
  }

  /** Those of `q` that are not finished, in their order. */
  function Unfinished(s: State, q: seq<int>): seq<int> {
    if q == [] then [] else Unfinished(s, q[..|q| - 1]) + Back(s, q[|q| - 1])
  }

  lemma {:induction false} UnfinishedSame(s: State, r: State, q: seq<int>)
    requires |s.tasks| == |r.tasks| && forall i :: 0 <= i < |s.tasks| && i in q ==> r.tasks[i] == s.tasks[i]
    ensures Unfinished(r, q) == Unfinished(s, q)
  {
    if q != [] {
      UnfinishedSame(s, r, q[..|q| - 1]);
    }
  }

  /** No task is queued twice. */
  lemma QueuedOnce(s: State, w: nat, i: nat, j: nat)
    requires Inv(s) && w < |s.queues| && i < j < |s.queues[w]|
    ensures s.queues[w][i] != s.queues[w][j]
  {
    var q := s.queues[w];
    var id := q[i];
    HeldBounds(s.queues, w, id);
    assert q == q[..j] + q[j..];
    CountAppend(q[..j], q[j..], id);
    assert q[..j][i] == id && q[j..][0] == q[j];
  }

  /** After `k` passes of a single worker the first `k` of its queue have been ticked
      once each, in order, and wait at the end again unless they are finished. */
  ghost predicate Served(s: State, r: State, k: nat)
    requires |s.queues| >= 1 && k <= |s.queues[0]|
  {
    var q := s.queues[0];
    && Inv(r) && |r.queues| == 1 && |r.tasks| == |s.tasks|
    && r.queues[0] == q[k..] + Unfinished(r, q[..k])
    && (forall i :: 0 <= i < k ==> 0 <= q[i] < |s.tasks| && OneTick(s.tasks[q[i]], r.tasks[q[i]], 0))
    && (forall id :: 0 <= id < |s.tasks| && id !in q[..k] ==> r.tasks[id] == s.tasks[id])
  }

  lemma NextIsFirst(s: State, r: State, k: nat)
    requires Inv(s) && |s.queues| == 1 && k < |s.queues[0]| && Served(s, r, k)
    ensures var q := s.queues[0]; r.queues[0] != [] && r.queues[0][0] == q[k] && q[k] !in q[..k]
    ensures var q := s.queues[0]; r.queues[0][1..] == q[k + 1..] + Unfinished(r, q[..k])
  {
    var q := s.queues[0];
    forall i | 0 <= i < k ensures q[i] != q[k] {
      QueuedOnce(s, 0, i, k);
    }
    assert q[k..] == [q[k]] + q[k + 1..];
  }

  lemma ServedQueue(s: State, r: State, k: nat)
    requires Inv(s) && |s.queues| == 1 && k < |s.queues[0]| && Served(s, r, k)
    ensures var q, r' := s.queues[0], Turn(r, 0);
      |r'.queues| == 1 && |r'.tasks| == |s.tasks| && r'.queues[0] == q[k + 1..] + Unfinished(r', q[..k + 1])
  {
    var q, r' := s.queues[0], Turn(r, 0);
    NextIsFirst(s, r, k);
    OwnTurn(r, 0);
    UnfinishedSame(r, r', q[..k]);
    assert q[..k + 1][..k] == q[..k] && q[..k + 1][k] == q[k];
    assert Unfinished(r', q[..k + 1]) == Unfinished(r, q[..k]) + Back(r', q[k]);
  }

  lemma ServedTasks(s: State, r: State, k: nat)
    requires Inv(s) && |s.queues| == 1 && k < |s.queues[0]| && Served(s, r, k)
    ensures var q, r' := s.queues[0], Turn(r, 0);
      && |r'.tasks| == |s.tasks|
      && (forall i :: 0 <= i < k + 1 ==> 0 <= q[i] < |s.tasks| && OneTick(s.tasks[q[i]], r'.tasks[q[i]], 0))
      && (forall id :: 0 <= id < |s.tasks| && id !in q[..k + 1] ==> r'.tasks[id] == s.tasks[id])
  {
    var q, r' := s.queues[0], Turn(r, 0);
    NextIsFirst(s, r, k);
    OwnTurn(r, 0);
    assert q[..k + 1] == q[..k] + [q[k]];
    forall i | 0 <= i < k ensures q[i] != q[k] {
      assert q[..k][i] == q[i];
    }
  }

  lemma ServesNext(s: State, r: State, k: nat)
    requires Inv(s) && |s.queues| == 1 && k < |s.queues[0]| && Served(s, r, k)
    ensures Served(s, Turn(r, 0), k + 1)
  {
    TurnKeeps(r, 0);
    ServedQueue(s, r, k);
    ServedTasks(s, r, k);
  }

  lemma {:induction false} ServesInTurn(s: State, k: nat)
    requires Inv(s) && |s.queues| == 1 && k <= |s.queues[0]|
    ensures Served(s, Passes(s, k), k)
  {
    if k == 0 {
      assert s.queues[0][0..] == s.queues[0];
    } else {
      ServesInTurn(s, k - 1);
      ServesNext(s, Passes(s, k - 1), k - 1);
      RoundIsTurns(Passes(s, k - 1));
    }
  }

  /** With one worker, as many passes as there are queued tasks tick each of them
      exactly once, and leave the unfinished ones queued in the same order. */
  lemma OneWorkerTakesTurns(s: State)
    requires Inv(s) && |s.queues| == 1
    ensures var q := s.queues[0]; var r := Passes(s, |q|);
      && r.queues == [Unfinished(r, q)]
      && (forall id :: id in q ==> 0 <= id < |s.tasks| == |r.tasks| && OneTick(s.tasks[id], r.tasks[id], 0))
      && (forall id :: 0 <= id < |s.tasks| == |r.tasks| && id !in q ==> r.tasks[id] == s.tasks[id])
  {
    var q := s.queues[0];
    ServesInTurn(s, |q|);
    var r := Passes(s, |q|);
    assert q[..|q|] == q && q[|q|..] + Unfinished(r, q) == Unfinished(r, q);
  }
}
