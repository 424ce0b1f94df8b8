/** The arrays and functions of `demos/coro_pool.c`, for any number of workers,
    tasks and deque slots, against the abstract pool of `CoroModel`. The parallel
    int arrays that share an index are arrays of records here. */
module CoroPool {
  import opened Arithmetic
  import M = CoroModel

  /** `deque_head`, `deque_tail` and `deque_count` of one worker. */
  datatype Ring = Ring(head: int, tail: int, count: int)

  /** `tick_count` and `steal_count` of one worker. */
  datatype Stats = Stats(ticks: int, steals: int)

  predicate RingOk(r: Ring, cap: nat) {
    0 <= r.head < cap && 0 <= r.tail < cap && 0 <= r.count <= cap && r.tail == Wrap(r.head + r.count, cap)
  }

  /** `i % cap` for an index at most one lap ahead. */
  function Wrap(i: int, cap: nat): int { if i < cap then i else i - cap }

  /** The flat buffer has one stretch of `cap` slots per worker. */
  predicate RingsOk(b: seq<int>, rs: seq<Ring>, cap: nat) {
    cap >= 1 && |b| == |rs| * cap && forall w :: 0 <= w < |rs| ==> RingOk(rs[w], cap)
  }

  lemma SlotInRange(w: nat, n: nat, cap: nat, k: int)
    requires w < n && 0 <= k < cap
    ensures 0 <= w * cap + k < n * cap
  {
    MulMonoStrict(w, n, cap);
    MulMono(0, w, cap);
  }

  lemma SlotsDiffer(v: nat, w: nat, cap: nat, j: int, k: int)
    requires 0 <= j < cap && 0 <= k < cap && (v != w || j != k)
    ensures v * cap + j != w * cap + k
  {
    if v < w {
      MulMonoStrict(v, w, cap);
    } else if w < v {
      MulMonoStrict(w, v, cap);
    }
  }

  /** Where entry `i` of worker `w` sits in the flat buffer. */
  function SlotOf(w: nat, cap: nat, r: Ring, i: int): int { w * cap + Wrap(r.head + i, cap) }

  function Read(b: seq<int>, k: int): int { if 0 <= k < |b| then b[k] else 0 }

  /** The sequence a ring holds, front first. */
  ghost function QueueOf(b: seq<int>, r: Ring, w: nat, cap: nat): (q: seq<int>)
    requires r.count >= 0
    ensures |q| == r.count && forall i :: 0 <= i < r.count ==> q[i] == Read(b, SlotOf(w, cap, r, i))
  {
    seq(r.count, i => Read(b, SlotOf(w, cap, r, i)))
  }

  ghost function QueuesOf(b: seq<int>, rs: seq<Ring>, cap: nat): (qs: seq<seq<int>>)
    requires RingsOk(b, rs, cap)
    ensures |qs| == |rs|
    ensures forall w :: 0 <= w < |rs| ==> qs[w] == QueueOf(b, rs[w], w, cap)
  {
    seq(|rs|, w requires 0 <= w < |rs| => QueueOf(b, rs[w], w, cap))
  }

  // ----- Each ring operation is an operation on one queue

  lemma PushIsAppend(b: seq<int>, rs: seq<Ring>, cap: nat, w: nat, id: int)
    requires RingsOk(b, rs, cap) && w < |rs| && rs[w].count < cap
    ensures 0 <= w * cap + rs[w].tail < |b|
    ensures var b' := b[w * cap + rs[w].tail := id];
            var rs' := rs[w := Ring(rs[w].head, Wrap(rs[w].tail + 1, cap), rs[w].count + 1)];
            && RingsOk(b', rs', cap)
            && QueuesOf(b', rs', cap) == QueuesOf(b, rs, cap)[w := QueuesOf(b, rs, cap)[w] + [id]]
  {
    var r := rs[w];
    SlotInRange(w, |rs|, cap, r.tail);
    var b' := b[w * cap + r.tail := id];
    var rs' := rs[w := Ring(r.head, Wrap(r.tail + 1, cap), r.count + 1)];
    forall v | 0 <= v < |rs|
      ensures QueueOf(b', rs'[v], v, cap)
           == if v == w then QueueOf(b, r, w, cap) + [id] else QueueOf(b, rs[v], v, cap)
    {
      PushElsewhere(b, rs[v], cap, v, w, r, id);
      assert v == w ==> SlotOf(w, cap, rs'[w], r.count) == w * cap + r.tail;
    }
  }

  /** Writing the tail slot disturbs no queued entry of any worker. */
  lemma PushElsewhere(b: seq<int>, rv: Ring, cap: nat, v: nat, w: nat, r: Ring, id: int)
    requires RingOk(rv, cap) && RingOk(r, cap) && r.count < cap && (v == w ==> rv == r)
    requires 0 <= w * cap + r.tail < |b|
    ensures forall i :: 0 <= i < rv.count ==>
              Read(b[w * cap + r.tail := id], SlotOf(v, cap, rv, i)) == Read(b, SlotOf(v, cap, rv, i))
  {
    forall i | 0 <= i < rv.count
      ensures SlotOf(v, cap, rv, i) != w * cap + r.tail
    {
      SlotsDiffer(v, w, cap, Wrap(rv.head + i, cap), r.tail);
    }
  }

  lemma PopFrontIsTail(b: seq<int>, rs: seq<Ring>, cap: nat, w: nat)
    requires RingsOk(b, rs, cap) && w < |rs| && rs[w].count > 0
    ensures 0 <= w * cap + rs[w].head < |b|
    ensures var rs' := rs[w := Ring(Wrap(rs[w].head + 1, cap), rs[w].tail, rs[w].count - 1)];
            var q := QueuesOf(b, rs, cap)[w];
            && RingsOk(b, rs', cap) && q != [] && b[w * cap + rs[w].head] == q[0]
            && QueuesOf(b, rs', cap) == QueuesOf(b, rs, cap)[w := q[1..]]
  {
    var r := rs[w];
    SlotInRange(w, |rs|, cap, r.head);
    var rs' := rs[w := Ring(Wrap(r.head + 1, cap), r.tail, r.count - 1)];
    assert QueueOf(b, rs'[w], w, cap) == QueueOf(b, r, w, cap)[1..];
  }

  lemma PopBackIsInit(b: seq<int>, rs: seq<Ring>, cap: nat, w: nat)
    requires RingsOk(b, rs, cap) && w < |rs| && rs[w].count > 0
    ensures var t := Wrap(rs[w].tail - 1 + cap, cap);
            var rs' := rs[w := Ring(rs[w].head, t, rs[w].count - 1)];
            var q := QueuesOf(b, rs, cap)[w];
            && 0 <= w * cap + t < |b|
            && RingsOk(b, rs', cap) && q != [] && b[w * cap + t] == q[|q| - 1]
            && QueuesOf(b, rs', cap) == QueuesOf(b, rs, cap)[w := q[..|q| - 1]]
  {
    var r := rs[w];
    var t := Wrap(r.tail - 1 + cap, cap);
    SlotInRange(w, |rs|, cap, t);
    assert t == Wrap(r.head + (r.count - 1), cap);
    var rs' := rs[w := Ring(r.head, t, r.count - 1)];
    assert QueueOf(b, rs'[w], w, cap) == QueueOf(b, r, w, cap)[..r.count - 1];
  }

  // ----- The C functions

  class Pool {
    const workers: nat
    const cap: nat
    const buf: array<int>
    const rings: array<Ring>
    const tasks: array<M.Task>
    const stats: array<Stats>

    ghost predicate Valid()
      reads buf, rings, tasks, stats
    {
      && workers >= 1 && rings.Length == workers && stats.Length == workers
      && RingsOk(buf[..], rings[..], cap)
    }

    ghost function Queues(): seq<seq<int>>
      reads buf, rings, tasks, stats
      requires Valid()
    {
      QueuesOf(buf[..], rings[..], cap)
    }

    /** The pool as `CoroModel` sees it. */
    ghost function Abs(): (s: M.State)
      reads buf, rings, tasks, stats
      requires Valid()
      ensures M.Sized(s) && |s.queues| == workers
    {
      M.State(Queues(), tasks[..],
              seq(workers, w requires 0 <= w < stats.Length reads stats => stats[w].ticks),
              seq(workers, w requires 0 <= w < stats.Length reads stats => stats[w].steals))
    }

    /** The initialisation loops of `main`, before any push. */
    constructor (ns: seq<int>, workers: nat, cap: nat)
      requires workers >= 1 && cap >= 1
      ensures Valid() && this.workers == workers && this.cap == cap
      ensures fresh(buf) && fresh(rings) && fresh(tasks) && fresh(stats)
      ensures Abs() == M.State(seq(workers, w => []), seq(|ns|, i requires 0 <= i < |ns| => M.Fresh(ns[i])),
                               seq(workers, w => 0), seq(workers, w => 0))
    {
      this.workers, this.cap := workers, cap;
      buf := new int[workers * cap];
      rings := new Ring[workers](i => Ring(0, 0, 0));
      tasks := new M.Task[|ns|](i requires 0 <= i < |ns| => M.Fresh(ns[i]));
      stats := new Stats[workers](i => Stats(0, 0));
    }

    /** `deque_push`; `ok` is false where the program exits on overflow. */
    method DequePush(worker: nat, id: int) returns (ok: bool)
      requires Valid() && worker < workers
      modifies buf, rings
      ensures Valid() && (ok <==> |old(Queues())[worker]| < cap)
      ensures Abs() == if ok then old(Abs()).(queues := old(Queues())[worker := old(Queues())[worker] + [id]])
                       else old(Abs())
    {
      var r := rings[worker];
      if r.count >= cap {
        return false;
      }
      PushIsAppend(buf[..], rings[..], cap, worker, id);
      ghost var b, rs := buf[..], rings[..];
      buf[worker * cap + r.tail] := id;
      rings[worker] := Ring(r.head, Modulo(r.tail + 1, cap), r.count + 1);
      assert buf[..] == b[worker * cap + r.tail := id];
      assert rings[..] == rs[worker := Ring(r.head, Wrap(r.tail + 1, cap), r.count + 1)];
      return true;
    }

    /** `deque_pop_front`: the oldest entry, or -1. */
    method DequePopFront(worker: nat) returns (id: int)
      requires Valid() && worker < workers
      modifies rings
      ensures Valid()
      ensures var q := old(Queues())[worker];
              if q == [] then id == -1 && Abs() == old(Abs())
              else id == q[0] && Abs() == old(Abs()).(queues := old(Queues())[worker := q[1..]])
    {
      var r := rings[worker];
      if r.count == 0 {
        return -1;
      }
      PopFrontIsTail(buf[..], rings[..], cap, worker);
      ghost var rs := rings[..];
      id := buf[worker * cap + r.head];
      rings[worker] := Ring(Modulo(r.head + 1, cap), r.tail, r.count - 1);
      assert rings[..] == rs[worker := Ring(Wrap(r.head + 1, cap), r.tail, r.count - 1)];
    }

    /** `deque_pop_back`: the most recent entry, or -1. */
    method DequePopBack(worker: nat) returns (id: int)
      requires Valid() && worker < workers
      modifies rings
      ensures Valid()
      ensures var q := old(Queues())[worker];
              if q == [] then id == -1 && Abs() == old(Abs())
              else id == q[|q| - 1] && Abs() == old(Abs()).(queues := old(Queues())[worker := q[..|q| - 1]])
    {
      var r := rings[worker];
      if r.count == 0 {
        return -1;
      }
      PopBackIsInit(buf[..], rings[..], cap, worker);
      ghost var rs := rings[..];
      var t := Modulo(r.tail - 1 + cap, cap);
      id := buf[worker * cap + t];
      rings[worker] := Ring(r.head, t, r.count - 1);
      assert rings[..] == rs[worker := Ring(r.head, t, r.count - 1)];
    }

    /** `tick_task`: whether more work remains. */
    method TickTask(id: nat, worker: nat) returns (more: bool)
      requires Valid() && id < tasks.Length
      modifies tasks
      ensures Valid()
      ensures var t := M.Tick(old(tasks[id]), worker);
              more == (old(tasks[id].step) + 1 < old(tasks[id].n))
              && Abs() == old(Abs()).(tasks := old(Abs().tasks)[id := t])
    {
      var t := tasks[id].(worker := worker);
      more := false;
      if t.step >= t.n {
        t := t.(done := true, result := t.a);
      } else {
        var next := t.a + t.b;
        t := t.(a := t.b, b := next, step := t.step + 1);
        if t.step >= t.n {
          t := t.(done := true, result := t.a);
        } else {
          more := true;
        }
      }
      tasks[id] := t;
    }

    method CountSteal(self: nat)
      requires Valid() && self < workers
      modifies stats
      ensures Valid() && Abs() == old(Abs()).(steals := old(Abs().steals)[self := old(Abs().steals[self]) + 1])
    {
      var s := stats[self];
      stats[self] := Stats(s.ticks, s.steals + 1);
    }

    /** One victim of `try_steal`: the entry off its back, or -1. */
    method StealFrom(victim: nat, self: nat) returns (id: int)
      requires Valid() && self < workers && victim < workers
      modifies rings, stats
      ensures Valid()
      ensures M.Steal(old(Abs()), self, victim)
           == if id >= 0 then (id, Abs()) else M.Steal(Abs(), self, victim + 1)
    {
      StealUnfolds(Abs(), self, victim);
      id := -1;
      if victim != self && rings[victim].count > 0 {
        id := DequePopBack(victim);
        if id >= 0 {
          CountSteal(self);
        }
      }
    }

    /** `try_steal` */
    method TrySteal(self: nat) returns (id: int)
      requires Valid() && self < workers
      modifies rings, stats
      ensures Valid() && (id, Abs()) == M.Steal(old(Abs()), self, 0)
    {
      var victim := 0;
      while victim < workers
        invariant 0 <= victim <= workers && Valid()
        invariant M.Steal(Abs(), self, victim) == M.Steal(old(Abs()), self, 0)
      {
        id := StealFrom(victim, self);
        if id >= 0 {
          return;
        }
        victim := victim + 1;
      }
      return -1;
    }

    /** `pool_idle` */
    method PoolIdle() returns (idle: bool)
      requires Valid()
      ensures idle <==> M.Idle(Abs())
    {
      var i := 0;
      while i < workers
        invariant 0 <= i <= workers
        invariant forall w :: 0 <= w < i ==> Queues()[w] == []
      {
        if rings[i].count > 0 {
          return false;
        }
        i := i + 1;
      }
      return true;
    }

    /** One iteration of the worker loop. `ok` is false where a push overflows. */
    method WorkerTurn(worker: nat) returns (ok: bool, took: bool)
      requires Valid() && worker < workers && M.Inv(Abs()) && tasks.Length <= cap
      modifies buf, rings, tasks, stats
      ensures Valid() && ok && (took <==> !M.Idle(old(Abs()))) && Abs() == M.Turn(old(Abs()), worker)
    {
      TakenIsUndone(Abs(), worker);
      var id := TakeTask(worker);
      ok, took := true, false;
      if id >= 0 {
        ok := Work(worker, id, old(Abs()));
        took := true;
      }
    }

    /** The worker's own next task, or a stolen one, or -1. */
    method TakeTask(worker: nat) returns (id: int)
      requires Valid() && worker < workers && M.Inv(Abs())
      modifies rings, stats
      ensures Valid() && id == M.Taken(old(Abs()), worker) && Abs() == M.AfterTake(old(Abs()), worker)
    {
      if rings[worker].count == 0 {
        QueuedAreIds(Abs());
        M.StealTakes(Abs(), worker, 0);
        id := TrySteal(worker);
      } else {
        id := DequePopFront(worker);
      }
    }

    /** Ticks the task in hand and puts it back if it is not finished. */
    method Work(worker: nat, id: int, ghost s: M.State) returns (ok: bool)
      requires Valid() && worker < workers && M.Inv(s) && |s.tasks| <= cap && |s.queues| == workers
      requires id == M.Taken(s, worker) && M.Undone(s.tasks, id) && Abs() == M.AfterTake(s, worker)
      modifies buf, rings, tasks, stats
      ensures Valid() && ok && Abs() == M.Turn(s, worker)
    {
      assert tasks[..] == s.tasks;
      var st := stats[worker];
      stats[worker] := Stats(st.ticks + 1, st.steals);
      ghost var s1 := M.AfterTake(s, worker);
      assert Abs() == s1.(ticks := s1.ticks[worker := s1.ticks[worker] + 1]);
      var more := TickTask(id, worker);
      ok := true;
      if more {
        TickedHasRoom(s, worker, Abs());
        ok := DequePush(worker, id);
      }
    }

    /** `scheduler_step`: progress exactly when some deque held something on entry;
        no push ever overflows. */
    method SchedulerStep() returns (ok: bool, progress: bool)
      requires Valid() && M.Inv(Abs()) && tasks.Length <= cap
      modifies buf, rings, tasks, stats
      ensures Valid() && ok && (progress <==> !M.Idle(old(Abs()))) && Abs() == M.Round(old(Abs()), 0)
    {
      ghost var start := Abs();
      progress := false;
      ok := true;
      var worker := 0;
      while worker < workers
        invariant 0 <= worker <= workers && Valid() && ok && M.Inv(Abs())
        invariant M.Round(Abs(), worker) == M.Round(start, 0)
        invariant worker == 0 ==> Abs() == start && !progress
        invariant worker > 0 ==> (progress <==> !M.Idle(start)) && (M.Idle(start) ==> M.Idle(Abs()))
      {
        M.TurnKeeps(Abs(), worker);
        var took: bool;
        ok, took := WorkerTurn(worker);
        progress := progress || took;
        worker := worker + 1;
      }
    }

    /** The seeding loop of `main`: every task onto worker 0. Stops at the first overflow. */
    method Seed() returns (ok: bool)
      requires Valid() && forall w :: 0 <= w < workers ==> Queues()[w] == []
      modifies buf, rings
      ensures Valid() && (ok <==> tasks.Length <= cap)
      ensures ok ==> Abs() == old(Abs()).(queues := old(Queues())[0 := seq(tasks.Length, i => i)])
    {
      var i := 0;
      assert seq(0, k => k) == [] && Queues()[0 := []] == Queues();
      while i < tasks.Length
        invariant 0 <= i <= tasks.Length && i <= cap && Valid()
        invariant Abs() == old(Abs()).(queues := old(Queues())[0 := seq(i, k => k)])
      {
        ok := DequePush(0, i);
        if !ok {
          return;
        }
        assert seq(i, k => k) + [i] == seq(i + 1, k => k);
        i := i + 1;
      }
      return true;
    }

    /** The run loop of `main`. */
    method RunUntilIdle() returns (ok: bool)
      requires Valid() && M.Inv(Abs()) && tasks.Length <= cap
      modifies buf, rings, tasks, stats
      ensures Valid() && ok && Abs() == M.RunToIdle(old(Abs()))
    {
      ok := true;
      var idle := PoolIdle();
      while !idle
        invariant Valid() && ok && M.Inv(Abs()) && (idle <==> M.Idle(Abs()))
        invariant M.RunToIdle(Abs()) == M.RunToIdle(old(Abs()))
        decreases M.Work(Abs().tasks)
      {
        RunUnfolds(Abs());
        var progress: bool;
        ok, progress := SchedulerStep();
        idle := PoolIdle();
      }
    }
  }

  lemma RunUnfolds(s: M.State)
    requires M.Inv(s) && !M.Idle(s)
    ensures M.Inv(M.Round(s, 0)) && M.RunToIdle(s) == M.RunToIdle(M.Round(s, 0))
    ensures M.Work(M.Round(s, 0).tasks) < M.Work(s.tasks)
  {
    M.RoundKeeps(s, 0);
  }

  lemma StealUnfolds(s: M.State, self: nat, v: nat)
    requires self < |s.steals| && v < |s.queues|
    ensures M.Steal(s, self, v) ==
      if v == self || s.queues[v] == [] then M.Steal(s, self, v + 1)
      else
        var q := s.queues[v];
        var id, rest := q[|q| - 1], s.(queues := s.queues[v := q[..|q| - 1]]);
        if id >= 0 then (id, rest.(steals := rest.steals[self := rest.steals[self] + 1]))
        else M.Steal(rest, self, v + 1)
  {
  }

  lemma QueuedAreIds(s: M.State)
    requires M.Inv(s)
    ensures forall k, i :: 0 <= k < |s.queues| && 0 <= i < |s.queues[k]| ==> s.queues[k][i] >= 0
  {
    forall k, i | 0 <= k < |s.queues| && 0 <= i < |s.queues[k]| ensures s.queues[k][i] >= 0 {
      var id := s.queues[k][i];
      assert multiset(s.queues[k])[id] > 0;
      M.HeldBounds(s.queues, k, id);
    }
  }

  lemma TakenIsUndone(s: M.State, w: nat)
    requires M.Inv(s) && w < |s.queues|
    ensures M.Taken(s, w) == -1 <==> M.Idle(s)
    ensures M.Taken(s, w) != -1 ==> M.Undone(s.tasks, M.Taken(s, w))
  {
    if M.Idle(s) {
      M.NothingToTake(s, w);
    } else {
      M.TakeOwned(s, w);
    }
  }

  /** The deque that gets an unfinished task back has a free slot. */
  lemma TickedHasRoom(s: M.State, w: nat, s2: M.State)
    requires M.Inv(s) && w < |s.queues| && !M.Idle(s) && M.Sized(s2)
    requires s2.queues == M.AfterTake(s, w).queues && |s2.queues| == |s.queues|
    requires 0 <= M.Taken(s, w) < |s.tasks| == |s2.tasks| && !s2.tasks[M.Taken(s, w)].done
    requires s2.tasks == s.tasks[M.Taken(s, w) := M.Tick(s.tasks[M.Taken(s, w)], w)]
    ensures |s2.queues[w]| < |s2.tasks|
  {
    var id := M.Taken(s, w);
    M.TakeOwned(s, w);
    M.TickedOwned(M.AfterTake(s, w), s2, id);
    M.RoomForOneMore(s2, w, id);
  }

  /** The program: seeds the tasks and runs to the end. It exits on an overflow
      exactly when the tasks do not fit one deque; otherwise every task is done with
      its Fibonacci number and the ticks add up to the work there was. */
  method RunPool(ns: seq<int>, workers: nat, cap: nat) returns (ok: bool, pool: Pool)
    requires workers >= 1 && cap >= 1
    ensures pool.Valid() && (ok <==> |ns| <= cap)
    ensures ok ==> pool.tasks.Length == |ns|
    ensures ok ==> forall i :: 0 <= i < |ns| ==>
              pool.tasks[i].done && pool.tasks[i].result == M.Fib(M.Max(ns[i], 0))
    ensures ok ==> M.Sum(pool.Abs().ticks) == M.TotalWork(ns)
  {
    pool := new Pool(ns, workers, cap);
    assert pool.tasks.Length == |pool.Abs().tasks| == |ns|;
    ok := pool.Seed();
    if ok {
      M.SeededInv(ns, workers);
      M.WholeRun(ns, workers);
      assert pool.Abs().tasks == M.Seeded(ns, workers).tasks;
      assert pool.Abs().queues == M.Seeded(ns, workers).queues;
      assert pool.Abs() == M.Seeded(ns, workers);
      ok := pool.RunUntilIdle();
      ghost var r := pool.Abs();
      assert forall i :: 0 <= i < |ns| ==> pool.tasks[i] == r.tasks[i];
    }
  }

  /** C's `%` for non-negative operands. */
  function Modulo(i: int, cap: nat): (r: int)
    requires 0 <= i < 2 * cap
    ensures r == Wrap(i, cap)
  {
    DivIs(i, cap, if i < cap then 0 else 1);
    i % cap
  }
}
