/** The work-stealing pool of `demos/coro_pool.c` on abstract queues: what one
    worker's turn, one scheduler pass and the whole run do. */
module CoroModel {

  function Fib(n: nat): nat {
    if n < 2 then n else Fib(n - 1) + Fib(n - 2)
  }

  function Max(a: int, b: int): int { if a > b then a else b }

  /** One entry of the parallel `task_*` arrays. */
  datatype Task = Task(n: int, step: int, a: int, b: int, result: int, done: bool, worker: int)

  function Fresh(n: int): Task { Task(n, 0, 0, 1, 0, false, -1) }

  /** `tick_task`: one step of the iteration, finishing when the index is reached. */
  function Tick(t: Task, worker: int): Task {
    if t.step >= t.n then
      t.(done := true, result := t.a, worker := worker)
    else
      var t' := t.(a := t.b, b := t.a + t.b, step := t.step + 1, worker := worker);
      if t'.step >= t'.n then t'.(done := true, result := t'.a) else t'
  }

  /** The pool: each worker's queue, front first, the tasks, and the counters. */
  datatype State = State(queues: seq<seq<int>>, tasks: seq<Task>, ticks: seq<int>, steals: seq<int>)

  /** The first worker from `v` on, other than `self`, with something queued. */
  function Victim(queues: seq<seq<int>>, self: nat, v: nat): (r: nat)
    requires v <= |queues|
    ensures v <= r <= |queues|
    ensures r < |queues| ==> r != self && queues[r] != []
    ensures forall k :: v <= k < r && k != self ==> queues[k] == []
    decreases |queues| - v
  {
    if v == |queues| then v
    else if v != self && queues[v] != [] then v
    else Victim(queues, self, v + 1)
  }

  /** The task a worker takes, or -1: its own front, else a victim's back. */
  function Taken(s: State, w: nat): int
    requires w < |s.queues|
  {
    if s.queues[w] != [] then s.queues[w][0]
    else
      var v := Victim(s.queues, w, 0);
      if v < |s.queues| then s.queues[v][|s.queues[v]| - 1] else -1
  }

  function AfterTake(s: State, w: nat): State
    requires w < |s.queues| == |s.steals|
  {
    if s.queues[w] != [] then s.(queues := s.queues[w := s.queues[w][1..]])
    else
      var v := Victim(s.queues, w, 0);
      if v < |s.queues| then
        s.(queues := s.queues[v := s.queues[v][..|s.queues[v]| - 1]], steals := s.steals[w := s.steals[w] + 1])
      else s
  }

  /** `try_steal` from worker `v` on, on any queues: what it returns and leaves. A
      negative entry would be dropped and the search go on. */
  function Steal(s: State, self: nat, v: nat): (int, State)
    requires self < |s.steals| && v <= |s.queues|
    decreases |s.queues| - v
  {
    if v == |s.queues| then (-1, s)
    else if v == self || s.queues[v] == [] then Steal(s, self, v + 1)
    else
      var q := s.queues[v];
      var id, rest := q[|q| - 1], s.(queues := s.queues[v := q[..|q| - 1]]);
      if id >= 0 then (id, rest.(steals := rest.steals[self := rest.steals[self] + 1]))
      else Steal(rest, self, v + 1)
  }

  /** With task ids in the queues it takes one entry off the back of the first other
      worker with work: what an idle worker takes. */
  lemma {:induction false} StealTakes(s: State, w: nat, v: nat)
    requires w < |s.queues| == |s.steals| && v <= |s.queues| && s.queues[w] == []
    requires forall k, i :: 0 <= k < |s.queues| && 0 <= i < |s.queues[k]| ==> s.queues[k][i] >= 0
    requires Victim(s.queues, w, v) == Victim(s.queues, w, 0)
    ensures Steal(s, w, v) == (Taken(s, w), AfterTake(s, w))
    decreases |s.queues| - v
  {
    if v < |s.queues| && (v == w || s.queues[v] == []) {
      StealTakes(s, w, v + 1);
    }
  }

  /** One iteration of `scheduler_step`. */
  function Turn(s: State, w: nat): State
    requires Sized(s) && w < |s.queues|
  {
    var id := Taken(s, w);
    var s1 := AfterTake(s, w);
    if 0 <= id < |s.tasks| then
      var t := Tick(s.tasks[id], w);
      var s2 := s1.(ticks := s1.ticks[w := s1.ticks[w] + 1], tasks := s1.tasks[id := t]);
      if t.done then s2 else s2.(queues := s2.queues[w := s2.queues[w] + [id]])
    else s1
  }

  predicate Sized(s: State) {
    |s.queues| == |s.ticks| == |s.steals| && |s.queues| >= 1
  }

  /** The workers from `w` on take their turns. */
  function Round(s: State, w: nat): (r: State)
    requires Sized(s) && w <= |s.queues|
    ensures Sized(r) && |r.queues| == |s.queues| && |r.tasks| == |s.tasks|
    decreases |s.queues| - w
  {
    if w == |s.queues| then s else Round(Turn(s, w), w + 1)
  }

  predicate Idle(s: State) { forall w :: 0 <= w < |s.queues| ==> s.queues[w] == [] }

  // ----- The invariant of every scheduler point

  /** How often task `id` occurs in the queues, all together. */
  ghost function Held(queues: seq<seq<int>>, id: int): nat {
    if queues == [] then 0 else multiset(queues[0])[id] + Held(queues[1..], id)
  }

  /** An unfinished task is mid-iteration; a finished one has its Fibonacci number. */
  ghost predicate TaskOk(t: Task) {
    if t.done then t.result == Fib(Max(t.n, 0))
    else t.step >= 0 && t.a == Fib(t.step) && t.b == Fib(t.step + 1) && (t.step == 0 || t.step < t.n)
  }

  ghost predicate Undone(tasks: seq<Task>, id: int) { 0 <= id < |tasks| && !tasks[id].done }

  /** Each unfinished task is queued exactly once, except one that is `inHand`;
      nothing else is queued. */
  ghost predicate Owned(s: State, inHand: int) {
    forall id :: Held(s.queues, id) == if Undone(s.tasks, id) && id != inHand then 1 else 0
  }

  ghost predicate Inv(s: State) {
    Sized(s) && Owned(s, -1) && forall i :: 0 <= i < |s.tasks| ==> TaskOk(s.tasks[i])
  }

  lemma {:induction false} HeldUpdate(queues: seq<seq<int>>, w: nat, q: seq<int>, id: int)
    requires w < |queues|
    ensures Held(queues[w := q], id) + multiset(queues[w])[id] == Held(queues, id) + multiset(q)[id]
  {
    if w == 0 {
      assert queues[w := q][1..] == queues[1..];
    } else {
      assert queues[w := q][1..] == queues[1..][w - 1 := q];
      HeldUpdate(queues[1..], w - 1, q, id);
    }
  }

  lemma {:induction false} HeldBounds(queues: seq<seq<int>>, w: nat, id: int)
    requires w < |queues|
    ensures multiset(queues[w])[id] <= Held(queues, id)
  {
    if w > 0 {
      HeldBounds(queues[1..], w - 1, id);
    }
  }

  lemma {:induction false} HeldMeansQueued(queues: seq<seq<int>>, id: int) returns (w: nat)
    requires Held(queues, id) >= 1
    ensures w < |queues| && id in queues[w]
  {
    if id in queues[0] {
      w := 0;
    } else {
      w := HeldMeansQueued(queues[1..], id);
      w := w + 1;
    }
  }

  lemma CountAppend(a: seq<int>, b: seq<int>, id: int)
    ensures multiset(a + b)[id] == multiset(a)[id] + multiset(b)[id]
  {
  }

  lemma CountOne(x: int, id: int)
    ensures multiset([x])[id] == if id == x then 1 else 0
  {
  }

  /** The queue a worker takes from, and what is left of it. */
  lemma TakeShape(s: State, w: nat) returns (v: nat, rest: seq<int>)
    requires w < |s.queues| == |s.steals| && !Idle(s)
    ensures v < |s.queues| && s.queues[v] != [] && AfterTake(s, w).queues == s.queues[v := rest]
    ensures s.queues[v] == [Taken(s, w)] + rest || s.queues[v] == rest + [Taken(s, w)]
    ensures AfterTake(s, w).tasks == s.tasks && AfterTake(s, w).ticks == s.ticks
    ensures |AfterTake(s, w).steals| == |s.steals|
  {
    if s.queues[w] != [] {
      v, rest := w, s.queues[w][1..];
    } else {
      v := Victim(s.queues, w, 0);
      var u :| 0 <= u < |s.queues| && s.queues[u] != [];
      assert v <= u;
      rest := s.queues[v][..|s.queues[v]| - 1];
    }
  }

  /** Taking removes exactly the taken id. */
  lemma TakeOwned(s: State, w: nat)
    requires Inv(s) && w < |s.queues| && !Idle(s)
    ensures Undone(s.tasks, Taken(s, w)) && Owned(AfterTake(s, w), Taken(s, w))
    ensures Sized(AfterTake(s, w)) && |AfterTake(s, w).queues| == |s.queues|
    ensures AfterTake(s, w).tasks == s.tasks && AfterTake(s, w).ticks == s.ticks
  {
    var id := Taken(s, w);
    var v, rest := TakeShape(s, w);
    forall k
      ensures multiset(s.queues[v])[k] == multiset(rest)[k] + if k == id then 1 else 0
      ensures Held(AfterTake(s, w).queues, k) == Held(s.queues, k) - if k == id then 1 else 0
    {
      CountAppend([id], rest, k);
      CountAppend(rest, [id], k);
      CountOne(id, k);
      HeldUpdate(s.queues, v, rest, k);
    }
    HeldBounds(s.queues, v, id);
  }

  lemma NothingToTake(s: State, w: nat)
    requires Sized(s) && w < |s.queues| && Idle(s)
    ensures Taken(s, w) == -1 && AfterTake(s, w) == s
  {
  }

  lemma PutBackOwned(s: State, w: nat, id: int)
    requires Sized(s) && w < |s.queues| && Undone(s.tasks, id) && Owned(s, id)
    ensures Owned(s.(queues := s.queues[w := s.queues[w] + [id]]), -1)
  {
    forall k
      ensures Held(s.queues[w := s.queues[w] + [id]], k) == Held(s.queues, k) + if k == id then 1 else 0
    {
      CountAppend(s.queues[w], [id], k);
      CountOne(id, k);
      HeldUpdate(s.queues, w, s.queues[w] + [id], k);
    }
  }

  lemma TickOk(t: Task, w: int)
    requires TaskOk(t) && !t.done
    ensures TaskOk(Tick(t, w)) && Work1(Tick(t, w)) == Work1(t) - 1 && Tick(t, w).n == t.n
  {
    assert Fib(0) == 0;
    if t.step < t.n {
      assert Fib(t.step + 2) == Fib(t.step + 1) + Fib(t.step);
    }
  }

  // ----- The work that is left

  /** Ticks a task still needs. */
  ghost function Work1(t: Task): nat { if t.done then 0 else Max(1, t.n - t.step) }

  ghost function Work(tasks: seq<Task>): nat {
    if tasks == [] then 0 else Work1(tasks[0]) + Work(tasks[1..])
  }

  ghost function Sum(s: seq<int>): int {
    if s == [] then 0 else s[0] + Sum(s[1..])
  }

  lemma {:induction false} WorkUpdate(tasks: seq<Task>, i: nat, t: Task)
    requires i < |tasks|
    ensures Work(tasks[i := t]) == Work(tasks) - Work1(tasks[i]) + Work1(t)
  {
    if i == 0 {
      assert tasks[i := t][1..] == tasks[1..];
    } else {
      assert tasks[i := t][1..] == tasks[1..][i - 1 := t];
      WorkUpdate(tasks[1..], i - 1, t);
    }
  }

  lemma {:induction false} SumUpdate(s: seq<int>, i: nat, x: int)
    requires i < |s|
    ensures Sum(s[i := x]) == Sum(s) - s[i] + x
  {
    if i == 0 {
      assert s[i := x][1..] == s[1..];
    } else {
      assert s[i := x][1..] == s[1..][i - 1 := x];
      SumUpdate(s[1..], i - 1, x);
    }
  }

  /** The targets of the tasks never change. */
  ghost predicate SameTargets(a: State, b: State) {
    |a.tasks| == |b.tasks| && forall i :: 0 <= i < |a.tasks| ==> a.tasks[i].n == b.tasks[i].n
  }

  /** The state after the tick of a busy worker's turn, before the task goes back. */
  function Ticked(s: State, w: nat): State
    requires Sized(s) && w < |s.queues| && 0 <= Taken(s, w) < |s.tasks|
  {
    var id, s1 := Taken(s, w), AfterTake(s, w);
    s1.(ticks := s1.ticks[w := s1.ticks[w] + 1], tasks := s1.tasks[id := Tick(s.tasks[id], w)])
  }

  lemma BusyTurnOwned(s: State, w: nat)
    requires Inv(s) && w < |s.queues| && !Idle(s)
    ensures var r := Turn(s, w); Sized(r) && |r.queues| == |s.queues| && Owned(r, -1)
  {
    TakeOwned(s, w);
    var id := Taken(s, w);
    var s2 := Ticked(s, w);
    TickedOwned(AfterTake(s, w), s2, id);
    if !s2.tasks[id].done {
      PutBackOwned(s2, w, id);
    }
  }

  lemma BusyTurnWorks(s: State, w: nat)
    requires Inv(s) && w < |s.queues| && !Idle(s)
    ensures var r := Turn(s, w);
            && (forall i :: 0 <= i < |r.tasks| ==> TaskOk(r.tasks[i])) && SameTargets(s, r)
            && Work(r.tasks) == Work(s.tasks) - 1 && Sum(r.ticks) == Sum(s.ticks) + 1
  {
    TakeOwned(s, w);
    var id := Taken(s, w);
    TickOk(s.tasks[id], w);
    WorkUpdate(s.tasks, id, Tick(s.tasks[id], w));
    SumUpdate(s.ticks, w, s.ticks[w] + 1);
  }

  /** One turn keeps the invariant; it makes one tick, paid for by one unit of
      work, unless every queue is empty, and then it changes nothing. */
  lemma TurnKeeps(s: State, w: nat)
    requires Inv(s) && w < |s.queues|
    ensures var r := Turn(s, w);
            && Inv(r) && |r.queues| == |s.queues| && SameTargets(s, r)
            && (if Idle(s) then r == s
                else Work(r.tasks) == Work(s.tasks) - 1 && Sum(r.ticks) == Sum(s.ticks) + 1)
  {
    if Idle(s) {
      NothingToTake(s, w);
    } else {
      BusyTurnOwned(s, w);
      BusyTurnWorks(s, w);
    }
  }

  lemma TickedOwned(s1: State, s2: State, id: int)
    requires Owned(s1, id) && s2.queues == s1.queues && 0 <= id < |s1.tasks| == |s2.tasks|
    requires forall i :: 0 <= i < |s1.tasks| && i != id ==> s2.tasks[i] == s1.tasks[i]
    ensures Owned(s2, id) && (s2.tasks[id].done ==> Owned(s2, -1))
  {
    assert forall k :: k != id ==> (Undone(s1.tasks, k) <==> Undone(s2.tasks, k));
  }

  /** A pass: conservation of work and ticks, and progress exactly when something
      was queued on entry. */
  lemma {:induction false} RoundKeeps(s: State, w: nat)
    requires Inv(s) && w <= |s.queues|
    ensures var r := Round(s, w);
            && Inv(r) && SameTargets(s, r)
            && Work(r.tasks) + Sum(r.ticks) == Work(s.tasks) + Sum(s.ticks)
            && (if Idle(s) || w == |s.queues| then r == s else Work(r.tasks) < Work(s.tasks))
    decreases |s.queues| - w
  {
    if w < |s.queues| {
      TurnKeeps(s, w);
      RoundKeeps(Turn(s, w), w + 1);
    }
  }

  /** `while (!pool_idle()) scheduler_step();` */
  ghost function RunToIdle(s: State): State
    requires Inv(s)
    decreases Work(s.tasks)
  {
    if Idle(s) then s
    else
      RoundKeeps(s, 0);
      RunToIdle(Round(s, 0))
  }

  /** Every run ends with every task done and right, all queues empty, and as
      many ticks made as there was work, whoever stole what. */
  lemma {:induction false} RunFinishesEverything(s: State)
    requires Inv(s)
    ensures var r := RunToIdle(s);
            && Idle(r) && SameTargets(s, r)
            && (forall i :: 0 <= i < |r.tasks| ==> r.tasks[i].done && r.tasks[i].result == Fib(Max(s.tasks[i].n, 0)))
            && Sum(r.ticks) == Sum(s.ticks) + Work(s.tasks)
    decreases Work(s.tasks)
  {
    if Idle(s) {
      IdleMeansDone(s);
    } else {
      RoundKeeps(s, 0);
      RunFinishesEverything(Round(s, 0));
    }
  }

  lemma {:induction false} NoWorkLeft(tasks: seq<Task>)
    requires forall i :: 0 <= i < |tasks| ==> tasks[i].done
    ensures Work(tasks) == 0
  {
    if tasks != [] {
      NoWorkLeft(tasks[1..]);
    }
  }

  lemma IdleMeansDone(s: State)
    requires Inv(s) && Idle(s)
    ensures (forall i :: 0 <= i < |s.tasks| ==> s.tasks[i].done) && Work(s.tasks) == 0
  {
    forall i | 0 <= i < |s.tasks|
      ensures s.tasks[i].done
    {
      if !s.tasks[i].done {
        assert Undone(s.tasks, i) && Held(s.queues, i) == 1;
        var _ := HeldMeansQueued(s.queues, i);
      }
    }
    NoWorkLeft(s.tasks);
  }

  // ----- The deques never overflow

  lemma {:induction false} DistinctIdsFit(q: seq<int>, ids: set<int>)
    requires forall x :: multiset(q)[x] <= 1
    requires forall x :: x in q ==> x in ids
    ensures |q| <= |ids|
  {
    if q != [] {
      var init, x := q[..|q| - 1], q[|q| - 1];
      assert q == init + [x];
      forall y
        ensures multiset(q)[y] == multiset(init)[y] + if y == x then 1 else 0
      {
        CountAppend(init, [x], y);
        CountOne(x, y);
      }
      assert multiset(init)[x] == 0 && x !in init;
      DistinctIdsFit(init, ids - {x});
    }
  }

  ghost function Ids(n: nat): set<int> {
    if n == 0 then {} else Ids(n - 1) + {n - 1}
  }

  lemma {:induction false} IdsAre(n: nat)
    ensures |Ids(n)| == n && forall i :: i in Ids(n) <==> 0 <= i < n
  {
    if n > 0 {
      IdsAre(n - 1);
    }
  }

  /** With one unfinished task in hand, every deque has room below the task count. */
  lemma RoomForOneMore(s: State, w: nat, id: int)
    requires Sized(s) && w < |s.queues| && Owned(s, id) && Undone(s.tasks, id)
    ensures |s.queues[w]| < |s.tasks|
  {
    var q := s.queues[w];
    var ids := Ids(|s.tasks|) - {id};
    IdsAre(|s.tasks|);
    forall x
      ensures multiset(q)[x] <= 1 && (x in q ==> x in ids)
    {
      HeldBounds(s.queues, w, x);
    }
    DistinctIdsFit(q, ids);
  }

  // ----- The start

  /** All tasks on worker 0, in order. */
  function Seeded(ns: seq<int>, workers: nat): (s: State)
    requires workers >= 1
    ensures Sized(s) && |s.queues| == workers && |s.tasks| == |ns|
  {
    State(seq(workers, w => if w == 0 then seq(|ns|, i => i) else []),
          seq(|ns|, i requires 0 <= i < |ns| => Fresh(ns[i])),
          seq(workers, w => 0), seq(workers, w => 0))
  }

  lemma {:induction false} HeldOfEmpty(queues: seq<seq<int>>, id: int)
    requires forall w :: 0 <= w < |queues| ==> queues[w] == []
    ensures Held(queues, id) == 0
  {
    if queues != [] {
      HeldOfEmpty(queues[1..], id);
    }
  }

  lemma {:induction false} CountUpTo(n: nat, id: int)
    ensures multiset(seq(n, i => i))[id] == if 0 <= id < n then 1 else 0
  {
    if n == 0 {
      assert seq(n, i => i) == [];
    } else {
      CountUpTo(n - 1, id);
      assert seq(n, i => i) == seq(n - 1, i => i) + [n - 1];
    }
  }

  lemma SeededInv(ns: seq<int>, workers: nat)
    requires workers >= 1
    ensures Inv(Seeded(ns, workers))
  {
    var s := Seeded(ns, workers);
    forall id
      ensures Held(s.queues, id) == if Undone(s.tasks, id) then 1 else 0
    {
      HeldOfEmpty(s.queues[1..], id);
      CountUpTo(|ns|, id);
    }
    assert Fib(0) == 0 && Fib(1) == 1;
  }

  ghost function TotalWork(ns: seq<int>): int {
    if ns == [] then 0 else Max(1, ns[0]) + TotalWork(ns[1..])
  }

  lemma {:induction false} FreshWork(ns: seq<int>)
    ensures Work(seq(|ns|, i requires 0 <= i < |ns| => Fresh(ns[i]))) == TotalWork(ns)
  {
    if ns != [] {
      FreshWork(ns[1..]);
      assert seq(|ns|, i requires 0 <= i < |ns| => Fresh(ns[i]))[1..]
          == seq(|ns[1..]|, i requires 0 <= i < |ns[1..]| => Fresh(ns[1..][i]));
    }
  }

  lemma {:induction false} SumOfZeros(s: seq<int>)
    requires forall i :: 0 <= i < |s| ==> s[i] == 0
    ensures Sum(s) == 0
  {
    if s != [] {
      SumOfZeros(s[1..]);
    }
  }

  /** The whole program: results and tick count for any targets and any number of workers. */
  lemma WholeRun(ns: seq<int>, workers: nat)
    requires workers >= 1
    ensures var s := Seeded(ns, workers);
            Inv(s) &&
            var r := RunToIdle(s);
            && Idle(r) && |r.tasks| == |ns|
            && (forall i :: 0 <= i < |ns| ==> r.tasks[i].done && r.tasks[i].result == Fib(Max(ns[i], 0)))
            && Sum(r.ticks) == TotalWork(ns)
  {
    var s := Seeded(ns, workers);
    SeededInv(ns, workers);
    RunFinishesEverything(s);
    FreshWork(ns);
    SumOfZeros(s.ticks);
  }
}
