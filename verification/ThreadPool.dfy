/** The mutex-protected task queue of `demos/threads.c`: `worker_main` line by
    line, the start and join loops of `main`, any number of workers and tasks,
    every interleaving. */
module ThreadPool {
  import opened Options
  import M = CoroModel

  /** The next line of a worker, with its locals where they are live. */
  datatype Pc =
    | NotStarted
    | Lock1                            // line 96
    | Test                             // line 97, lock held
    | Leave                            // line 98, lock held
    | ReadNext                         // line 101, lock held
    | Bump(task: nat)                  // line 102, lock held
    | Record(task: nat)                // line 103, lock held
    | Unlock1(task: nat)               // line 104, lock held
    | Compute(task: nat)               // line 106
    | Lock2(task: nat, answer: int)    // line 108
    | Store(task: nat, answer: int)    // line 109, lock held
    | Unlock2                          // line 110, lock held
    | Returned

  datatype MainPc = Spawning(i: nat) | Joining(i: nat) | Finished

  datatype Claim = Claim(task: nat, worker: nat)

  /** `log` records every execution of line 102. Worker `w` has the id `w + 1`. */
  datatype State = State(
    lock: Option<nat>, next: nat, results: seq<int>, picked: seq<int>, pcs: seq<Pc>, main: MainPc, log: seq<Claim>)

  datatype Actor = Worker(w: nat) | Main

  /** The number of tasks and `FIB_BASE`. */
  datatype Config = Config(tasks: nat, base: nat)

  predicate Holding(pc: Pc) {
    pc.Test? || pc.Leave? || pc.ReadNext? || pc.Bump? || pc.Record? || pc.Unlock1? || pc.Store? || pc.Unlock2?
  }

  predicate Enabled(s: State, a: Actor) {
    match a
    case Worker(w) =>
      w < |s.pcs| && !s.pcs[w].NotStarted? && !s.pcs[w].Returned?
      && (s.pcs[w].Lock1? || s.pcs[w].Lock2? ==> s.lock.None?)
    case Main =>
      match s.main
      case Spawning(_) => true
      case Joining(i) => i < |s.pcs| ==> s.pcs[i].Returned?
      case Finished => false
  }

  function Go(s: State, w: nat, pc: Pc): State
    requires w < |s.pcs|
  {
    s.(pcs := s.pcs[w := pc])
  }

  function WorkerStep(c: Config, s: State, w: nat): State
    requires w < |s.pcs|
  {
    match s.pcs[w]
    case NotStarted => s
    case Lock1 => Go(s, w, Test).(lock := Some(w))
    case Test => Go(s, w, if s.next >= c.tasks then Leave else ReadNext)
    case Leave => Go(s, w, Returned).(lock := None)
    case ReadNext => Go(s, w, Bump(s.next))
    case Bump(t) => Go(s, w, Record(t)).(next := t + 1, log := s.log + [Claim(t, w)])
    case Record(t) =>
      Go(s, w, Unlock1(t)).(picked := if t < |s.picked| then s.picked[t := w + 1] else s.picked)
    case Unlock1(t) => Go(s, w, Compute(t)).(lock := None)
    case Compute(t) => Go(s, w, Lock2(t, M.Fib(t + c.base)))
    case Lock2(t, answer) => Go(s, w, Store(t, answer)).(lock := Some(w))
    case Store(t, answer) =>
      Go(s, w, Unlock2).(results := if t < |s.results| then s.results[t := answer] else s.results)
    case Unlock2 => Go(s, w, Lock1).(lock := None)
    case Returned => s
  }

  function MainStep(s: State): State {
    match s.main
    case Spawning(i) =>
      if i < |s.pcs| then Go(s, i, Lock1).(main := Spawning(i + 1)) else s.(main := Joining(0))
    case Joining(i) => s.(main := if i < |s.pcs| then Joining(i + 1) else Finished)
    case Finished => s
  }

  function Step(c: Config, s: State, a: Actor): State
    requires Enabled(s, a)
  {
    match a
    case Worker(w) => WorkerStep(c, s, w)
    case Main => MainStep(s)
  }

  function Start(c: Config, workers: nat): State {
    State(None, 0, seq(c.tasks, i => 0), seq(c.tasks, i => 0), seq(workers, w => NotStarted), Spawning(0), [])
  }

  ghost predicate Runs(c: Config, s: State, actors: seq<Actor>, r: State)
    decreases |actors|
  {
    if actors == [] then r == s
    else Enabled(s, actors[0]) && Runs(c, Step(c, s, actors[0]), actors[1..], r)
  }

  // ----- The invariant

  /** The task a worker has claimed and not yet stored. */
  function TaskOf(pc: Pc): Option<nat> {
    match pc
    case Record(t) => Some(t)
    case Unlock1(t) => Some(t)
    case Compute(t) => Some(t)
    case Lock2(t, _) => Some(t)
    case Store(t, _) => Some(t)
    case _ => None
  }

  ghost predicate LockOk(s: State) {
    forall w: nat :: s.lock == Some(w) <==> w < |s.pcs| && Holding(s.pcs[w])
  }

  /** What the locals of worker `w` say about the shared state. */
  ghost predicate WorkerOk(c: Config, s: State, w: nat)
    requires w < |s.pcs|
  {
    var pc := s.pcs[w];
    && (pc.ReadNext? ==> s.next < c.tasks)
    && (pc.Bump? ==> pc.task == s.next < c.tasks)
    && (pc.Leave? || pc.Returned? ==> s.next == c.tasks)
    && (TaskOf(pc).Some? ==> TaskOf(pc).value < |s.log| && s.log[TaskOf(pc).value].worker == w)
    && (pc.Lock2? || pc.Store? ==> pc.answer == M.Fib(pc.task + c.base))
  }

  /** A claimed task is with its claimer or has its result; the claimer is on record
      once past line 103. */
  ghost predicate TaskOk(c: Config, s: State, t: nat)
    requires t < |s.log| == s.next <= c.tasks && |s.results| == c.tasks && |s.picked| == c.tasks
  {
    var w := s.log[t].worker;
    && s.log[t].task == t && w < |s.pcs|
    && (TaskOf(s.pcs[w]) == Some(t) || s.results[t] == M.Fib(t + c.base))
    && (s.pcs[w] == Record(t) || s.picked[t] == w + 1)
  }

  ghost predicate MainOk(s: State) {
    match s.main
    case Spawning(i) => i <= |s.pcs| && forall w :: 0 <= w < |s.pcs| ==> (s.pcs[w].NotStarted? <==> w >= i)
    case Joining(i) =>
      && i <= |s.pcs|
      && (forall w :: 0 <= w < |s.pcs| ==> !s.pcs[w].NotStarted?)
      && forall w :: 0 <= w < |s.pcs| && w < i ==> s.pcs[w].Returned?
    case Finished => forall w :: 0 <= w < |s.pcs| ==> s.pcs[w].Returned?
  }

  ghost predicate Inv(c: Config, s: State) {
    && |s.log| == s.next <= c.tasks && |s.results| == c.tasks && |s.picked| == c.tasks
    && LockOk(s) && MainOk(s)
    && (forall w :: 0 <= w < |s.pcs| ==> WorkerOk(c, s, w))
    && (forall t :: 0 <= t < s.next ==> TaskOk(c, s, t))
  }

  lemma StartInv(c: Config, workers: nat)
    ensures Inv(c, Start(c, workers))
  {
  }

  lemma LockStep(c: Config, s: State, w: nat)
    requires Inv(c, s) && Enabled(s, Worker(w))
    ensures LockOk(WorkerStep(c, s, w))
  {
    var r := WorkerStep(c, s, w);
    forall o: nat
      ensures r.lock == Some(o) <==> o < |r.pcs| && Holding(r.pcs[o])
    {
      assert s.lock == Some(o) <==> o < |s.pcs| && Holding(s.pcs[o]);
      assert s.lock == Some(w) <==> Holding(s.pcs[w]);
    }
  }

  /** Only the lock holder changes `next` and the log. */
  lemma OthersKeep(c: Config, s: State, w: nat, o: nat)
    requires Inv(c, s) && Enabled(s, Worker(w)) && o < |s.pcs| && o != w
    ensures WorkerOk(c, WorkerStep(c, s, w), o)
  {
    assert WorkerOk(c, s, o) && WorkerOk(c, s, w);
    assert s.lock == Some(o) <==> Holding(s.pcs[o]);
    assert s.lock == Some(w) <==> Holding(s.pcs[w]);
  }

  lemma ActorKeeps(c: Config, s: State, w: nat)
    requires Inv(c, s) && Enabled(s, Worker(w))
    ensures WorkerOk(c, WorkerStep(c, s, w), w)
  {
    assert WorkerOk(c, s, w);
  }

  lemma TasksKeep(c: Config, s: State, w: nat, t: nat)
    requires Inv(c, s) && Enabled(s, Worker(w))
    ensures var r := WorkerStep(c, s, w);
            && |r.log| == r.next <= c.tasks && |r.results| == c.tasks && |r.picked| == c.tasks
            && (t < r.next ==> TaskOk(c, r, t))
  {
    assert WorkerOk(c, s, w);
    var r := WorkerStep(c, s, w);
    if t < s.next {
      assert TaskOk(c, s, t);
      if TaskOf(s.pcs[w]).Some? {
        assert TaskOk(c, s, TaskOf(s.pcs[w]).value);
      }
    }
  }

  lemma MainUnmoved(c: Config, s: State, w: nat)
    requires Inv(c, s) && Enabled(s, Worker(w))
    ensures MainOk(WorkerStep(c, s, w))
  {
  }

  lemma WorkerKeepsInv(c: Config, s: State, w: nat)
    requires Inv(c, s) && Enabled(s, Worker(w))
    ensures Inv(c, WorkerStep(c, s, w))
  {
    var r := WorkerStep(c, s, w);
    LockStep(c, s, w);
    MainUnmoved(c, s, w);
    forall o | 0 <= o < |s.pcs|
      ensures WorkerOk(c, r, o)
    {
      if o == w { ActorKeeps(c, s, w); } else { OthersKeep(c, s, w, o); }
    }
    TasksKeep(c, s, w, 0);
    forall t | 0 <= t < r.next
      ensures TaskOk(c, r, t)
    {
      TasksKeep(c, s, w, t);
    }
  }

  lemma StepKeepsInv(c: Config, s: State, a: Actor)
    requires Inv(c, s) && Enabled(s, a)
    ensures Inv(c, Step(c, s, a))
  {
    match a {
      case Worker(w) => WorkerKeepsInv(c, s, w);
      case Main => MainKeepsInv(c, s);
    }
  }

  lemma MainKeepsInv(c: Config, s: State)
    requires Inv(c, s) && Enabled(s, Main)
    ensures Inv(c, MainStep(s))
  {
    var r := MainStep(s);
    forall w | 0 <= w < |r.pcs|
      ensures WorkerOk(c, r, w)
    {
      assert WorkerOk(c, s, w);
    }
    forall t | 0 <= t < r.next
      ensures TaskOk(c, r, t)
    {
      assert TaskOk(c, s, t);
      assert WorkerOk(c, s, s.log[t].worker);
    }
    forall o: nat
      ensures r.lock == Some(o) <==> o < |r.pcs| && Holding(r.pcs[o])
    {
      assert s.lock == Some(o) <==> o < |s.pcs| && Holding(s.pcs[o]);
    }
  }

  lemma {:induction false} RunKeepsInv(c: Config, s: State, actors: seq<Actor>, r: State)
    requires Inv(c, s) && Runs(c, s, actors, r)
    ensures Inv(c, r) && |r.pcs| == |s.pcs|
    decreases |actors|
  {
    if actors != [] {
      StepKeepsInv(c, s, actors[0]);
      RunKeepsInv(c, Step(c, s, actors[0]), actors[1..], r);
    }
  }

  // ----- Progress and termination

  /** Whatever the interleaving, a state whose main has not returned can go on. */
  lemma NeverStuck(c: Config, s: State)
    requires Inv(c, s) && !s.main.Finished?
    ensures exists a :: Enabled(s, a)
  {
    if s.lock.Some? {
      var w := s.lock.value;
      assert Enabled(s, Worker(w));
    } else if w :| 0 <= w < |s.pcs| && !s.pcs[w].NotStarted? && !s.pcs[w].Returned? {
      assert Enabled(s, Worker(w));
    } else {
      assert Enabled(s, Main);
    }
  }

  /** Lines left before the worker is back at line 96 or gone. */
  function Stage(pc: Pc): nat {
    match pc
    case NotStarted => 7
    case Lock1 => 6
    case Test => 5
    case Leave => 4
    case ReadNext => 4
    case Bump(_) => 3
    case Record(_) => 12
    case Unlock1(_) => 11
    case Compute(_) => 10
    case Lock2(_, _) => 9
    case Store(_, _) => 8
    case Unlock2 => 7
    case Returned => 0
  }

  function Stages(pcs: seq<Pc>): nat {
    if pcs == [] then 0 else Stage(pcs[0]) + Stages(pcs[1..])
  }

  function MainLeft(s: State): int {
    match s.main
    case Spawning(i) => 2 * |s.pcs| + 2 - i
    case Joining(i) => |s.pcs| + 1 - i
    case Finished => 0
  }

  /** An upper bound on the steps still to come. */
  function StepsLeft(c: Config, s: State): int {
    10 * (c.tasks - s.next) + Stages(s.pcs) + MainLeft(s)
  }

  lemma {:induction false} StagesUpdate(pcs: seq<Pc>, w: nat, pc: Pc)
    requires w < |pcs|
    ensures Stages(pcs[w := pc]) == Stages(pcs) - Stage(pcs[w]) + Stage(pc)
  {
    if w == 0 {
      assert pcs[w := pc][1..] == pcs[1..];
    } else {
      assert pcs[w := pc][1..] == pcs[1..][w - 1 := pc];
      StagesUpdate(pcs[1..], w - 1, pc);
    }
  }

  lemma WorkerStepDecreases(c: Config, s: State, w: nat)
    requires Inv(c, s) && Enabled(s, Worker(w))
    ensures StepsLeft(c, WorkerStep(c, s, w)) < StepsLeft(c, s)
  {
    assert WorkerOk(c, s, w);
    var r := WorkerStep(c, s, w);
    var pc := r.pcs[w];
    assert r.pcs == s.pcs[w := pc] && MainLeft(r) == MainLeft(s);
    StagesUpdate(s.pcs, w, pc);
    assert 10 * (c.tasks - r.next) + Stage(pc) < 10 * (c.tasks - s.next) + Stage(s.pcs[w]);
  }

  lemma MainStepDecreases(c: Config, s: State)
    requires Inv(c, s) && Enabled(s, Main)
    ensures StepsLeft(c, MainStep(s)) < StepsLeft(c, s)
  {
    if s.main.Spawning? && s.main.i < |s.pcs| {
      StagesUpdate(s.pcs, s.main.i, Lock1);
    }
  }

  lemma StepDecreases(c: Config, s: State, a: Actor)
    requires Inv(c, s) && Enabled(s, a)
    ensures StepsLeft(c, Step(c, s, a)) < StepsLeft(c, s)
  {
    match a {
      case Worker(w) => WorkerStepDecreases(c, s, w);
      case Main => MainStepDecreases(c, s);
    }
  }

  lemma StepsLeftNonNegative(c: Config, s: State)
    requires Inv(c, s)
    ensures StepsLeft(c, s) >= 0
  {
  }

  /** No run is longer than the bound at its start: every schedule terminates. */
  lemma {:induction false} RunsAreBounded(c: Config, s: State, actors: seq<Actor>, r: State)
    requires Inv(c, s) && Runs(c, s, actors, r)
    ensures |actors| + StepsLeft(c, r) <= StepsLeft(c, s)
    decreases |actors|
  {
    if actors != [] {
      StepKeepsInv(c, s, actors[0]);
      StepDecreases(c, s, actors[0]);
      RunsAreBounded(c, Step(c, s, actors[0]), actors[1..], r);
    }
  }

  // ----- The end of every run

  /** No two workers are ever inside a locked section. */
  lemma MutualExclusion(c: Config, workers: nat, actors: seq<Actor>, r: State, v: nat, w: nat)
    requires Runs(c, Start(c, workers), actors, r) && v < |r.pcs| && w < |r.pcs|
    requires Holding(r.pcs[v]) && Holding(r.pcs[w])
    ensures v == w
  {
    StartInv(c, workers);
    RunKeepsInv(c, Start(c, workers), actors, r);
    assert r.lock == Some(v) && r.lock == Some(w);
  }

  /** At any moment of any run each claimed index has been claimed once, in order. */
  lemma ClaimedOnce(c: Config, workers: nat, actors: seq<Actor>, r: State, i: nat, j: nat)
    requires Runs(c, Start(c, workers), actors, r) && i < |r.log| && j < |r.log|
    ensures r.log[i].task == i < c.tasks && (r.log[i].task == r.log[j].task ==> i == j)
  {
    StartInv(c, workers);
    RunKeepsInv(c, Start(c, workers), actors, r);
    assert TaskOk(c, r, i) && TaskOk(c, r, j);
  }

  /** When `main` is through its joins, with at least one worker, every task was
      claimed exactly once, its slot holds its Fibonacci number, and the picker on
      record is the worker that claimed and computed it. */
  lemma FinalResults(c: Config, workers: nat, actors: seq<Actor>, r: State, t: nat)
    requires workers >= 1 && Runs(c, Start(c, workers), actors, r) && r.main.Finished? && t < c.tasks
    ensures |r.log| == c.tasks && |r.results| == c.tasks && |r.picked| == c.tasks
    ensures r.log[t].task == t && r.log[t].worker < workers
    ensures r.results[t] == M.Fib(t + c.base) && r.picked[t] == r.log[t].worker + 1
  {
    StartInv(c, workers);
    RunKeepsInv(c, Start(c, workers), actors, r);
    assert WorkerOk(c, r, 0);
    assert TaskOk(c, r, t);
  }

  /** Without a worker nothing is computed: the promise needs `workers >= 1`. */
  lemma NoWorkersNoResults(c: Config, actors: seq<Actor>, r: State)
    requires Runs(c, Start(c, 0), actors, r)
    ensures r.log == [] && forall t :: 0 <= t < c.tasks ==> |r.picked| == c.tasks && r.picked[t] == 0
  {
    StartInv(c, 0);
    NoWorkersRun(c, Start(c, 0), actors, r);
  }

  lemma {:induction false} NoWorkersRun(c: Config, s: State, actors: seq<Actor>, r: State)
    requires s.pcs == [] && Runs(c, s, actors, r)
    ensures r.log == s.log && r.picked == s.picked
    decreases |actors|
  {
    if actors != [] {
      NoWorkersRun(c, Step(c, s, actors[0]), actors[1..], r);
    }
  }
}
