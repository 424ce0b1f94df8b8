# badc verification models

badc is a C compiler with a collection of demo programs and maintenance scripts
around it. This project models the parts of the repository with the most state,
branching or arithmetic, and proves what they promise for every input, every run
or every interleaving.

| files | what they model |
|---|---|
| `MazeGrid`, `MazeSolver`, `MazeCarver`, `MazeOrder`, `MazeShape`, `MazeWitness`, `MazeCycle` | the maze demo: a solver whose only stack is the marks in the grid, the random carver, and what the one does on what the other makes |
| `CoroModel`, `CoroTurn`, `CoroPool` | the work-stealing coroutine pool: ring deques, steals, resumable Fibonacci tasks |
| `HostLoad`, `HostLoadRuns`, `HostLoadDeadlock`, `HostLoadLanes` | the host-wide readers/writer lock with its turnstile, as steps of any number of processes and their children |
| `ThreadPool` | the mutex-protected task queue, every interleaving of any number of workers |
| `Reducer`, `ReducerRegions`, `Text`, `Options` | the line-deleting test-case reducer |
| `HelloModel`, `HelloServer` | the select server: a state machine over an arbitrary kernel, and the slot arrays |
| `Arithmetic`, `Magic`, `ConstDivide` | the compiler's lowering of division by a constant to multiplies and shifts |
| `PlaceMoves` | the compiler's scheduling of parallel register and spill-slot copies |
| `ParseOp`, `ParseTokens` | the encoding-string parser of the A64 table generator |
| `MarkerScan` | the windowed scan for markers in a guest's serial output |
| `PerfIndex` | the index of published performance runs |
| `Base64` | the base64 decoder of the bzip2 demo |

Conventions. Code that changes arrays, lists or fields step by step is a method
or a class, proved against a function or a state machine; the theorems are lemmas
about that function or machine. Random draws, kernel answers, interleavings, serial
chunks and the reducer's interestingness test are arbitrary parameters. Integers
are unbounded except in `ConstDivide`, where registers are 64-bit words and every
operation wraps as the IR evaluator's does.

## What turned out not to hold

- `solve_maze` can turn on the spot for ever although the goal is reachable, when a
  cycle can be reached from the start (`MazeCycle.CyclicMazeMayTrap`); where none can
  be reached before the goal, it returns exactly when the goal is reachable
  (`MazeSolver.TreeSolverTerminatesIff`). A generated maze never has such a cycle,
  whatever is drawn (`MazeShape.GeneratedIsTreelike`), so the trap does not occur in
  the program.
- `generate_maze` can cut the goal off from the start: a call of `carve_maze` on a
  cell that is still wall carves a separate component
  (`MazeWitness.GeneratedMazeMayBeUnsolvable`). For all draws the solver returns
  exactly when the goal is reachable (`MazeShape.GeneratedMazeIsSolvedIff`).
- `deque_pop_back` takes the most recently pushed entry; the comments at
  demos/coro_pool.c:18 and demos/coro_pool.c:89-91 call it the oldest. The model
  follows the code.
- An exclusive phase does not always have the host to itself, although
  scripts/host_load.py:7-8 says no lane's load runs beside it: a process that
  inherited a mark passes `held` without the lock, also after the block the mark came
  from has been left. A process in an exclusive block keeps all others from the lock
  (`HostLoadLanes.BlockShields`), but has the host to its own lane exactly when no live
  process carries a mark from another (`HostLoadLanes.ExclusiveBlockIsAloneIff`,
  witness `TwoLanesInside`).
- An exclusive request by a process that carries the mark gets nothing of its own: not
  inside a shared block (`HostLoadLanes.NestedExclusiveIsNotAlone`), not once the block
  that set the mark has been left (`HostLoadLanes.OrphanIsNotAlone`). It keeps others
  from the lock exactly when the process that set the mark is in an exclusive block
  (`HostLoadLanes.NestedExclusiveHoldsOffIff`), and has the host to its lane exactly
  when, besides, no live process carries a mark from elsewhere
  (`HostLoadLanes.NestedExclusiveIsAloneIff`).
- The lock can deadlock: a holder may wait for a child it started before its block
  (`HostLoadDeadlock.WaitingForAnOutsiderDeadlocks`). Waiting from a block only for
  children started in it, or already gone, is the exact condition
  (`HostLoadDeadlock.DeadlockIff`, `HostLoadDeadlock.GuardIsExact`), and then everybody
  can always finish (`HostLoadDeadlock.ClearsIff`).
- The pass over even divisors in `udiv_magic` falls through to the add-back form
  when the narrowed multiplier needs it; it never does
  (`ConstDivide.UdivPreShiftIs`).
- The marker scan leaves an empty marker unfound until something has been read
  (`MarkerScan.ScanIsExact`).
- The comment at demos/bzip2/smoke_main.c:75-79 promises 0 for malformed input and
  asks for a destination of `strlen / 4 * 3` bytes. Neither is quite right:
  `Base64.ZeroIff` and `Base64.DocumentedSizeIff` give the exact conditions.

## Model

| member | source | states |
|---|---|---|
| MazeSolver.SolveMaze | demos/maze.c:124-178 | on any grid with a closed border and an open start: no access leaves the grid; `finished` holds exactly if the C loop exits; the final grid keeps every wall, walls up the entry, reopens and marks the exit only on the way out, and has unvisited cells only where cells were open; only cells reachable from the start carry a mark; where no cycle can be reached before the goal it finishes exactly if the goal is reachable, and then the 2-marks are exactly a simple path plus the exit, the only one where no cycle can be reached at all |
| MazeSolver.Iteration | demos/maze.c:137-172 | one loop iteration on the array is one step of the state machine |
| MazeSolver.FinishedWalls | demos/maze.c:132-177 | after the two last writes exactly the entry and the given walls but the exit are walls, and goal and exit are marked |
| MazeSolver.GoesNext | demos/maze.c:136-173 | by coordinates: to the first unvisited neighbour right, down, left, up, leaving 2; else to the first one marked 2, leaving 3; else stuck |
| MazeSolver.SolverIsSound | demos/maze.c:124-173 | every state of every run keeps the invariant (walls fixed, marks reachable, goal unmarked before arrival, directions already seen), and arrival implies an open path |
| MazeSolver.StepShrinks | demos/maze.c:136-173 | each iteration that is not stuck lowers the lexicographic measure of live cells, unvisited cells, revisits and turns |
| MazeSolver.RunSettles | demos/maze.c:136-173 | every run reaches the goal or a stuck state after finitely many iterations |
| MazeSolver.StuckSpinsForever | demos/maze.c:136-173 | from a stuck state the loop only turns: position and grid never change again |
| MazeSolver.DfsStep | demos/maze.c:156-171 | where no cycle can be reached before the goal each iteration keeps the 2-marks plus the current cell a depth-first stack whose dead ends have no unvisited neighbour |
| MazeSolver.StuckMeansUnreachable | demos/maze.c:136-173 | where no cycle can be reached before the goal a stuck state means the goal is unreachable |
| MazeSolver.TreeSolverTerminatesIff | demos/maze.c:124-178 | where no cycle can be reached before the goal the loop exits if and only if the goal is reachable |
| MazeSolver.SolutionIsAPath | demos/maze.c:124-178 | where no cycle can be reached before the goal the cells marked 2 at the end are exactly a simple path and the exit |
| MazeSolver.TreeSolutionIsThePath | demos/maze.c:124-178 | where no cycle can be reached from the start the cells marked 2 at the end are exactly the one simple path and the exit |
| MazeGrid.UniqueSimplePath | demos/maze.c:124-178 | on an acyclic set of cells two simple paths with the same ends are equal |
| MazeGrid.OnePathMeansAcyclic | demos/maze.c:124-178 | where simple paths from a cell are determined by their ends, no cycle can be reached from it |
| MazeCycle.CyclicMazeMayTrap | demos/maze.c:136-173 | there is a 7 by 7 grid that meets the solver's demands, whose goal is reachable, and on which no run ever arrives |
| MazeCarver.CarveMaze | demos/maze.c:58-101 | the walk on the array opens exactly what the specification of the walk opens, consuming the same draws |
| MazeCarver.TryCarve | demos/maze.c:84-95 | the test succeeds exactly when door and room are walls inside the grid, and opens exactly those two cells |
| MazeOrder.CarvesNext | demos/maze.c:65-99 | by coordinates: the walk takes the first free way from the drawn one on, turning right, and draws again |
| MazeOrder.CallEnds | demos/maze.c:67-99 | with no free way the call ends, opening nothing more |
| MazeOrder.GeneratedByCalls | demos/maze.c:111-116 | the maze is what one call on every odd cell leaves, row by row and left to right, from the open cell (1, 1) |
| MazeCarver.CarvingUsesUpWalls | demos/maze.c:67-99 | each move leaves strictly fewer walls, so carving terminates |
| MazeCarver.CarveKeepsLegal | demos/maze.c:58-101 | a walk only opens cells, never on the border or at even/even positions, and keeps rooms = doors + 1 |
| MazeCarver.GeneratedIsLegal | demos/maze.c:104-121 | for all draws the generated maze keeps those properties and has its start open |
| MazeCarver.GenerateMaze | demos/maze.c:104-121 | the array shows the generated cells plus entry and exit, has just (1, 0) and (w - 2, h - 1) open on its border, and meets what `solve_maze` expects |
| MazeCarver.CarveStep | demos/maze.c:67-99 | one iteration on the array is one step of the walk |
| MazeCarver.CarveRow | demos/maze.c:115-116 | one row of calls advances the generation by that row |
| MazeShape.CarveKeepsKids | demos/maze.c:88-95 | a walk keeps an injective assignment of an adjacent room, never the start, to every door |
| MazeShape.PathsLeadOnward | demos/maze.c:58-121 | along any simple path from the start each room is the one opened with the door before it |
| MazeShape.GeneratedIsTreelike | demos/maze.c:104-121 | for all draws no cycle can be reached from the start |
| MazeShape.GeneratedMazeIsSolvedIff | demos/maze.c:104-178 | for all draws the solver returns exactly when the goal is reachable, and then marks exactly the simple path and the exit |
| MazeShape.MakeAndSolve | demos/maze.c:232-238 | generating and solving on one array: finishes exactly when (w - 2, h - 2) is reachable from (1, 1), with exactly one simple path and the exit marked and every other uncarved cell a wall |
| MazeShape.CarveKeepsTree | demos/maze.c:58-101 | a walk that starts on an open cell of a tree leaves a tree |
| MazeShape.CleanGeneratesTree | demos/maze.c:104-121 | if no call that starts on a wall opens anything, the whole maze is a tree and its goal is open |
| MazeShape.CleanMazeIsSolved | demos/maze.c:104-178 | and the solver returns |
| MazeWitness.GeneratedMazeMayBeUnsolvable | demos/maze.c:104-121 | there are draws, and the grid they give, for which the goal is open, cut off, and never reached by the solver |
| CoroPool.PushIsAppend | demos/coro_pool.c:61-73 | pushing into a ring appends to its queue and leaves every other worker's queue alone |
| CoroPool.PopFrontIsTail | demos/coro_pool.c:76-87 | the entry at `head` is the first of the queue, and moving `head` drops it |
| CoroPool.PopBackIsInit | demos/coro_pool.c:92-103 | the entry before `tail` is the last of the queue, and moving `tail` drops it |
| CoroPool.Pool.DequePush | demos/coro_pool.c:61-73 | appends exactly when there is room, otherwise nothing changes and the overflow is reported |
| CoroPool.Pool.DequePopFront | demos/coro_pool.c:76-87 | returns and removes the first entry, or -1 |
| CoroPool.Pool.DequePopBack | demos/coro_pool.c:92-103 | returns and removes the last entry, or -1 |
| CoroPool.Pool.TickTask | demos/coro_pool.c:108-126 | advances one task by one step and reports exactly whether a step is left after it, for any task |
| CoroPool.Pool.TrySteal | demos/coro_pool.c:131-146 | on any queues and for any thief: what the search over the victims takes, leaves and counts |
| CoroModel.StealTakes | demos/coro_pool.c:131-146 | with task ids in the queues an idle worker's steal takes one entry off the back of the first other worker with work |
| CoroPool.Pool.PoolIdle | demos/coro_pool.c:149-157 | true exactly when every queue is empty |
| CoroPool.Pool.SchedulerStep | demos/coro_pool.c:161-183 | never overflows, reports progress exactly when some queue was non-empty on entry, and is one round of the machine |
| CoroPool.Pool.Seed | demos/coro_pool.c:233-237 | succeeds exactly when the tasks fit one deque |
| CoroPool.Pool.RunUntilIdle | demos/coro_pool.c:244-246 | terminates with the machine's final state, without overflow |
| CoroPool.RunPool | demos/coro_pool.c:207-246 | the program overflows exactly when the tasks do not fit one deque; otherwise every task is done with its Fibonacci number and the ticks add up |
| CoroModel.TickOk | demos/coro_pool.c:108-126 | a tick keeps the task's loop invariant and uses one unit of its work |
| CoroModel.TurnKeeps | demos/coro_pool.c:168-181 | a worker's turn keeps the invariant and makes one tick for one unit of work unless everything is idle |
| CoroTurn.OwnTurn | demos/coro_pool.c:171-178 | a worker with work ticks the oldest entry of its own queue once and puts it back at the end unless finished; nothing else changes |
| CoroTurn.StolenTurn | demos/coro_pool.c:169-178 | a worker without work ticks the newest entry of the first other worker that has some, keeps it unless finished, and one steal is counted |
| CoroTurn.RoundIsTurns | demos/coro_pool.c:166-182 | a pass is one turn of every worker, lowest number first |
| CoroTurn.OneWorkerTakesTurns | demos/coro_pool.c:161-183 | with one worker as many passes as there are queued tasks tick each exactly once and keep their order |
| CoroModel.NothingToTake | demos/coro_pool.c:169-174 | a worker is left without a task when all deques are empty |
| CoroModel.RoundKeeps | demos/coro_pool.c:161-183 | a pass keeps every unfinished task in exactly one queue once and no finished one in any, conserves work plus ticks, and shrinks the work exactly when something was queued |
| CoroModel.RoomForOneMore | demos/coro_pool.c:61-73 | with an unfinished task in hand every queue is shorter than the number of tasks |
| CoroModel.IdleMeansDone | demos/coro_pool.c:244-246 | when all queues are empty every task is done |
| CoroModel.RunFinishesEverything | demos/coro_pool.c:244-246 | every run ends idle with every task done and right and as many ticks as there was work, whatever was stolen |
| CoroModel.WholeRun | demos/coro_pool.c:185-246 | from the seeded state: all results, and ticks equal to the sum of max(1, n) |
| HostLoad.RunKeepsInv | scripts/host_load.py:35-53 | every run of any number of processes keeps the invariant |
| HostLoad.ExclusiveIsAlone | scripts/host_load.py:37-53 | in every reachable state an exclusive holder is the only holder, the turnstile holds one process, and no holder or marked process waits for either lock |
| HostLoad.NoNewHolder | scripts/host_load.py:45-47 | while a process waits inside the turnstile no step of another adds a holder |
| HostLoad.HoldersOnlyShrink | scripts/host_load.py:45-47 | so over any run the holder set only shrinks while it waits |
| HostLoad.NoHolderMeansEnabled | scripts/host_load.py:45-47 | and with no holder left its request is granted |
| HostLoad.CallAndReturn | scripts/host_load.py:37-39 | a call on a mark and its return leave everything as it was: the innermost call returns first |
| HostLoad.NoDeadlock | scripts/host_load.py:34-53 | every reachable state with a busy process has an enabled step that finishes something, when blocks wait only for children started in them or gone |
| HostLoad.DisciplinedRunsNeverDeadlock | scripts/host_load.py:34-53 | no run keeping that discipline deadlocks, whatever its children request |
| HostLoadDeadlock.ChildGetsThere | scripts/host_load.py:45-53 | a live child without the mark can be brought to wait for the lock its waiting parent holds, whatever it was at |
| HostLoadDeadlock.DeadlockIff | scripts/host_load.py:34-53 | some run that keeps the discipline from here on deadlocks if and only if a marked process waits for a live child without the mark |
| HostLoadDeadlock.GuardIsExact | scripts/host_load.py:34-53 | of all steps from a reachable disciplined state exactly those that break the discipline make a deadlock possible |
| HostLoadDeadlock.WaitingForAnOutsiderDeadlocks | scripts/host_load.py:34-53 | a reachable deadlock without the discipline |
| HostLoadDeadlock.WithoutTheMarkChildrenDeadlock | scripts/host_load.py:37-39 | a deadlock of a disciplined run if the inherited mark were left out of account |
| HostLoadDeadlock.FinishingLowers | scripts/host_load.py:35-53 | every step that finishes something brings the processes closer to their end |
| HostLoadDeadlock.FinishingIsBounded | scripts/host_load.py:35-53 | so no run of such steps is longer than the bound at its start |
| HostLoadDeadlock.DisciplinedClears | scripts/host_load.py:35-53 | from every disciplined state finishing steps alone lead to a state in which no process is busy |
| HostLoadDeadlock.ClearsIff | scripts/host_load.py:35-53 | from every state of every disciplined run everybody can be brought to an end that way, if and only if no marked process waits for a live unmarked child now |
| HostLoadLanes.BlockShields | scripts/host_load.py:45-50 | an exclusive block keeps every other process from the lock for as long as it lasts |
| HostLoadLanes.StepKeepsLane | scripts/host_load.py:37-50 | while a process is in an exclusive block nobody else sets a mark |
| HostLoadLanes.ExclusiveBlockIsAloneIff | scripts/host_load.py:7-8 | for as long as an exclusive block lasts only processes of its lane are inside a block of `held`, in every run, if and only if every live marked process has its mark from it now |
| HostLoadLanes.NestedExclusiveHoldsOffIff | scripts/host_load.py:37-53 | in every reachable state: while a nested exclusive call is open, and its origin in the block it is in, no process but the origin can hold the lock, if and only if the origin is in an exclusive block |
| HostLoadLanes.NestedExclusiveIsAloneIff | scripts/host_load.py:7-16 | and no process of another lane can be inside a block, if and only if, besides, every live marked process has its mark from that origin |
| HostLoadLanes.OutsiderGetsIn | scripts/host_load.py:37-53 | with the origin not in an exclusive block a run with the call open throughout leads to a newly started program that holds the lock and is in its block |
| HostLoadLanes.StrangerGetsIn | scripts/host_load.py:37-39 | a live marked process of another lane can enter an exclusive call beside an exclusive block |
| HostLoadLanes.NestedExclusiveIsNotAlone | scripts/host_load.py:37-39 | a reachable state in which a nested exclusive request shares the lock with another process |
| HostLoadLanes.OrphanIsNotAlone | scripts/host_load.py:37-39 | a reachable state in which an orphan of an exclusive block is in an exclusive call while another process holds the lock exclusively |
| HostLoadLanes.TwoLanesInside | scripts/host_load.py:37-39 | a reachable state in which processes of two lanes are inside exclusive calls, the origin of one of them in an exclusive block |
| ThreadPool.RunKeepsInv | demos/threads.c:88-159 | every interleaving keeps the invariant |
| ThreadPool.MutualExclusion | demos/threads.c:95-111 | no two workers are in a locked section |
| ThreadPool.ClaimedOnce | demos/threads.c:97-104 | every index is claimed once, in order, and only real ones |
| ThreadPool.NeverStuck | demos/threads.c:88-159 | a state whose main has not returned has an enabled step |
| ThreadPool.StepDecreases | demos/threads.c:88-159 | every step lowers the bound on the steps left |
| ThreadPool.StepsLeftNonNegative | demos/threads.c:88-159 | that bound is never negative |
| ThreadPool.RunsAreBounded | demos/threads.c:88-159 | no schedule is longer than that bound |
| ThreadPool.FinalResults | demos/threads.c:133-159 | after the joins every slot holds fib(FIB_BASE + index) and the recorded picker is the worker that claimed it |
| ThreadPool.NoWorkersNoResults | demos/threads.c:133-159 | with no worker nothing is claimed or recorded |
| ReducerRegions.NetIs | scripts/c_reduce.py:103 | an opening brace counts one, a closing one minus one, nothing else, and lines add up |
| ReducerRegions.EndsItemIff | scripts/c_reduce.py:104 | a `;` or `}` with nothing but white space behind it |
| ReducerRegions.TopLevelEndsIff | scripts/c_reduce.py:89-110 | in a well-nested source a region ends before the last line exactly where the depth is back at zero and the line ends in `;` or `}` |
| ReducerRegions.TopLevelBeginsWell | scripts/c_reduce.py:99-110 | and every region begins at the start, right after a cut or right after a blank line outside all braces, and holds no such line |
| ReducerRegions.LastRegionFirst | scripts/c_reduce.py:138-148 | a round first asks about deleting the last region |
| ReducerRegions.EverythingGoes | scripts/c_reduce.py:152-166 | with an oracle that accepts everything a pass over braceless lines leaves at most a window's lines, the last ones |
| Reducer.TopLevelRegions | scripts/c_reduce.py:89-110 | the loop yields the specified regions, non-empty, disjoint and increasing |
| Reducer.TopLevelIsOrdered | scripts/c_reduce.py:89-110 | on any input the regions are non-empty, disjoint and increasing |
| Reducer.TopLevelBalancedIff | scripts/c_reduce.py:89-110 | all regions are balanced if and only if the brace depth never goes negative and ends at zero |
| Reducer.IsBalanced | scripts/c_reduce.py:113-114 | true exactly when the net brace count is zero |
| Reducer.Widths | scripts/c_reduce.py:117-124 | the halving widths, ended by the four narrow ones |
| Reducer.WidthsAreHalves | scripts/c_reduce.py:117-124 | half the lines first where that is more than four, every other width above four half the one before, then 4, 3, 2, 1 |
| Reducer.NarrowComeLast | scripts/c_reduce.py:117-124 | 4, 3, 2, 1 are always the last four widths |
| Reducer.WithoutKeepsNesting | scripts/c_reduce.py:140-166 | deleting a balanced window from a well-nested source leaves it well nested |
| Reducer.OffsetsStayValid | scripts/c_reduce.py:140-147 | after any deletions behind it a region's offsets still delimit its own lines |
| Reducer.DropCutsRegions | scripts/c_reduce.py:140-147 | the region pass leaves the source with exactly a choice of regions cut out at their original offsets |
| Reducer.RegionsOutChooses | scripts/c_reduce.py:140-147 | which regions: each is tried with the fate of all later ones decided and goes exactly if the oracle accepts |
| Reducer.RegionsOutIsSound | scripts/c_reduce.py:140-147 | the region pass reduces, and if it deletes nothing no region can be deleted |
| Reducer.WindowsOutIsSound | scripts/c_reduce.py:148-166 | the window passes reduce, and if they delete nothing no balanced window of 1 to 4 lines can be deleted, nor a wider one at a multiple of its width for any width halving comes to |
| Reducer.RoundIsSound | scripts/c_reduce.py:138-170 | a round gives a subsequence accepted by the oracle or leaves all as it was, and then the source is locally minimal |
| Reducer.RegionPass | scripts/c_reduce.py:140-147 | the loop computes the specified region pass |
| Reducer.WindowPass | scripts/c_reduce.py:152-166 | the loop computes the specified window pass and terminates |
| Reducer.ReduceSource | scripts/c_reduce.py:127-171 | terminates; the result is a subsequence, the input itself or accepted and non-empty; on convergence nothing a pass looks for can go: no region, no window of 1 to 4 lines, no wider one of the halving widths at a multiple of its width; as many passes as lines always converge; every candidate of a well-nested source is well nested |
| HelloModel.PassKeepsInv | demos/hello_server.c:181-243 | every pass keeps the invariant under any lawful kernel, and closed connections never change again |
| HelloModel.PassServesEachOnce | demos/hello_server.c:217-243 | a pass moves each connection by exactly one recv or send if it was ready and not at all otherwise, independently of the others |
| HelloModel.PassOnReader | demos/hello_server.c:219-228 | recv of zero or less closes the slot once with nothing sent; anything else makes it writing and changes nothing more |
| HelloModel.PassOnWriter | demos/hello_server.c:229-239 | send of zero or less closes with what was sent; fewer bytes than are left are added; all that is left ends it served with the whole response |
| HelloModel.PassOnOther | demos/hello_server.c:217-242 | a busy slot not reported ready stays as it was |
| HelloModel.NewcomerWaits | demos/hello_server.c:202-215 | a connection accepted in a pass is not served in it; it takes the free slot with the lowest number, or is closed when there is none |
| HelloModel.ReadyMeansProgress | demos/hello_server.c:217-243 | the ready connections, and only they, come strictly closer to their end |
| HelloModel.RunKeepsInv | demos/hello_server.c:181-243 | the same over every run |
| HelloModel.DescriptorsAreConserved | demos/hello_server.c:181-243 | after any run every accepted connection is open, in exactly one busy slot and never closed, or closed exactly once, by its own descriptor, and in none; a close without error had sent the whole response |
| HelloModel.SlotsAreConsistent | demos/hello_server.c:113-128 | after any run a slot is free exactly when its descriptor is -1, with nothing written; the bytes sent are the first `written` of the response; no two busy slots share a descriptor |
| HelloServer.Server.constructor | demos/hello_server.c:162-171 | all slots start free |
| HelloServer.Server.FindFreeSlot | demos/hello_server.c:113-121 | the first free slot, or -1 |
| HelloServer.Server.CloseSlot | demos/hello_server.c:123-128 | the slot becomes vacant, and the close of its connection and its descriptor is logged once |
| HelloServer.Server.Watch | demos/hello_server.c:182-197 | the sets given to select, and the largest descriptor in them |
| HelloServer.Server.Accept | demos/hello_server.c:202-215 | accepts into the first free slot or drops |
| HelloServer.Server.ServeSlot | demos/hello_server.c:219-241 | one iteration of the service loop |
| HelloServer.Server.OnePass | demos/hello_server.c:181-243 | one pass over the arrays is one pass of the machine |
| HelloServer.Server.Serve | demos/hello_server.c:181-243 | the loop computes the run of the machine, whatever the kernel answers |
| Magic.WorstCaseIs | src/c5/codegen/magic.rs:25-28 | the largest numerator congruent to -1 |
| Magic.ReciprocalExact | src/c5/codegen/magic.rs:30-58 | the search's test at the worst case makes the reciprocal exact for every numerator in range |
| Magic.ReciprocalExactBelow | src/c5/codegen/magic.rs:30-58 | below zero the floor lands one under the truncated quotient |
| Magic.Search | src/c5/codegen/magic.rs:43-58 | the smallest fitting shift and its multiplier |
| Magic.UnsignedSearchFits | src/c5/codegen/magic.rs:40-58 | the unsigned search succeeds below 2w, so `unreachable!` is, and its multiplier fits |
| Magic.SignedSearchFits | src/c5/codegen/magic.rs:40-58 | the same for the signed search |
| Magic.MagicUnsignedIsExact | src/c5/codegen/magic.rs:81-116 | multiplier and shift divide every numerator of the promised width exactly, with and without add-back |
| Magic.MagicSignedIsExact | src/c5/codegen/magic.rs:136-164 | for every signed numerator the floor is the quotient, or one less below zero |
| ConstDivide.DivideIs | src/c5/ir.rs:1322-1328 | the divide being replaced: quotient times divisor plus remainder is the numerator, the remainder smaller than the divisor with the numerator's sign; unsigned the same of the register readings |
| ConstDivide.RegisterIs | src/c5/ir.rs:1301-1328 | a register holds the one number below 2^64 congruent to the value |
| ConstDivide.UdivMagicIs | src/c5/codegen/magic.rs:210-246 | the emitted sequence computes the quotient for every numerator |
| ConstDivide.UdivPreShiftIs | src/c5/codegen/magic.rs:210-246 | so does the pre-shifted form for even divisors, which never needs the add-back |
| ConstDivide.SdivMagicIs | src/c5/codegen/magic.rs:249-273 | the signed sequence truncates toward zero |
| ConstDivide.SignedPow2Quotient | src/c5/codegen/magic.rs:284-297 | the biased shift truncates toward zero for both signs of the divisor |
| ConstDivide.SignedPow2Remainder | src/c5/codegen/magic.rs:410-420 | the biased mask gives the remainder with the numerator's sign |
| ConstDivide.LowerUdivmodIs | src/c5/codegen/magic.rs:302-340 | every sequence the unsigned lowering can emit is the quotient or remainder |
| ConstDivide.LowerSignedIs | src/c5/codegen/magic.rs:392-428 | every sequence the signed lowering can emit equals the divide it replaces, INT_MIN / -1 wrapping |
| ConstDivide.LowerDivmodIs | src/c5/codegen/magic.rs:373-431 | declines exactly a zero divisor and otherwise leaves what the divide instruction leaves |
| ConstDivide.LowerSiteIs | src/c5/codegen/passes/divmod_const.rs:160-209 | for every dividend in its range bounds the pass's value equals the divide's; a zero divisor gets no sequence |
| PlaceMoves.EmitMoveIs | src/c5/codegen/ssa/emit_common.rs:776-814 | the emitted code writes the converted source to the destination and disturbs only the staging register |
| PlaceMoves.ConvertNarrows | src/c5/codegen/ssa/emit_common.rs:620-627 | an extending move leaves the value congruent modulo 2^8, 2^16 or 2^32 in the signed range of that width |
| PlaceMoves.NarrowedIsUnique | src/c5/codegen/ssa/emit_common.rs:620-627 | and there is only one such value |
| PlaceMoves.EmitUnblocked | src/c5/codegen/ssa/emit_common.rs:888-904 | emitting a move whose target no other move reads keeps the parallel goal |
| PlaceMoves.StuckIsPermutation | src/c5/codegen/ssa/emit_common.rs:912-917 | when every move is blocked, sources and targets are the same places, each read once |
| PlaceMoves.StageOneSource | src/c5/codegen/ssa/emit_common.rs:946-957 | staging one source into `hold` keeps the goal |
| PlaceMoves.ExchangeLeads | src/c5/codegen/ssa/emit_common.rs:926-945 | exchanging a register pair keeps the goal |
| PlaceMoves.DrainUnblocked | src/c5/codegen/ssa/emit_common.rs:889-904 | a pass emits correct code and shortens the list unless all are blocked |
| PlaceMoves.BreakCycle | src/c5/codegen/ssa/emit_common.rs:917-958 | breaks a cycle with correct code and makes progress |
| PlaceMoves.ScheduleMoves | src/c5/codegen/ssa/emit_common.rs:867-910 | terminates; fails exactly on a real move with an FP or absent end; otherwise the code performs all moves at once, each extension by its width, and leaves every other place alone |
| ParseOp.ParseOp | tools/gen_isa_a64.py:254-275 | the token loop computes the specified layout |
| ParseTokens.SplitJoins | tools/gen_isa_a64.py:258 | the string is cut at every separator and nowhere else |
| ParseTokens.NumberInvertsDecimal | tools/gen_isa_a64.py:266 | reading a printed number gives the number |
| ParseTokens.NamedIsField | tools/gen_isa_a64.py:263-267 | `name:width` is a field of that name and width |
| ParseTokens.BitsAreLiteral | tools/gen_isa_a64.py:260-262 | binary digits are a literal |
| ParseTokens.BareIsField | tools/gen_isa_a64.py:268-272 | a name without a width has it from the table |
| ParseTokens.BareWidths | tools/gen_isa_a64.py:228-230 | five bits for registers, four for conditions and flags, three for options, two for shift operators |
| ParseOp.ParsedIff | tools/gen_isa_a64.py:254-275 | refuses exactly an unknown token, a repeated field name, or widths that do not add up to 32 |
| ParseOp.ParsedIs | tools/gen_isa_a64.py:254-275 | every literal digit is the base bit at its place, every field is under its name at its place, and the base holds nothing else |
| ParseOp.LaidOutIsTiled | tools/gen_isa_a64.py:254-275 | fields are inside the word and disjoint, and the base is zero on them |
| ParseOp.LiteralsAreTheRest | tools/gen_isa_a64.py:254-275 | the bits no field covers are exactly the literal ones |
| ParseOp.ExtractSplice | tools/gen_isa_a64.py:254-275 | extracting a field of a spliced word gives the value spliced in |
| ParseOp.SpliceInjective | tools/gen_isa_a64.py:254-275 | distinct assignments give distinct words |
| ParseOp.EncodingIsABijection | tools/gen_isa_a64.py:228-275 | for every accepted string, field assignments and words with its literal bits correspond one to one |
| MarkerScan.ShownIsSerial | demos/edk2/qemu_efi.py:106-108 | stripping batch by batch is stripping the whole |
| MarkerScan.WithoutReturnsIs | demos/edk2/qemu_efi.py:106-108 | carriage returns go, everything else stays in order |
| MarkerScan.MissingIsFilter | demos/edk2/qemu_efi.py:130 | what is left keeps the order and repetitions of what was wanted |
| MarkerScan.OccursInWindow | demos/edk2/qemu_efi.py:113-131 | a marker occurs in the longer text exactly when it did before or occurs in the window and the new text |
| MarkerScan.Scan | demos/edk2/qemu_efi.py:118-131 | stops early only when nothing is left, and leaves what the text read so far determines |
| MarkerScan.ScanIsExact | demos/edk2/qemu_efi.py:113-131 | for every splitting exactly the markers absent from the whole text are left, if and only if something was read or no marker is empty |
| PerfIndex.SortedDescends | scripts/perf_publish.py:306-307 | with one entry a run the sort is strictly descending in (taken, sha, runner) |
| PerfIndex.DescendingIsUnique | scripts/perf_publish.py:306-307 | a strictly descending list is determined by its members |
| PerfIndex.Kept | scripts/perf_publish.py:292-293 | the comprehension keeps exactly the entries of other runs, in order |
| PerfIndex.IndexIsLastWrites | scripts/perf_publish.py:292-309 | after any history the index holds exactly the last publish of every (sha, runner), one each, strictly descending |
| PerfIndex.LessIsLexicographic | scripts/perf_publish.py:306-307 | strings are ordered by the first character in which they differ |
| PerfIndex.NewestFirst | scripts/perf_publish.py:304-307 | the times taken never increase along the index |
| PerfIndex.HistoriesAgree | scripts/perf_publish.py:292-309 | histories that agree on the last publishes leave the same index |
| PerfIndex.PublishesCommute | scripts/perf_publish.py:304-307 | publishes of different runs commute |
| PerfIndex.Repository.Publish | scripts/perf_publish.py:292-309 | loading, filtering, appending and sorting leave the index of the longer history, from a missing file on |
| Base64.ValueInvertsTable | demos/bzip2/smoke_main.c:80-87 | `b64_value` inverts the alphabet of RFC 4648 and knows no other character |
| Base64.ShiftsAreArithmetic | demos/bzip2/smoke_main.c:104-106 | the truncated shifts and ors are the sums used in the specification |
| Base64.RoundTrip | demos/bzip2/smoke_main.c:88-118 | decoding inverts the encoding of section 4 of RFC 4648 for every byte string |
| Base64.ReencodeIff | demos/bzip2/smoke_main.c:88-118 | re-encoding gives the same sextets exactly for canonical ones |
| Base64.InsertedJunkIsHarmless | demos/bzip2/smoke_main.c:98-101 | characters outside the alphabet other than = and NUL change nothing wherever they are inserted |
| Base64.NoisyRoundTrip | demos/bzip2/smoke_main.c:88-118 | any text that is an encoding once its junk is removed decodes to the bytes encoded |
| Base64.SextetsAreSextets | demos/bzip2/smoke_main.c:93-102 | the loop collects only values below 64, at most one a character |
| Base64.DecodeLength | demos/bzip2/smoke_main.c:102-117 | the output is three quarters of the alphabet characters before the first =, rounded down, and all bytes |
| Base64.ZeroIff | demos/bzip2/smoke_main.c:75-79 | 0 is returned exactly for fewer than two characters to decode |
| Base64.DocumentedSizeIff | demos/bzip2/smoke_main.c:75-79 | exactly when the documented destination size is enough |
| Base64.WholeGroupsAreSafe | demos/bzip2/smoke_main.c:75-79 | the documented size is enough for every text whose length is a multiple of four |
| Base64.Base64Decode | demos/bzip2/smoke_main.c:88-118 | writes exactly the decoded bytes and touches nothing behind them |

## Left out

- The rest of the compiler: parsing, SSA construction, register allocation, the other passes, encoders, object files and linking.
- `schedule_fp_place_moves`: the floating-point copy scheduler repeats the integer one without exchanges and conversions.
- The tape of steps `divmod_const` rewrites functions with, the 32-bit cleaning around it, and `step_count`; an immediate operand is modelled as the constant it is.
- C integer wrap-around in the demos (Fibonacci values, step and tick counters, grid indices): integers are unbounded there.
- The parallel `int` arrays of the coroutine pool are arrays of records, one per task, ring and worker; the deque buffer keeps its flat layout.
- MazeSolver.TreeSolverTerminatesIff: the converse is not claimed; a maze in which a cycle comes before the goal can be solved too, depending on the order of its cells.
- MazeShape.CleanMazeIsSolved: a sufficient condition for a solvable maze; a maze can be solvable although a call that started on a wall opened cells.
- MazeCarver.CarveMaze: for odd width and height, which is what the program's argument handling produces.
- Mazes: `maze_rand` is an arbitrary sequence of draws; argument parsing and drawing are not modelled. A loop that spins for ever is a method that returns `finished == false` where the spinning starts.
- The host lock: the value of the mark (`exclusive` or `shared`) is not kept, as the code never reads it; `flock` and process creation are atomic steps; the branch without `fcntl`, two threads of one process in `held`, and the waiting time it yields are not modelled.
- Threads: the mutex and thread calls are atomic steps, memory is sequentially consistent, and thread creation does not fail.
- Reducer.LocallyMinimal: windows wider than four lines are covered at the widths and places the code tries, not at others.
- The reducer's `splitlines`, the command it runs, its timeout, files and reporting; the oracle is an arbitrary set of accepted line lists.
- The server's socket set-up, `select`'s descriptor limit, the request's content, and the descriptors still open when `select` fails, which the program leaves to process exit.
- Base64.Base64Decode: the four-entry scratch buffer is a sequence; a source without a terminator is read to its end.
- ParseOp.ParseOp: a word is the set of its one bits, and `\w` and `\d` are the ASCII classes.
- The row tables, `classify` and `split_ops` of the A64 generator.
- The reader thread, timeout and process handling of `serial_until`; latin-1 decoding is the identity on characters.
- Fields of an index entry that are neither filtered nor sorted on are one opaque value; a file that is not JSON ends the program and is not modelled.
- Drivers, GUI, EFI, curl and kernel demos, coverage, budgets and report rendering.
