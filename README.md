# TaskScheduler, modelled in Dafny

`TTaskScheduler` (lib/scheduler.h) registers tasks of zero, one or two
arguments. Each argument is either a plain value or a `FutureResult<T>`
placeholder that stands for another task's result. Results are retrieved in
two ways:

- `getResult<T>(id)` runs a task on demand, after first forcing the tasks
  its placeholders name. It then reads the result out of the type-erased
  container `MyAny`.
- `executeAll()` puts the dependency graph in order with Kahn's algorithm,
  refuses a graph that has a cycle, and then runs every task that is not
  yet completed, in that order.

The model has these modules:

- `Outcomes`: the failures the scheduler can report.
  - `TypeMismatch`: `get<T>` was asked for a type other than the stored one.
  - `TaskFailed(id)`: user code raised.
  - `CyclicDependency`: the `runtime_error` that `executeAll` throws.
- `AnyBox`: `MyAny` as a box holding a type tag and a payload.
- `TaskRecords`: the task classes as one record type, with these fields:
  - the procedure;
  - the argument slots;
  - `dependencies`, `result` and `completed`, the fields of `TaskBase`.

  It also holds dependency collection and the dispatch of a call, which
  covers both the member-function path and the free-function path.
- `TopoSort`: graph notions over the dependency lists: topological order,
  cycles, and the "ranked" graphs that registration through earlier tasks
  produces. It also holds the lemmas that connect them.
- `Kahn`: the ordering loops of `executeAll` as imperative code. `adj` and
  `in_degree` are arrays, and the queue is a sequence.
- `Forcing`: everything about a lazy retrieval.
  - When the recursion of `getResult` terminates (`Forceable`, `Depth`).
  - Which pending tasks a retrieval may run (`Needed`).
  - What a completed task's result means (`Denotes`).
  - The scheduler's invariant (`Coherent`).
- `Scheduler`: the class `TaskScheduler`, with these members:
  - the task list as a `seq` field that each method reassigns;
  - a ghost count of how often each task's procedure has run;
  - the user code as a constant function `apply` from a call to an outcome:
    a value, no value (`void`) or an exception.
- `Scenarios`: test cases from tests/test_all.cpp, stated against the
  contracts.

User code is a parameter of the scheduler, so what it computes is never
fixed. All that is assumed is that it is deterministic.

The model differs from the C++ in a few places. Each case below is either
undefined behaviour or a limit of C++:

- **Wrong type.** `get<T>` with the wrong type dereferences a failed
  `dynamic_cast`. The model returns `Err(TypeMismatch)` instead.
- **Cyclic lazy retrieval.** A lazy retrieval through a cycle recurses
  forever in the C++. Here `GetResult` requires `Forceable`, which says the
  recursion bottoms out from every pending task the retrieval could reach,
  also behind an argument that fails first.
  - Every registration made through placeholders of earlier tasks meets
    this requirement (`RankedForceable`).
  - So does every retrieval made after `executeAll` succeeded.
- **Dependency id out of range.** `executeAll` indexes `adj` with such an
  id unchecked. The model requires every listed dependency to be in range
  (`TopoSort.InRange`).

## Model

| member | source | states |
|---|---|---|
| AnyBox.Box.Get | lib/scheduler.h:22-26 | succeeds exactly when asked for the stored type, and then yields exactly the stored value; any other type is a `TypeMismatch` failure |
| AnyBox.Make | lib/scheduler.h:20-21 | boxing a value at type `t` stores tag `t`, and `get` at `t` gives the value back (also stated as `AnyBox.GetMake`; the other types fail by `AnyBox.GetMakeMismatch`) |
| AnyBox.GetMake | lib/scheduler.h:17-26 | a value boxed at type `t` is recovered unchanged by `get` at `t` |
| AnyBox.GetMakeMismatch | lib/scheduler.h:22-26 | `get` at a type other than the boxed one never yields a value |
| AnyBox.GetDeterminesBox | lib/scheduler.h:17-27 | two boxes that answer every `get` alike are the same box |
| TaskRecords.FutureOf | lib/scheduler.h:175-178 | `getFutureResult` makes a placeholder naming exactly the given id and type, unchecked, and it contributes exactly that id as a dependency |
| TaskRecords.CollectDependency | lib/scheduler.h:71-76 | a placeholder appends its task id at the end and keeps what was there; a plain value adds nothing |
| TaskRecords.CollectDependencies | lib/scheduler.h:111 | the collection a task constructor does, slot by slot; its own contract bounds the list by the number of slots, and the content is proved by `TaskRecords.CollectMembership` (which ids), `TaskRecords.CollectAppend` (their order) and `TaskRecords.CollectImmediates` (plain values only) |
| TaskRecords.CollectAppend | lib/scheduler.h:126-130 | collecting over two slots one after the other is the concatenation of what each slot collects, so the order is argument order |
| TaskRecords.CollectMembership | lib/scheduler.h:109-112 | an id is a dependency exactly when some argument slot is a placeholder for it (both directions) |
| TaskRecords.CollectImmediates | lib/scheduler.h:72-75 | a task built only from plain values has no dependencies |
| TaskRecords.NewRecord | lib/scheduler.h:57-61 | a new task is pending, holds the boxed int 0 (so `get<int>` gives 0), keeps its procedure and arguments, and depends on exactly the placeholder ids |
| TaskRecords.MakeCall | lib/scheduler.h:131-138 | a member function receives the first resolved argument as its object and the second as its parameter; a free procedure receives all resolved arguments in order |
| TaskRecords.Completed | lib/scheduler.h:93-99 | after one run the task is completed and keeps its procedure, arguments and dependencies; a returned value replaces the result, and a `void` procedure leaves the previous result |
| Forcing.DependencyLists | lib/scheduler.h:184-185 | the dependency lists `executeAll` reads: one per task, in id order, each the task's `dependencies` |
| Forcing.ResolvedArg | lib/scheduler.h:78-84 | `resolve_argument` of a ready argument: a plain value as it is; a placeholder gives exactly the named task's stored result, which carries the placeholder's type |
| Forcing.Resolved | lib/scheduler.h:114 | exactly one resolved value per argument slot |
| Forcing.DepthLeast | lib/scheduler.h:167-174 | `Depth`, the recursion depth a retrieval needs, is the least one that suffices |
| Forcing.ReachPending | lib/scheduler.h:170-171 | only pending, registered tasks can be run by a retrieval |
| Forcing.NeededPendingAll | lib/scheduler.h:170-171 | every task a retrieval may run is registered and pending |
| Forcing.DepthDep | lib/scheduler.h:79-80 | the placeholders of a pending retrievable task name retrievable tasks, and a pending one among them sits at a smaller depth |
| Forcing.NeededDep | lib/scheduler.h:78-84 | resolving a placeholder of task `i` may only run tasks that retrieving `i` may run, and never `i` itself |
| Forcing.ReachDepth | lib/scheduler.h:167-174 | every task reachable from a retrievable task is retrievable, at no greater depth |
| Forcing.NeededReady | lib/scheduler.h:205-208 | a pending task whose dependencies are all completed needs only itself to run |
| Forcing.ForceableEvolves | lib/scheduler.h:170-172 | completing tasks keeps a retrievable task retrievable, at no greater depth |
| Forcing.NeededEvolves | lib/scheduler.h:170-172 | completing tasks only shrinks what a later retrieval may run |
| Forcing.ReachMono | lib/scheduler.h:167-174 | allowing more recursion depth never makes a retrieval need fewer tasks |
| Forcing.ReachEvolves | lib/scheduler.h:170-172 | in a later state, a retrieval reaches no task it did not reach before |
| Forcing.NeededDone | lib/scheduler.h:167-174 | once a retrieved task is completed in a closed state, so is every task the retrieval needed |
| Forcing.RankedForceable | lib/scheduler.h:147-166 | when every dependency names an earlier task (registration through earlier tasks' placeholders), every task is retrievable within its id plus one levels of recursion |
| Forcing.ArgReadyEvolves | lib/scheduler.h:77-84 | a ready argument stays ready and resolves to the same value while other tasks complete |
| Forcing.ResolvedSingle | lib/scheduler.h:114 | the one ready argument of a one-argument task resolves to its resolved list |
| Forcing.ResolvedPair | lib/scheduler.h:133-137 | the two arguments, resolved one after the other, give the resolved list in argument order |
| Forcing.CoherentClosed | lib/scheduler.h:93-99 | under the invariant, the dependencies of a completed task are completed |
| Forcing.DenotesEvolves | lib/scheduler.h:170-173 | a completed task keeps its result and its meaning while other tasks complete |
| Forcing.CoherentAppend | lib/scheduler.h:147-166 | registering a new record keeps the invariant |
| Forcing.CoherentComplete | lib/scheduler.h:113-116 | storing the outcome of the procedure on ready arguments keeps the invariant and changes only that task |
| TopoSort.TopologicalAcyclic | lib/scheduler.h:202-204 | a complete order in which dependencies come first exists only for a graph without cycles |
| TopoSort.PrecedeNoCycle | lib/scheduler.h:202-204 | no cycle can be laid out with every dependency before its dependent |
| TopoSort.StuckCycle | lib/scheduler.h:194-204 | if a task is left out and every left-out task waits on another left-out one, the graph has a cycle |
| TopoSort.RankedAcyclic | lib/scheduler.h:202-204 | a graph whose dependencies all name smaller ids has no cycle |
| TopoSort.DistinctIdsBound | lib/scheduler.h:202 | an order without repetition over ids below `n` has at most `n` entries |
| TopoSort.DistinctIdsFull | lib/scheduler.h:205-209 | such an order with exactly `n` entries lists every id |
| TopoSort.SuccessorsCount | lib/scheduler.h:184-189 | `adj[u]` lists dependent `v` once per occurrence of `u` in `v`'s dependency list |
| TopoSort.PrecedeExtend | lib/scheduler.h:197 | appending a task whose dependencies are already listed keeps dependencies first |
| TopoSort.StepBack | lib/scheduler.h:194-201 | in such an order a dependency sits strictly before its dependent |
| Kahn.KahnOrder | lib/scheduler.h:180-202 | the order is exactly `Kahn.FifoOrder` of the dependency lists: the queue seeded with the in-degree-0 ids in ascending order, popped first in first out, each popped task's dependents relaxed in `adj` order; it lists each id at most once and only ids in range, with dependencies first; it holds every task exactly when the graph has no cycle; a ranked graph always gives a complete order |
| Kahn.BuildGraph | lib/scheduler.h:181-189 | `adj[u]` lists u's dependents once per edge, and `in_degree[v]` is the length of v's dependency list |
| Kahn.AddRow | lib/scheduler.h:185-188 | one row of the edge loop appends task `i` to `adj[dep]` for each of its dependencies, in their order, and raises `in_degree[i]` by `|deps[i]|` |
| Kahn.SeedQueue | lib/scheduler.h:190-193 | the queue starts as `Kahn.Roots` of the in-degrees: exactly the ids of in-degree 0, in ascending order |
| Kahn.RootsAscending | lib/scheduler.h:190-193 | the ids that scanning `0..i-1` for in-degree 0 collects are strictly ascending, below `i`, and exactly those of in-degree 0 (both directions) |
| Kahn.Drain | lib/scheduler.h:194-201 | from any reachable state of the queue loop, the drained order is exactly the first-in-first-out run `Kahn.Fifo` of that state; it is repetition-free and in range, puts dependencies first, and every task it leaves out waits on a task also left out |
| Kahn.Pop | lib/scheduler.h:195-201 | one iteration pops the front `u`, emits it, and leaves the in-degrees and queue that relaxing `adj[u]` in order gives (`Kahn.RelaxFrom`) |
| Kahn.FifoPrefix | lib/scheduler.h:194-201 | the first-in-first-out run only appends, and the first `m` queued tasks (for `m` within the fuel) come out next, in queue order, right after the order so far |
| Kahn.RootsFirst | lib/scheduler.h:190-197 | the order begins with the in-degree-0 ids in ascending order |
| Kahn.SeedReady | lib/scheduler.h:184-193 | the seeded queue is a valid start state of the queue loop: repetition-free, in range, with no dependencies emitted yet and exactly the ids of in-degree 0 queued |
| Kahn.DrainedStuck | lib/scheduler.h:194-204 | once the queue is empty, every task left out still counts an unemitted dependency, which is left out too |
| Kahn.DrainedOrder | lib/scheduler.h:202-204 | a drained order holds every task exactly when the graph has no cycle, and always for a ranked graph |
| Kahn.Relax | lib/scheduler.h:198-200 | relaxing `adj[u]` in order gives the in-degrees and queue of `Kahn.RelaxFrom`; after `u` is emitted, each in-degree counts the dependencies not yet emitted, and a task is queued exactly when that count reaches 0 |
| Kahn.RelaxEdge | lib/scheduler.h:199 | one decrement of `in_degree[v]`, queuing `v` at the back when it reaches 0, as one step of `Kahn.RelaxFrom` |
| Scheduler.TaskScheduler.constructor | lib/scheduler.h:143-145 | a scheduler starts with no tasks |
| Scheduler.TaskScheduler.Register | lib/scheduler.h:150-151 | appends exactly the new record and returns the previous task count |
| Scheduler.TaskScheduler.AddZero | lib/scheduler.h:147-152 | appends one pending record with no dependencies and returns its index, the previous count |
| Scheduler.TaskScheduler.AddOne | lib/scheduler.h:153-159 | appends one pending record whose dependencies are those its argument contributes, and returns the previous count |
| Scheduler.TaskScheduler.AddTwo | lib/scheduler.h:160-166 | the same for two arguments, collected first then second; also covers member functions |
| Scheduler.TaskScheduler.GetResult | lib/scheduler.h:167-174 | a completed task is returned without any change (memoization); otherwise only the tasks the retrieval needs are touched, each runs at most once, and every task that becomes completed ran exactly once more; once the task is completed, all needed tasks are, and the answer is the stored result read at the requested type, which fails with `TypeMismatch` when the task holds another type; otherwise the task stays pending and the failure is either a placeholder of the wrong type held by a needed pending task, or the exception of a needed pending task whose procedure ran in this call and raises on its resolved arguments |
| Scheduler.TaskScheduler.Execute | lib/scheduler.h:93-140 | `execute()` of the three task classes (lines 93-100, 113-116 and 131-140): the task is completed exactly on success, and its procedure ran exactly once more; on failure it is still pending, and its own procedure ran exactly when the failure is its own exception; any other exception reported comes from a procedure that ran during the call |
| Scheduler.TaskScheduler.ResolveArguments | lib/scheduler.h:131-138 | resolves the slots first to last and succeeds exactly when all arguments end up ready, the list then being exactly their resolved values; when the first slot fails (it is left not ready), the call fails having changed only what that slot's retrieval needs, so the second slot is never resolved, and the error is that placeholder's type mismatch or explained within that retrieval; when the second slot fails after the first resolved, it is left not ready and the error is explained by it in the same way; it never runs the task itself, and a reported exception comes from a procedure that ran in this call |
| Scheduler.TaskScheduler.ResolveSecond | lib/scheduler.h:133-137 | after the first argument resolved, resolving the second keeps the first ready and gives both in order; it fails exactly when the second slot ends up not ready, and the error is then that placeholder's type mismatch or explained within what its retrieval needs |
| Scheduler.TaskScheduler.ResolveArgument | lib/scheduler.h:77-84 | a plain value is returned unchanged and nothing happens; a placeholder is resolved to its task's stored result; it succeeds exactly when the argument ends up ready, changes only what retrieving the named task needs, and a failure is the placeholder's own type mismatch or explained within that retrieval, an exception by a procedure that ran in this call |
| Scheduler.TaskScheduler.ResolvePlaceholder | lib/scheduler.h:79-80 | forces the named task as `getResult` does, changing only what that retrieval needs; it succeeds exactly when the placeholder ends up ready, the value then carries the placeholder's type, and the owner is still pending; a failure is either this placeholder's type mismatch with the completed task or explained within that retrieval, an exception by a procedure that ran in this call |
| Scheduler.TaskScheduler.FutureGet | lib/scheduler.h:213-216 | `FutureResult::get` is `getResult` on the placeholder's task at the placeholder's type, with the same guarantees on what changes and on why it fails |
| Scheduler.TaskScheduler.ExecuteAll | lib/scheduler.h:179-210 | fails with `CyclicDependency` exactly when the graph has a cycle, and then before changing anything; a ranked graph never does; otherwise runs in the order `Kahn.FifoOrder` of the dependency lists (a topological one), only pending tasks, each at most once, every task completed here having run exactly once more; success leaves every task completed; a failure stops at a pending task of the order whose own run failed, with every earlier task completed and every later one untouched, and an exception comes from a procedure that ran in this call |
| Scheduler.TaskScheduler.RunInOrder | lib/scheduler.h:205-209 | the execution loop over a topological order: all tasks completed on success, otherwise stopped at the first failing entry; each task completed by the loop ran exactly once more, and a reported exception comes from a procedure the loop ran |
| Scheduler.TaskScheduler.RunIfPending | lib/scheduler.h:206-208 | a completed task is skipped without any change; a pending one is executed and touches only itself, running exactly once more if it completes |
| Scenarios.IntResults | lib/scheduler.h:59 | when user code only ever returns ints, every stored result is an int |
| Scenarios.SimpleAddCannotFail | tests/test_all.cpp:6-14 | the `simple_add` program can fail neither with a type mismatch nor with an exception |
| Scenarios.SimpleAddDependencies | tests/test_all.cpp:8-11 | the dependency lists of `simple_add` are `[], [], [0, 1]` |
| Scenarios.SimpleAddProgramShape | tests/test_all.cpp:8-11 | the `simple_add` graph is ranked and every placeholder in it asks for an int |
| Scenarios.ResultsOfSimpleAdd | tests/test_all.cpp:10-13 | once all three tasks are completed, the adding task holds the int 3 |
| Scenarios.SimpleAdd | tests/test_all.cpp:6-14 | `executeAll`, then `getResult<int>` of the third task, gives 3 |
| Scenarios.ExceptionHandling | tests/test_all.cpp:102-106 | a raising task makes `executeAll` fail with that task's failure, and the task stays pending |
| Scenarios.FirstFailureStops | lib/scheduler.h:190-209 | with two independent raising tasks, `executeAll` runs task 0 first (ascending seed), fails with `TaskFailed(0)`, and never runs task 1 |
| Scenarios.FirstFailure | lib/scheduler.h:205-209 | given the order `[0, 1]` and raising user code, the only outcome the contract of `executeAll` allows is `TaskFailed(0)` with task 0 run once and task 1 not at all |
| Scenarios.IndependentOrder | lib/scheduler.h:190-197 | two tasks without dependencies are ordered `[0, 1]` |
| Scenarios.CircularDependency | tests/test_all.cpp:108-113 | two tasks waiting on each other are refused with `CyclicDependency`, and neither procedure runs |
| Scenarios.VoidTask | tests/test_all.cpp:140-146 | a `void` task's procedure runs exactly once (the test's `executed` flag), the task completes and still holds the int 0 |
| Scenarios.RetrieveTwice | lib/scheduler.h:167-174 | after a successful `getResult`, a second one returns the same value and leaves the tasks and run counts as the first left them (idempotence) |

## Left out

- Template machinery (`is_future_result`, `std::decay_t`, forwarding) is left out. Which slot is a placeholder is a constructor of `Arg` instead.
- Reference capture through forwarding is left out. `add` deduces a reference type for an lvalue argument (such as `obj` in the `MemberFunction` test), so the task stores a reference and sees later changes to that variable; the model fixes the value at registration (`Immediate(value)`).
- Concrete value types are left out. A `TypeTag` names the type and an `int` payload stands for the value, so strings, floats and doubles (the string and floating-point test cases) are not modelled.
- What user code computes is left out. It is a deterministic function parameter `apply`, and side effects it has are not modelled; the flag set in the `VoidTask` test is stood for by the ghost count of invocations.
- Memory and ownership (`unique_ptr`, `dynamic_cast` on a null or wrong pointer, the raw `scheduler` back-pointer of `FutureResult`) are left out. A scheduler's placeholders always refer to that scheduler.
- Exception types and messages are left out. An exception is the outcome `Raised`, which the model turns into `TaskFailed(id)`; the cycle error is `CyclicDependency` without its text.
- `int` width is not modelled: overflow of the returned `tasks.size() - 1` or of ids is out of scope.
- The evaluation order of the two arguments of a free two-argument call is unspecified in C++. The model resolves them first to last.
- A `void` procedure with one or two arguments does not compile in C++ (`result = func(...)`). The model accepts it and leaves `result` as it was, as for zero arguments.
- Scheduler.TaskScheduler.GetResult: its precondition `Forceable` excludes every retrieval whose pending closure contains a cycle or an out-of-range id anywhere, even one the C++ would never reach because an earlier argument already failed (for example a member task whose object task raises while its parameter task depends on itself). Where such a retrieval is reached the C++ has undefined behaviour or unbounded recursion.
- Scheduler.TaskScheduler.ExecuteAll: requires every dependency id to be in range. The C++ indexes `adj` with it unchecked.
- Kahn.Drain: `std::queue` is a sequence whose front is popped by slicing. Its internals and `std::vector` growth are not modelled.
- Scheduler.TaskScheduler.GetResult: a failure is stated as explained by some task among those the retrieval needed (for an exception, one whose procedure ran in the call), not as the specific first one in the C++ evaluation order. The argument resolution ties the error to the failing slot. Which of the needed tasks ran and completed before the failure is left open as well: the contract says only that they are among the needed ones and that each ran at most once.
- The invocation count is ghost state. It never decreases and witnesses "at most once per call"; it is not part of the C++.
