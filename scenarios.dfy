/** Runs taken from the repository's test suite (`simple_add`,
    `ExceptionHandling`, `CircularDependency`, `VoidTask`) and a repeated
    retrieval, stated against the scheduler's contracts. */
module Scenarios {
  import opened Outcomes
  import opened AnyBox
  import opened TaskRecords
  import opened Forcing
  import TopoSort
  import Kahn
  import opened Scheduler

  /** Procedures 0 and 1 return the ints 1 and 2; procedure 2 adds two ints. */
  function SimpleAddCode(c: Call): Outcome {
    if c.fn == 0 then Value(Box(IntTag, 1))
    else if c.fn == 1 then Value(Box(IntTag, 2))
    else if |c.params| == 2 then Value(Box(IntTag, c.params[0].payload + c.params[1].payload))
    else Raised
  }

  /** Every procedure is a free function, procedure 2 and beyond take two
      arguments, and every placeholder asks for an int. */
  ghost predicate IntProgram(s: seq<TaskRecord>) {
    forall i :: 0 <= i < |s| ==>
      s[i].callable.Free? && (s[i].callable.fn >= 2 ==> |s[i].args| == 2) &&
      forall k :: 0 <= k < |s[i].args| && s[i].args[k].Deferred? ==> s[i].args[k].tag == IntTag
  }

  /** Under code that only ever returns ints, every stored result is an int. */
  lemma IntResults(s: seq<TaskRecord>, apply: Call -> Outcome)
    requires Coherent(s, apply)
    requires forall c :: apply(c).Value? ==> apply(c).result.tag == IntTag
    ensures forall i :: 0 <= i < |s| ==> s[i].result.tag == IntTag
  {
    forall i | 0 <= i < |s| ensures s[i].result.tag == IntTag {
      if s[i].completed {
        assert Denotes(s, i, apply);
      }
    }
  }

  /** No run of such a program can fail. */
  lemma SimpleAddCannotFail(s: seq<TaskRecord>, region: set<int>, e: Error)
    requires Coherent(s, SimpleAddCode) && IntProgram(s)
    ensures !Explains(s, SimpleAddCode, region, e)
  {
    IntResults(s, SimpleAddCode);
    if e.TaskFailed? && 0 <= e.task < |s| && WellShaped(s[e.task].callable, s[e.task].args) &&
       ArgsReady(s, s[e.task].args) {
      var x := e.task;
      assert |Resolved(s, s[x].args)| == |s[x].args|;
    }
  }

  /** The three records `simple_add` registers. */
  function SimpleAddProgram(): (s: seq<TaskRecord>)
    ensures |s| == 3
  {
    [NewRecord(Free(0), []), NewRecord(Free(1), []),
     NewRecord(Free(2), [FutureOf(0, IntTag), FutureOf(1, IntTag)])]
  }

  /** Its dependency lists: the adding task waits on the first two. */
  lemma SimpleAddDependencies()
    ensures DependencyLists(SimpleAddProgram()) == [[], [], [0, 1]]
  {
    var a := [FutureOf(0, IntTag), FutureOf(1, IntTag)];
    assert a[..1] == [FutureOf(0, IntTag)] && a[..1][..0] == [];
    assert SimpleAddProgram()[2].dependencies == [0, 1];
  }

  /** Its dependency graph is ranked and every placeholder asks for an int. */
  lemma SimpleAddProgramShape()
    ensures TopoSort.Ranked(DependencyLists(SimpleAddProgram()))
    ensures IntProgram(SimpleAddProgram())
  {
    SimpleAddDependencies();
  }

  /** The registration part of `simple_add`. */
  method BuildSimpleAdd() returns (sched: TaskScheduler)
    ensures fresh(sched) && sched.Valid() && sched.apply == SimpleAddCode
    ensures sched.tasks == SimpleAddProgram()
  {
    sched := new TaskScheduler(SimpleAddCode);
    var t1 := sched.AddZero(0);
    assert t1 == 0 && sched.tasks == [NewRecord(Free(0), [])];
    var t2 := sched.AddZero(1);
    assert t2 == 1 && sched.tasks == [NewRecord(Free(0), []), NewRecord(Free(1), [])];
    var t3 := sched.AddTwo(Free(2), FutureOf(t1, IntTag), FutureOf(t2, IntTag));
  }

  /** Once every task of `simple_add` is completed, the third holds 3. */
  lemma ResultsOfSimpleAdd(s: seq<TaskRecord>)
    requires Coherent(s, SimpleAddCode) && Evolves(SimpleAddProgram(), s)
    requires forall i :: 0 <= i < |s| ==> s[i].completed
    ensures s[2].result == Box(IntTag, 3)
  {
    var p := SimpleAddProgram();
    assert s[0].callable == Free(0) && s[1].callable == Free(1) && s[2].callable == Free(2);
    assert s[2].args == [Deferred(0, IntTag), Deferred(1, IntTag)];
    assert Denotes(s, 0, SimpleAddCode) && Denotes(s, 1, SimpleAddCode) && Denotes(s, 2, SimpleAddCode);
    assert Resolved(s, s[2].args) == [Box(IntTag, 1), Box(IntTag, 2)];
  }

  /** The run part of `simple_add`: `executeAll()` succeeds and the adding
      task's int result is 3. */
  method RunSimpleAdd(sched: TaskScheduler) returns (r: Result<Payload>)
    requires sched.Valid() && sched.apply == SimpleAddCode && sched.tasks == SimpleAddProgram()
    modifies sched
    ensures r == Ok(3)
  {
    SimpleAddProgramShape();
    ghost var s0, inv0 := sched.tasks, sched.invocations;
    var run, order := sched.ExecuteAll();
    assert IntProgram(sched.tasks) by {
      assert forall i :: 0 <= i < 3 ==> sched.tasks[i].callable == s0[i].callable && sched.tasks[i].args == s0[i].args;
    }
    assert run.Ok? by {
      if run.Err? {
        ghost var p :| StoppedAt(s0, inv0, sched.tasks, sched.invocations, order, p) &&
                       Explains(sched.tasks, sched.apply, {order[p]}, run.error);
        SimpleAddCannotFail(sched.tasks, {order[p]}, run.error);
      }
    }
    ResultsOfSimpleAdd(sched.tasks);
    assert ForceableIn(sched.tasks, 2, 0);
    r := sched.GetResult(2, IntTag);
  }

  /** `simple_add`: two constant tasks feed an adding task; after
      `executeAll()` the adding task's int result is 3. */
  method SimpleAdd() returns (r: Result<Payload>)
    ensures r == Ok(3)
  {
    var sched := BuildSimpleAdd();
    r := RunSimpleAdd(sched);
  }

  /** `ExceptionHandling`: the only task raises; `executeAll()` fails with
      that task's failure and the task is left pending. */
  method ExceptionHandling() returns (r: Result<()>, ghost pending: bool)
    ensures r == Err(TaskFailed(0)) && pending
  {
    var sched := new TaskScheduler((c: Call) => Raised);
    var t1 := sched.AddZero(0);
    assert TopoSort.Ranked(DependencyLists(sched.tasks));
    ghost var order;
    r, order := sched.ExecuteAll();
    pending := !sched.tasks[0].completed;
  }

  /** Two independent tasks whose procedures both raise: the run order is
      `[0, 1]`, so `executeAll()` fails with task 0's exception and task 1
      never runs. */
  method FirstFailureStops() returns (r: Result<()>, ghost ran: seq<nat>)
    ensures r == Err(TaskFailed(0)) && ran == [1, 0]
  {
    var sched := BuildTwoRaising();
    var deps := DependencyLists(sched.tasks);
    assert deps == [[], []];
    assert TopoSort.Ranked(deps);
    ghost var s0, inv0 := sched.tasks, sched.invocations;
    ghost var order;
    r, order := sched.ExecuteAll();
    IndependentOrder(deps, order);
    ran := sched.invocations;
    FirstFailure(s0, inv0, sched.tasks, ran, sched.apply, order, r);
  }

  /** The registration part: two tasks without arguments, both raising. */
  method BuildTwoRaising() returns (sched: TaskScheduler)
    ensures fresh(sched) && sched.Valid() && forall c :: sched.apply(c).Raised?
    ensures sched.tasks == [NewRecord(Free(0), []), NewRecord(Free(1), [])]
    ensures sched.invocations == [0, 0]
  {
    sched := new TaskScheduler((c: Call) => Raised);
    var t1 := sched.AddZero(0);
    var t2 := sched.AddZero(1);
  }

  /** What `executeAll()` promises pins down that run: task 0 cannot have
      completed, so the loop stopped at it, and task 1 was left alone. */
  lemma FirstFailure(s0: seq<TaskRecord>, inv0: seq<nat>, s: seq<TaskRecord>, inv: seq<nat>,
                     apply: Call -> Outcome, order: seq<int>, r: Result<()>)
    requires s0 == [NewRecord(Free(0), []), NewRecord(Free(1), [])] && inv0 == [0, 0]
    requires Evolves(s0, s) && Coherent(s, apply) && forall c :: apply(c).Raised?
    requires order == [0, 1] && r != Err(CyclicDependency)
    requires r.Ok? ==> forall k :: 0 <= k < |s| ==> s[k].completed
    requires r.Err? ==> exists p :: StoppedAt(s0, inv0, s, inv, order, p) && Explains(s, apply, {order[p]}, r.error)
    requires r.Err? ==> FailureRan(inv0, inv, r.error)
    ensures r == Err(TaskFailed(0)) && inv == [1, 0]
  {
    assert s[0].completed ==> Denotes(s, 0, apply);
    assert !s[order[0]].completed;
    var p :| StoppedAt(s0, inv0, s, inv, order, p) && Explains(s, apply, {order[p]}, r.error);
    assert s[0].args == [];
    assert r.error == TaskFailed(0);
    assert inv[1] == inv0[order[1]];
    assert inv == [inv[0], inv[1]];
  }

  /** With two tasks and no dependencies, Kahn's order is `[0, 1]`. */
  lemma IndependentOrder(deps: seq<seq<int>>, order: seq<int>)
    requires deps == [[], []]
    requires order == Kahn.FifoOrder(deps) && |order| == 2
    ensures order == [0, 1]
  {
    var degrees := Kahn.DegreesOf(deps);
    assert degrees[0] == 0 && degrees[1] == 0;
    assert Kahn.Roots(degrees, 1) == Kahn.Roots(degrees, 0) + [0] == [0];
    var roots := Kahn.Roots(degrees, 2);
    assert roots == [0, 1];
    Kahn.RootsFirst(deps);
    assert order[..2] == order;
  }

  /** `CircularDependency`: two tasks each waiting for the other; the graph
      is refused before anything runs. */
  method CircularDependency() returns (r: Result<()>, ghost ran: seq<nat>)
    ensures r == Err(CyclicDependency) && ran == [0, 0]
  {
    var sched := BuildCycle();
    assert TopoSort.IsCycle([[1], [0]], [0, 1]);
    ghost var order;
    r, order := sched.ExecuteAll();
    ran := sched.invocations;
  }

  /** The registration part: each of the two tasks takes the other's result. */
  method BuildCycle() returns (sched: TaskScheduler)
    ensures fresh(sched) && sched.Valid()
    ensures DependencyLists(sched.tasks) == [[1], [0]] && sched.invocations == [0, 0]
  {
    sched := new TaskScheduler((c: Call) => Value(Box(IntTag, 0)));
    var t1 := sched.AddOne(0, FutureOf(1, IntTag));
    var t2 := sched.AddOne(0, FutureOf(0, IntTag));
    var deps := DependencyLists(sched.tasks);
    assert deps == [[1], [0]];
  }

  /** `VoidTask`: a procedure with no value runs once and completes, and the
      task keeps the int 0 it was created with. */
  method VoidTask() returns (r: Result<Payload>, ghost ran: seq<nat>)
    ensures r == Ok(0) && ran == [1]
  {
    var sched := BuildVoid();
    assert DependencyLists(sched.tasks) == [[]];
    assert TopoSort.Ranked(DependencyLists(sched.tasks));
    var run, order := sched.ExecuteAll();
    assert run.Ok? && sched.tasks[0].completed;
    assert Denotes(sched.tasks, 0, sched.apply);
    assert ForceableIn(sched.tasks, 0, 0);
    r := sched.GetResult(0, IntTag);
    ran := sched.invocations;
  }

  /** The registration part: one task whose procedure has no value. */
  method BuildVoid() returns (sched: TaskScheduler)
    ensures fresh(sched) && sched.Valid() && forall c :: sched.apply(c) == NoValue
    ensures sched.tasks == [NewRecord(Free(0), [])] && sched.invocations == [0]
  {
    sched := new TaskScheduler((c: Call) => NoValue);
    var t1 := sched.AddZero(0);
  }

  /** Retrieving a result twice: once the first call has succeeded, the
      second returns the same value and runs nothing. */
  method RetrieveTwice(sched: TaskScheduler, id: int, tag: TypeTag)
    returns (r1: Result<Payload>, r2: Result<Payload>, ghost mid: seq<TaskRecord>, ghost midRuns: seq<nat>)
    requires sched.Valid() && Forceable(sched.tasks, id)
    modifies sched
    ensures old(sched.tasks)[id].completed ==> sched.tasks == old(sched.tasks)
    ensures r1.Ok? ==> r2 == r1
    ensures r1.Ok? ==> sched.tasks == mid && sched.invocations == midRuns
  {
    r1 := sched.GetResult(id, tag);
    mid, midRuns := sched.tasks, sched.invocations;
    NeededEvolves(old(sched.tasks), sched.tasks, id);
    r2 := sched.GetResult(id, tag);
  }
}
