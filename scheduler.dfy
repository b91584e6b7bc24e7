/** `TTaskScheduler`: registration, lazy retrieval and whole-graph execution. */
module Scheduler {
  import opened Outcomes
  import opened AnyBox
  import opened TaskRecords
  import opened Forcing
  import TopoSort
  import Kahn

  // ------------------------------------------------- what one call may change

  /** From records `s0` with invocation counts `inv0` to `s1`, `inv1`: a
      later state in which only tasks in `region` changed, each task's
      procedure ran at most once more (and no count went down), and every
      task that became completed had its procedure run. */
  ghost predicate Step(s0: seq<TaskRecord>, inv0: seq<nat>, s1: seq<TaskRecord>, inv1: seq<nat>,
                       region: set<int>)
  {
    |inv0| == |s0| && |inv1| == |s1| && Evolves(s0, s1) &&
    (forall k :: 0 <= k < |s1| && k !in region ==> s1[k] == s0[k] && inv1[k] == inv0[k]) &&
    (forall k :: 0 <= k < |s1| ==> inv0[k] <= inv1[k] <= inv0[k] + 1) &&
    (forall k :: 0 <= k < |s1| && !s0[k].completed && s1[k].completed ==> inv1[k] == inv0[k] + 1)
  }

  /** A failure reported as an exception names a task whose procedure ran
      once more between counts `inv0` and `inv1`. */
  ghost predicate FailureRan(inv0: seq<nat>, inv1: seq<nat>, e: Error) {
    e.TaskFailed? ==> 0 <= e.task < |inv0| && e.task < |inv1| && inv1[e.task] == inv0[e.task] + 1
  }

  /** A failure that ran after an earlier step ran within the whole step. */
  lemma FailureRanAfter(s0: seq<TaskRecord>, inv0: seq<nat>, s1: seq<TaskRecord>, inv1: seq<nat>,
                        s2: seq<TaskRecord>, inv2: seq<nat>, r1: set<int>, r: set<int>, e: Error)
    requires Step(s0, inv0, s1, inv1, r1) && Step(s0, inv0, s2, inv2, r) && FailureRan(inv1, inv2, e)
    ensures FailureRan(inv0, inv2, e)
  {
  }

  /** A placeholder naming a completed task whose result has another type. */
  ghost predicate Mismatch(s: seq<TaskRecord>, a: Arg) {
    a.Deferred? && 0 <= a.taskId < |s| && s[a.taskId].completed && s[a.taskId].result.tag != a.tag
  }

  /** Why a retrieval confined to `region` failed, in the state it left: a
      pending task there whose procedure raised on its resolved arguments, or
      a pending task there holding a placeholder of the wrong type. */
  ghost predicate Explains(s: seq<TaskRecord>, apply: Call -> Outcome, region: set<int>, e: Error) {
    match e
    case TaskFailed(x) =>
      x in region && 0 <= x < |s| && !s[x].completed &&
      WellShaped(s[x].callable, s[x].args) && ArgsReady(s, s[x].args) &&
      apply(MakeCall(s[x].callable, Resolved(s, s[x].args))).Raised?
    case TypeMismatch =>
      exists x, k :: x in region && 0 <= x < |s| && !s[x].completed &&
        0 <= k < |s[x].args| && Mismatch(s, s[x].args[k])
    case CyclicDependency => false
  }

  lemma ExplainsWiden(s: seq<TaskRecord>, apply: Call -> Outcome, region: set<int>, wider: set<int>, e: Error)
    requires Explains(s, apply, region, e) && region <= wider
    ensures Explains(s, apply, wider, e)
  {
    if e.TypeMismatch? {
      var x, k :| x in region && 0 <= x < |s| && !s[x].completed &&
        0 <= k < |s[x].args| && Mismatch(s, s[x].args[k]);
      assert x in wider;
    }
  }

  /** Every task that changed, or whose procedure ran, is now completed. */
  ghost predicate Settled(s0: seq<TaskRecord>, inv0: seq<nat>, s1: seq<TaskRecord>, inv1: seq<nat>)
    requires |inv0| == |s0| && |inv1| == |s1| && |s1| == |s0|
  {
    forall k :: 0 <= k < |s1| && (s1[k] != s0[k] || inv1[k] != inv0[k]) ==> s1[k].completed
  }

  lemma StepNone(s0: seq<TaskRecord>, inv0: seq<nat>)
    requires |inv0| == |s0|
    ensures Step(s0, inv0, s0, inv0, {})
  {
  }

  /** A step confined to no task changes nothing. */
  lemma StepEmpty(s0: seq<TaskRecord>, inv0: seq<nat>, s1: seq<TaskRecord>, inv1: seq<nat>)
    requires Step(s0, inv0, s1, inv1, {})
    ensures s1 == s0 && inv1 == inv0
  {
  }

  lemma StepWiden(s0: seq<TaskRecord>, inv0: seq<nat>, s1: seq<TaskRecord>, inv1: seq<nat>,
                  region: set<int>, wider: set<int>)
    requires Step(s0, inv0, s1, inv1, region) && region <= wider
    ensures Step(s0, inv0, s1, inv1, wider)
  {
  }

  /** A step whose region ends up completed is settled. */
  lemma StepSettled(s0: seq<TaskRecord>, inv0: seq<nat>, s1: seq<TaskRecord>, inv1: seq<nat>,
                    region: set<int>)
    requires Step(s0, inv0, s1, inv1, region)
    requires forall x :: x in region ==> 0 <= x < |s1| && s1[x].completed
    ensures Settled(s0, inv0, s1, inv1)
  {
  }

  /** A settled step followed by one that touches only tasks still pending
      stays within the first step's region and runs each task at most once. */
  lemma StepCompose(s0: seq<TaskRecord>, inv0: seq<nat>, s1: seq<TaskRecord>, inv1: seq<nat>,
                    s2: seq<TaskRecord>, inv2: seq<nat>, r1: set<int>, r2: set<int>)
    requires Step(s0, inv0, s1, inv1, r1) && Settled(s0, inv0, s1, inv1)
    requires Step(s1, inv1, s2, inv2, r2) && r2 <= r1
    requires forall x :: x in r2 ==> 0 <= x < |s1| && !s1[x].completed
    ensures Step(s0, inv0, s2, inv2, r1)
  {
  }

  /** Running pending task `i` once more after a step that left it alone. */
  lemma StepRun(s0: seq<TaskRecord>, inv0: seq<nat>, s1: seq<TaskRecord>, inv1: seq<nat>,
                region: set<int>, i: int, t: TaskRecord)
    requires Step(s0, inv0, s1, inv1, region - {i}) && i in region && 0 <= i < |s1|
    requires !s1[i].completed
    requires t.callable == s1[i].callable && t.args == s1[i].args && t.dependencies == s1[i].dependencies
    ensures Step(s0, inv0, s1[i := t], inv1[i := inv1[i] + 1], region)
  {
  }

  /** Two settled steps in a row make a settled step. */
  lemma SettledCompose(s0: seq<TaskRecord>, inv0: seq<nat>, s1: seq<TaskRecord>, inv1: seq<nat>,
                       s2: seq<TaskRecord>, inv2: seq<nat>)
    requires |inv0| == |s0| && |inv1| == |s1| && |inv2| == |s2| && Evolves(s0, s1) && Evolves(s1, s2)
    requires Settled(s0, inv0, s1, inv1) && Settled(s1, inv1, s2, inv2)
    ensures Settled(s0, inv0, s2, inv2)
  {
  }

  /** In a run order whose first `p` entries are completed, the dependencies
      of entry `p` are completed. */
  lemma OrderReady(s0: seq<TaskRecord>, s: seq<TaskRecord>, order: seq<int>, p: int)
    requires Evolves(s0, s) && TopoSort.InRange(DependencyLists(s0))
    requires TopoSort.Ids(order, |s0|) && TopoSort.DepsPrecede(DependencyLists(s0), order)
    requires 0 <= p < |order| && forall q :: 0 <= q < p ==> s[order[q]].completed
    ensures 0 <= order[p] < |s|
    ensures forall k :: 0 <= k < |s[order[p]].dependencies| ==>
      0 <= s[order[p]].dependencies[k] < |s| && s[s[order[p]].dependencies[k]].completed
  {
    var deps := DependencyLists(s0);
    assert order[p] in order;
    forall k | 0 <= k < |s[order[p]].dependencies|
      ensures 0 <= s[order[p]].dependencies[k] < |s| && s[s[order[p]].dependencies[k]].completed
    {
      var d := s[order[p]].dependencies[k];
      assert d == deps[order[p]][k];
      assert d in order[..p];
      var q :| 0 <= q < p && order[q] == d;
    }
  }

  /** The execution loop has reached entry `p` of `order`: the entries
      before it are completed and those from `p` on are as they were. */
  ghost predicate RanUpTo(s0: seq<TaskRecord>, inv0: seq<nat>, s: seq<TaskRecord>, inv: seq<nat>,
                          order: seq<int>, p: int)
  {
    0 <= p <= |order| && |s| == |s0| && |inv| == |s| && |inv0| == |s0| && TopoSort.Ids(order, |s|) &&
    (forall q :: 0 <= q < p ==> s[order[q]].completed) &&
    (forall q :: p <= q < |order| ==> s[order[q]] == s0[order[q]] && inv[order[q]] == inv0[order[q]])
  }

  /** The execution loop stopped at entry `p` of `order`: that task is still
      pending, the entries before it are completed and those after it are
      as they were. */
  ghost predicate StoppedAt(s0: seq<TaskRecord>, inv0: seq<nat>, s: seq<TaskRecord>, inv: seq<nat>,
                            order: seq<int>, p: int)
  {
    0 <= p < |order| && |s| == |s0| && |inv| == |s| && |inv0| == |s0| && TopoSort.Ids(order, |s|) &&
    !s[order[p]].completed &&
    (forall q :: 0 <= q < p ==> s[order[q]].completed) &&
    (forall q :: p < q < |order| ==> s[order[q]] == s0[order[q]] && inv[order[q]] == inv0[order[q]])
  }

  /** Completing entry `p`, and touching nothing else, advances the loop. */
  lemma RanOne(s0: seq<TaskRecord>, inv0: seq<nat>, s1: seq<TaskRecord>, inv1: seq<nat>,
               s2: seq<TaskRecord>, inv2: seq<nat>, order: seq<int>, p: int, region: set<int>)
    requires RanUpTo(s0, inv0, s1, inv1, order, p) && p < |order| && TopoSort.Distinct(order)
    requires Step(s1, inv1, s2, inv2, region) && region <= {order[p]} && s2[order[p]].completed
    ensures RanUpTo(s0, inv0, s2, inv2, order, p + 1)
  {
    forall q | 0 <= q <= p ensures s2[order[q]].completed {
      if q < p {
        assert s1[order[q]].completed;
      }
    }
  }

  /** Leaving entry `p` pending, and touching nothing else, stops the loop there. */
  lemma StopOne(s0: seq<TaskRecord>, inv0: seq<nat>, s1: seq<TaskRecord>, inv1: seq<nat>,
                s2: seq<TaskRecord>, inv2: seq<nat>, order: seq<int>, p: int, region: set<int>)
    requires RanUpTo(s0, inv0, s1, inv1, order, p) && p < |order| && TopoSort.Distinct(order)
    requires Step(s1, inv1, s2, inv2, region) && region <= {order[p]} && !s2[order[p]].completed
    ensures StoppedAt(s0, inv0, s2, inv2, order, p)
  {
    forall q | 0 <= q < p ensures s2[order[q]].completed {
      assert s1[order[q]].completed;
    }
  }

  /** The ids of the tasks not yet completed. */
  ghost function PendingIds(s: seq<TaskRecord>): (r: set<int>)
    ensures forall k :: k in r <==> 0 <= k < |s| && !s[k].completed
  {
    set k | 0 <= k < |s| && !s[k].completed
  }

  class TaskScheduler {
    /** The registered tasks, indexed by id. */
    var tasks: seq<TaskRecord>
    /** How often each task's procedure has been invoked so far. */
    ghost var invocations: seq<nat>
    /** The user code behind every procedure id. */
    const apply: Call -> Outcome

    ghost predicate Valid()
      reads this
    {
      |invocations| == |tasks| && Coherent(tasks, apply)
    }

    constructor (apply: Call -> Outcome)
      ensures Valid() && tasks == [] && invocations == [] && this.apply == apply
    {
      this.apply := apply;
      tasks := [];
      invocations := [];
    }

    /** `tasks.emplace_back(...)` followed by `return tasks.size() - 1`. */
    method Register(callable: Callable, args: seq<Arg>) returns (id: int)
      requires Valid() && WellShaped(callable, args)
      modifies this
      ensures Valid()
      ensures id == |old(tasks)| && tasks == old(tasks) + [NewRecord(callable, args)]
      ensures invocations == old(invocations) + [0]
    {
      var t := NewRecord(callable, args);
      CoherentAppend(tasks, t, apply);
      tasks := tasks + [t];
      invocations := invocations + [0];
      id := |tasks| - 1;
    }

    /** `add(func)`: a task with no arguments and no dependencies. */
    method AddZero(fn: FnId) returns (id: int)
      requires Valid()
      modifies this
      ensures Valid()
      ensures id == |old(tasks)| && tasks == old(tasks) + [NewRecord(Free(fn), [])]
      ensures tasks[id].dependencies == []
      ensures invocations == old(invocations) + [0]
    {
      id := Register(Free(fn), []);
    }

    /** `add(func, arg1)`. */
    method AddOne(fn: FnId, a1: Arg) returns (id: int)
      requires Valid()
      modifies this
      ensures Valid()
      ensures id == |old(tasks)| && tasks == old(tasks) + [NewRecord(Free(fn), [a1])]
      ensures tasks[id].dependencies == CollectDependency([], a1)
      ensures invocations == old(invocations) + [0]
    {
      id := Register(Free(fn), [a1]);
      assert [a1][..0] == [];
    }

    /** `add(func, arg1, arg2)`, where `func` may be a member function whose
        object is `arg1`. */
    method AddTwo(c: Callable, a1: Arg, a2: Arg) returns (id: int)
      requires Valid()
      modifies this
      ensures Valid()
      ensures id == |old(tasks)| && tasks == old(tasks) + [NewRecord(c, [a1, a2])]
      ensures tasks[id].dependencies == CollectDependency(CollectDependency([], a1), a2)
      ensures invocations == old(invocations) + [0]
    {
      id := Register(c, [a1, a2]);
      assert [a1, a2][..1] == [a1] && [a1][..0] == [];
      assert CollectDependencies([a1]) == CollectDependency([], a1);
    }

    /** `getResult<T>(id)`: run task `id` first if it is not completed, then
        read its stored result at type `tag`. */
    method GetResult(id: int, tag: TypeTag) returns (r: Result<Payload>)
      requires Valid() && Forceable(tasks, id)
      modifies this
      ensures Valid() && Step(old(tasks), old(invocations), tasks, invocations, Needed(old(tasks), id))
      ensures old(tasks)[id].completed ==> tasks == old(tasks) && invocations == old(invocations)
      ensures tasks[id].completed ==> r == tasks[id].result.Get(tag)
      ensures tasks[id].completed ==>
        forall k :: k in Needed(old(tasks), id) ==> 0 <= k < |tasks| && tasks[k].completed
      ensures !tasks[id].completed ==> r.Err? && Explains(tasks, apply, Needed(old(tasks), id), r.error)
      ensures r.Err? ==> FailureRan(old(invocations), invocations, r.error)
      decreases Depth(tasks, id), 5
    {
      if !tasks[id].completed {
        var e := Execute(id);
        if e.Err? {
          return Err(e.error);
        }
        CoherentClosed(tasks, apply);
        NeededDone(old(tasks), tasks, id);
      } else {
        assert Needed(tasks, id) == {};
        StepNone(tasks, invocations);
      }
      r := tasks[id].result.Get(tag);
    }

    /** `execute()` of the task classes: resolve the arguments, call the
        procedure once, store a returned value and mark the task done. */
    method Execute(id: int) returns (r: Result<()>)
      requires Valid() && 0 <= id < |tasks| && !tasks[id].completed && Forceable(tasks, id)
      modifies this
      ensures Valid() && Step(old(tasks), old(invocations), tasks, invocations, Needed(old(tasks), id))
      ensures r.Ok? <==> tasks[id].completed
      ensures r.Ok? ==> invocations[id] == old(invocations)[id] + 1
      ensures r.Err? ==> Explains(tasks, apply, Needed(old(tasks), id), r.error)
      ensures r.Err? ==> (r.error == TaskFailed(id) <==> invocations[id] == old(invocations)[id] + 1)
      ensures r.Err? ==> FailureRan(old(invocations), invocations, r.error)
      decreases Depth(tasks, id), 4
    {
      ghost var s0, inv0 := tasks, invocations;
      assert id in Needed(s0, id);
      var resolved :- ResolveArguments(id);
      ghost var s1, inv1 := tasks, invocations;
      var t := tasks[id];
      assert WellFormed(t);
      var o := apply(MakeCall(t.callable, resolved));
      invocations := invocations[id := invocations[id] + 1];
      if o.Raised? {
        StepRun(s0, inv0, s1, inv1, Needed(s0, id), id, t);
        assert s1[id := t] == s1;
        return Err(TaskFailed(id));
      }
      CoherentComplete(tasks, id, o, apply);
      StepRun(s0, inv0, s1, inv1, Needed(s0, id), id, Completed(t, o));
      tasks := tasks[id := Completed(tasks[id], o)];
      r := Ok(());
    }

    /** The argument resolution at the start of each `execute()`: the first
        argument, then the second, stopping at the first failure. */
    method ResolveArguments(id: int) returns (r: Result<seq<Box>>)
      requires Valid() && 0 <= id < |tasks| && !tasks[id].completed && Forceable(tasks, id)
      modifies this
      ensures Valid() && Step(old(tasks), old(invocations), tasks, invocations, Needed(old(tasks), id) - {id})
      ensures r.Ok? ==> ArgsReady(tasks, tasks[id].args) && r.value == Resolved(tasks, tasks[id].args)
      ensures r.Err? ==> Explains(tasks, apply, Needed(old(tasks), id), r.error) && r.error != TaskFailed(id)
      ensures r.Err? ==> FailureRan(old(invocations), invocations, r.error)
      ensures r.Ok? <==> ArgsReady(tasks, tasks[id].args)
      ensures |tasks[id].args| >= 1 && !ArgReady(tasks, tasks[id].args[0]) ==>
        r.Err? && Step(old(tasks), old(invocations), tasks, invocations, ArgNeeded(old(tasks), tasks[id].args[0])) &&
        (Mismatch(tasks, tasks[id].args[0]) ||
         Explains(tasks, apply, ArgNeeded(old(tasks), tasks[id].args[0]), r.error))
      ensures |tasks[id].args| == 2 && ArgReady(tasks, tasks[id].args[0]) && r.Err? ==>
        !ArgReady(tasks, tasks[id].args[1]) &&
        (Mismatch(tasks, tasks[id].args[1]) ||
         Explains(tasks, apply, ArgNeeded(old(tasks), tasks[id].args[1]), r.error))
      decreases Depth(tasks, id), 3
    {
      var args := tasks[id].args;
      assert WellFormed(tasks[id]);
      if |args| == 0 {
        StepNone(tasks, invocations);
        StepWiden(tasks, invocations, tasks, invocations, {}, Needed(tasks, id) - {id});
        return Ok([]);
      }
      ghost var s0, inv0 := tasks, invocations;
      var a :- ResolveArgument(id, args[0]);
      if |args| == 1 {
        ResolvedSingle(tasks, args, a);
        return Ok([a]);
      }
      NeededEvolves(s0, tasks, id);
      r := ResolveSecond(id, a, s0, inv0);
    }

    /** The second argument of a two-argument task, once the first resolved. */
    method ResolveSecond(id: int, a: Box, ghost s0: seq<TaskRecord>, ghost inv0: seq<nat>)
      returns (r: Result<seq<Box>>)
      requires Valid() && 0 <= id < |tasks| && !tasks[id].completed && Forceable(tasks, id)
      requires |tasks[id].args| == 2 && ArgReady(tasks, tasks[id].args[0])
      requires a == ResolvedArg(tasks, tasks[id].args[0])
      requires Forceable(s0, id) && Step(s0, inv0, tasks, invocations, Needed(s0, id) - {id})
      requires Settled(s0, inv0, tasks, invocations) && Needed(tasks, id) <= Needed(s0, id)
      modifies this
      ensures Valid() && Step(s0, inv0, tasks, invocations, Needed(s0, id) - {id})
      ensures r.Ok? ==> ArgsReady(tasks, tasks[id].args) && r.value == Resolved(tasks, tasks[id].args)
      ensures r.Err? ==> Explains(tasks, apply, Needed(s0, id), r.error) && r.error != TaskFailed(id)
      ensures r.Err? ==> FailureRan(inv0, invocations, r.error)
      ensures ArgReady(tasks, tasks[id].args[0])
      ensures r.Ok? <==> ArgReady(tasks, tasks[id].args[1])
      ensures r.Err? ==>
        Mismatch(tasks, tasks[id].args[1]) || Explains(tasks, apply, ArgNeeded(s0, tasks[id].args[1]), r.error)
      decreases Depth(tasks, id), 2
    {
      var args := tasks[id].args;
      ghost var s1, inv1 := tasks, invocations;
      NeededPendingAll(s1, id);
      var rb := ResolveArgument(id, args[1]);
      StepCompose(s0, inv0, s1, inv1, tasks, invocations, Needed(s0, id) - {id}, Needed(s1, id) - {id});
      ArgReadyEvolves(s1, tasks, args[0]);
      if rb.Err? {
        ExplainsWiden(tasks, apply, Needed(s1, id), Needed(s0, id), rb.error);
        FailureRanAfter(s0, inv0, s1, inv1, tasks, invocations, Needed(s0, id) - {id}, Needed(s0, id) - {id}, rb.error);
        if args[1].Deferred? {
          CollectMembership(args, args[1].taskId);
          NeededDep(s0, id, args[1].taskId);
        }
        ArgNeededEvolves(s0, s1, args[1]);
        if !Mismatch(tasks, args[1]) {
          ExplainsWiden(tasks, apply, ArgNeeded(s1, args[1]), ArgNeeded(s0, args[1]), rb.error);
        }
        return Err(rb.error);
      }
      var b := rb.value;
      ResolvedPair(tasks, args, a, b);
      r := Ok([a, b]);
    }

    /** `resolve_argument`: a plain value as it is; a placeholder by asking
        it for its task's result. */
    method ResolveArgument(owner: int, arg: Arg) returns (r: Result<Box>)
      requires Valid() && 0 <= owner < |tasks| && !tasks[owner].completed
      requires Forceable(tasks, owner) && arg in tasks[owner].args
      modifies this
      ensures Valid() && Step(old(tasks), old(invocations), tasks, invocations, Needed(old(tasks), owner) - {owner})
      ensures !tasks[owner].completed && Forceable(tasks, owner)
      ensures arg.Immediate? ==> r == Ok(arg.value) && tasks == old(tasks) && invocations == old(invocations)
      ensures r.Ok? ==> ArgReady(tasks, arg) && r.value == ResolvedArg(tasks, arg)
      ensures r.Ok? ==> Settled(old(tasks), old(invocations), tasks, invocations)
      ensures r.Err? ==> Explains(tasks, apply, Needed(old(tasks), owner), r.error) && r.error != TaskFailed(owner)
      ensures r.Ok? <==> ArgReady(tasks, arg)
      ensures Step(old(tasks), old(invocations), tasks, invocations, ArgNeeded(old(tasks), arg))
      ensures r.Err? ==> Mismatch(tasks, arg) || Explains(tasks, apply, ArgNeeded(old(tasks), arg), r.error)
      ensures r.Err? ==> FailureRan(old(invocations), invocations, r.error)
      decreases Depth(tasks, owner), 1
    {
      match arg
      case Immediate(b) =>
        StepNone(tasks, invocations);
        StepWiden(tasks, invocations, tasks, invocations, {}, Needed(tasks, owner) - {owner});
        r := Ok(b);
      case Deferred(_, _) =>
        r := ResolvePlaceholder(owner, arg);
    }

    /** A placeholder argument: the result of the task it names, which must
        carry the type the placeholder was created with. */
    method ResolvePlaceholder(owner: int, arg: Arg) returns (r: Result<Box>)
      requires Valid() && 0 <= owner < |tasks| && !tasks[owner].completed
      requires Forceable(tasks, owner) && arg in tasks[owner].args && arg.Deferred?
      modifies this
      ensures Valid() && Step(old(tasks), old(invocations), tasks, invocations, Needed(old(tasks), owner) - {owner})
      ensures !tasks[owner].completed && Forceable(tasks, owner)
      ensures r.Ok? ==> ArgReady(tasks, arg) && r.value == ResolvedArg(tasks, arg)
      ensures r.Ok? ==> Settled(old(tasks), old(invocations), tasks, invocations)
      ensures r.Err? ==> Explains(tasks, apply, Needed(old(tasks), owner), r.error) && r.error != TaskFailed(owner)
      ensures r.Ok? <==> ArgReady(tasks, arg)
      ensures Step(old(tasks), old(invocations), tasks, invocations, ArgNeeded(old(tasks), arg))
      ensures r.Err? ==> Mismatch(tasks, arg) || Explains(tasks, apply, ArgNeeded(old(tasks), arg), r.error)
      ensures r.Err? ==> FailureRan(old(invocations), invocations, r.error)
      decreases Depth(tasks, owner), 0
    {
      var j, t := arg.taskId, arg.tag;
      CollectMembership(tasks[owner].args, j);
      NeededDep(tasks, owner, j);
      var p := FutureGet(arg);
      StepWiden(old(tasks), old(invocations), tasks, invocations,
                Needed(old(tasks), j), Needed(old(tasks), owner) - {owner});
      ForceableEvolves(old(tasks), tasks, owner);
      if p.Err? {
        if tasks[j].completed {
          var k :| 0 <= k < |tasks[owner].args| && tasks[owner].args[k] == arg;
          assert Mismatch(tasks, tasks[owner].args[k]);
        } else {
          ExplainsWiden(tasks, apply, Needed(old(tasks), j), Needed(old(tasks), owner), p.error);
        }
        r := Err(p.error);
      } else {
        StepSettled(old(tasks), old(invocations), tasks, invocations, Needed(old(tasks), j));
        r := Ok(Box(t, p.value));
      }
    }

    /** `FutureResult<T>::get()`: the result of the task the placeholder
        names, at the type it was created with. */
    method FutureGet(f: Arg) returns (r: Result<Payload>)
      requires f.Deferred? && Valid() && Forceable(tasks, f.taskId)
      modifies this
      ensures Valid() && Step(old(tasks), old(invocations), tasks, invocations, Needed(old(tasks), f.taskId))
      ensures tasks[f.taskId].completed ==> r == tasks[f.taskId].result.Get(f.tag)
      ensures tasks[f.taskId].completed ==>
        forall k :: k in Needed(old(tasks), f.taskId) ==> 0 <= k < |tasks| && tasks[k].completed
      ensures !tasks[f.taskId].completed ==>
        r.Err? && Explains(tasks, apply, Needed(old(tasks), f.taskId), r.error)
      ensures r.Err? ==> FailureRan(old(invocations), invocations, r.error)
      decreases Depth(tasks, f.taskId), 6
    {
      r := GetResult(f.taskId, f.tag);
    }

    /** `executeAll()`: order the tasks by Kahn's algorithm, refuse a cyclic
        graph before running anything, then run every task not yet completed
        in that order, stopping at the first failure. */
    method ExecuteAll() returns (r: Result<()>, ghost order: seq<int>)
      requires Valid() && TopoSort.InRange(DependencyLists(tasks))
      modifies this
      ensures Valid() && Step(old(tasks), old(invocations), tasks, invocations, PendingIds(old(tasks)))
      ensures order == Kahn.FifoOrder(DependencyLists(old(tasks)))
      ensures r == Err(CyclicDependency) <==> TopoSort.HasCycle(DependencyLists(old(tasks)))
      ensures TopoSort.Ranked(DependencyLists(old(tasks))) ==> r != Err(CyclicDependency)
      ensures r == Err(CyclicDependency) ==> tasks == old(tasks) && invocations == old(invocations)
      ensures r != Err(CyclicDependency) ==> TopoSort.TopologicalOrder(DependencyLists(old(tasks)), order)
      ensures r.Ok? ==> forall k :: 0 <= k < |tasks| ==> tasks[k].completed
      ensures r.Err? && r != Err(CyclicDependency) ==>
        exists p :: StoppedAt(old(tasks), old(invocations), tasks, invocations, order, p) &&
                    Explains(tasks, apply, {order[p]}, r.error)
      ensures r.Err? ==> FailureRan(old(invocations), invocations, r.error)
    {
      var deps := DependencyLists(tasks);
      var kahn := Kahn.KahnOrder(deps);
      order := kahn;
      if |kahn| != |tasks| {
        StepNone(tasks, invocations);
        StepWiden(tasks, invocations, tasks, invocations, {}, PendingIds(tasks));
        return Err(CyclicDependency), order;
      }
      r := RunInOrder(kahn);
    }

    /** The execution loop of `executeAll()`: each task of the run order
        that is not completed yet is executed, and the first failure ends
        the run. */
    method RunInOrder(order: seq<int>) returns (r: Result<()>)
      requires Valid() && TopoSort.InRange(DependencyLists(tasks))
      requires TopoSort.TopologicalOrder(DependencyLists(tasks), order)
      modifies this
      ensures Valid() && Step(old(tasks), old(invocations), tasks, invocations, PendingIds(old(tasks)))
      ensures r.Ok? ==> forall k :: 0 <= k < |tasks| ==> tasks[k].completed
      ensures r.Err? ==>
        exists p :: StoppedAt(old(tasks), old(invocations), tasks, invocations, order, p) &&
                    Explains(tasks, apply, {order[p]}, r.error)
      ensures r.Err? ==> FailureRan(old(invocations), invocations, r.error)
    {
      ghost var s0, inv0 := tasks, invocations;
      var p := 0;
      StepNone(tasks, invocations);
      while p < |order|
        invariant Valid() && Step(s0, inv0, tasks, invocations, PendingIds(s0))
        invariant Settled(s0, inv0, tasks, invocations)
        invariant RanUpTo(s0, inv0, tasks, invocations, order, p)
      {
        var id := order[p];
        OrderReady(s0, tasks, order, p);
        ghost var s1, inv1 := tasks, invocations;
        ghost var touched: set<int> := if s1[id].completed then {} else {id};
        assert touched <= PendingIds(s0);
        var e := RunIfPending(id);
        StepCompose(s0, inv0, s1, inv1, tasks, invocations, PendingIds(s0), touched);
        if e.Err? {
          StopOne(s0, inv0, s1, inv1, tasks, invocations, order, p, touched);
          FailureRanAfter(s0, inv0, s1, inv1, tasks, invocations, PendingIds(s0), PendingIds(s0), e.error);
          return Err(e.error);
        }
        SettledCompose(s0, inv0, s1, inv1, tasks, invocations);
        RanOne(s0, inv0, s1, inv1, tasks, invocations, order, p, touched);
        p := p + 1;
      }
      TopoSort.DistinctIdsFull(order, |tasks|);
      forall k | 0 <= k < |tasks| ensures tasks[k].completed {
        assert k in order;
        var q :| 0 <= q < |order| && order[q] == k;
      }
      r := Ok(());
    }

    /** One step of the execution loop: `if (!completed()) execute()`. */
    method RunIfPending(id: int) returns (r: Result<()>)
      requires Valid() && 0 <= id < |tasks|
      requires forall k :: 0 <= k < |tasks[id].dependencies| ==>
        0 <= tasks[id].dependencies[k] < |tasks| && tasks[tasks[id].dependencies[k]].completed
      modifies this
      ensures Valid()
      ensures Step(old(tasks), old(invocations), tasks, invocations, if old(tasks)[id].completed then {} else {id})
      ensures old(tasks)[id].completed ==> r.Ok? && tasks == old(tasks) && invocations == old(invocations)
      ensures r.Ok? <==> tasks[id].completed
      ensures r.Ok? ==> Settled(old(tasks), old(invocations), tasks, invocations)
      ensures r.Err? ==> Explains(tasks, apply, {id}, r.error)
      ensures r.Err? ==> FailureRan(old(invocations), invocations, r.error)
    {
      if tasks[id].completed {
        StepNone(tasks, invocations);
        return Ok(());
      }
      NeededReady(tasks, id);
      r := Execute(id);
    }
  }
}
