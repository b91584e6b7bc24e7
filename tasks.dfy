/** Task records (`TaskBase` and its zero-, one- and two-argument forms),
    argument slots, and how dependencies are read off the arguments. */
module TaskRecords {
  import opened Outcomes
  import opened AnyBox

  /** Identity of a user-supplied procedure (a lambda or a member function). */
  type FnId = nat

  /** An argument slot: a captured value, or a `FutureResult<T>` placeholder
      naming another task and the type its result is expected to have. */
  datatype Arg =
    | Immediate(value: Box)
    | Deferred(taskId: int, tag: TypeTag)

  /** A free procedure, or a member function whose receiving object is the
      first resolved argument. */
  datatype Callable = Free(fn: FnId) | Member(fn: FnId)

  /** One invocation of user code, after the arguments are resolved. */
  datatype Call = Call(fn: FnId, receiver: Receiver, params: seq<Box>)
  datatype Receiver = NoReceiver | Object(obj: Box)

  /** What user code can do when invoked: return a value, return nothing
      (a `void` procedure), or raise. What it computes is not modelled. */
  datatype Outcome = Value(result: Box) | NoValue | Raised

  /** A registered task. `args` has at most two slots; `dependencies`,
      `result` and `completed` are the fields of `TaskBase`. */
  datatype TaskRecord = TaskRecord(
    callable: Callable,
    args: seq<Arg>,
    dependencies: seq<int>,
    result: Box,
    completed: bool)

  /** `getFutureResult<T>(id)`: a placeholder; nothing about `id` is checked. */
  function FutureOf(id: int, t: TypeTag): (a: Arg)
    ensures a.Deferred? && a.taskId == id && a.tag == t
    ensures CollectDependencies([a]) == [id]
  {
    Deferred(id, t)
  }

  /** `collect_dependency`: append the task id of a placeholder; a plain
      value adds nothing. */
  function CollectDependency(deps: seq<int>, arg: Arg): (r: seq<int>)
    ensures arg.Immediate? ==> r == deps
    ensures arg.Deferred? ==> |r| == |deps| + 1 && r[..|deps|] == deps && r[|deps|] == arg.taskId
  {
    match arg
    case Immediate(_) => deps
    case Deferred(id, _) => deps + [id]
  }

  /** The dependencies a task's constructor collects, one slot at a time. */
  function CollectDependencies(args: seq<Arg>): (r: seq<int>)
    ensures |r| <= |args|
  {
    if args == [] then [] else CollectDependency(CollectDependencies(args[..|args| - 1]), args[|args| - 1])
  }

  /** Collecting over two argument lists one after the other. */
  lemma {:induction false} CollectAppend(a: seq<Arg>, b: seq<Arg>)
    ensures CollectDependencies(a + b) == CollectDependencies(a) + CollectDependencies(b)
    decreases |b|
  {
    if b == [] {
      assert a + b == a;
    } else {
      var b' := b[..|b| - 1];
      assert (a + b)[..|a + b| - 1] == a + b';
      assert (a + b)[|a + b| - 1] == b[|b| - 1];
      CollectAppend(a, b');
    }
  }

  /** The ids collected are exactly those of the placeholders, in order:
      an id is collected exactly when some slot is a placeholder for it. */
  lemma {:induction false} CollectMembership(args: seq<Arg>, id: int)
    ensures id in CollectDependencies(args) <==>
      exists k :: 0 <= k < |args| && args[k].Deferred? && args[k].taskId == id
    decreases |args|
  {
    if args != [] {
      var init := args[..|args| - 1];
      CollectMembership(init, id);
      assert forall k :: 0 <= k < |init| ==> init[k] == args[k];
    }
  }

  /** Plain values contribute no dependency at all. */
  lemma {:induction false} CollectImmediates(args: seq<Arg>)
    requires forall k :: 0 <= k < |args| ==> args[k].Immediate?
    ensures CollectDependencies(args) == []
    decreases |args|
  {
    if args != [] {
      CollectImmediates(args[..|args| - 1]);
    }
  }

  /** The argument shapes the three task classes take: a member function
      needs exactly the object and one parameter. */
  predicate WellShaped(callable: Callable, args: seq<Arg>) {
    |args| <= 2 && (callable.Member? ==> |args| == 2)
  }

  /** A record as the constructors build it: a valid shape, and the
      dependencies collected from its arguments. */
  predicate WellFormed(t: TaskRecord) {
    WellShaped(t.callable, t.args) && t.dependencies == CollectDependencies(t.args)
  }

  /** The record a constructor builds: dependencies collected from the
      arguments, the initial int zero as result, not completed. */
  function NewRecord(callable: Callable, args: seq<Arg>): (t: TaskRecord)
    requires WellShaped(callable, args)
    ensures t.callable == callable && t.args == args && !t.completed && WellFormed(t)
    ensures t.result == InitialResult && t.result.Get(IntTag) == Ok(0)
    ensures forall id :: id in t.dependencies <==>
      exists k :: 0 <= k < |args| && args[k].Deferred? && args[k].taskId == id
  {
    forall id ensures id in CollectDependencies(args) <==>
      exists k :: 0 <= k < |args| && args[k].Deferred? && args[k].taskId == id
    {
      CollectMembership(args, id);
    }
    TaskRecord(callable, args, CollectDependencies(args), InitialResult, false)
  }

  /** Dispatch: a member function receives the first resolved argument as
      its object and the rest as parameters; a free procedure gets them all. */
  function MakeCall(c: Callable, resolved: seq<Box>): (call: Call)
    requires c.Member? ==> |resolved| >= 1
    ensures call.fn == c.fn
    ensures c.Free? ==> call.receiver == NoReceiver && call.params == resolved
    ensures c.Member? ==> call.receiver == Object(resolved[0]) && [call.receiver.obj] + call.params == resolved
  {
    match c
    case Free(fn) => Call(fn, NoReceiver, resolved)
    case Member(fn) => Call(fn, Object(resolved[0]), resolved[1..])
  }

  /** The record after one run of its procedure: a value is stored, `void`
      leaves the previous result, and either way the task is completed. */
  function Completed(t: TaskRecord, o: Outcome): (t': TaskRecord)
    requires !o.Raised?
    ensures t'.completed
    ensures t'.callable == t.callable && t'.args == t.args && t'.dependencies == t.dependencies
    ensures o.Value? ==> t'.result == o.result
    ensures o.NoValue? ==> t'.result == t.result
  {
    match o
    case Value(b) => t.(result := b, completed := true)
    case NoValue => t.(completed := true)
  }
}
