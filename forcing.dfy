/** What lazy retrieval (`getResult` -> `execute` -> `resolve_argument` ->
    `FutureResult::get` -> `getResult`) may touch, why it terminates, and
    what a completed task holds. All of it is stated over the sequence of
    task records. */
module Forcing {
  import opened AnyBox
  import opened TaskRecords
  import TopoSort

  /** The dependency lists of all tasks, indexed by task id. */
  function DependencyLists(s: seq<TaskRecord>): (d: seq<seq<int>>)
    ensures |d| == |s| && forall k :: 0 <= k < |s| ==> d[k] == s[k].dependencies
  {
    seq(|s|, k requires 0 <= k < |s| => s[k].dependencies)
  }

  /** `s'` is a later state of `s`: same tasks with the same arguments, and
      a completed record never changes again. */
  ghost predicate Evolves(s: seq<TaskRecord>, s': seq<TaskRecord>) {
    |s'| == |s| &&
    forall k :: 0 <= k < |s| ==>
      s'[k].callable == s[k].callable && s'[k].args == s[k].args &&
      s'[k].dependencies == s[k].dependencies &&
      (s[k].completed ==> s'[k] == s[k])
  }

  /** Retrieving task `i` finishes within `n` nested retrievals: it is in
      range and, unless completed, each of its dependencies can be retrieved
      within `n - 1`. */
  ghost predicate ForceableIn(s: seq<TaskRecord>, i: int, n: nat)
    decreases n
  {
    0 <= i < |s| &&
    (s[i].completed ||
     (n > 0 && forall k :: 0 <= k < |s[i].dependencies| ==> ForceableIn(s, s[i].dependencies[k], n - 1)))
  }

  /** Retrieving task `i` terminates: no pending dependency chain from it
      runs into a cycle or out of range. */
  ghost predicate Forceable(s: seq<TaskRecord>, i: int) {
    exists n: nat :: ForceableIn(s, i, n)
  }

  lemma {:induction false} ForceableMono(s: seq<TaskRecord>, i: int, n: nat, m: nat)
    requires ForceableIn(s, i, n) && n <= m
    ensures ForceableIn(s, i, m)
    decreases n
  {
    if !s[i].completed {
      forall k | 0 <= k < |s[i].dependencies| ensures ForceableIn(s, s[i].dependencies[k], m - 1) {
        ForceableMono(s, s[i].dependencies[k], n - 1, m - 1);
      }
    }
  }

  /** The least bound from `d` on that retrieving `i` respects. */
  ghost function LeastFrom(s: seq<TaskRecord>, i: int, d: nat, n: nat): (r: nat)
    requires d <= n && ForceableIn(s, i, n)
    ensures d <= r <= n && ForceableIn(s, i, r)
    decreases n - d
  {
    if ForceableIn(s, i, d) then d else LeastFrom(s, i, d + 1, n)
  }

  lemma {:induction false} LeastFromBelow(s: seq<TaskRecord>, i: int, d: nat, n: nat, m: nat)
    requires d <= n && ForceableIn(s, i, n) && d <= m && ForceableIn(s, i, m)
    ensures LeastFrom(s, i, d, n) <= m
    decreases n - d
  {
    if !ForceableIn(s, i, d) {
      LeastFromBelow(s, i, d + 1, n, m);
    }
  }

  /** The nesting depth of retrieving task `i`: the least bound it respects. */
  ghost function Depth(s: seq<TaskRecord>, i: int): (d: nat)
    requires Forceable(s, i)
    ensures ForceableIn(s, i, d)
  {
    var n: nat :| ForceableIn(s, i, n);
    LeastFrom(s, i, 0, n)
  }

  /** No bound that retrieving `i` respects is below its depth. */
  lemma DepthLeast(s: seq<TaskRecord>, i: int, m: nat)
    requires ForceableIn(s, i, m)
    ensures Depth(s, i) <= m
  {
    forall n: nat | ForceableIn(s, i, n) ensures LeastFrom(s, i, 0, n) <= m {
      LeastFromBelow(s, i, 0, n, m);
    }
  }

  /** The pending tasks reachable from `i` along at most `n` dependency steps
      through pending tasks. */
  ghost function ReachIn(s: seq<TaskRecord>, i: int, n: nat): set<int>
    decreases n
  {
    if !(0 <= i < |s|) || s[i].completed then {}
    else if n == 0 then {i}
    else var m: nat := n - 1; {i} + (set d, x | d in s[i].dependencies && x in ReachIn(s, d, m) :: x)
  }

  /** The pending tasks that retrieving `i` may run: `i` itself, if pending,
      and what its pending dependencies need, transitively. */
  ghost function Needed(s: seq<TaskRecord>, i: int): set<int>
    requires Forceable(s, i)
  {
    ReachIn(s, i, Depth(s, i))
  }

  /** Every completed task's dependencies are completed as well. */
  ghost predicate Closed(s: seq<TaskRecord>) {
    forall i, k :: 0 <= i < |s| && s[i].completed && 0 <= k < |s[i].dependencies| ==>
      0 <= s[i].dependencies[k] < |s| && s[s[i].dependencies[k]].completed
  }

  lemma {:induction false} ReachPending(s: seq<TaskRecord>, i: int, n: nat, x: int)
    requires x in ReachIn(s, i, n)
    ensures 0 <= x < |s| && !s[x].completed
    decreases n
  {
    if x != i {
      var d :| d in s[i].dependencies && x in ReachIn(s, d, n - 1);
      ReachPending(s, d, n - 1, x);
    }
  }

  lemma {:induction false} ReachMono(s: seq<TaskRecord>, i: int, n: nat, m: nat)
    requires n <= m
    ensures ReachIn(s, i, n) <= ReachIn(s, i, m)
    decreases n
  {
    if 0 <= i < |s| && !s[i].completed && n > 0 {
      forall x | x in ReachIn(s, i, n) ensures x in ReachIn(s, i, m) {
        if x != i {
          var d :| d in s[i].dependencies && x in ReachIn(s, d, n - 1);
          ReachMono(s, d, n - 1, m - 1);
          ReachStep(s, i, m, d, x);
        }
      }
    }
  }

  /** One step along a pending task's dependency. */
  lemma ReachStep(s: seq<TaskRecord>, i: int, n: nat, d: int, x: int)
    requires 0 <= i < |s| && !s[i].completed && n > 0
    requires d in s[i].dependencies && x in ReachIn(s, d, n - 1)
    ensures x in ReachIn(s, i, n)
  {
  }

  /** A dependency of a pending retrievable task is retrievable, and at a
      smaller depth. */
  lemma DepthDep(s: seq<TaskRecord>, i: int, k: int)
    requires Forceable(s, i) && !s[i].completed && 0 <= k < |s[i].dependencies|
    ensures Forceable(s, s[i].dependencies[k])
    ensures !s[s[i].dependencies[k]].completed ==> Depth(s, s[i].dependencies[k]) < Depth(s, i)
  {
    var n := Depth(s, i);
    assert ForceableIn(s, s[i].dependencies[k], n - 1);
    DepthLeast(s, s[i].dependencies[k], n - 1);
  }

  /** Everything reachable from a retrievable task is retrievable, at no
      greater depth. */
  lemma {:induction false} ReachDepth(s: seq<TaskRecord>, i: int, n: nat, x: int)
    requires Forceable(s, i) && x in ReachIn(s, i, n)
    ensures Forceable(s, x) && Depth(s, x) <= Depth(s, i)
    decreases n
  {
    if x != i {
      var d :| d in s[i].dependencies && x in ReachIn(s, d, n - 1);
      var k :| 0 <= k < |s[i].dependencies| && s[i].dependencies[k] == d;
      DepthDep(s, i, k);
      ReachDepth(s, d, n - 1, x);
    }
  }

  lemma NeededPending(s: seq<TaskRecord>, i: int, x: int)
    requires Forceable(s, i) && x in Needed(s, i)
    ensures 0 <= x < |s| && !s[x].completed
  {
    ReachPending(s, i, Depth(s, i), x);
  }

  lemma NeededPendingAll(s: seq<TaskRecord>, i: int)
    requires Forceable(s, i)
    ensures forall x :: x in Needed(s, i) ==> 0 <= x < |s| && !s[x].completed
  {
    forall x | x in Needed(s, i) ensures 0 <= x < |s| && !s[x].completed {
      NeededPending(s, i, x);
    }
  }

  /** A dependency of a pending retrievable task is retrievable, at a
      smaller depth, needs no more than the task does, and never needs the
      task itself. */
  lemma NeededDep(s: seq<TaskRecord>, i: int, d: int)
    requires Forceable(s, i) && !s[i].completed && d in s[i].dependencies
    ensures 0 <= d < |s| && Forceable(s, d) && Depth(s, d) < Depth(s, i)
    ensures Needed(s, d) <= Needed(s, i) && i in Needed(s, i) && i !in Needed(s, d)
  {
    var k :| 0 <= k < |s[i].dependencies| && s[i].dependencies[k] == d;
    DepthDep(s, i, k);
    var n := Depth(s, i);
    assert n > 0;
    if s[d].completed {
      DepthLeast(s, d, 0);
    }
    ReachMono(s, d, Depth(s, d), n - 1);
    forall x | x in ReachIn(s, d, n - 1) ensures x in ReachIn(s, i, n) {
      var m: nat := n - 1;
      assert x in ReachIn(s, d, m);
    }
    if i in Needed(s, d) {
      ReachDepth(s, d, Depth(s, d), i);
    }
  }

  /** When every dependency of a pending task is completed, retrieving it
      runs that task alone. */
  lemma NeededReady(s: seq<TaskRecord>, i: int)
    requires 0 <= i < |s| && !s[i].completed
    requires forall k :: 0 <= k < |s[i].dependencies| ==>
      0 <= s[i].dependencies[k] < |s| && s[s[i].dependencies[k]].completed
    ensures Forceable(s, i) && Needed(s, i) == {i}
  {
    assert ForceableIn(s, i, 1) by {
      forall k | 0 <= k < |s[i].dependencies| ensures ForceableIn(s, s[i].dependencies[k], 0) {}
    }
    DepthLeast(s, i, 1);
    forall x | x in Needed(s, i) ensures x == i {
      if x != i {
        var d :| d in s[i].dependencies && x in ReachIn(s, d, 0);
      }
    }
  }

  lemma {:induction false} ForceableInEvolves(s: seq<TaskRecord>, s': seq<TaskRecord>, i: int, n: nat)
    requires Evolves(s, s') && ForceableIn(s, i, n)
    ensures ForceableIn(s', i, n)
    decreases n
  {
    if !s'[i].completed {
      forall k | 0 <= k < |s'[i].dependencies| ensures ForceableIn(s', s'[i].dependencies[k], n - 1) {
        ForceableInEvolves(s, s', s[i].dependencies[k], n - 1);
      }
    }
  }

  /** Completing tasks keeps retrievable tasks retrievable, no deeper. */
  lemma ForceableEvolves(s: seq<TaskRecord>, s': seq<TaskRecord>, i: int)
    requires Evolves(s, s') && Forceable(s, i)
    ensures Forceable(s', i) && Depth(s', i) <= Depth(s, i)
  {
    ForceableInEvolves(s, s', i, Depth(s, i));
    DepthLeast(s', i, Depth(s, i));
  }

  lemma {:induction false} ReachEvolves(s: seq<TaskRecord>, s': seq<TaskRecord>, i: int, n: nat)
    requires Evolves(s, s')
    ensures ReachIn(s', i, n) <= ReachIn(s, i, n)
    decreases n
  {
    forall x | x in ReachIn(s', i, n) ensures x in ReachIn(s, i, n) {
      assert 0 <= i < |s| && !s[i].completed;
      if x != i {
        var d :| d in s'[i].dependencies && x in ReachIn(s', d, n - 1);
        ReachEvolves(s, s', d, n - 1);
        ReachStep(s, i, n, d, x);
      }
    }
  }

  /** Completing tasks only shrinks what a retrieval needs. */
  lemma NeededEvolves(s: seq<TaskRecord>, s': seq<TaskRecord>, i: int)
    requires Evolves(s, s') && Forceable(s, i)
    ensures Forceable(s', i) && Depth(s', i) <= Depth(s, i) && Needed(s', i) <= Needed(s, i)
  {
    ForceableEvolves(s, s', i);
    ReachMono(s', i, Depth(s', i), Depth(s, i));
    ReachEvolves(s, s', i, Depth(s, i));
  }

  lemma {:induction false} ReachDone(s: seq<TaskRecord>, s': seq<TaskRecord>, i: int, n: nat)
    requires Evolves(s, s') && Closed(s') && 0 <= i < |s'| && s'[i].completed
    ensures forall x :: x in ReachIn(s, i, n) ==> 0 <= x < |s'| && s'[x].completed
    decreases n
  {
    forall x | x in ReachIn(s, i, n) ensures 0 <= x < |s'| && s'[x].completed {
      ReachPending(s, i, n, x);
      if x != i {
        var d :| d in s[i].dependencies && x in ReachIn(s, d, n - 1);
        var k :| 0 <= k < |s[i].dependencies| && s[i].dependencies[k] == d;
        assert s'[i].dependencies[k] == d;
        ReachDone(s, s', d, n - 1);
      }
    }
  }

  /** Once a task is completed in a closed state, so is everything a
      retrieval of it needed earlier. */
  lemma NeededDone(s: seq<TaskRecord>, s': seq<TaskRecord>, i: int)
    requires Evolves(s, s') && Closed(s') && Forceable(s, i) && 0 <= i < |s'| && s'[i].completed
    ensures forall x :: x in Needed(s, i) ==> 0 <= x < |s'| && s'[x].completed
  {
    ReachDone(s, s', i, Depth(s, i));
  }

  /** When every dependency names an earlier task, every task is
      retrievable: lazy retrieval always terminates. */
  lemma {:induction false} RankedForceable(s: seq<TaskRecord>, i: int)
    requires TopoSort.Ranked(DependencyLists(s)) && 0 <= i < |s|
    ensures ForceableIn(s, i, i + 1) && Forceable(s, i)
    decreases i
  {
    var deps := DependencyLists(s);
    if !s[i].completed {
      forall k | 0 <= k < |s[i].dependencies| ensures ForceableIn(s, s[i].dependencies[k], i) {
        var d := s[i].dependencies[k];
        assert d == deps[i][k];
        RankedForceable(s, d);
        ForceableMono(s, d, d + 1, i);
      }
    }
    assert ForceableIn(s, i, i + 1);
  }

  // ------------------------------------------------- what completed tasks hold

  /** Every placeholder among `args` names a completed task whose stored
      result has the type the placeholder expects. */
  ghost predicate ArgsReady(s: seq<TaskRecord>, args: seq<Arg>) {
    forall k :: 0 <= k < |args| ==> ArgReady(s, args[k])
  }

  /** A placeholder names a completed task holding a result of its type. */
  ghost predicate ArgReady(s: seq<TaskRecord>, a: Arg) {
    a.Deferred? ==> 0 <= a.taskId < |s| && s[a.taskId].completed && s[a.taskId].result.tag == a.tag
  }

  /** What resolving one argument may run: nothing for a captured value,
      and what retrieving the named task needs for a placeholder. */
  ghost function ArgNeeded(s: seq<TaskRecord>, a: Arg): set<int> {
    if a.Deferred? && Forceable(s, a.taskId) then Needed(s, a.taskId) else {}
  }

  /** Resolving an argument later needs no more than it did before. */
  lemma ArgNeededEvolves(s: seq<TaskRecord>, s': seq<TaskRecord>, a: Arg)
    requires Evolves(s, s') && (a.Deferred? ==> Forceable(s, a.taskId))
    ensures ArgNeeded(s', a) <= ArgNeeded(s, a)
  {
    if a.Deferred? {
      NeededEvolves(s, s', a.taskId);
    }
  }

  /** A ready argument stays ready, and resolves alike, in a later state. */
  lemma ArgReadyEvolves(s: seq<TaskRecord>, s': seq<TaskRecord>, a: Arg)
    requires Evolves(s, s') && ArgReady(s, a)
    ensures ArgReady(s', a) && ResolvedArg(s', a) == ResolvedArg(s, a)
  {
  }

  /** One ready argument resolved gives the resolved list. */
  lemma ResolvedSingle(s: seq<TaskRecord>, args: seq<Arg>, a: Box)
    requires |args| == 1 && ArgReady(s, args[0]) && a == ResolvedArg(s, args[0])
    ensures ArgsReady(s, args) && Resolved(s, args) == [a]
  {
  }

  /** Two ready arguments resolved one by one give the resolved list. */
  lemma ResolvedPair(s: seq<TaskRecord>, args: seq<Arg>, a: Box, b: Box)
    requires |args| == 2 && ArgReady(s, args[0]) && ArgReady(s, args[1])
    requires a == ResolvedArg(s, args[0]) && b == ResolvedArg(s, args[1])
    ensures ArgsReady(s, args) && Resolved(s, args) == [a, b]
  {
  }

  /** `resolve_argument` on a ready argument: a captured value as it is; a
      placeholder as the stored result of its task, which has the
      placeholder's type. */
  function ResolvedArg(s: seq<TaskRecord>, a: Arg): (r: Box)
    requires ArgReady(s, a)
    ensures a.Immediate? ==> r == a.value
    ensures a.Deferred? ==> r == s[a.taskId].result && r.tag == a.tag
  {
    match a
    case Immediate(b) => b
    case Deferred(j, t) => s[j].result
  }

  function Resolved(s: seq<TaskRecord>, args: seq<Arg>): (r: seq<Box>)
    requires ArgsReady(s, args)
    ensures |r| == |args|
  {
    seq(|args|, k requires 0 <= k < |args| => ResolvedArg(s, args[k]))
  }

  /** `r` is what `execute` leaves in `result` after the procedure had
      outcome `o`: the returned value, or the initial int zero for `void`. */
  predicate Settles(o: Outcome, r: Box) {
    match o
    case Value(b) => r == b
    case NoValue => r == InitialResult
    case Raised => false
  }

  /** Completed task `i` holds what its procedure returns on its resolved
      arguments. */
  ghost predicate Denotes(s: seq<TaskRecord>, i: int, apply: Call -> Outcome)
    requires 0 <= i < |s|
  {
    WellShaped(s[i].callable, s[i].args) && ArgsReady(s, s[i].args) &&
    Settles(apply(MakeCall(s[i].callable, Resolved(s, s[i].args))), s[i].result)
  }

  /** The scheduler's invariant on its records: built as registered, the
      initial result until completion, and the procedure's result after. */
  ghost predicate Coherent(s: seq<TaskRecord>, apply: Call -> Outcome) {
    (forall i :: 0 <= i < |s| ==> WellFormed(s[i])) &&
    (forall i :: 0 <= i < |s| && !s[i].completed ==> s[i].result == InitialResult) &&
    (forall i :: 0 <= i < |s| && s[i].completed ==> Denotes(s, i, apply))
  }

  /** In a coherent state the dependencies of completed tasks are completed. */
  lemma CoherentClosed(s: seq<TaskRecord>, apply: Call -> Outcome)
    requires Coherent(s, apply)
    ensures Closed(s)
  {
    forall i, k | 0 <= i < |s| && s[i].completed && 0 <= k < |s[i].dependencies|
      ensures 0 <= s[i].dependencies[k] < |s| && s[s[i].dependencies[k]].completed
    {
      var d := s[i].dependencies[k];
      CollectMembership(s[i].args, d);
      assert Denotes(s, i, apply);
    }
  }

  /** A completed record keeps its meaning while other tasks complete. */
  lemma DenotesEvolves(s: seq<TaskRecord>, s': seq<TaskRecord>, i: int, apply: Call -> Outcome)
    requires Evolves(s, s') && 0 <= i < |s| && s[i].completed && Denotes(s, i, apply)
    ensures Denotes(s', i, apply)
  {
    var args := s[i].args;
    assert ArgsReady(s', args);
    assert Resolved(s', args) == Resolved(s, args);
  }

  /** Registering a fresh record keeps the records coherent. */
  lemma CoherentAppend(s: seq<TaskRecord>, t: TaskRecord, apply: Call -> Outcome)
    requires Coherent(s, apply) && WellFormed(t) && !t.completed && t.result == InitialResult
    ensures Coherent(s + [t], apply)
  {
    var s' := s + [t];
    forall i | 0 <= i < |s'| && s'[i].completed ensures Denotes(s', i, apply) {
      assert s'[i] == s[i] && Denotes(s, i, apply);
      var args := s[i].args;
      assert ArgsReady(s', args);
      assert Resolved(s', args) == Resolved(s, args);
    }
  }

  /** Running pending task `i` on ready arguments and storing a normal
      outcome keeps the records coherent and is a later state. */
  lemma CoherentComplete(s: seq<TaskRecord>, i: int, o: Outcome, apply: Call -> Outcome)
    requires Coherent(s, apply) && 0 <= i < |s| && !s[i].completed
    requires ArgsReady(s, s[i].args) && !o.Raised?
    requires o == apply(MakeCall(s[i].callable, Resolved(s, s[i].args)))
    ensures Evolves(s, s[i := Completed(s[i], o)])
    ensures Coherent(s[i := Completed(s[i], o)], apply)
  {
    var s' := s[i := Completed(s[i], o)];
    assert Evolves(s, s');
    var args := s[i].args;
    assert ArgsReady(s', args);
    assert Resolved(s', args) == Resolved(s, args);
    assert Denotes(s', i, apply);
    forall j | 0 <= j < |s'| && s'[j].completed ensures Denotes(s', j, apply) {
      if j != i {
        DenotesEvolves(s, s', j, apply);
      }
    }
  }
}
