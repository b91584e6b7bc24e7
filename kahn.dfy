/** Kahn's algorithm as `executeAll` runs it (lib/scheduler.h, the loops
    before the cycle check), on arrays for `adj` and `in_degree`. */
module Kahn {
  import opened TopoSort

  // ------------------------------------------ the order, defined on values

  /** Each task's successors, once per edge, in registration order. */
  function AdjOf(deps: seq<seq<int>>): (adj: seq<seq<int>>)
    ensures |adj| == |deps|
  {
    seq(|deps|, u => Successors(deps, u, |deps|))
  }

  /** Each task's initial in-degree: how many dependencies it lists. */
  function DegreesOf(deps: seq<seq<int>>): (d: seq<int>)
    ensures |d| == |deps| && forall v :: 0 <= v < |deps| ==> d[v] == |deps[v]|
  {
    seq(|deps|, v requires 0 <= v < |deps| => |deps[v]|)
  }

  /** The ids below `i` whose in-degree is zero, ascending: the seeded queue. */
  function Roots(inDegree: seq<int>, i: nat): seq<int>
    requires i <= |inDegree|
  {
    if i == 0 then []
    else Roots(inDegree, i - 1) + (if inDegree[i - 1] == 0 then [i - 1] else [])
  }

  /** The seeded queue holds exactly the ids of in-degree zero, ascending. */
  lemma {:induction false} RootsAscending(inDegree: seq<int>, i: nat)
    requires i <= |inDegree|
    ensures |Roots(inDegree, i)| <= i && forall k :: 0 <= k < |Roots(inDegree, i)| ==> Roots(inDegree, i)[k] < i
    ensures forall a, b :: 0 <= a < b < |Roots(inDegree, i)| ==> Roots(inDegree, i)[a] < Roots(inDegree, i)[b]
    ensures forall v :: v in Roots(inDegree, i) <==> 0 <= v < i && inDegree[v] == 0
  {
    if i > 0 {
      RootsAscending(inDegree, i - 1);
    }
  }

  /** The edges out of one popped id from slot `j` on, first to last: each
      decrements its target, which joins the back of the queue when it
      reaches zero. */
  function RelaxFrom(succ: seq<int>, j: nat, inDegree: seq<int>, queue: seq<int>): (seq<int>, seq<int>)
    decreases |succ| - j
  {
    if j >= |succ| then (inDegree, queue)
    else
      var v := succ[j];
      if 0 <= v < |inDegree| then
        var d := inDegree[v := inDegree[v] - 1];
        RelaxFrom(succ, j + 1, d, if d[v] == 0 then queue + [v] else queue)
      else RelaxFrom(succ, j + 1, inDegree, queue)
  }

  /** The queue loop on values: pop the front, append it to `order`, relax
      its edges; at most `fuel` pops. */
  function Fifo(adj: seq<seq<int>>, inDegree: seq<int>, queue: seq<int>, order: seq<int>, fuel: nat): seq<int>
    decreases fuel
  {
    if queue == [] || fuel == 0 then order
    else
      var u := queue[0];
      var next := RelaxFrom(if 0 <= u < |adj| then adj[u] else [], 0, inDegree, queue[1..]);
      Fifo(adj, next.0, next.1, order + [u], fuel - 1)
  }

  /** The one run order Kahn's algorithm with a first-in first-out queue
      gives, seeded with the roots in ascending id order. */
  function FifoOrder(deps: seq<seq<int>>): seq<int> {
    Fifo(AdjOf(deps), DegreesOf(deps), Roots(DegreesOf(deps), |deps|), [], |deps|)
  }

  /** With the queue empty the loop is over. */
  /** The state the queue loop starts from is the one `FifoOrder` starts from. */
  lemma FifoStart(deps: seq<seq<int>>, degrees: seq<int>, seed: seq<int>)
    requires degrees == DegreesOf(deps) && seed == Roots(degrees, |deps|)
    ensures FifoOrder(deps) == Fifo(AdjOf(deps), degrees, seed, [], |deps|)
  {
  }

  /** One edge of the relaxation on values. */
  lemma RelaxStep(succ: seq<int>, j: nat, inDegree: seq<int>, queue: seq<int>,
                  inDegree': seq<int>, queue': seq<int>)
    requires j < |succ| && 0 <= succ[j] < |inDegree|
    requires inDegree' == inDegree[succ[j] := inDegree[succ[j]] - 1]
    requires queue' == if inDegree'[succ[j]] == 0 then queue + [succ[j]] else queue
    ensures RelaxFrom(succ, j, inDegree, queue) == RelaxFrom(succ, j + 1, inDegree', queue')
  {
  }

  lemma FifoDone(adj: seq<seq<int>>, inDegree: seq<int>, queue: seq<int>, order: seq<int>, fuel: nat)
    requires |queue| == 0
    ensures Fifo(adj, inDegree, queue, order, fuel) == order
  {
  }

  /** One pop of the queue loop on values. */
  lemma FifoPop(adj: seq<seq<int>>, inDegree: seq<int>, queue: seq<int>, order: seq<int>, fuel: nat,
                inDegree': seq<int>, queue': seq<int>)
    requires queue != [] && fuel > 0 && 0 <= queue[0] < |adj|
    requires (inDegree', queue') == RelaxFrom(adj[queue[0]], 0, inDegree, queue[1..])
    ensures Fifo(adj, inDegree, queue, order, fuel) == Fifo(adj, inDegree', queue', order + [queue[0]], fuel - 1)
  {
  }

  /** Relaxing only appends to the queue. */
  lemma {:induction false} RelaxKeepsQueue(succ: seq<int>, j: nat, inDegree: seq<int>, queue: seq<int>)
    ensures |queue| <= |RelaxFrom(succ, j, inDegree, queue).1|
    ensures RelaxFrom(succ, j, inDegree, queue).1[..|queue|] == queue
    decreases |succ| - j
  {
    if j < |succ| {
      var v := succ[j];
      if 0 <= v < |inDegree| {
        var d := inDegree[v := inDegree[v] - 1];
        var q' := if d[v] == 0 then queue + [v] else queue;
        RelaxKeepsQueue(succ, j + 1, d, q');
        assert q'[..|queue|] == queue;
      } else {
        RelaxKeepsQueue(succ, j + 1, inDegree, queue);
      }
    }
  }

  /** What is queued is popped first, in queue order, as far as the fuel reaches. */
  lemma {:induction false} FifoPrefix(adj: seq<seq<int>>, inDegree: seq<int>, queue: seq<int>,
                                      order: seq<int>, fuel: nat, m: nat)
    requires m <= fuel && m <= |queue|
    ensures |order| + m <= |Fifo(adj, inDegree, queue, order, fuel)|
    ensures Fifo(adj, inDegree, queue, order, fuel)[..|order| + m] == order + queue[..m]
    decreases fuel
  {
    if m == 0 {
      FifoKeepsOrder(adj, inDegree, queue, order, fuel);
    } else {
      var u := queue[0];
      var succ := if 0 <= u < |adj| then adj[u] else [];
      var next := RelaxFrom(succ, 0, inDegree, queue[1..]);
      RelaxKeepsQueue(succ, 0, inDegree, queue[1..]);
      FifoPrefix(adj, next.0, next.1, order + [u], fuel - 1, m - 1);
      var r := Fifo(adj, next.0, next.1, order + [u], fuel - 1);
      assert next.1[..m - 1] == queue[1..][..m - 1];
      assert order + [u] + next.1[..m - 1] == order + queue[..m];
      assert r[..|order| + m] == r[..|order + [u]| + (m - 1)];
    }
  }

  /** The queue loop only appends to `order`. */
  lemma {:induction false} FifoKeepsOrder(adj: seq<seq<int>>, inDegree: seq<int>, queue: seq<int>,
                                          order: seq<int>, fuel: nat)
    ensures |order| <= |Fifo(adj, inDegree, queue, order, fuel)|
    ensures Fifo(adj, inDegree, queue, order, fuel)[..|order|] == order
    decreases fuel
  {
    if queue != [] && fuel > 0 {
      var u := queue[0];
      var next := RelaxFrom(if 0 <= u < |adj| then adj[u] else [], 0, inDegree, queue[1..]);
      FifoKeepsOrder(adj, next.0, next.1, order + [u], fuel - 1);
      var r := Fifo(adj, next.0, next.1, order + [u], fuel - 1);
      assert r[..|order|] == r[..|order + [u]|][..|order|];
    }
  }

  /** Tasks with no dependencies run first, in ascending id order. */
  lemma RootsFirst(deps: seq<seq<int>>)
    ensures |Roots(DegreesOf(deps), |deps|)| <= |FifoOrder(deps)|
    ensures FifoOrder(deps)[..|Roots(DegreesOf(deps), |deps|)|] == Roots(DegreesOf(deps), |deps|)
  {
    var roots := Roots(DegreesOf(deps), |deps|);
    RootsAscending(DegreesOf(deps), |deps|);
    FifoPrefix(AdjOf(deps), DegreesOf(deps), roots, [], |deps|, |roots|);
    assert roots[..|roots|] == roots;
  }

  // ------------------------------------------------ the order, on arrays

  /** The run order `executeAll` computes. It lists each id at most once and
      only ids in range, dependencies before dependents; it holds every task
      exactly when the dependency graph has no cycle; and when every
      dependency has a smaller id than its dependent it is always complete. */
  method KahnOrder(deps: seq<seq<int>>) returns (order: seq<int>)
    requires InRange(deps)
    ensures order == FifoOrder(deps)
    ensures Distinct(order) && Ids(order, |deps|) && DepsPrecede(deps, order)
    ensures |order| <= |deps|
    ensures |order| == |deps| <==> !HasCycle(deps)
    ensures |order| == |deps| ==> TopologicalOrder(deps, order)
    ensures Ranked(deps) ==> |order| == |deps|
  {
    var adj, inDegree := BuildGraph(deps);
    var seed := SeedQueue(inDegree);
    ghost var degrees := inDegree[..];
    assert degrees == DegreesOf(deps);
    FifoStart(deps, degrees, seed);
    SeedReady(deps, degrees, seed);
    order := Drain(deps, adj, inDegree, [], seed, seed, AdjOf(deps), |deps|, FifoOrder(deps));
    DrainedOrder(deps, order);
  }

  /** The seeded queue is a valid start for the queue loop: nothing is
      ordered yet and every in-degree is still the number of dependencies. */
  lemma SeedReady(deps: seq<seq<int>>, degrees: seq<int>, seed: seq<int>)
    requires |degrees| == |deps| && forall v :: 0 <= v < |deps| ==> degrees[v] == |deps[v]|
    requires forall a, b :: 0 <= a < b < |seed| ==> seed[a] < seed[b]
    requires forall v :: v in seed <==> 0 <= v < |deps| && degrees[v] == 0
    ensures seed == [] + seed
    ensures Distinct(seed) && Ids(seed, |deps|) && |seed| <= |deps|
    ensures DepsPrecede(deps, seed)
    ensures forall v :: 0 <= v < |deps| ==> degrees[v] == |deps[v]| - CountIn(deps[v], [])
    ensures forall v :: 0 <= v < |deps| ==> (v in seed <==> degrees[v] == 0)
  {
    assert forall i :: 0 <= i < |seed| ==> seed[i] in seed;
    assert Ids(seed, |deps|);
    AscendingDistinct(seed);
    DistinctIdsBound(seed, |deps|);
    assert forall p :: 0 <= p < |seed| ==> |deps[seed[p]]| == 0;
    NothingCounted(deps, degrees);
  }

  lemma AscendingDistinct(s: seq<int>)
    requires forall a, b :: 0 <= a < b < |s| ==> s[a] < s[b]
    ensures Distinct(s)
  {
  }

  lemma NothingCounted(deps: seq<seq<int>>, degrees: seq<int>)
    requires |degrees| == |deps| && forall v :: 0 <= v < |deps| ==> degrees[v] == |deps[v]|
    ensures forall v :: 0 <= v < |deps| ==> degrees[v] == |deps[v]| - CountIn(deps[v], [])
  {
    forall v | 0 <= v < |deps| ensures degrees[v] == |deps[v]| - CountIn(deps[v], []) {
      CountInNothing(deps[v]);
    }
  }

  /** What the order the queue loop leaves says about the graph. */
  lemma DrainedOrder(deps: seq<seq<int>>, order: seq<int>)
    requires InRange(deps)
    requires Distinct(order) && Ids(order, |deps|) && DepsPrecede(deps, order) && Stuck(deps, order)
    ensures |order| <= |deps|
    ensures |order| == |deps| <==> !HasCycle(deps)
    ensures |order| == |deps| ==> TopologicalOrder(deps, order)
    ensures Ranked(deps) ==> |order| == |deps|
  {
    DistinctIdsBound(order, |deps|);
    if |order| == |deps| {
      TopologicalAcyclic(deps, order);
    } else {
      var v :| 0 <= v < |deps| && v !in order;
      StuckCycle(deps, order, v);
    }
    if Ranked(deps) {
      RankedAcyclic(deps);
    }
  }

  /** Builds `adj` (for each task, its dependents, once per edge) and
      `in_degree` (how many dependencies each task lists). */
  method BuildGraph(deps: seq<seq<int>>) returns (adj: array<seq<int>>, inDegree: array<int>)
    requires InRange(deps)
    ensures fresh(adj) && fresh(inDegree)
    ensures adj.Length == |deps| && inDegree.Length == |deps|
    ensures forall u :: 0 <= u < |deps| ==> adj[u] == Successors(deps, u, |deps|)
    ensures forall v :: 0 <= v < |deps| ==> inDegree[v] == |deps[v]|
  {
    var n := |deps|;
    adj := new seq<int>[n](_ => []);
    inDegree := new int[n](_ => 0);
    var i := 0;
    while i < n
      invariant 0 <= i <= n
      invariant forall u :: 0 <= u < n ==> adj[u] == Successors(deps, u, i)
      invariant forall v :: 0 <= v < n ==> inDegree[v] == if v < i then |deps[v]| else 0
    {
      AddRow(deps, i, adj, inDegree);
      i := i + 1;
    }
  }

  /** One pass of the inner loop: `adj[dep].push_back(i)` and
      `in_degree[i]++` for each dependency `dep` of task `i`. */
  method AddRow(deps: seq<seq<int>>, i: nat, adj: array<seq<int>>, inDegree: array<int>)
    requires InRange(deps) && i < |deps|
    requires adj.Length == |deps| && inDegree.Length == |deps|
    modifies adj, inDegree
    ensures forall u :: 0 <= u < |deps| ==> adj[u] == old(adj[u]) + Repeat(i, Occ(deps[i], u))
    ensures forall v :: 0 <= v < |deps| ==> inDegree[v] == if v == i then old(inDegree[v]) + |deps[i]| else old(inDegree[v])
  {
    var row := deps[i];
    var j := 0;
    while j < |row|
      invariant 0 <= j <= |row|
      invariant forall u :: 0 <= u < |deps| ==> adj[u] == old(adj[u]) + Repeat(i, Occ(row[..j], u))
      invariant forall v :: 0 <= v < |deps| ==> inDegree[v] == if v == i then old(inDegree[v]) + j else old(inDegree[v])
    {
      var dep := row[j];
      assert row[..j + 1] == row[..j] + [dep];
      assert row[..j + 1][..j] == row[..j];
      adj[dep] := adj[dep] + [i];
      inDegree[i] := inDegree[i] + 1;
      j := j + 1;
    }
    assert row[..|row|] == row;
  }

  /** Seeds the queue: the ids whose in-degree is zero, in ascending order. */
  method SeedQueue(inDegree: array<int>) returns (q: seq<int>)
    ensures q == Roots(inDegree[..], inDegree.Length)
    ensures forall a, b :: 0 <= a < b < |q| ==> q[a] < q[b]
    ensures forall v :: v in q <==> 0 <= v < inDegree.Length && inDegree[v] == 0
  {
    q := [];
    var i := 0;
    ghost var degrees := inDegree[..];
    while i < inDegree.Length
      invariant 0 <= i <= inDegree.Length
      invariant q == Roots(degrees, i)
    {
      if inDegree[i] == 0 {
        q := q + [i];
      }
      i := i + 1;
    }
    RootsAscending(degrees, i);
  }

  /** The queue loop, run from the state `order0`, `q0` (in `executeAll`
      the empty order and the seeded queue): pop the front id, append it to
      `order`, and decrement the in-degree of each dependent, enqueueing it
      when that reaches zero. The ids ever enqueued are `pushed0`. */
  method Drain(deps: seq<seq<int>>, adj: array<seq<int>>, inDegree: array<int>,
               order0: seq<int>, q0: seq<int>, ghost pushed0: seq<int>,
               ghost graph: seq<seq<int>>, ghost fuel: nat, ghost spec: seq<int>)
    returns (order: seq<int>)
    requires InRange(deps)
    requires adj.Length == |deps| && inDegree.Length == |deps|
    requires |graph| == |deps| && forall u {:trigger adj[u]} :: 0 <= u < |deps| ==> graph[u] == adj[u]
    requires forall u :: 0 <= u < |deps| ==> adj[u] == Successors(deps, u, |deps|)
    requires pushed0 == order0 + q0
    requires Distinct(pushed0) && Ids(pushed0, |deps|) && |pushed0| <= |deps|
    requires DepsPrecede(deps, pushed0)
    requires forall v :: 0 <= v < |deps| ==> inDegree[v] == |deps[v]| - CountIn(deps[v], order0)
    requires forall v :: 0 <= v < |deps| ==> (v in pushed0 <==> inDegree[v] == 0)
    requires |order0| + fuel == |deps| && spec == Fifo(graph, inDegree[..], q0, order0, fuel)
    modifies inDegree
    ensures Distinct(order) && Ids(order, |deps|)
    ensures DepsPrecede(deps, order) && Stuck(deps, order)
    ensures order == spec
  {
    var n := |deps|;
    var q := q0;
    order := order0;
    ghost var pushed := pushed0;
    ghost var cur, left := inDegree[..], fuel;
    while q != []
      invariant pushed == order + q
      invariant Distinct(pushed) && Ids(pushed, n) && |pushed| <= n
      invariant DepsPrecede(deps, pushed)
      invariant forall v :: 0 <= v < n ==> inDegree[v] == |deps[v]| - CountIn(deps[v], order)
      invariant forall v :: 0 <= v < n ==> (v in pushed <==> inDegree[v] == 0)
      invariant cur == inDegree[..]
      invariant |order| + left == n && spec == Fifo(graph, cur, q, order, left)
      decreases n - |pushed|, |q|
    {
      ghost var cur0, q0, order0, left0 := cur, q, order, left;
      order, q, pushed := Pop(deps, adj, inDegree, order, q, pushed, graph);
      cur, left := inDegree[..], left0 - 1;
      FifoPop(graph, cur0, q0, order0, left0, cur, q);
      DistinctIdsBound(pushed, n);
    }
    assert pushed == order;
    FifoDone(graph, cur, q, order, left);
    DrainedStuck(deps, cur, order);
  }

  /** When the queue is empty, every task not yet ordered still has an
      unordered dependency: its in-degree never reached zero. */
  lemma DrainedStuck(deps: seq<seq<int>>, inDegree: seq<int>, order: seq<int>)
    requires |inDegree| == |deps|
    requires forall v :: 0 <= v < |deps| ==> inDegree[v] == |deps[v]| - CountIn(deps[v], order)
    requires forall v :: 0 <= v < |deps| ==> (v in order <==> inDegree[v] == 0)
    ensures Stuck(deps, order)
  {
    forall v | 0 <= v < |deps| && v !in order
      ensures exists k :: 0 <= k < |deps[v]| && deps[v][k] !in order
    {
      CountInAll(deps[v], order);
    }
  }

  /** One round of the queue loop: `u = q.front(); q.pop();
      order.push_back(u);` and the relaxation of `u`'s edges. */
  method Pop(deps: seq<seq<int>>, adj: array<seq<int>>, inDegree: array<int>,
             order: seq<int>, q: seq<int>, ghost pushed: seq<int>, ghost graph: seq<seq<int>>)
    returns (order': seq<int>, q': seq<int>, ghost pushed': seq<int>)
    requires InRange(deps)
    requires adj.Length == |deps| && inDegree.Length == |deps|
    requires |graph| == |deps| && forall u {:trigger adj[u]} :: 0 <= u < |deps| ==> graph[u] == adj[u]
    requires forall u :: 0 <= u < |deps| ==> adj[u] == Successors(deps, u, |deps|)
    requires q != [] && pushed == order + q
    requires Distinct(pushed) && Ids(pushed, |deps|) && |pushed| <= |deps|
    requires DepsPrecede(deps, pushed)
    requires forall v :: 0 <= v < |deps| ==> inDegree[v] == |deps[v]| - CountIn(deps[v], order)
    requires forall v :: 0 <= v < |deps| ==> (v in pushed <==> inDegree[v] == 0)
    modifies inDegree
    ensures order' == order + [q[0]] && pushed' == order' + q' && |pushed'| >= |pushed|
    ensures Distinct(pushed') && Ids(pushed', |deps|) && DepsPrecede(deps, pushed')
    ensures forall v :: 0 <= v < |deps| ==> inDegree[v] == |deps[v]| - CountIn(deps[v], order')
    ensures forall v :: 0 <= v < |deps| ==> (v in pushed' <==> inDegree[v] == 0)
    ensures 0 <= q[0] < |deps| && (inDegree[..], q') == RelaxFrom(graph[q[0]], 0, old(inDegree[..]), q[1..])
  {
    var n := |deps|;
    var u := q[0];
    assert pushed[|order|] == u && 0 <= u < n;
    forall i | 0 <= i < |order| ensures order[i] != u {
      assert pushed[i] == order[i] && pushed[|order|] == u;
    }
    order' := order + [u];
    forall v | 0 <= v < n
      ensures inDegree[v] == |deps[v]| - CountIn(deps[v], order') + Occ(adj[u], v)
    {
      CountInAppend(deps[v], order, u);
      SuccessorsCount(deps, u, n, v);
    }
    q', pushed' := Relax(deps, adj, inDegree, u, order', q[1..], pushed);
    assert graph[u] == adj[u];
  }

  /** The inner loop of the queue loop for the id `u` just appended to
      `order`: one decrement per edge from `u`, enqueueing at zero. */
  method Relax(deps: seq<seq<int>>, adj: array<seq<int>>, inDegree: array<int>, u: int,
               order: seq<int>, q: seq<int>, ghost pushed: seq<int>)
    returns (q': seq<int>, ghost pushed': seq<int>)
    requires InRange(deps) && 0 <= u < |deps|
    requires adj.Length == |deps| && inDegree.Length == |deps|
    requires adj[u] == Successors(deps, u, |deps|)
    requires pushed == order + q
    requires Distinct(pushed) && Ids(pushed, |deps|) && DepsPrecede(deps, pushed)
    requires forall v :: 0 <= v < |deps| ==>
      inDegree[v] == |deps[v]| - CountIn(deps[v], order) + Occ(adj[u], v)
    requires forall v :: 0 <= v < |deps| ==> (v in pushed <==> inDegree[v] == 0)
    modifies inDegree
    ensures pushed' == order + q' && |pushed'| >= |pushed|
    ensures Distinct(pushed') && Ids(pushed', |deps|) && DepsPrecede(deps, pushed')
    ensures forall v :: 0 <= v < |deps| ==> inDegree[v] == |deps[v]| - CountIn(deps[v], order)
    ensures forall v :: 0 <= v < |deps| ==> (v in pushed' <==> inDegree[v] == 0)
    ensures (inDegree[..], q') == RelaxFrom(adj[u], 0, old(inDegree[..]), q)
  {
    var n := |deps|;
    var succ := adj[u];
    q', pushed' := q, pushed;
    var j := 0;
    while j < |succ|
      invariant 0 <= j <= |succ|
      invariant pushed' == order + q' && |pushed'| >= |pushed|
      invariant Distinct(pushed') && Ids(pushed', n)
      invariant DepsPrecede(deps, pushed')
      invariant forall v :: 0 <= v < n ==>
        inDegree[v] == |deps[v]| - CountIn(deps[v], order) + (Occ(succ, v) - Occ(succ[..j], v))
      invariant forall v :: 0 <= v < n ==> (v in pushed' <==> inDegree[v] == 0)
      invariant RelaxFrom(succ, 0, old(inDegree[..]), q) == RelaxFrom(succ, j, inDegree[..], q')
    {
      q', pushed' := RelaxEdge(deps, inDegree, u, succ, j, order, q', pushed');
      j := j + 1;
    }
    assert succ[..|succ|] == succ;
  }

  /** Enqueueing a fresh id all of whose dependencies are in `order` keeps
      the queue's history repetition-free, in range, dependencies first. */
  lemma AppendReady(deps: seq<seq<int>>, order: seq<int>, q: seq<int>, v: int)
    requires 0 <= v < |deps| && v !in order + q
    requires Distinct(order + q) && Ids(order + q, |deps|) && DepsPrecede(deps, order + q)
    requires forall k :: 0 <= k < |deps[v]| ==> deps[v][k] in order
    ensures Distinct(order + q + [v]) && Ids(order + q + [v], |deps|)
    ensures DepsPrecede(deps, order + q + [v])
  {
    var s := order + q;
    assert forall k :: 0 <= k < |deps[v]| ==> deps[v][k] in s;
    PrecedeExtend(deps, s, v);
  }

  /** One edge `u -> succ[j]`: decrement, and enqueue at zero. */
  method RelaxEdge(deps: seq<seq<int>>, inDegree: array<int>, u: int, succ: seq<int>, j: nat,
                   order: seq<int>, q: seq<int>, ghost pushed: seq<int>)
    returns (q': seq<int>, ghost pushed': seq<int>)
    requires InRange(deps) && 0 <= u < |deps| && inDegree.Length == |deps|
    requires succ == Successors(deps, u, |deps|) && j < |succ|
    requires pushed == order + q
    requires Distinct(pushed) && Ids(pushed, |deps|) && DepsPrecede(deps, pushed)
    requires forall v :: 0 <= v < |deps| ==>
      inDegree[v] == |deps[v]| - CountIn(deps[v], order) + (Occ(succ, v) - Occ(succ[..j], v))
    requires forall v :: 0 <= v < |deps| ==> (v in pushed <==> inDegree[v] == 0)
    modifies inDegree
    ensures pushed' == order + q' && |pushed'| >= |pushed|
    ensures Distinct(pushed') && Ids(pushed', |deps|) && DepsPrecede(deps, pushed')
    ensures forall v :: 0 <= v < |deps| ==>
      inDegree[v] == |deps[v]| - CountIn(deps[v], order) + (Occ(succ, v) - Occ(succ[..j + 1], v))
    ensures forall v :: 0 <= v < |deps| ==> (v in pushed' <==> inDegree[v] == 0)
    ensures RelaxFrom(succ, j, old(inDegree[..]), q) == RelaxFrom(succ, j + 1, inDegree[..], q')
  {
    var n := |deps|;
    var v := succ[j];
    SuccessorsCount(deps, u, n, v);
    OccIn(succ, v);
    assert succ[..j + 1][..j] == succ[..j];
    OccPrefix(succ, j + 1, v);
    assert 0 <= v < n && inDegree[v] >= 1 && v !in pushed;
    ghost var before := inDegree[..];
    inDegree[v] := inDegree[v] - 1;
    ghost var after := inDegree[..];
    assert after == before[v := before[v] - 1];
    q', pushed' := q, pushed;
    if inDegree[v] == 0 {
      CountInAll(deps[v], order);
      AppendReady(deps, order, q, v);
      q' := q + [v];
      pushed' := pushed + [v];
    }
    RelaxStep(succ, j, before, q, after, q');
  }
}
