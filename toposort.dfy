/** The ordering half of `executeAll`: Kahn's algorithm over the dependency
    lists of the registered tasks. `deps[v]` lists, with repetition and in
    argument order, the ids task `v` depends on. */
module TopoSort {

  /** Every dependency names a registered task (the source indexes `adj`
      with it unchecked). */
  ghost predicate InRange(deps: seq<seq<int>>) {
    forall v, k :: 0 <= v < |deps| && 0 <= k < |deps[v]| ==> 0 <= deps[v][k] < |deps|
  }

  /** Every dependency has a smaller id than its dependent: what registering
      tasks only through placeholders of earlier tasks produces. */
  ghost predicate Ranked(deps: seq<seq<int>>) {
    forall v, k :: 0 <= v < |deps| && 0 <= k < |deps[v]| ==> 0 <= deps[v][k] < v
  }

  predicate Distinct(s: seq<int>) {
    forall i, j :: 0 <= i < j < |s| ==> s[i] != s[j]
  }

  ghost predicate Ids(s: seq<int>, n: int) {
    forall i :: 0 <= i < |s| ==> 0 <= s[i] < n
  }

  /** Each listed task's dependencies all occur before it in `order`. */
  ghost predicate DepsPrecede(deps: seq<seq<int>>, order: seq<int>) {
    forall p, k :: 0 <= p < |order| && 0 <= order[p] < |deps| && 0 <= k < |deps[order[p]]| ==>
      deps[order[p]][k] in order[..p]
  }

  /** A run order for all tasks in which dependencies come first. */
  ghost predicate TopologicalOrder(deps: seq<seq<int>>, order: seq<int>) {
    |order| == |deps| && Distinct(order) && Ids(order, |deps|) && DepsPrecede(deps, order)
  }

  function Next(c: seq<int>, k: int): int
    requires 0 <= k < |c|
  {
    if k + 1 < |c| then c[k + 1] else c[0]
  }

  /** `c` is a closed chain of tasks, each depending on the next. */
  ghost predicate IsCycle(deps: seq<seq<int>>, c: seq<int>) {
    |c| > 0 &&
    forall k :: 0 <= k < |c| ==> 0 <= c[k] < |deps| && Next(c, k) in deps[c[k]]
  }

  ghost predicate HasCycle(deps: seq<seq<int>>) {
    exists c :: IsCycle(deps, c)
  }

  /** Tasks left out of `order` each wait on a dependency also left out. */
  ghost predicate Stuck(deps: seq<seq<int>>, order: seq<int>) {
    forall v :: 0 <= v < |deps| && v !in order ==>
      exists k :: 0 <= k < |deps[v]| && deps[v][k] !in order
  }

  // ---------------------------------------------------------------- counting

  /** How often `x` occurs in `s`. */
  function Occ(s: seq<int>, x: int): nat {
    if s == [] then 0 else Occ(s[..|s| - 1], x) + (if s[|s| - 1] == x then 1 else 0)
  }

  lemma {:induction false} OccAppend(a: seq<int>, b: seq<int>, x: int)
    ensures Occ(a + b, x) == Occ(a, x) + Occ(b, x)
    decreases |b|
  {
    if b == [] {
      assert a + b == a;
    } else {
      assert (a + b)[..|a + b| - 1] == a + b[..|b| - 1];
      assert (a + b)[|a + b| - 1] == b[|b| - 1];
      OccAppend(a, b[..|b| - 1], x);
    }
  }

  lemma {:induction false} OccIn(s: seq<int>, x: int)
    ensures Occ(s, x) > 0 <==> x in s
  {
    if s != [] {
      OccIn(s[..|s| - 1], x);
      assert s == s[..|s| - 1] + [s[|s| - 1]];
    }
  }

  lemma {:induction false} OccPrefix(s: seq<int>, j: nat, x: int)
    requires j <= |s|
    ensures Occ(s[..j], x) <= Occ(s, x)
  {
    assert s == s[..j] + s[j..];
    OccAppend(s[..j], s[j..], x);
  }

  function Repeat(x: int, c: nat): (r: seq<int>)
    ensures |r| == c
  {
    if c == 0 then [] else Repeat(x, c - 1) + [x]
  }

  lemma {:induction false} RepeatCount(x: int, c: nat, v: int)
    ensures Occ(Repeat(x, c), v) == if v == x then c else 0
  {
    if c > 0 {
      RepeatCount(x, c - 1, v);
      assert Repeat(x, c)[..c - 1] == Repeat(x, c - 1);
    }
  }

  /** `adj[u]` as the nested loop builds it from rows `0 .. m-1`: row `i`
      appends `i` once per occurrence of `u` among its dependencies. */
  function Successors(deps: seq<seq<int>>, u: int, m: nat): seq<int>
    requires m <= |deps|
  {
    if m == 0 then [] else Successors(deps, u, m - 1) + Repeat(m - 1, Occ(deps[m - 1], u))
  }

  /** `v` occurs in `u`'s successor list as often as `u` occurs among `v`'s
      dependencies: the edge lists agree with the dependency lists. */
  lemma {:induction false} SuccessorsCount(deps: seq<seq<int>>, u: int, m: nat, v: int)
    requires m <= |deps|
    ensures Occ(Successors(deps, u, m), v) == if 0 <= v < m then Occ(deps[v], u) else 0
  {
    if m > 0 {
      var prev := Successors(deps, u, m - 1);
      var row := Repeat(m - 1, Occ(deps[m - 1], u));
      OccAppend(prev, row, v);
      SuccessorsCount(deps, u, m - 1, v);
      RepeatCount(m - 1, Occ(deps[m - 1], u), v);
    }
  }

  /** How many entries of `s` occur in `t`. */
  function CountIn(s: seq<int>, t: seq<int>): (c: nat)
    ensures c <= |s|
  {
    if s == [] then 0 else CountIn(s[..|s| - 1], t) + (if s[|s| - 1] in t then 1 else 0)
  }

  lemma {:induction false} CountInAll(s: seq<int>, t: seq<int>)
    ensures CountIn(s, t) == |s| <==> forall k :: 0 <= k < |s| ==> s[k] in t
  {
    if s != [] {
      var init := s[..|s| - 1];
      CountInAll(init, t);
      assert forall k :: 0 <= k < |init| ==> s[k] == init[k];
    }
  }

  lemma {:induction false} CountInNothing(s: seq<int>)
    ensures CountIn(s, []) == 0
  {
    if s != [] {
      CountInNothing(s[..|s| - 1]);
    }
  }

  lemma {:induction false} CountInAppend(s: seq<int>, t: seq<int>, u: int)
    requires u !in t
    ensures CountIn(s, t + [u]) == CountIn(s, t) + Occ(s, u)
  {
    if s != [] {
      CountInAppend(s[..|s| - 1], t, u);
    }
  }

  // ------------------------------------------------------------ cardinality

  lemma {:induction false} DistinctCard(s: seq<int>)
    requires Distinct(s)
    ensures |set x | x in s| == |s|
  {
    if s != [] {
      var init := s[..|s| - 1];
      DistinctCard(init);
      assert (set x | x in s) == (set x | x in init) + {s[|s| - 1]};
    }
  }

  /** The ids `0 .. n-1` as a set. */
  function IdSet(n: nat): (r: set<int>)
    ensures forall x :: x in r <==> 0 <= x < n
    ensures |r| == n
  {
    if n == 0 then {} else IdSet(n - 1) + {n - 1}
  }

  /** A repetition-free list of ids below `n` has at most `n` entries, and
      exactly `n` when it holds them all. */
  lemma DistinctIdsBound(s: seq<int>, n: nat)
    requires Distinct(s) && Ids(s, n)
    ensures |s| <= n
    ensures (forall v :: 0 <= v < n ==> v in s) ==> |s| == n
  {
    DistinctCard(s);
    var a := set x | x in s;
    var b := IdSet(n);
    assert a <= b;
    SubsetCard(a, b);
    if forall v :: 0 <= v < n ==> v in s {
      assert a == b;
    }
  }

  lemma SubsetCard(a: set<int>, b: set<int>)
    requires a <= b
    ensures |a| <= |b|
  {
    assert b == a + (b - a);
    assert a * (b - a) == {};
  }

  /** `|s| == n` by itself also forces every id into a repetition-free list. */
  lemma DistinctIdsFull(s: seq<int>, n: nat)
    requires Distinct(s) && Ids(s, n) && |s| == n
    ensures forall v :: 0 <= v < n ==> v in s
  {
    DistinctCard(s);
    var a := set x | x in s;
    var b := IdSet(n);
    assert a <= b;
    assert b == a + (b - a);
    assert a * (b - a) == {};
    assert |b - a| == 0;
    forall v | 0 <= v < n ensures v in s {
      assert v in b;
      assert v !in b - a;
      assert v in a;
    }
  }

  // ---------------------------------------------------------------- cycles

  /** Position of `x` in `s`. */
  function Pos(s: seq<int>, x: int): (p: nat)
    requires x in s
    ensures p < |s| && s[p] == x
  {
    if s[0] == x then 0 else 1 + Pos(s[1..], x)
  }

  /** In an order where dependencies precede, a dependency of `x` sits
      strictly before `x`. */
  lemma StepBack(deps: seq<seq<int>>, order: seq<int>, x: int, y: int)
    requires Distinct(order) && DepsPrecede(deps, order)
    requires 0 <= x < |deps| && x in order && y in deps[x]
    ensures y in order && Pos(order, y) < Pos(order, x)
  {
    var p := Pos(order, x);
    var k :| 0 <= k < |deps[x]| && deps[x][k] == y;
    assert y in order[..p];
    var q :| 0 <= q < p && order[..p][q] == y;
    assert order[q] == y;
  }

  /** A cycle cannot be laid out so that every dependency comes first. */
  lemma {:induction false} PrecedeNoCycle(deps: seq<seq<int>>, order: seq<int>, c: seq<int>)
    requires Distinct(order) && DepsPrecede(deps, order)
    requires forall v :: 0 <= v < |deps| ==> v in order
    ensures !IsCycle(deps, c)
  {
    if IsCycle(deps, c) {
      var k := 0;
      while k < |c| - 1
        invariant 0 <= k <= |c| - 1
        invariant Pos(order, c[k]) + k <= Pos(order, c[0])
      {
        assert Next(c, k) == c[k + 1];
        StepBack(deps, order, c[k], c[k + 1]);
        k := k + 1;
      }
      assert Next(c, k) == c[0];
      StepBack(deps, order, c[k], c[0]);
      assert false;
    }
  }

  /** A topological order exists only for a graph without cycles. */
  lemma TopologicalAcyclic(deps: seq<seq<int>>, order: seq<int>)
    requires TopologicalOrder(deps, order)
    ensures !HasCycle(deps)
  {
    DistinctIdsFull(order, |deps|);
    forall c ensures !IsCycle(deps, c) {
      PrecedeNoCycle(deps, order, c);
    }
  }

  /** Registering through placeholders of earlier tasks never makes a cycle. */
  lemma {:induction false} RankedAcyclic(deps: seq<seq<int>>)
    requires Ranked(deps)
    ensures !HasCycle(deps)
  {
    forall c | IsCycle(deps, c) ensures false {
      var k := 0;
      while k < |c| - 1
        invariant 0 <= k <= |c| - 1
        invariant c[k] + k <= c[0]
      {
        assert Next(c, k) == c[k + 1];
        RankedStep(deps, c[k], c[k + 1]);
        k := k + 1;
      }
    }
  }

  lemma RankedStep(deps: seq<seq<int>>, x: int, y: int)
    requires Ranked(deps) && 0 <= x < |deps| && y in deps[x]
    ensures y < x
  {
    var k :| 0 <= k < |deps[x]| && deps[x][k] == y;
  }

  /** If some task is missing from an order in which every missing task
      waits on another missing one, following those waits closes a cycle. */
  lemma {:induction false} StuckCycle(deps: seq<seq<int>>, order: seq<int>, v: int)
    requires InRange(deps) && Stuck(deps, order)
    requires 0 <= v < |deps| && v !in order
    ensures HasCycle(deps)
  {
    var n := |deps|;
    var w := [v];
    while |w| <= n
      invariant |w| >= 1
      invariant forall i :: 0 <= i < |w| ==> 0 <= w[i] < n && w[i] !in order
      invariant forall i :: 0 <= i < |w| - 1 ==> w[i + 1] in deps[w[i]]
    {
      var last := w[|w| - 1];
      var k :| 0 <= k < |deps[last]| && deps[last][k] !in order;
      w := w + [deps[last][k]];
    }
    if Distinct(w) {
      DistinctIdsBound(w, n);
      assert false;
    }
    var i, j :| 0 <= i < j < |w| && w[i] == w[j];
    var c := w[i..j];
    forall k | 0 <= k < |c| ensures 0 <= c[k] < n && Next(c, k) in deps[c[k]] {
      assert c[k] == w[i + k];
      assert Next(c, k) == w[i + k + 1];
    }
    assert IsCycle(deps, c);
  }

  /** Appending a task whose dependencies are all listed keeps them first. */
  lemma PrecedeExtend(deps: seq<seq<int>>, s: seq<int>, x: int)
    requires DepsPrecede(deps, s)
    requires 0 <= x < |deps| ==> forall k :: 0 <= k < |deps[x]| ==> deps[x][k] in s
    ensures DepsPrecede(deps, s + [x])
  {
    var s' := s + [x];
    forall p, k | 0 <= p < |s'| && 0 <= s'[p] < |deps| && 0 <= k < |deps[s'[p]]|
      ensures deps[s'[p]][k] in s'[..p]
    {
      if p < |s| {
        assert s'[..p] == s[..p];
      } else {
        assert s'[..p] == s;
      }
    }
  }
}
