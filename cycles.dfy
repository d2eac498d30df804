/** `Graph.hasCycles`: depth-first cycle detection over the part of a graph that two
    filters let through, with a `visited` set holding the current path and a `safe`
    set meant to memoise vertices already explored without finding a cycle.

    The filters are total functions here. An edge `u -> v` is followed (a `Step`)
    when `v` passes the node filter and some weight between them passes the edge
    filter; the start vertex itself is never tested against the node filter. */
module Cycles {
  import opened Common
  import opened Graphs

  // ---------------------------------------------------------------------------
  // Walks and cycles
  // ---------------------------------------------------------------------------

  ghost predicate Step<V(!new), E(!new)>(g: Graph<V, E>, np: V -> bool, ep: Edge<V, E> -> bool, u: V, v: V) {
    np(v) && exists w :: Edge(u, w, v) in Edges(g) && ep(Edge(u, w, v))
  }

  /** Every consecutive pair of `p` is a followed edge. */
  ghost predicate IsWalk<V(!new), E(!new)>(g: Graph<V, E>, np: V -> bool, ep: Edge<V, E> -> bool, p: seq<V>) {
    forall i :: 0 <= i < |p| - 1 ==> Step(g, np, ep, p[i], p[i + 1])
  }

  ghost predicate Distinct<V>(p: seq<V>) {
    forall i, j :: 0 <= i < j < |p| ==> p[i] != p[j]
  }

  /** The filtered graph has a cycle: a walk of at least one edge that ends where it starts. */
  ghost predicate HasCycle<V(!new), E(!new)>(g: Graph<V, E>, np: V -> bool, ep: Edge<V, E> -> bool) {
    exists p :: |p| >= 2 && p[0] == p[|p| - 1] && IsWalk(g, np, ep, p)
  }

  /** A cycle is reachable from `s`: some walk from `s` visits a vertex twice. */
  ghost predicate CycleReachable<V(!new), E(!new)>(g: Graph<V, E>, np: V -> bool, ep: Edge<V, E> -> bool, s: V) {
    exists p :: |p| > 0 && p[0] == s && IsWalk(g, np, ep, p) && !Distinct(p)
  }

  /** No walk from `u` repeats a vertex or meets `X`. */
  ghost predicate Clear<V(!new), E(!new)>(g: Graph<V, E>, np: V -> bool, ep: Edge<V, E> -> bool, X: set<V>, u: V) {
    forall p :: |p| > 0 && p[0] == u && IsWalk(g, np, ep, p) ==>
      Distinct(p) && forall i :: 0 <= i < |p| ==> p[i] !in X
  }

  /** Every walk from a vertex of `S` stays in `S` and repeats no vertex. */
  ghost predicate SafeSet<V(!new), E(!new)>(g: Graph<V, E>, np: V -> bool, ep: Edge<V, E> -> bool, S: set<V>) {
    forall p :: |p| > 0 && p[0] in S && IsWalk(g, np, ep, p) ==>
      Distinct(p) && forall i :: 0 <= i < |p| ==> p[i] in S
  }

  // ---------------------------------------------------------------------------
  // Lemmas about walks
  // ---------------------------------------------------------------------------

  lemma WalkSlice<V(!new), E(!new)>(g: Graph<V, E>, np: V -> bool, ep: Edge<V, E> -> bool, p: seq<V>, i: nat, j: nat)
    requires IsWalk(g, np, ep, p) && i <= j <= |p|
    ensures IsWalk(g, np, ep, p[i..j])
  {
    forall k | 0 <= k < |p[i..j]| - 1 ensures Step(g, np, ep, p[i..j][k], p[i..j][k + 1]) {
      assert p[i..j][k] == p[i + k] && p[i..j][k + 1] == p[i + k + 1];
    }
  }

  lemma WalkExtend<V(!new), E(!new)>(g: Graph<V, E>, np: V -> bool, ep: Edge<V, E> -> bool, p: seq<V>, v: V)
    requires |p| > 0 && IsWalk(g, np, ep, p) && Step(g, np, ep, p[|p| - 1], v)
    ensures IsWalk(g, np, ep, p + [v])
  {
    var q := p + [v];
    forall k | 0 <= k < |q| - 1 ensures Step(g, np, ep, q[k], q[k + 1]) {
      if k < |p| - 1 {
        assert q[k] == p[k] && q[k + 1] == p[k + 1];
      }
    }
  }

  /** A walk that comes back to one of its own vertices closes a cycle. */
  lemma RepeatIsCycle<V(!new), E(!new)>(g: Graph<V, E>, np: V -> bool, ep: Edge<V, E> -> bool, p: seq<V>, i: nat, j: nat)
    requires IsWalk(g, np, ep, p) && i < j < |p| && p[i] == p[j]
    ensures HasCycle(g, np, ep)
  {
    WalkSlice(g, np, ep, p, i, j + 1);
    var q := p[i..j + 1];
    assert q[0] == p[i] && q[|q| - 1] == p[j];
  }

  /** A cycle reachable from a followed successor is reachable from its predecessor too. */
  lemma StepBack<V(!new), E(!new)>(g: Graph<V, E>, np: V -> bool, ep: Edge<V, E> -> bool, u: V, v: V)
    requires Step(g, np, ep, u, v) && CycleReachable(g, np, ep, v)
    ensures CycleReachable(g, np, ep, u)
  {
    var p :| |p| > 0 && p[0] == v && IsWalk(g, np, ep, p) && !Distinct(p);
    var i, j :| 0 <= i < j < |p| && p[i] == p[j];
    var q := [u] + p;
    forall k | 0 <= k < |q| - 1 ensures Step(g, np, ep, q[k], q[k + 1]) {
      if k > 0 {
        assert q[k] == p[k - 1] && q[k + 1] == p[k];
      }
    }
    assert q[i + 1] == q[j + 1];
  }

  /** A followed edge starts at a vertex of the graph and ends at one of its successors. */
  lemma StepSpec<V(!new), E(!new)>(g: Graph<V, E>, np: V -> bool, ep: Edge<V, E> -> bool, u: V, v: V)
    requires Valid(g) && Step(g, np, ep, u, v)
    ensures u in GetNodes(g) && v in GetNodes(g)
    ensures v in GetOutgoingNodes(g, Some(u)).value
  {
    var w :| Edge(u, w, v) in Edges(g) && ep(Edge(u, w, v));
    ValidEdge(g, u, w, v);
    GetOutgoingKeysSpec(g, u);
  }

  /** A vertex all of whose followed successors are clear of `X + {u}` is itself clear of `X`. */
  lemma ClearFromSuccessors<V(!new), E(!new)>(g: Graph<V, E>, np: V -> bool, ep: Edge<V, E> -> bool, X: set<V>, u: V)
    requires u !in X
    requires forall v :: Step(g, np, ep, u, v) ==> Clear(g, np, ep, X + {u}, v)
    ensures Clear(g, np, ep, X, u)
  {
    forall p | |p| > 0 && p[0] == u && IsWalk(g, np, ep, p)
      ensures Distinct(p) && forall i :: 0 <= i < |p| ==> p[i] !in X
    {
      if |p| > 1 {
        assert Step(g, np, ep, p[0], p[1]);
        WalkSlice(g, np, ep, p, 1, |p|);
        var q := p[1..];
        assert Clear(g, np, ep, X + {u}, q[0]);
        assert forall i :: 0 <= i < |q| ==> q[i] == p[i + 1];
      }
    }
  }

  /** A vertex of a safe set that meets nothing of `X` is clear of `X`. */
  lemma SafeClear<V(!new), E(!new)>(g: Graph<V, E>, np: V -> bool, ep: Edge<V, E> -> bool, S: set<V>, X: set<V>, u: V)
    requires SafeSet(g, np, ep, S) && u in S && S !! X
    ensures Clear(g, np, ep, X, u)
  {
  }

  /** A vertex whose followed successors are all safe is safe too. */
  lemma SafeExtend<V(!new), E(!new)>(g: Graph<V, E>, np: V -> bool, ep: Edge<V, E> -> bool, S: set<V>, u: V)
    requires SafeSet(g, np, ep, S) && u !in S
    requires forall v :: Step(g, np, ep, u, v) ==> v in S
    ensures SafeSet(g, np, ep, S + {u})
  {
    forall p | |p| > 0 && p[0] in S + {u} && IsWalk(g, np, ep, p)
      ensures Distinct(p) && forall i :: 0 <= i < |p| ==> p[i] in S + {u}
    {
      if p[0] == u && |p| > 1 {
        assert Step(g, np, ep, p[0], p[1]);
        WalkSlice(g, np, ep, p, 1, |p|);
        var q := p[1..];
        assert q[0] in S;
        assert forall i :: 0 <= i < |q| ==> q[i] == p[i + 1];
      }
    }
  }

  /** A reachable cycle is a cycle, and a cycle is reachable from each of its vertices. */
  lemma HasCycleIffReachable<V(!new), E(!new)>(g: Graph<V, E>, np: V -> bool, ep: Edge<V, E> -> bool)
    requires Valid(g)
    ensures HasCycle(g, np, ep) <==> exists s :: s in GetNodes(g) && CycleReachable(g, np, ep, s)
  {
    if HasCycle(g, np, ep) {
      var p :| |p| >= 2 && p[0] == p[|p| - 1] && IsWalk(g, np, ep, p);
      assert Step(g, np, ep, p[0], p[1]);
      StepSpec(g, np, ep, p[0], p[1]);
      assert !Distinct(p);
      assert CycleReachable(g, np, ep, p[0]);
    }
    if exists s :: s in GetNodes(g) && CycleReachable(g, np, ep, s) {
      var s :| s in GetNodes(g) && CycleReachable(g, np, ep, s);
      var p :| |p| > 0 && p[0] == s && IsWalk(g, np, ep, p) && !Distinct(p);
      var i, j :| 0 <= i < j < |p| && p[i] == p[j];
      RepeatIsCycle(g, np, ep, p, i, j);
    }
  }

  /** Clear of nothing is exactly: no cycle reachable. */
  lemma ClearIffNoReachableCycle<V(!new), E(!new)>(g: Graph<V, E>, np: V -> bool, ep: Edge<V, E> -> bool, s: V)
    ensures Clear(g, np, ep, {}, s) <==> !CycleReachable(g, np, ep, s)
  {
  }

  /** With every vertex clear there is no cycle. */
  lemma NoCycle<V(!new), E(!new)>(g: Graph<V, E>, np: V -> bool, ep: Edge<V, E> -> bool)
    requires Valid(g)
    requires forall u :: u in GetNodes(g) ==> Clear(g, np, ep, {}, u)
    ensures !HasCycle(g, np, ep)
  {
    HasCycleIffReachable(g, np, ep);
    forall s | s in GetNodes(g) ensures !CycleReachable(g, np, ep, s) {
      ClearIffNoReachableCycle(g, np, ep, s);
    }
  }

  // ---------------------------------------------------------------------------
  // The mutable sets
  // ---------------------------------------------------------------------------

  /** A `HashSet` of vertices. */
  class VertexSet<V(==)> {
    var elems: set<V>

    constructor ()
      ensures elems == {}
    {
      elems := {};
    }

    predicate Contains(v: V)
      reads this
    {
      v in elems
    }

    method Add(v: V)
      modifies this
      ensures elems == old(elems) + {v}
    {
      elems := elems + {v};
    }

    method Remove(v: V)
      modifies this
      ensures elems == old(elems) - {v}
    {
      elems := elems - {v};
    }

    method AddAll(other: VertexSet<V>)
      modifies this
      ensures elems == old(elems) + old(other.elems)
    {
      elems := elems + other.elems;
    }
  }

  // ---------------------------------------------------------------------------
  // cycleDetectionHelper and hasCycles as written
  // ---------------------------------------------------------------------------

  /** The followed-edge test of the loop: `next` passes the node filter and some weight of
      `getEdges(curr, next)` passes the edge filter. */
  predicate Follows<V(!new), E(!new)>(g: Graph<V, E>, np: V -> bool, ep: Edge<V, E> -> bool, curr: V, next: V)
    requires ContainsNode(g, Some(curr)) && ContainsNode(g, Some(next))
  {
    np(next) && exists w :: w in GetEdges(g, Some(curr), Some(next)).value && ep(Edge(curr, w, next))
  }

  lemma FollowsSpec<V(!new), E(!new)>(g: Graph<V, E>, np: V -> bool, ep: Edge<V, E> -> bool, curr: V, next: V)
    requires Valid(g) && curr in GetNodes(g) && next in GetNodes(g)
    ensures Follows(g, np, ep, curr, next) <==> Step(g, np, ep, curr, next)
  {
    GetEdgesSpec(g, curr, next);
  }

  /** `cycleDetectionHelper`: `visited` holds the current path (`path`), `curr` extends it.
      True only when a cycle exists; false leaves `visited` as it was, and then no walk
      from `curr` repeats a vertex or meets the path. */
  method CycleDetectionHelper<V(!new), E(!new)>(g: Graph<V, E>, np: V -> bool, ep: Edge<V, E> -> bool,
                                                 safe: VertexSet<V>, visited: VertexSet<V>, curr: V, ghost path: seq<V>)
    returns (found: bool)
    requires Valid(g) && safe != visited
    requires curr in GetNodes(g) && visited.elems <= GetNodes(g)
    requires visited.elems == set x | x in path
    requires IsWalk(g, np, ep, path + [curr])
    requires SafeSet(g, np, ep, safe.elems) && safe.elems !! visited.elems
    modifies visited
    decreases GetNodes(g) - visited.elems, 0
    ensures found ==> HasCycle(g, np, ep) && CycleReachable(g, np, ep, (path + [curr])[0])
    ensures !found ==> visited.elems == old(visited.elems) && Clear(g, np, ep, old(visited.elems), curr)
  {
    if safe.Contains(curr) {
      SafeClear(g, np, ep, safe.elems, visited.elems, curr);
      return false;
    }
    if visited.Contains(curr) {
      ghost var i :| 0 <= i < |path| && path[i] == curr;
      RepeatIsCycle(g, np, ep, path + [curr], i, |path|);
      assert !Distinct(path + [curr]);
      return true;
    }
    ghost var before := visited.elems;
    visited.Add(curr);
    found := FollowSuccessors(g, np, ep, safe, visited, curr, path);
    if found {
      return true;
    }
    visited.Remove(curr);
    ClearFromSuccessors(g, np, ep, before, curr);
    return false;
  }

  /** The loop of `cycleDetectionHelper` over the successors of `curr`, with `curr` already on
      the path: true only when a cycle exists; false leaves `visited` as it was, and then every
      followed successor of `curr` is clear of the path. */
  method FollowSuccessors<V(!new), E(!new)>(g: Graph<V, E>, np: V -> bool, ep: Edge<V, E> -> bool,
                                             safe: VertexSet<V>, visited: VertexSet<V>, curr: V, ghost path: seq<V>)
    returns (found: bool)
    requires Valid(g) && safe != visited
    requires curr in GetNodes(g) && visited.elems <= GetNodes(g)
    requires visited.elems == set x | x in path + [curr]
    requires IsWalk(g, np, ep, path + [curr])
    requires SafeSet(g, np, ep, safe.elems) && safe.elems !! visited.elems
    modifies visited
    decreases GetNodes(g) - visited.elems, 1
    ensures found ==> HasCycle(g, np, ep) && CycleReachable(g, np, ep, (path + [curr])[0])
    ensures !found ==> visited.elems == old(visited.elems)
    ensures !found ==> forall v :: Step(g, np, ep, curr, v) ==> Clear(g, np, ep, old(visited.elems), v)
  {
    GetOutgoingKeysSpec(g, curr);
    var nexts := GetOutgoingNodes(g, Some(curr)).value;
    var todo := nexts;
    ghost var done: set<V> := {};
    while todo != {}
      invariant todo !! done && todo + done == nexts
      invariant visited.elems == old(visited.elems)
      invariant forall v :: v in done && Step(g, np, ep, curr, v) ==> Clear(g, np, ep, visited.elems, v)
      decreases todo
    {
      var next :| next in todo;
      SuccessorIsNode(g, curr, next);
      FollowsSpec(g, np, ep, curr, next);
      if Follows(g, np, ep, curr, next) {
        WalkExtend(g, np, ep, path + [curr], next);
        var r := CycleDetectionHelper(g, np, ep, safe, visited, next, path + [curr]);
        if r {
          assert (path + [curr] + [next])[0] == (path + [curr])[0];
          return true;
        }
      }
      todo := todo - {next};
      done := done + {next};
    }
    forall v | Step(g, np, ep, curr, v) ensures Clear(g, np, ep, visited.elems, v) {
      StepSpec(g, np, ep, curr, v);
    }
    return false;
  }

  lemma SuccessorIsNode<V(!new), E(!new)>(g: Graph<V, E>, curr: V, next: V)
    requires Valid(g) && curr in GetNodes(g) && next in GetOutgoingNodes(g, Some(curr)).value
    ensures next in GetNodes(g)
  {
    GetOutgoingKeysSpec(g, curr);
    var w :| Edge(curr, w, next) in Edges(g);
    ValidEdge(g, curr, w, next);
  }

  /** `hasCycles(nodePredicate, edgePredicate)`: true exactly when the filtered graph has a cycle.
      `memo` is `safe` at the end: nothing was ever added to it. */
  method HasCycles<V(!new), E(!new)>(g: Graph<V, E>, np: V -> bool, ep: Edge<V, E> -> bool)
    returns (found: bool, ghost memo: set<V>)
    requires Valid(g)
    ensures found <==> HasCycle(g, np, ep)
    ensures memo == {}
  {
    var safe := new VertexSet<V>();
    var visited := new VertexSet<V>();
    var nodes := GetNodes(g);
    var todo := nodes;
    while todo != {}
      invariant todo <= nodes
      invariant safe != visited && fresh(visited)
      invariant safe.elems == {} && visited.elems == {}
      invariant forall u :: u in nodes - todo ==> Clear(g, np, ep, {}, u)
      decreases todo
    {
      var node :| node in todo;
      assert [] + [node] == [node];
      var r := CycleDetectionHelper(g, np, ep, safe, visited, node, []);
      if r {
        return true, safe.elems;
      }
      safe.AddAll(visited);
      visited := new VertexSet<V>();
      todo := todo - {node};
    }
    NoCycle(g, np, ep);
    return false, safe.elems;
  }

  /** `hasCycles(nodePredicate, edgePredicate, node)`: whether a cycle is reachable from `node`;
      a null or absent start dereferences the null `getOutgoingNodes` result. */
  method HasCyclesFrom<V(!new), E(!new)>(g: Graph<V, E>, np: V -> bool, ep: Edge<V, E> -> bool, start: Option<V>)
    returns (r: Result<bool>)
    requires Valid(g)
    ensures !ContainsNode(g, start) <==> r == Failure(NullPointer)
    ensures ContainsNode(g, start) ==> r.Success? && (r.value <==> CycleReachable(g, np, ep, start.value))
  {
    if !ContainsNode(g, start) {
      return Failure(NullPointer);
    }
    var safe := new VertexSet<V>();
    var visited := new VertexSet<V>();
    assert [] + [start.value] == [start.value];
    var found := CycleDetectionHelper(g, np, ep, safe, visited, start.value, []);
    if !found {
      ClearIffNoReachableCycle(g, np, ep, start.value);
    }
    r := Success(found);
  }

  // ---------------------------------------------------------------------------
  // The memo as evidently intended: a vertex explored without finding a cycle is safe
  // ---------------------------------------------------------------------------

  /** `cycleDetectionHelper` with `curr` added to `safe` where it leaves `visited`:
      on false, `curr` and everything reachable from it end up in `safe`. */
  method CycleDetectionMemo<V(!new), E(!new)>(g: Graph<V, E>, np: V -> bool, ep: Edge<V, E> -> bool,
                                               safe: VertexSet<V>, visited: VertexSet<V>, curr: V, ghost path: seq<V>)
    returns (found: bool)
    requires Valid(g) && safe != visited
    requires curr in GetNodes(g) && visited.elems <= GetNodes(g) && safe.elems <= GetNodes(g)
    requires visited.elems == set x | x in path
    requires IsWalk(g, np, ep, path + [curr])
    requires SafeSet(g, np, ep, safe.elems) && safe.elems !! visited.elems
    modifies visited, safe
    decreases GetNodes(g) - visited.elems, 0
    ensures found ==> HasCycle(g, np, ep) && CycleReachable(g, np, ep, (path + [curr])[0])
    ensures !found ==> visited.elems == old(visited.elems) && curr in safe.elems
    ensures !found ==> old(safe.elems) <= safe.elems <= GetNodes(g) && SafeSet(g, np, ep, safe.elems)
    ensures !found ==> safe.elems !! visited.elems
  {
    if safe.Contains(curr) {
      return false;
    }
    if visited.Contains(curr) {
      ghost var i :| 0 <= i < |path| && path[i] == curr;
      RepeatIsCycle(g, np, ep, path + [curr], i, |path|);
      assert !Distinct(path + [curr]);
      return true;
    }
    visited.Add(curr);
    found := FollowSuccessorsMemo(g, np, ep, safe, visited, curr, path);
    if found {
      return true;
    }
    visited.Remove(curr);
    SafeExtend(g, np, ep, safe.elems, curr);
    safe.Add(curr);
    return false;
  }

  /** The loop of the memoising helper over the successors of `curr`: on false every followed
      successor of `curr` has been made safe. */
  method FollowSuccessorsMemo<V(!new), E(!new)>(g: Graph<V, E>, np: V -> bool, ep: Edge<V, E> -> bool,
                                                 safe: VertexSet<V>, visited: VertexSet<V>, curr: V, ghost path: seq<V>)
    returns (found: bool)
    requires Valid(g) && safe != visited
    requires curr in GetNodes(g) && visited.elems <= GetNodes(g) && safe.elems <= GetNodes(g)
    requires visited.elems == set x | x in path + [curr]
    requires IsWalk(g, np, ep, path + [curr])
    requires SafeSet(g, np, ep, safe.elems) && safe.elems !! visited.elems
    modifies visited, safe
    decreases GetNodes(g) - visited.elems, 1
    ensures found ==> HasCycle(g, np, ep) && CycleReachable(g, np, ep, (path + [curr])[0])
    ensures !found ==> visited.elems == old(visited.elems)
    ensures !found ==> old(safe.elems) <= safe.elems <= GetNodes(g) && SafeSet(g, np, ep, safe.elems)
    ensures !found ==> safe.elems !! visited.elems
    ensures !found ==> forall v :: Step(g, np, ep, curr, v) ==> v in safe.elems
  {
    GetOutgoingKeysSpec(g, curr);
    var nexts := GetOutgoingNodes(g, Some(curr)).value;
    var todo := nexts;
    ghost var done: set<V> := {};
    while todo != {}
      invariant todo !! done && todo + done == nexts
      invariant visited.elems == old(visited.elems)
      invariant old(safe.elems) <= safe.elems <= GetNodes(g) && SafeSet(g, np, ep, safe.elems)
      invariant safe.elems !! visited.elems
      invariant forall v :: v in done && Step(g, np, ep, curr, v) ==> v in safe.elems
      decreases todo
    {
      var next :| next in todo;
      SuccessorIsNode(g, curr, next);
      FollowsSpec(g, np, ep, curr, next);
      if Follows(g, np, ep, curr, next) {
        WalkExtend(g, np, ep, path + [curr], next);
        var r := CycleDetectionMemo(g, np, ep, safe, visited, next, path + [curr]);
        if r {
          assert (path + [curr] + [next])[0] == (path + [curr])[0];
          return true;
        }
      }
      todo := todo - {next};
      done := done + {next};
    }
    forall v | Step(g, np, ep, curr, v) ensures v in safe.elems {
      StepSpec(g, np, ep, curr, v);
    }
    return false;
  }

  /** `hasCycles(nodePredicate, edgePredicate)` over the memoising helper: the same answer,
      and without a cycle every vertex of the graph ends up in `safe`. */
  method HasCyclesMemo<V(!new), E(!new)>(g: Graph<V, E>, np: V -> bool, ep: Edge<V, E> -> bool)
    returns (found: bool, ghost memo: set<V>)
    requires Valid(g)
    ensures found <==> HasCycle(g, np, ep)
    ensures !found ==> memo == GetNodes(g)
  {
    var safe := new VertexSet<V>();
    var visited := new VertexSet<V>();
    var nodes := GetNodes(g);
    var todo := nodes;
    while todo != {}
      invariant todo <= nodes
      invariant safe != visited && fresh(visited)
      invariant visited.elems == {}
      invariant nodes - todo <= safe.elems <= nodes && SafeSet(g, np, ep, safe.elems)
      decreases todo
    {
      var node :| node in todo;
      assert [] + [node] == [node];
      var r := CycleDetectionMemo(g, np, ep, safe, visited, node, []);
      if r {
        return true, safe.elems;
      }
      safe.AddAll(visited);
      visited := new VertexSet<V>();
      todo := todo - {node};
    }
    forall u | u in nodes ensures Clear(g, np, ep, {}, u) {
      SafeClear(g, np, ep, safe.elems, {}, u);
    }
    NoCycle(g, np, ep);
    return false, safe.elems;
  }
}
