/** The graphs of the `cycle1` … `cycle4` cases of `GraphTest`, with what `HasCycle` and
    `CycleReachable` say about them under every pair of filters the cases use. */
module CycleCases {
  import opened Common
  import opened Graphs
  import opened Cycles

  /** The vertex names of the cases. */
  datatype Name = A | B | C | D | E | F | G | H

  function T(a: Name, w: int, c: Name): Triple<Name, int> {
    Triple(Some(a), Some(w), Some(c))
  }

  // ---------------------------------------------------------------------------
  // Ranks: a walk along which a rank strictly increases repeats no vertex
  // ---------------------------------------------------------------------------

  /** Walks from `S` stay in `S` and climb `rank` when every followed edge out of `S` does. */
  lemma {:induction false} WalkClimbs<V(!new), E(!new)>(g: Graph<V, E>, np: V -> bool, ep: Edge<V, E> -> bool,
                                                       S: set<V>, rank: V -> int, p: seq<V>)
    requires forall u, v :: u in S && Step(g, np, ep, u, v) ==> v in S && rank(u) < rank(v)
    requires |p| > 0 && p[0] in S && IsWalk(g, np, ep, p)
    ensures forall i :: 0 <= i < |p| ==> p[i] in S
    ensures forall i, j :: 0 <= i < j < |p| ==> rank(p[i]) < rank(p[j])
    decreases |p|
  {
    if |p| > 1 {
      var q := p[..|p| - 1];
      WalkSlice(g, np, ep, p, 0, |p| - 1);
      WalkClimbs(g, np, ep, S, rank, q);
      assert forall i :: 0 <= i < |q| ==> q[i] == p[i];
      assert Step(g, np, ep, p[|p| - 2], p[|p| - 1]);
    }
  }

  /** No cycle is reachable from a vertex of a set that is closed under followed edges,
      all of which climb a rank. */
  lemma RankedClear<V(!new), E(!new)>(g: Graph<V, E>, np: V -> bool, ep: Edge<V, E> -> bool,
                                      S: set<V>, rank: V -> int, s: V)
    requires forall u, v :: u in S && Step(g, np, ep, u, v) ==> v in S && rank(u) < rank(v)
    requires s in S
    ensures !CycleReachable(g, np, ep, s)
  {
    forall p | |p| > 0 && p[0] == s && IsWalk(g, np, ep, p) ensures Distinct(p) {
      WalkClimbs(g, np, ep, S, rank, p);
    }
  }

  /** A graph whose followed edges all climb a rank has no cycle. */
  lemma RankedAcyclic<V(!new), E(!new)>(g: Graph<V, E>, np: V -> bool, ep: Edge<V, E> -> bool, rank: V -> int)
    requires Valid(g)
    requires forall u, v :: Step(g, np, ep, u, v) ==> rank(u) < rank(v)
    ensures !HasCycle(g, np, ep)
  {
    forall u, v | u in GetNodes(g) && Step(g, np, ep, u, v) ensures v in GetNodes(g) {
      StepSpec(g, np, ep, u, v);
    }
    HasCycleIffReachable(g, np, ep);
    forall s | s in GetNodes(g) ensures !CycleReachable(g, np, ep, s) {
      RankedClear(g, np, ep, GetNodes(g), rank, s);
    }
  }

  // ---------------------------------------------------------------------------
  // cycle1 and cycle3. Each case holds for every valid graph with exactly the edges of the
  // case's triples, which `OfSpec` says is what `Of` builds from them.
  // ---------------------------------------------------------------------------

  function Flat(v: Name): int {
    0
  }

  /** `a` below every other vertex. */
  function SourceFirst(v: Name): int {
    if v == A then 0 else 1
  }

  function TriangleRank(v: Name): int {
    if v == A then 0 else if v == C then 1 else 2
  }

  lemma EmptyHasNoCycle(g: Graph<Name, int>, np: Name -> bool, ep: Edge<Name, int> -> bool)
    requires Valid(g) && Edges(g) == TripleEdges([])
    ensures !HasCycle(g, np, ep)
  {
    RankedAcyclic(g, np, ep, Flat);
  }

  /** One edge `a -> b`: no cycle whatever the filters. */
  lemma OneEdgeHasNoCycle(g: Graph<Name, int>, np: Name -> bool, ep: Edge<Name, int> -> bool)
    requires Valid(g) && Edges(g) == TripleEdges([T(A, 0, B)])
    ensures !HasCycle(g, np, ep)
  {
    assert Edges(g) == {Edge(A, 0, B)};
    RankedAcyclic(g, np, ep, SourceFirst);
  }

  /** `a -> b` and `b -> a`: a cycle exactly when both vertices and both edges pass the filters,
      whatever the two weights. */
  lemma TwoCycle(g: Graph<Name, int>, w0: int, w1: int, np: Name -> bool, ep: Edge<Name, int> -> bool)
    requires Valid(g) && Edges(g) == TripleEdges([T(A, w0, B), T(B, w1, A)])
    ensures HasCycle(g, np, ep) <==> np(A) && np(B) && ep(Edge(A, w0, B)) && ep(Edge(B, w1, A))
  {
    assert Edges(g) == {Edge(A, w0, B), Edge(B, w1, A)};
    if np(A) && np(B) && ep(Edge(A, w0, B)) && ep(Edge(B, w1, A)) {
      var p := [A, B, A];
      assert Step(g, np, ep, p[0], p[1]) && Step(g, np, ep, p[1], p[2]);
      assert IsWalk(g, np, ep, p);
    }
    if HasCycle(g, np, ep) {
      var p :| |p| >= 2 && p[0] == p[|p| - 1] && IsWalk(g, np, ep, p);
      assert Step(g, np, ep, p[0], p[1]);
      assert Step(g, np, ep, p[|p| - 2], p[|p| - 1]);
    }
  }

  /** `a -> b`, `a -> c`, `c -> b`: no cycle whatever the filters. */
  lemma TriangleHasNoCycle(g: Graph<Name, int>, np: Name -> bool, ep: Edge<Name, int> -> bool)
    requires Valid(g) && Edges(g) == TripleEdges([T(A, 0, B), T(A, 0, C), T(C, 0, B)])
    ensures !HasCycle(g, np, ep)
  {
    assert Edges(g) == {Edge(A, 0, B), Edge(A, 0, C), Edge(C, 0, B)};
    RankedAcyclic(g, np, ep, TriangleRank);
  }

  // ---------------------------------------------------------------------------
  // cycle2: a self-loop that the edge filter rejects
  // ---------------------------------------------------------------------------

  lemma FilteredSelfLoop(g: Graph<Name, int>, np: Name -> bool)
    requires Valid(g) && Edges(g) == TripleEdges([T(A, 0, B), T(B, 0, B)])
    ensures !HasCycle(g, np, (e: Edge<Name, int>) => e.src != e.dst)
  {
    assert Edges(g) == {Edge(A, 0, B), Edge(B, 0, B)};
    RankedAcyclic(g, np, (e: Edge<Name, int>) => e.src != e.dst, SourceFirst);
  }

  // ---------------------------------------------------------------------------
  // cycle4: a cycle b -> c -> d -> b with a tail e -> f -> {g, h} hanging off it
  // ---------------------------------------------------------------------------

  function Cycle4(): seq<Triple<Name, int>> {
    [T(A, 0, B), T(B, 0, C), T(C, 0, D), T(D, 0, B), T(D, 0, E), T(E, 0, F), T(F, 0, G), T(F, 0, H)]
  }

  ghost function Cycle4Edges(): set<Edge<Name, int>> {
    {Edge(A, 0, B), Edge(B, 0, C), Edge(C, 0, D), Edge(D, 0, B),
     Edge(D, 0, E), Edge(E, 0, F), Edge(F, 0, G), Edge(F, 0, H)}
  }

  lemma Cycle4EdgeSet()
    ensures TripleEdges(Cycle4()) == Cycle4Edges()
  {
  }

  lemma Cycle4Loop(g: Graph<Name, int>, np: Name -> bool, ep: Edge<Name, int> -> bool, s: Name)
    requires Edges(g) == Cycle4Edges() && s in {A, B, C, D}
    requires np(B) && np(C) && np(D)
    requires ep(Edge(B, 0, C)) && ep(Edge(C, 0, D)) && ep(Edge(D, 0, B)) && ep(Edge(A, 0, B))
    ensures CycleReachable(g, np, ep, s)
  {
    Cycle4Steps(g, np, ep);
    var p := [B, C, D, B];
    forall i | 0 <= i < |p| - 1 ensures Step(g, np, ep, p[i], p[i + 1]) {
    }
    assert p[0] == p[3];
    StepBack(g, np, ep, D, B);
    StepBack(g, np, ep, C, D);
    StepBack(g, np, ep, A, B);
  }

  lemma Cycle4Steps(g: Graph<Name, int>, np: Name -> bool, ep: Edge<Name, int> -> bool)
    requires Edges(g) == Cycle4Edges()
    requires np(B) && np(C) && np(D)
    requires ep(Edge(B, 0, C)) && ep(Edge(C, 0, D)) && ep(Edge(D, 0, B)) && ep(Edge(A, 0, B))
    ensures Step(g, np, ep, A, B) && Step(g, np, ep, B, C) && Step(g, np, ep, C, D) && Step(g, np, ep, D, B)
  {
    assert Edge(A, 0, B) in Edges(g) && Edge(B, 0, C) in Edges(g);
    assert Edge(C, 0, D) in Edges(g) && Edge(D, 0, B) in Edges(g);
  }

  lemma Cycle4Tail(g: Graph<Name, int>, s: Name)
    requires Edges(g) == Cycle4Edges() && s in {E, F, G, H}
    ensures !CycleReachable(g, _ => true, _ => true, s)
  {
    Cycle4TailClimbs(g, _ => true, _ => true);
    RankedClear(g, _ => true, _ => true, {E, F, G, H}, TailRank, s);
  }

  function TailRank(v: Name): int {
    if v == E then 0 else if v == F then 1 else 2
  }

  /** Followed edges out of the tail stay in the tail and climb `TailRank`. */
  lemma Cycle4TailClimbs(g: Graph<Name, int>, np: Name -> bool, ep: Edge<Name, int> -> bool)
    requires Edges(g) == Cycle4Edges()
    ensures forall u, v :: u in {E, F, G, H} && Step(g, np, ep, u, v) ==> v in {E, F, G, H} && TailRank(u) < TailRank(v)
  {
    forall u, v | u in {E, F, G, H} && Step(g, np, ep, u, v) ensures v in {E, F, G, H} && TailRank(u) < TailRank(v) {
      var w :| Edge(u, w, v) in Edges(g) && ep(Edge(u, w, v));
      Cycle4TailEdge(u, w, v);
    }
  }

  /** The edges of `cycle4` that leave `e`, `f`, `g` or `h`. */
  lemma Cycle4TailEdge(u: Name, w: int, v: Name)
    requires Edge(u, w, v) in Cycle4Edges() && u in {E, F, G, H}
    ensures (u == E && v == F) || (u == F && (v == G || v == H))
  {
  }

  /** With filters that pass everything, a cycle is reachable from `a`, `b`, `c` and `d`
      and from none of `e`, `f`, `g`, `h`. */
  lemma Cycle4Reachable(g: Graph<Name, int>, s: Name)
    requires Valid(g) && Edges(g) == TripleEdges(Cycle4())
    ensures CycleReachable(g, _ => true, _ => true, s) <==> s in {A, B, C, D}
  {
    Cycle4EdgeSet();
    if s in {A, B, C, D} {
      Cycle4Loop(g, _ => true, _ => true, s);
    } else {
      Cycle4Tail(g, s);
    }
  }
}
