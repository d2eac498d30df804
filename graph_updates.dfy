/** The `GraphImpl` operations whose helpers loop over a map and reassign local
    variables: `removeNode`, `removeEdges`, the reversal of an index, `size()` and
    `get(int)`. Each helper is a method proved against a function that states its
    result; the lemmas relate those functions to the edge set of `Graphs`. */
module GraphUpdates {
  import opened Common
  import opened Graphs

  // ---------------------------------------------------------------------------
  // removeNode
  // ---------------------------------------------------------------------------

  /** The weight map of a neighbour once `node` is dropped from the sets of the weights `ws`;
      a set that becomes empty loses its key, and so does a weight of `ws` that was absent. */
  function StripWeights<V(!new), E(!new)>(ev: map<E, set<V>>, ws: set<E>, node: V): (r: map<E, set<V>>)
    ensures forall w :: w in r && r[w] == {} ==> w in ev && ev[w] == {}
  {
    map w | w in ev && (w in ws ==> ev[w] - {node} != {}) :: if w in ws then ev[w] - {node} else ev[w]
  }

  lemma StripWeightsHas<V(!new), E(!new)>(ev: map<E, set<V>>, ws: set<E>, node: V)
    ensures forall w, v :: (w in StripWeights(ev, ws, node) && v in StripWeights(ev, ws, node)[w])
                           <==> (w in ev && v in ev[w] && (w in ws ==> v != node))
  {
    var r := StripWeights(ev, ws, node);
    forall w, v ensures (w in r && v in r[w]) <==> (w in ev && v in ev[w] && (w in ws ==> v != node)) {
      if w in ev && v in ev[w] && (w in ws ==> v != node) {
        if w in ws {
          assert v in ev[w] - {node};
        }
      }
    }
  }

  /** The pair of a neighbour once `node` is dropped: its `byVertex` loses the key `node`. */
  function StripIndex<V(!new), E(!new)>(ix: Index<V, E>, ws: set<E>, node: V): (r: Index<V, E>)
    ensures r.byVertex.Keys == ix.byVertex.Keys - {node}
  {
    Index(ix.byVertex - {node}, StripWeights(ix.byWeight, ws, node))
  }

  /** `map` after the neighbours in `done` (keys of `preds`) have been stripped of `node`. */
  function Stripped<V(!new), E(!new)>(m: Adjacency<V, E>, preds: map<V, set<E>>, done: set<V>, node: V): (r: Adjacency<V, E>)
    requires done <= preds.Keys
    ensures r.Keys == m.Keys + done
  {
    map u | u in m.Keys + done :: if u in done then StripIndex(IndexAt(m, u), preds[u], node) else m[u]
  }

  /** The inner loop of `removeNodeHelper`: drop `node` from the set of each weight in `ws`. */
  method StripWeightsLoop<V(!new), E(!new)>(ev0: map<E, set<V>>, ws: set<E>, node: V) returns (ev: map<E, set<V>>)
    ensures ev == StripWeights(ev0, ws, node)
  {
    ev := ev0;
    var vals := ws;
    ghost var done: set<E> := {};
    while vals != {}
      invariant vals !! done && vals + done == ws
      invariant ev == StripWeights(ev0, done, node)
      decreases vals
    {
      var val :| val in vals;
      StripWeightsStep(ev0, done, val, node);
      ev := ev[val := SetAt(ev, val) - {node}];
      if ev[val] == {} {
        ev := ev - {val};
      }
      vals := vals - {val};
      done := done + {val};
    }
  }

  lemma StripWeightsStep<V(!new), E(!new)>(ev0: map<E, set<V>>, done: set<E>, val: E, node: V)
    requires val !in done
    ensures var ev := StripWeights(ev0, done, node);
            var ev' := ev[val := SetAt(ev, val) - {node}];
            (if ev'[val] == {} then ev' - {val} else ev') == StripWeights(ev0, done + {val}, node)
  {
  }

  lemma StrippedStep<V(!new), E(!new)>(m0: Adjacency<V, E>, preds: map<V, set<E>>, done: set<V>, u: V, node: V)
    requires done <= preds.Keys && u in preds && u !in done
    ensures Stripped(m0, preds, done, node)[u := StripIndex(IndexAt(m0, u), preds[u], node)]
            == Stripped(m0, preds, done + {u}, node)
  {
  }

  /** `removeNodeHelper(map, reference, node)`: every neighbour `u` that `reference` records for
      `node` has `node` removed from its pair in `map`; the pair is written back even when empty. */
  method RemoveNodeHelper<V(!new), E(!new)>(m0: Adjacency<V, E>, reference: Adjacency<V, E>, node: V) returns (m: Adjacency<V, E>)
    ensures m == Stripped(m0, IndexAt(reference, node).byVertex, IndexAt(reference, node).byVertex.Keys, node)
  {
    var preds := IndexAt(reference, node).byVertex;
    m := m0;
    var todo := preds.Keys;
    ghost var done: set<V> := {};
    while todo != {}
      invariant todo !! done && todo + done == preds.Keys
      invariant m == Stripped(m0, preds, done, node)
      decreases todo
    {
      var u :| u in todo;
      var other := IndexAt(m, u);
      assert other == IndexAt(m0, u);
      var ve := other.byVertex - {node};
      var ev := StripWeightsLoop(other.byWeight, preds[u], node);
      StrippedStep(m0, preds, done, u, node);
      m := m[u := Index(ve, ev)];
      todo := todo - {u};
      done := done + {u};
    }
  }

  /** The graph `removeNode` builds from a present vertex. */
  function WithoutNode<V(!new), E(!new)>(g: Graph<V, E>, n: V): Graph<V, E> {
    var po := IndexAt(g.incoming, n).byVertex;
    var pi := IndexAt(g.outgoing, n).byVertex;
    Graph(Stripped(g.outgoing, po, po.Keys, n) - {n}, Stripped(g.incoming, pi, pi.Keys, n) - {n})
  }

  /** `removeNode`: the receiver for a null or absent vertex, else both indices stripped and `node` dropped. */
  method RemoveNode<V(!new), E(!new)>(g: Graph<V, E>, node: Option<V>) returns (r: Graph<V, E>)
    ensures !ContainsNode(g, node) ==> r == g
    ensures ContainsNode(g, node) ==> r == WithoutNode(g, node.value)
  {
    if !ContainsNode(g, node) {
      return g;
    }
    var out := RemoveNodeHelper(g.outgoing, g.incoming, node.value);
    var inc := RemoveNodeHelper(g.incoming, g.outgoing, node.value);
    r := Graph(out - {node.value}, inc - {node.value});
  }

  /** The edges that do not touch `n`. */
  ghost function Detached<V(!new), E(!new)>(es: set<Edge<V, E>>, n: V): set<Edge<V, E>> {
    set e | e in es && e.src != n && e.dst != n
  }

  /** A stripped pair stays well formed when `ws` covers every weight of an edge to `n`. */
  lemma StripIndexSpec<V(!new), E(!new)>(ix: Index<V, E>, ws: set<E>, n: V)
    requires IndexWF(ix)
    requires forall w :: InByWeight(ix, n, w) ==> w in ws
    ensures IndexWF(StripIndex(ix, ws, n))
    ensures forall v, w :: InByWeight(StripIndex(ix, ws, n), v, w) <==> InByWeight(ix, v, w) && v != n
  {
    var r := StripIndex(ix, ws, n);
    StripWeightsHas(ix.byWeight, ws, n);
    forall v, w ensures InByWeight(r, v, w) <==> InByWeight(ix, v, w) && v != n {
      if InByWeight(ix, v, w) && v == n {
        assert w in ws;
      }
    }
    forall v, w ensures InByVertex(r, v, w) <==> InByWeight(r, v, w) {
      assert InByVertex(r, v, w) <==> InByVertex(ix, v, w) && v != n;
    }
  }

  /** One index of `removeNode`: every edge touching `n` is gone, every other edge stays. */
  lemma StrippedSpec<V(!new), E(!new)>(m: Adjacency<V, E>, ref: Adjacency<V, E>, n: V)
    requires AdjacencyWF(m) && AdjacencyWF(ref)
    requires forall u, w, v :: Has(m, u, w, v) <==> Has(ref, v, w, u)
    ensures var po := IndexAt(ref, n).byVertex;
            var r := Stripped(m, po, po.Keys, n) - {n};
            && AdjacencyWF(r)
            && (forall u, w, v :: Has(r, u, w, v) <==> Has(m, u, w, v) && u != n && v != n)
            && r.Keys == m.Keys - {n}
  {
    var po := IndexAt(ref, n).byVertex;
    var s := Stripped(m, po, po.Keys, n);
    var r := s - {n};
    assert n in ref ==> IndexWF(ref[n]);
    forall u | u in po ensures u in m {
      var w :| w in po[u];
      assert InByVertex(ref[n], u, w);
      assert Has(ref, n, w, u);
    }
    forall u | u in r
      ensures IndexWF(r[u])
      ensures forall w, v :: Has(r, u, w, v) <==> Has(m, u, w, v) && v != n
    {
      assert IndexWF(m[u]);
      if u in po {
        forall w | InByWeight(m[u], n, w) ensures w in po[u] {
          assert Has(m, u, w, n);
          assert Has(ref, n, w, u);
          assert InByWeight(ref[n], u, w);
        }
        StripIndexSpec(m[u], po[u], n);
        assert r[u] == StripIndex(m[u], po[u], n);
        forall w, v ensures Has(r, u, w, v) <==> Has(m, u, w, v) && v != n {
          assert Has(r, u, w, v) <==> InByWeight(r[u], v, w);
          assert Has(m, u, w, v) <==> InByWeight(m[u], v, w);
        }
      } else {
        forall w, v ensures Has(r, u, w, v) <==> Has(m, u, w, v) && v != n {
          if Has(m, u, w, n) {
            assert Has(ref, n, w, u);
            assert InByWeight(ref[n], u, w);
            assert false;
          }
        }
      }
    }
  }

  /** `removeNode` of a present vertex keeps the invariant, drops exactly the edges touching it,
      and drops the vertex itself; every other vertex stays, even one left without edges. */
  lemma {:induction false} WithoutNodeSpec<V(!new), E(!new)>(g: Graph<V, E>, n: V)
    requires Valid(g)
    ensures Valid(WithoutNode(g, n))
    ensures Edges(WithoutNode(g, n)) == Detached(Edges(g), n)
    ensures GetNodes(WithoutNode(g, n)) == GetNodes(g) - {n}
    ensures !ContainsNode(WithoutNode(g, n), Some(n))
  {
    WithoutNodeIndices(g, n);
    DetachedEdges(g, WithoutNode(g, n), n);
  }

  /** The graph holding the single edge `0 -7-> 1`. */
  function SingleEdge(): (g: Graph<int, int>)
    ensures Edges(g) == {Edge(0, 7, 1)} && GetNodes(g) == {0, 1}
  {
    Graph(map[0 := Index(map[1 := {7}], map[7 := {1}])], map[1 := Index(map[0 := {7}], map[7 := {0}])])
  }

  /** `removeNode(0)` on `0 -7-> 1` leaves no edge and an `outgoing` equal to that of the empty
      graph, yet keeps vertex 1 under an empty pair of `incoming`: the result is not compact, and
      `equals` compares it equal to `EMPTY`. */
  lemma RemoveNodeLeavesEmptyPair()
    ensures Valid(SingleEdge()) && Compact(SingleEdge()) && ContainsNode(SingleEdge(), Some(0))
    ensures WithoutNode(SingleEdge(), 0).outgoing == Empty<int, int>().outgoing
    ensures Edges(WithoutNode(SingleEdge(), 0)) == {}
    ensures GetNodes(WithoutNode(SingleEdge(), 0)) == {1}
    ensures WithoutNode(SingleEdge(), 0).incoming == map[1 := EmptyIndex()]
    ensures !Compact(WithoutNode(SingleEdge(), 0))
  {
    SingleEdgeValid();
    SingleEdgeWithoutNode();
    var r := WithoutNode(SingleEdge(), 0);
    assert r.outgoing == map[];
    assert r.incoming[1].byVertex == map[];
  }

  lemma SingleEdgeValid()
    ensures Valid(SingleEdge()) && Compact(SingleEdge())
  {
    var g := SingleEdge();
    assert forall u, w, v :: Has(g.outgoing, u, w, v) ==> u == 0 && w == 7 && v == 1;
    assert forall u, w, v :: Has(g.incoming, u, w, v) ==> u == 1 && w == 7 && v == 0;
  }

  lemma SingleEdgeWithoutNode()
    ensures WithoutNode(SingleEdge(), 0) == Graph(map[], map[1 := EmptyIndex()])
  {
    var g := SingleEdge();
    var out := Stripped(g.outgoing, map[], {}, 0);
    assert out == g.outgoing;
    var inc := Stripped(g.incoming, map[1 := {7}], {1}, 0);
    assert StripIndex(g.incoming[1], {7}, 0) == EmptyIndex();
    assert inc == map[1 := EmptyIndex()];
    assert WithoutNode(g, 0) == Graph(out - {0}, inc - {0});
  }

  lemma DetachedEdges<V(!new), E(!new)>(g: Graph<V, E>, r: Graph<V, E>, n: V)
    requires forall u, w, v :: Has(r.outgoing, u, w, v) <==> Has(g.outgoing, u, w, v) && u != n && v != n
    ensures Edges(r) == Detached(Edges(g), n)
  {
    forall e ensures e in Edges(r) <==> e in Detached(Edges(g), n) {
      EdgesIff(r, e);
      EdgesIff(g, e);
    }
  }

  /** `removeNode` of a present vertex, stated on the two indices. */
  lemma WithoutNodeIndices<V(!new), E(!new)>(g: Graph<V, E>, n: V)
    requires Valid(g)
    ensures Valid(WithoutNode(g, n))
    ensures forall u, w, v :: Has(WithoutNode(g, n).outgoing, u, w, v) <==> Has(g.outgoing, u, w, v) && u != n && v != n
    ensures WithoutNode(g, n).outgoing.Keys == g.outgoing.Keys - {n}
    ensures WithoutNode(g, n).incoming.Keys == g.incoming.Keys - {n}
  {
    StrippedSpec(g.outgoing, g.incoming, n);
    StrippedSpec(g.incoming, g.outgoing, n);
  }

  // ---------------------------------------------------------------------------
  // removeEdges
  // ---------------------------------------------------------------------------

  /** What `removeEdgesHelper(graph, src, dst)` builds: `dst` leaves the pair of `src`; the key
      `src` goes when no other neighbour is left, else every weight set loses `dst`. */
  function RemoveEdgesAt<V(!new), E(!new)>(m: Adjacency<V, E>, src: V, dst: V): Adjacency<V, E> {
    var pair := IndexAt(m, src);
    if pair.byVertex - {dst} == map[] then m - {src}
    else m[src := StripIndex(pair, pair.byWeight.Keys, dst)]
  }

  /** `removeEdgesHelper`: the weight loop is the one of `removeNodeHelper`, run over every weight. */
  method RemoveEdgesHelper<V(!new), E(!new)>(m: Adjacency<V, E>, src: V, dst: V) returns (r: Adjacency<V, E>)
    ensures r == RemoveEdgesAt(m, src, dst)
  {
    var pair := IndexAt(m, src);
    var ve := pair.byVertex - {dst};
    if ve == map[] {
      return m - {src};
    }
    var ev := StripWeightsLoop(pair.byWeight, pair.byWeight.Keys, dst);
    r := m[src := Index(ve, ev)];
  }

  /** The guard of `removeEdges`: `src` is a key of `outgoing` whose pair lists `dst`. */
  predicate Linked<V(!new), E(!new)>(g: Graph<V, E>, src: Option<V>, dst: Option<V>) {
    src.Some? && dst.Some? && src.value in g.outgoing && dst.value in g.outgoing[src.value].byVertex
  }

  /** `removeEdges(src, dst)`: the receiver unless some edge `src -> dst` is recorded, else both indices lose all of them. */
  method RemoveEdges<V(!new), E(!new)>(g: Graph<V, E>, src: Option<V>, dst: Option<V>) returns (r: Graph<V, E>)
    ensures !Linked(g, src, dst) ==> r == g
    ensures Linked(g, src, dst) ==> r == Graph(RemoveEdgesAt(g.outgoing, src.value, dst.value),
                                               RemoveEdgesAt(g.incoming, dst.value, src.value))
  {
    if src.None? || dst.None? || src.value !in g.outgoing || dst.value !in g.outgoing[src.value].byVertex {
      return g;
    }
    var out := RemoveEdgesHelper(g.outgoing, src.value, dst.value);
    var inc := RemoveEdgesHelper(g.incoming, dst.value, src.value);
    r := Graph(out, inc);
  }

  /** The edges not going from `s` to `d`. */
  ghost function Unlinked<V(!new), E(!new)>(es: set<Edge<V, E>>, s: V, d: V): set<Edge<V, E>> {
    set e | e in es && !(e.src == s && e.dst == d)
  }

  /** One index of `removeEdges`: exactly the edges `s -> d` recorded at `s` are gone. */
  lemma RemoveEdgesAtSpec<V(!new), E(!new)>(m: Adjacency<V, E>, s: V, d: V)
    requires AdjacencyWF(m) && s in m && d in m[s].byVertex
    ensures AdjacencyWF(RemoveEdgesAt(m, s, d))
    ensures forall u, w, v :: Has(RemoveEdgesAt(m, s, d), u, w, v) <==> Has(m, u, w, v) && !(u == s && v == d)
    ensures RemoveEdgesAt(m, s, d).Keys <= m.Keys
    ensures forall u :: u in RemoveEdgesAt(m, s, d) && m[u].byVertex != map[] ==> RemoveEdgesAt(m, s, d)[u].byVertex != map[]
  {
    var r := RemoveEdgesAt(m, s, d);
    var pair := m[s];
    assert IndexWF(pair);
    if pair.byVertex - {d} == map[] {
      forall w, v | Has(m, s, w, v) ensures v == d {
        assert InByWeight(pair, v, w);
        assert InByVertex(pair, v, w);
        assert v !in pair.byVertex - {d};
      }
    } else {
      StripIndexSpec(pair, pair.byWeight.Keys, d);
      forall w, v ensures Has(r, s, w, v) <==> Has(m, s, w, v) && v != d {
        assert Has(r, s, w, v) <==> InByWeight(r[s], v, w);
      }
      assert r[s].byVertex == pair.byVertex - {d};
    }
  }

  /** `removeEdges` keeps the invariant and removes exactly the edges from `s` to `d`; it is
      a no-op precisely when there is no such edge. */
  lemma {:induction false} RemoveEdgesSpec<V(!new), E(!new)>(g: Graph<V, E>, s: V, d: V)
    requires Valid(g)
    ensures Linked(g, Some(s), Some(d)) <==> exists w :: Edge(s, w, d) in Edges(g)
    ensures var r := Graph(RemoveEdgesAt(g.outgoing, s, d), RemoveEdgesAt(g.incoming, d, s));
            Linked(g, Some(s), Some(d)) ==>
              && Valid(r)
              && Edges(r) == Unlinked(Edges(g), s, d)
              && GetNodes(r) <= GetNodes(g)
              && (Compact(g) ==> Compact(r))
  {
    if Linked(g, Some(s), Some(d)) {
      assert IndexWF(g.outgoing[s]);
      var w :| w in g.outgoing[s].byVertex[d];
      ValidEdge(g, s, w, d);
      var r := Graph(RemoveEdgesAt(g.outgoing, s, d), RemoveEdgesAt(g.incoming, d, s));
      RemoveEdgesAtSpec(g.outgoing, s, d);
      RemoveEdgesAtSpec(g.incoming, d, s);
      forall e ensures e in Edges(r) <==> e in Unlinked(Edges(g), s, d) {
        EdgesIff(r, e);
        EdgesIff(g, e);
      }
    }
    if exists w :: Edge(s, w, d) in Edges(g) {
      var w :| Edge(s, w, d) in Edges(g);
      ValidEdge(g, s, w, d);
    }
  }

  // ---------------------------------------------------------------------------
  // getReversedMap
  // ---------------------------------------------------------------------------

  /** No key of `m` holds an empty pair. */
  ghost predicate NoEmptyPair<V(!new), E(!new)>(m: Adjacency<V, E>) {
    forall u :: u in m ==> m[u].byVertex != map[]
  }

  /** Innermost loop of `getReversedMap`: record `src -val-> dst` at key `dst` for each `val` in `ws`. */
  method ReverseWeights<V(!new), E(!new)>(r0: Adjacency<V, E>, src: V, dst: V, ws: set<E>) returns (r: Adjacency<V, E>)
    requires AdjacencyWF(r0) && NoEmptyPair(r0)
    ensures AdjacencyWF(r) && NoEmptyPair(r)
    ensures forall a, w, b :: Has(r, a, w, b) <==> Has(r0, a, w, b) || (a == dst && b == src && w in ws)
  {
    r := r0;
    var todo := ws;
    while todo != {}
      invariant todo <= ws
      invariant AdjacencyWF(r) && NoEmptyPair(r)
      invariant forall a, w, b :: Has(r, a, w, b) <==> Has(r0, a, w, b) || (a == dst && b == src && w in ws - todo)
      decreases todo
    {
      var val :| val in todo;
      AddEdgeAtSpec(r, dst, src, val);
      AddEdgeAtCompact(r, dst, src, val);
      r := AddEdgeAt(r, dst, src, val);
      todo := todo - {val};
    }
  }

  /** Middle loop of `getReversedMap`: reverse every edge recorded in the pair of `src`. */
  method ReversePair<V(!new), E(!new)>(r0: Adjacency<V, E>, src: V, ve: map<V, set<E>>) returns (r: Adjacency<V, E>)
    requires AdjacencyWF(r0) && NoEmptyPair(r0)
    ensures AdjacencyWF(r) && NoEmptyPair(r)
    ensures forall a, w, b :: Has(r, a, w, b) <==> Has(r0, a, w, b) || (b == src && a in ve && w in ve[a])
  {
    r := r0;
    var todo := ve.Keys;
    while todo != {}
      invariant todo <= ve.Keys
      invariant AdjacencyWF(r) && NoEmptyPair(r)
      invariant forall a, w, b :: Has(r, a, w, b) <==> Has(r0, a, w, b) || (b == src && a in ve.Keys - todo && w in ve[a])
      decreases todo
    {
      var dst :| dst in todo;
      r := ReverseWeights(r, src, dst, ve[dst]);
      todo := todo - {dst};
    }
  }

  /** `getReversedMap(graph)`: the transpose of `graph`, built edge by edge through `byVertex`. */
  method GetReversedMap<V(!new), E(!new)>(m: Adjacency<V, E>) returns (r: Adjacency<V, E>)
    ensures AdjacencyWF(r) && NoEmptyPair(r)
    ensures forall a, w, b :: Has(r, a, w, b) <==> b in m && InByVertex(m[b], a, w)
  {
    r := map[];
    var todo := m.Keys;
    while todo != {}
      invariant todo <= m.Keys
      invariant AdjacencyWF(r) && NoEmptyPair(r)
      invariant forall a, w, b :: Has(r, a, w, b) <==> b in m.Keys - todo && InByVertex(m[b], a, w)
      decreases todo
    {
      var src :| src in todo;
      r := ReversePair(r, src, m[src].byVertex);
      todo := todo - {src};
    }
  }

  /** The reversal of a valid graph's `outgoing` is its `incoming`, when that holds no empty pair. */
  lemma ReversedIsIncoming<V(!new), E(!new)>(g: Graph<V, E>, r: Adjacency<V, E>)
    requires Valid(g) && NoEmptyPair(g.incoming)
    requires AdjacencyWF(r) && NoEmptyPair(r)
    requires forall a, w, b :: Has(r, a, w, b) <==> b in g.outgoing && InByVertex(g.outgoing[b], a, w)
    ensures r == g.incoming
  {
    forall a, w, b ensures Has(r, a, w, b) <==> Has(g.incoming, a, w, b) {
      ValidEdge(g, b, w, a);
    }
    AdjacencyExt(r, g.incoming);
  }

  /** The reversal of a valid graph's `incoming` is its `outgoing`, when that holds no empty pair. */
  lemma ReversedIsOutgoing<V(!new), E(!new)>(g: Graph<V, E>, r: Adjacency<V, E>)
    requires Valid(g) && NoEmptyPair(g.outgoing)
    requires AdjacencyWF(r) && NoEmptyPair(r)
    requires forall a, w, b :: Has(r, a, w, b) <==> b in g.incoming && InByVertex(g.incoming[b], a, w)
    ensures r == g.outgoing
  {
    forall a, w, b ensures Has(r, a, w, b) <==> Has(g.outgoing, a, w, b) {
      ValidEdge(g, a, w, b);
    }
    AdjacencyExt(r, g.outgoing);
  }
}
