/** The directed multigraph of `GraphImpl` as a value.

    A graph is two `DefaultMap`s, `outgoing` and `incoming`. Each maps a vertex to
    a pair of maps: neighbour -> set of weights, and weight -> set of neighbours.
    A `DefaultMap` is a Dafny `map`: every default function the graph uses yields
    an empty map or an empty set, so `get` on an absent key is `IndexAt`/`SetAt`,
    and `getEntry(k) != null` is `k in m`. `put` is a plain update.

    The abstract value of a graph is its set of edges `Edges(g)`. `Valid` says that
    both indices are well formed and that `incoming` is the transpose of `outgoing`. */
module Graphs {
  import opened Common

  /** An edge as the graph holds it: `Triple.of(src, weight, dst)`. */
  datatype Edge<V, E> = Edge(src: V, weight: E, dst: V)

  /** A triple as a caller passes it in: each component may be null. */
  datatype Triple<V, E> = Triple(a: Option<V>, b: Option<E>, c: Option<V>)

  /** The pair stored per vertex: neighbour -> weights, and weight -> neighbours. */
  datatype Index<V, E> = Index(byVertex: map<V, set<E>>, byWeight: map<E, set<V>>)

  /** `outgoing` or `incoming`: vertex -> its index pair. */
  type Adjacency<V, E> = map<V, Index<V, E>>

  datatype Graph<V, E> = Graph(outgoing: Adjacency<V, E>, incoming: Adjacency<V, E>)

  function EmptyIndex<V(!new), E(!new)>(): Index<V, E> {
    Index(map[], map[])
  }

  /** `GraphImpl.EMPTY` / `Graph.of()`. */
  function Empty<V(!new), E(!new)>(): Graph<V, E> {
    Graph(map[], map[])
  }

  /** `DefaultMap.get` on an adjacency map: an absent vertex yields an empty pair. */
  function IndexAt<V(!new), E(!new)>(m: Adjacency<V, E>, v: V): Index<V, E> {
    if v in m then m[v] else EmptyIndex()
  }

  /** `DefaultMap.get` on an inner map: an absent key yields the empty set. */
  function SetAt<K, T>(m: map<K, set<T>>, k: K): set<T> {
    if k in m then m[k] else {}
  }

  // ---------------------------------------------------------------------------
  // Representation invariant and abstraction
  // ---------------------------------------------------------------------------

  /** Edge u -w-> v is recorded at key u of `m` through the weight map. */
  predicate Has<V(!new), E(!new)>(m: Adjacency<V, E>, u: V, w: E, v: V) {
    u in m && w in m[u].byWeight && v in m[u].byWeight[w]
  }

  predicate InByVertex<V(!new), E(!new)>(ix: Index<V, E>, v: V, w: E) {
    v in ix.byVertex && w in ix.byVertex[v]
  }

  predicate InByWeight<V(!new), E(!new)>(ix: Index<V, E>, v: V, w: E) {
    w in ix.byWeight && v in ix.byWeight[w]
  }

  /** Both halves of a pair hold the same (neighbour, weight) pairs and no empty set. */
  ghost predicate IndexWF<V(!new), E(!new)>(ix: Index<V, E>) {
    && (forall v :: v in ix.byVertex ==> ix.byVertex[v] != {})
    && (forall w :: w in ix.byWeight ==> ix.byWeight[w] != {})
    && (forall v, w :: InByVertex(ix, v, w) <==> InByWeight(ix, v, w))
  }

  ghost predicate AdjacencyWF<V(!new), E(!new)>(m: Adjacency<V, E>) {
    forall u :: u in m ==> IndexWF(m[u])
  }

  /** The invariant of every graph: well-formed indices, `incoming` the transpose of `outgoing`. */
  ghost predicate Valid<V(!new), E(!new)>(g: Graph<V, E>) {
    && AdjacencyWF(g.outgoing)
    && AdjacencyWF(g.incoming)
    && (forall u, w, v :: Has(g.outgoing, u, w, v) <==> Has(g.incoming, v, w, u))
  }

  /** No vertex is kept with an empty pair: every vertex has an incident edge. */
  ghost predicate Compact<V(!new), E(!new)>(g: Graph<V, E>) {
    && (forall u :: u in g.outgoing ==> g.outgoing[u].byVertex != map[])
    && (forall u :: u in g.incoming ==> g.incoming[u].byVertex != map[])
  }

  /** The edges of the graph, the value the two indices encode. */
  ghost function Edges<V(!new), E(!new)>(g: Graph<V, E>): set<Edge<V, E>> {
    set u, w, v | u in g.outgoing && w in g.outgoing[u].byWeight && v in g.outgoing[u].byWeight[w]
      :: Edge(u, w, v)
  }

  ghost function Endpoints<V(!new), E(!new)>(es: set<Edge<V, E>>): set<V> {
    (set e | e in es :: e.src) + (set e | e in es :: e.dst)
  }

  ghost function Reversed<V(!new), E(!new)>(es: set<Edge<V, E>>): set<Edge<V, E>> {
    set e | e in es :: Edge(e.dst, e.weight, e.src)
  }

  /** The edges a list of caller triples denotes: the ones without a null component. */
  ghost function TripleEdges<V(!new), E(!new)>(ts: seq<Triple<V, E>>): set<Edge<V, E>> {
    set t | t in ts && t.a.Some? && t.b.Some? && t.c.Some? :: Edge(t.a.value, t.b.value, t.c.value)
  }

  lemma EdgesIff<V(!new), E(!new)>(g: Graph<V, E>, e: Edge<V, E>)
    ensures e in Edges(g) <==> Has(g.outgoing, e.src, e.weight, e.dst)
  {
    if Has(g.outgoing, e.src, e.weight, e.dst) {
      assert Edge(e.src, e.weight, e.dst) in Edges(g);
    }
  }

  lemma EdgesIffAll<V(!new), E(!new)>(g: Graph<V, E>)
    ensures forall e :: e in Edges(g) <==> Has(g.outgoing, e.src, e.weight, e.dst)
  {
    forall e ensures e in Edges(g) <==> Has(g.outgoing, e.src, e.weight, e.dst) {
      EdgesIff(g, e);
    }
  }

  /** An edge of a valid graph is recorded in both directions of both indices. */
  lemma ValidEdge<V(!new), E(!new)>(g: Graph<V, E>, u: V, w: E, v: V)
    requires Valid(g)
    ensures Edge(u, w, v) in Edges(g) <==> Has(g.outgoing, u, w, v)
    ensures Edge(u, w, v) in Edges(g) <==> Has(g.incoming, v, w, u)
    ensures Edge(u, w, v) in Edges(g) <==> u in g.outgoing && InByVertex(g.outgoing[u], v, w)
    ensures Edge(u, w, v) in Edges(g) <==> v in g.incoming && InByVertex(g.incoming[v], u, w)
  {
    EdgesIff(g, Edge(u, w, v));
    assert u in g.outgoing ==> IndexWF(g.outgoing[u]);
    assert v in g.incoming ==> IndexWF(g.incoming[v]);
  }

  // ---------------------------------------------------------------------------
  // Queries
  // ---------------------------------------------------------------------------

  /** `getNodes`: the keys of either index. */
  function GetNodes<V(!new), E(!new)>(g: Graph<V, E>): (r: set<V>)
    ensures forall v :: v in r <==> v in g.outgoing || v in g.incoming
  {
    g.outgoing.Keys + g.incoming.Keys
  }

  /** `containsNode`: false for null, else whether either index has the vertex as a key. */
  function ContainsNode<V(!new), E(!new)>(g: Graph<V, E>, node: Option<V>): (r: bool)
    ensures r <==> node.Some? && node.value in GetNodes(g)
  {
    node.Some? && (node.value in g.outgoing || node.value in g.incoming)
  }

  /** `containsEdge`: looked up through the weight map of `outgoing`. */
  function ContainsEdge<V(!new), E(!new)>(g: Graph<V, E>, src: Option<V>, dst: Option<V>, val: Option<E>): (r: bool)
    ensures r <==> src.Some? && dst.Some? && val.Some? && Edge(src.value, val.value, dst.value) in Edges(g)
  {
    if src.Some? && dst.Some? && val.Some? then
      EdgesIff(g, Edge(src.value, val.value, dst.value));
      src.value in g.outgoing && val.value in g.outgoing[src.value].byWeight
        && dst.value in g.outgoing[src.value].byWeight[val.value]
    else
      false
  }

  /** `getEdges(src, dst)`: null unless both are nodes, else the (possibly empty) weight set. */
  function GetEdges<V(!new), E(!new)>(g: Graph<V, E>, src: Option<V>, dst: Option<V>): (r: Option<set<E>>)
    ensures r.None? <==> !ContainsNode(g, src) || !ContainsNode(g, dst)
  {
    if !ContainsNode(g, src) || !ContainsNode(g, dst) then None
    else Some(SetAt(IndexAt(g.outgoing, src.value).byVertex, dst.value))
  }

  /** `isEmpty`: no key in `outgoing`. */
  function IsEmpty<V(!new), E(!new)>(g: Graph<V, E>): (r: bool)
    ensures r ==> Edges(g) == {}
  {
    g.outgoing == map[]
  }

  /** `size()`: the number of edges. */
  ghost function Size<V(!new), E(!new)>(g: Graph<V, E>): nat {
    |Edges(g)|
  }

  /** `getIncoming(node)`: weight -> sources of the edges into `node`. */
  function GetIncoming<V(!new), E(!new)>(g: Graph<V, E>, node: Option<V>): (r: Option<map<E, set<V>>>)
    ensures r.None? <==> !ContainsNode(g, node)
  {
    if !ContainsNode(g, node) then None else Some(IndexAt(g.incoming, node.value).byWeight)
  }

  /** `getIncoming(node, val)`: the sources of the `val` edges into `node`. */
  function GetIncomingByWeight<V(!new), E(!new)>(g: Graph<V, E>, node: Option<V>, val: Option<E>): (r: Option<set<V>>)
    ensures r.None? <==> val.None? || !ContainsNode(g, node)
  {
    if val.None? || !ContainsNode(g, node) then None
    else Some(SetAt(IndexAt(g.incoming, node.value).byWeight, val.value))
  }

  /** `getOutgoing(node)`: weight -> destinations of the edges out of `node`. */
  function GetOutgoing<V(!new), E(!new)>(g: Graph<V, E>, node: Option<V>): (r: Option<map<E, set<V>>>)
    ensures r.None? <==> !ContainsNode(g, node)
  {
    if !ContainsNode(g, node) then None else Some(IndexAt(g.outgoing, node.value).byWeight)
  }

  /** `getOutgoing(node, val)`: the destinations of the `val` edges out of `node`. */
  function GetOutgoingByWeight<V(!new), E(!new)>(g: Graph<V, E>, node: Option<V>, val: Option<E>): (r: Option<set<V>>)
    ensures r.None? <==> val.None? || !ContainsNode(g, node)
  {
    if val.None? || !ContainsNode(g, node) then None
    else Some(SetAt(IndexAt(g.outgoing, node.value).byWeight, val.value))
  }

  /** `getIncomingEdges(node)`: the weights of the edges into `node`. */
  function GetIncomingEdges<V(!new), E(!new)>(g: Graph<V, E>, node: Option<V>): (r: Option<set<E>>)
    ensures r.None? <==> !ContainsNode(g, node)
  {
    if !ContainsNode(g, node) then None else Some(IndexAt(g.incoming, node.value).byWeight.Keys)
  }

  /** `getOutgoingEdges(node)`: the weights of the edges out of `node`. */
  function GetOutgoingEdges<V(!new), E(!new)>(g: Graph<V, E>, node: Option<V>): (r: Option<set<E>>)
    ensures r.None? <==> !ContainsNode(g, node)
  {
    if !ContainsNode(g, node) then None else Some(IndexAt(g.outgoing, node.value).byWeight.Keys)
  }

  /** `getIncomingNodes(node)`: the sources of the edges into `node`. */
  function GetIncomingNodes<V(!new), E(!new)>(g: Graph<V, E>, node: Option<V>): (r: Option<set<V>>)
    ensures r.None? <==> !ContainsNode(g, node)
  {
    if !ContainsNode(g, node) then None else Some(IndexAt(g.incoming, node.value).byVertex.Keys)
  }

  /** `getOutgoingNodes(node)`: the destinations of the edges out of `node`. */
  function GetOutgoingNodes<V(!new), E(!new)>(g: Graph<V, E>, node: Option<V>): (r: Option<set<V>>)
    ensures r.None? <==> !ContainsNode(g, node)
  {
    if !ContainsNode(g, node) then None else Some(IndexAt(g.outgoing, node.value).byVertex.Keys)
  }

  // ---------------------------------------------------------------------------
  // putEdge / removeEdge
  // ---------------------------------------------------------------------------

  /** `putEdgeHelperVE` / `putEdgeHelperEV`: add `x` to the set stored at `k`. */
  function AddTo<K, T>(m: map<K, set<T>>, k: K, x: T): (r: map<K, set<T>>)
    ensures r.Keys == m.Keys + {k}
    ensures forall j :: j in r ==> r[j] == if j == k then SetAt(m, k) + {x} else m[j]
  {
    m[k := SetAt(m, k) + {x}]
  }

  /** One side of `putEdge`: record `src -val-> dst` at key `src` of `m`. */
  function AddEdgeAt<V(!new), E(!new)>(m: Adjacency<V, E>, src: V, dst: V, val: E): (r: Adjacency<V, E>)
    ensures r.Keys == m.Keys + {src}
  {
    var pair := IndexAt(m, src);
    m[src := Index(AddTo(pair.byVertex, dst, val), AddTo(pair.byWeight, val, dst))]
  }

  /** `putEdge`: a no-op for a null argument or an edge already present; else both indices gain the edge. */
  function PutEdge<V(!new), E(!new)>(g: Graph<V, E>, src: Option<V>, dst: Option<V>, val: Option<E>): (r: Graph<V, E>)
    ensures src.None? || dst.None? || val.None? || ContainsEdge(g, src, dst, val) ==> r == g
    ensures src.Some? && dst.Some? && val.Some? ==> ContainsEdge(r, src, dst, val)
  {
    if src.None? || dst.None? || val.None? || ContainsEdge(g, src, dst, val) then g
    else
      var r := Graph(AddEdgeAt(g.outgoing, src.value, dst.value, val.value),
                     AddEdgeAt(g.incoming, dst.value, src.value, val.value));
      assert Has(r.outgoing, src.value, val.value, dst.value);
      r
  }

  /** `removeEdgeHelper`: drop `src -val-> dst` at key `src`; a key whose maps empty is removed. */
  function RemoveEdgeAt<V(!new), E(!new)>(m: Adjacency<V, E>, src: V, dst: V, val: E): (r: Adjacency<V, E>)
    ensures r.Keys <= m.Keys + {src}
    ensures src in r ==> r[src].byVertex != map[]
  {
    var pair := IndexAt(m, src);
    var ve := pair.byVertex[dst := SetAt(pair.byVertex, dst) - {val}];
    var ve := if ve[dst] == {} then ve - {dst} else ve;
    if ve == map[] then m - {src}
    else
      var ev := pair.byWeight[val := SetAt(pair.byWeight, val) - {dst}];
      var ev := if ev[val] == {} then ev - {val} else ev;
      if ev == map[] then m - {src}
      else m[src := Index(ve, ev)]
  }

  /** `removeEdge`: a no-op unless the edge is present; else both indices lose it. */
  function RemoveEdge<V(!new), E(!new)>(g: Graph<V, E>, src: Option<V>, dst: Option<V>, val: Option<E>): (r: Graph<V, E>)
    ensures !ContainsEdge(g, src, dst, val) ==> r == g
  {
    if !ContainsEdge(g, src, dst, val) then g
    else Graph(RemoveEdgeAt(g.outgoing, src.value, dst.value, val.value),
               RemoveEdgeAt(g.incoming, dst.value, src.value, val.value))
  }

  /** `inverted`: the receiver when `outgoing` is empty, else the two indices swapped. */
  function Inverted<V(!new), E(!new)>(g: Graph<V, E>): (r: Graph<V, E>)
    ensures GetNodes(r) == GetNodes(g)
  {
    if IsEmpty(g) then g else Graph(g.incoming, g.outgoing)
  }

  /** `contains(Object)`: a null or non-triple argument is not contained. */
  function Contains<V(!new), E(!new)>(g: Graph<V, E>, e: Option<Triple<V, E>>): (r: bool)
    ensures r <==> e.Some? && e.value.a.Some? && e.value.b.Some? && e.value.c.Some?
                   && Edge(e.value.a.value, e.value.b.value, e.value.c.value) in Edges(g)
  {
    e.Some? && ContainsEdge(g, e.value.a, e.value.c, e.value.b)
  }

  /** `add(triple)`: the receiver for null, else `putEdge(a, c, b)`. */
  function Add<V(!new), E(!new)>(g: Graph<V, E>, e: Option<Triple<V, E>>): (r: Graph<V, E>)
    ensures e.None? ==> r == g
    ensures e.Some? ==> r == PutEdge(g, e.value.a, e.value.c, e.value.b)
  {
    if e.None? then g else PutEdge(g, e.value.a, e.value.c, e.value.b)
  }

  /** `remove(triple)`: the receiver for null, else `removeEdge(a, c, b)`. */
  function Remove<V(!new), E(!new)>(g: Graph<V, E>, e: Option<Triple<V, E>>): (r: Graph<V, E>)
    ensures e.None? ==> r == g
    ensures e.Some? ==> r == RemoveEdge(g, e.value.a, e.value.c, e.value.b)
  {
    if e.None? then g else RemoveEdge(g, e.value.a, e.value.c, e.value.b)
  }

  /** `replace(pre, post)` (and `replaceFirst`): remove `pre` and add `post` when `pre` is contained. */
  function Replace<V(!new), E(!new)>(g: Graph<V, E>, pre: Option<Triple<V, E>>, post: Option<Triple<V, E>>): (r: Graph<V, E>)
    ensures !Contains(g, pre) ==> r == g
  {
    if Contains(g, pre) then Add(Remove(g, pre), post) else g
  }

  /** The loop of the array constructor: `putEdge(a, c, b)` for each triple in order. */
  function PutAll<V(!new), E(!new)>(g: Graph<V, E>, ts: seq<Triple<V, E>>): (r: Graph<V, E>)
    decreases |ts|
  {
    if ts == [] then g else PutAll(PutEdge(g, ts[0].a, ts[0].c, ts[0].b), ts[1..])
  }

  /** `Graph.of(triples...)`: `EMPTY` for no triples, else the graph the constructor builds. */
  function Of<V(!new), E(!new)>(ts: seq<Triple<V, E>>): (r: Graph<V, E>)
    ensures ts == [] ==> r == Empty()
  {
    if |ts| == 0 then Empty() else PutAll(Empty(), ts)
  }

  // ---------------------------------------------------------------------------
  // Lemmas: one side of an update
  // ---------------------------------------------------------------------------

  /** Adding one (neighbour, weight) pair to a well-formed pair keeps it well formed and adds exactly that pair. */
  lemma AddToIndex<V(!new), E(!new)>(pair: Index<V, E>, d: V, w: E)
    requires IndexWF(pair)
    ensures IndexWF(Index(AddTo(pair.byVertex, d, w), AddTo(pair.byWeight, w, d)))
    ensures forall v, x :: InByWeight(Index(AddTo(pair.byVertex, d, w), AddTo(pair.byWeight, w, d)), v, x) <==>
                             InByWeight(pair, v, x) || (v == d && x == w)
    ensures d in AddTo(pair.byVertex, d, w)
  {
    var ix := Index(AddTo(pair.byVertex, d, w), AddTo(pair.byWeight, w, d));
    forall v, x
      ensures InByVertex(ix, v, x) <==> InByVertex(pair, v, x) || (v == d && x == w)
      ensures InByWeight(ix, v, x) <==> InByWeight(pair, v, x) || (v == d && x == w)
    {
    }
  }

  /** Adding at one key keeps the pairs well formed and adds exactly the one edge. */
  lemma AddEdgeAtSpec<V(!new), E(!new)>(m: Adjacency<V, E>, s: V, d: V, w: E)
    requires AdjacencyWF(m)
    ensures AdjacencyWF(AddEdgeAt(m, s, d, w))
    ensures forall u, x, v :: Has(AddEdgeAt(m, s, d, w), u, x, v) <==> Has(m, u, x, v) || (u == s && x == w && v == d)
    ensures forall u :: u in m && m[u].byVertex != map[] ==> AddEdgeAt(m, s, d, w)[u].byVertex != map[]
    ensures AddEdgeAt(m, s, d, w)[s].byVertex != map[]
  {
    var pair := IndexAt(m, s);
    assert IndexWF(pair);
    AddToIndex(pair, d, w);
    var r := AddEdgeAt(m, s, d, w);
    assert r == m[s := Index(AddTo(pair.byVertex, d, w), AddTo(pair.byWeight, w, d))];
    forall u, x, v
      ensures Has(r, u, x, v) <==> Has(m, u, x, v) || (u == s && x == w && v == d)
    {
      if u == s {
        assert Has(r, u, x, v) <==> InByWeight(r[s], v, x);
        assert Has(m, u, x, v) <==> InByWeight(pair, v, x);
      }
    }
  }

  /** Removing a present edge at one key keeps the pairs well formed and removes exactly that edge. */
  lemma RemoveEdgeAtSpec<V(!new), E(!new)>(m: Adjacency<V, E>, s: V, d: V, w: E)
    requires AdjacencyWF(m) && Has(m, s, w, d)
    ensures AdjacencyWF(RemoveEdgeAt(m, s, d, w))
    ensures forall u, x, v :: Has(RemoveEdgeAt(m, s, d, w), u, x, v) <==> Has(m, u, x, v) && !(u == s && x == w && v == d)
    ensures RemoveEdgeAt(m, s, d, w).Keys <= m.Keys
    ensures forall u :: u in m && u != s ==> u in RemoveEdgeAt(m, s, d, w) && RemoveEdgeAt(m, s, d, w)[u] == m[u]
  {
    var r := RemoveEdgeAt(m, s, d, w);
    var pair := m[s];
    assert IndexWF(pair);
    var ve0 := pair.byVertex[d := SetAt(pair.byVertex, d) - {w}];
    var ve := if ve0[d] == {} then ve0 - {d} else ve0;
    var ev0 := pair.byWeight[w := SetAt(pair.byWeight, w) - {d}];
    var ev := if ev0[w] == {} then ev0 - {w} else ev0;
    assert InByWeight(pair, d, w);
    assert InByVertex(pair, d, w);
    forall v, x
      ensures (v in ve && x in ve[v]) <==> InByVertex(pair, v, x) && !(v == d && x == w)
      ensures (x in ev && v in ev[x]) <==> InByWeight(pair, v, x) && !(v == d && x == w)
    {
      if v == d {
        assert v in ve0 && ve0[v] == SetAt(pair.byVertex, d) - {w};
        if ve0[d] == {} {
          assert v !in ve;
          var left := ve0[d];
          assert InByVertex(pair, v, x) && x != w ==> x in left;
        } else {
          assert ve == ve0;
        }
      } else {
        assert v in ve0 <==> v in pair.byVertex;
        assert v in ve0 ==> ve0[v] == pair.byVertex[v];
        assert v in ve <==> v in ve0;
        assert v in ve ==> ve[v] == ve0[v];
      }
      if x == w {
        assert x in ev0 && ev0[x] == SetAt(pair.byWeight, w) - {d};
        if ev0[w] == {} {
          assert x !in ev;
          var left := ev0[w];
          assert InByWeight(pair, v, x) && v != d ==> v in left;
        } else {
          assert ev == ev0;
        }
      } else {
        assert x in ev0 <==> x in pair.byWeight;
        assert x in ev0 ==> ev0[x] == pair.byWeight[x];
        assert x in ev <==> x in ev0;
        assert x in ev ==> ev[x] == ev0[x];
      }
    }
    if ve == map[] || ev == map[] {
      assert r == m - {s};
      forall v, x ensures !Has(m, s, x, v) || (x == w && v == d) {
        if Has(m, s, x, v) {
          assert InByWeight(pair, v, x);
          assert InByVertex(pair, v, x);
          if ve == map[] {
            assert v !in ve;
          } else {
            assert x !in ev;
          }
        }
      }
    } else {
      assert r == m[s := Index(ve, ev)];
      var ix := Index(ve, ev);
      forall v, x
        ensures InByVertex(ix, v, x) <==> InByWeight(ix, v, x)
      {
      }
      assert IndexWF(ix);
      forall u, x, v
        ensures Has(r, u, x, v) <==> Has(m, u, x, v) && !(u == s && x == w && v == d)
      {
        if u == s {
          assert Has(r, u, x, v) <==> x in ev && v in ev[x];
          assert Has(m, u, x, v) <==> InByWeight(pair, v, x);
        }
      }
    }
  }

  // ---------------------------------------------------------------------------
  // Lemmas: the graph operations against the edge set
  // ---------------------------------------------------------------------------

  /** In a compact graph the vertices are exactly the endpoints of the edges. */
  lemma {:induction false} CompactNodes<V(!new), E(!new)>(g: Graph<V, E>)
    requires Valid(g) && Compact(g)
    ensures GetNodes(g) == Endpoints(Edges(g))
  {
    forall u | u in GetNodes(g) ensures u in Endpoints(Edges(g)) {
      if u in g.outgoing {
        var ix := g.outgoing[u];
        assert IndexWF(ix);
        var v :| v in ix.byVertex;
        var x :| x in ix.byVertex[v];
        assert InByVertex(ix, v, x);
        ValidEdge(g, u, x, v);
        assert Edge(u, x, v).src == u;
      } else {
        var ix := g.incoming[u];
        assert IndexWF(ix);
        var v :| v in ix.byVertex;
        var x :| x in ix.byVertex[v];
        assert InByVertex(ix, v, x);
        ValidEdge(g, v, x, u);
        assert Edge(v, x, u).dst == u;
      }
    }
    forall u | u in Endpoints(Edges(g)) ensures u in GetNodes(g) {
      var e :| e in Edges(g) && (e.src == u || e.dst == u);
      ValidEdge(g, e.src, e.weight, e.dst);
    }
  }

  /** `putEdge` of a new edge, stated on the two indices. */
  lemma PutEdgeIndices<V(!new), E(!new)>(g: Graph<V, E>, s: V, d: V, w: E)
    requires Valid(g) && !ContainsEdge(g, Some(s), Some(d), Some(w))
    ensures PutEdge(g, Some(s), Some(d), Some(w)) == Graph(AddEdgeAt(g.outgoing, s, d, w), AddEdgeAt(g.incoming, d, s, w))
    ensures Valid(PutEdge(g, Some(s), Some(d), Some(w)))
    ensures forall u, x, v :: Has(PutEdge(g, Some(s), Some(d), Some(w)).outgoing, u, x, v) <==> Has(g.outgoing, u, x, v) || (u == s && x == w && v == d)
  {
    var r := PutEdge(g, Some(s), Some(d), Some(w));
    AddEdgeAtSpec(g.outgoing, s, d, w);
    AddEdgeAtSpec(g.incoming, d, s, w);
    forall u, x, v ensures Has(r.outgoing, u, x, v) <==> Has(r.incoming, v, x, u) {
      assert Has(r.outgoing, u, x, v) <==> Has(g.outgoing, u, x, v) || (u == s && x == w && v == d);
      assert Has(r.incoming, v, x, u) <==> Has(g.incoming, v, x, u) || (v == d && x == w && u == s);
    }
  }

  /** `putEdge` keeps the invariant and adds exactly the one edge and its endpoints. */
  lemma {:induction false} PutEdgeSpec<V(!new), E(!new)>(g: Graph<V, E>, s: V, d: V, w: E)
    requires Valid(g)
    ensures Valid(PutEdge(g, Some(s), Some(d), Some(w)))
    ensures Edges(PutEdge(g, Some(s), Some(d), Some(w))) == Edges(g) + {Edge(s, w, d)}
    ensures GetNodes(PutEdge(g, Some(s), Some(d), Some(w))) == GetNodes(g) + {s, d}
    ensures Compact(g) ==> Compact(PutEdge(g, Some(s), Some(d), Some(w)))
  {
    ValidEdge(g, s, w, d);
    if !ContainsEdge(g, Some(s), Some(d), Some(w)) {
      PutEdgeIndices(g, s, d, w);
      var r := PutEdge(g, Some(s), Some(d), Some(w));
      PutEdgeEdges(g, r, s, d, w);
      PutEdgeNodes(g, s, d, w);
      PutEdgeCompact(g, s, d, w);
    }
  }

  lemma PutEdgeNodes<V(!new), E(!new)>(g: Graph<V, E>, s: V, d: V, w: E)
    ensures GetNodes(Graph(AddEdgeAt(g.outgoing, s, d, w), AddEdgeAt(g.incoming, d, s, w))) == GetNodes(g) + {s, d}
  {
  }

  lemma PutEdgeEdges<V(!new), E(!new)>(g: Graph<V, E>, r: Graph<V, E>, s: V, d: V, w: E)
    requires forall u, x, v :: Has(r.outgoing, u, x, v) <==> Has(g.outgoing, u, x, v) || (u == s && x == w && v == d)
    ensures Edges(r) == Edges(g) + {Edge(s, w, d)}
  {
    forall e ensures e in Edges(r) <==> e in Edges(g) || e == Edge(s, w, d) {
      EdgesIff(g, e);
      EdgesIff(r, e);
    }
  }

  lemma PutEdgeCompact<V(!new), E(!new)>(g: Graph<V, E>, s: V, d: V, w: E)
    requires Valid(g) && !ContainsEdge(g, Some(s), Some(d), Some(w))
    ensures Compact(g) ==> Compact(PutEdge(g, Some(s), Some(d), Some(w)))
  {
    PutEdgeIndices(g, s, d, w);
    if Compact(g) {
      AddEdgeAtCompact(g.outgoing, s, d, w);
      AddEdgeAtCompact(g.incoming, d, s, w);
    }
  }

  lemma AddEdgeAtCompact<V(!new), E(!new)>(m: Adjacency<V, E>, s: V, d: V, w: E)
    requires forall u :: u in m ==> m[u].byVertex != map[]
    ensures forall u :: u in AddEdgeAt(m, s, d, w) ==> AddEdgeAt(m, s, d, w)[u].byVertex != map[]
  {
    var r := AddEdgeAt(m, s, d, w);
    forall u | u in r ensures r[u].byVertex != map[] {
      if u == s {
        assert d in r[u].byVertex;
      }
    }
  }

  /** `removeEdge` keeps the invariant and removes exactly the one edge; no vertex appears. */
  lemma {:induction false} RemoveEdgeSpec<V(!new), E(!new)>(g: Graph<V, E>, s: V, d: V, w: E)
    requires Valid(g)
    ensures Valid(RemoveEdge(g, Some(s), Some(d), Some(w)))
    ensures Edges(RemoveEdge(g, Some(s), Some(d), Some(w))) == Edges(g) - {Edge(s, w, d)}
    ensures GetNodes(RemoveEdge(g, Some(s), Some(d), Some(w))) <= GetNodes(g)
    ensures Compact(g) ==> Compact(RemoveEdge(g, Some(s), Some(d), Some(w)))
  {
    ValidEdge(g, s, w, d);
    if ContainsEdge(g, Some(s), Some(d), Some(w)) {
      RemoveEdgeIndices(g, s, d, w);
      RemoveEdgeShape(g, s, d, w);
      var r := RemoveEdge(g, Some(s), Some(d), Some(w));
      forall e ensures e in Edges(r) <==> e in Edges(g) && e != Edge(s, w, d) {
        EdgesIff(g, e);
        EdgesIff(r, e);
      }
    }
  }

  lemma RemoveEdgeShape<V(!new), E(!new)>(g: Graph<V, E>, s: V, d: V, w: E)
    ensures GetNodes(Graph(RemoveEdgeAt(g.outgoing, s, d, w), RemoveEdgeAt(g.incoming, d, s, w))) <= GetNodes(g) + {s, d}
    ensures Compact(g) ==> Compact(Graph(RemoveEdgeAt(g.outgoing, s, d, w), RemoveEdgeAt(g.incoming, d, s, w)))
  {
  }

  /** `removeEdge` of a present edge, stated on the two indices. */
  lemma RemoveEdgeIndices<V(!new), E(!new)>(g: Graph<V, E>, s: V, d: V, w: E)
    requires Valid(g) && ContainsEdge(g, Some(s), Some(d), Some(w))
    ensures RemoveEdge(g, Some(s), Some(d), Some(w)) == Graph(RemoveEdgeAt(g.outgoing, s, d, w), RemoveEdgeAt(g.incoming, d, s, w))
    ensures Valid(RemoveEdge(g, Some(s), Some(d), Some(w)))
    ensures forall u, x, v :: Has(RemoveEdge(g, Some(s), Some(d), Some(w)).outgoing, u, x, v) <==> Has(g.outgoing, u, x, v) && !(u == s && x == w && v == d)
  {
    var r := RemoveEdge(g, Some(s), Some(d), Some(w));
    ValidEdge(g, s, w, d);
    RemoveEdgeAtSpec(g.outgoing, s, d, w);
    RemoveEdgeAtSpec(g.incoming, d, s, w);
    forall u, x, v ensures Has(r.outgoing, u, x, v) <==> Has(r.incoming, v, x, u) {
      assert Has(r.outgoing, u, x, v) <==> Has(g.outgoing, u, x, v) && !(u == s && x == w && v == d);
      assert Has(r.incoming, v, x, u) <==> Has(g.incoming, v, x, u) && !(v == d && x == w && u == s);
    }
  }

  /** Vertex vanish: after `removeEdge` on a compact graph a vertex stays iff an edge still touches it. */
  lemma RemoveEdgeVanish<V(!new), E(!new)>(g: Graph<V, E>, s: V, d: V, w: E)
    requires Valid(g) && Compact(g)
    ensures GetNodes(RemoveEdge(g, Some(s), Some(d), Some(w))) == Endpoints(Edges(g) - {Edge(s, w, d)})
  {
    RemoveEdgeSpec(g, s, d, w);
    CompactNodes(RemoveEdge(g, Some(s), Some(d), Some(w)));
  }

  /** `size()` counts the edges: `putEdge` adds one unless present, `removeEdge` removes one if present. */
  lemma SizeUpdates<V(!new), E(!new)>(g: Graph<V, E>, s: V, d: V, w: E)
    requires Valid(g)
    ensures Size(PutEdge(g, Some(s), Some(d), Some(w)))
            == if Edge(s, w, d) in Edges(g) then Size(g) else Size(g) + 1
    ensures Size(RemoveEdge(g, Some(s), Some(d), Some(w)))
            == if Edge(s, w, d) in Edges(g) then Size(g) - 1 else Size(g)
  {
    SizeAfterPut(g, s, d, w);
    SizeAfterRemove(g, s, d, w);
  }

  lemma SizeAfterPut<V(!new), E(!new)>(g: Graph<V, E>, s: V, d: V, w: E)
    requires Valid(g)
    ensures Size(PutEdge(g, Some(s), Some(d), Some(w))) == if Edge(s, w, d) in Edges(g) then Size(g) else Size(g) + 1
  {
    PutEdgeSpec(g, s, d, w);
    CardInsert(Edges(g), Edges(PutEdge(g, Some(s), Some(d), Some(w))), Edge(s, w, d));
  }

  lemma CardInsert<T>(a: set<T>, b: set<T>, x: T)
    requires b == a + {x}
    ensures |b| == if x in a then |a| else |a| + 1
  {
    if x in a {
      assert b == a;
    } else {
      assert b - {x} == a;
    }
  }

  lemma CardDelete<T>(a: set<T>, b: set<T>, x: T)
    requires b == a - {x}
    ensures |b| == if x in a then |a| - 1 else |a|
  {
    if x !in a {
      assert b == a;
    }
  }

  lemma SizeAfterRemove<V(!new), E(!new)>(g: Graph<V, E>, s: V, d: V, w: E)
    requires Valid(g)
    ensures Size(RemoveEdge(g, Some(s), Some(d), Some(w))) == if Edge(s, w, d) in Edges(g) then Size(g) - 1 else Size(g)
  {
    RemoveEdgeSpec(g, s, d, w);
    CardDelete(Edges(g), Edges(RemoveEdge(g, Some(s), Some(d), Some(w))), Edge(s, w, d));
  }

  // ---------------------------------------------------------------------------
  // Canonical representation
  // ---------------------------------------------------------------------------

  /** Two well-formed pairs holding the same (neighbour, weight) pairs are equal. */
  lemma IndexExt<V(!new), E(!new)>(a: Index<V, E>, b: Index<V, E>)
    requires IndexWF(a) && IndexWF(b)
    requires forall v, w :: InByWeight(a, v, w) <==> InByWeight(b, v, w)
    ensures a == b
  {
    forall w | w in a.byWeight ensures w in b.byWeight && a.byWeight[w] == b.byWeight[w] {
      var v :| v in a.byWeight[w];
      assert InByWeight(a, v, w);
      forall v' ensures v' in a.byWeight[w] <==> v' in b.byWeight[w] {
        assert InByWeight(a, v', w) <==> InByWeight(b, v', w);
      }
    }
    forall w | w in b.byWeight ensures w in a.byWeight {
      var v :| v in b.byWeight[w];
      assert InByWeight(b, v, w);
    }
    assert a.byWeight == b.byWeight;
    forall v | v in a.byVertex ensures v in b.byVertex && a.byVertex[v] == b.byVertex[v] {
      var w :| w in a.byVertex[v];
      assert InByVertex(a, v, w);
      forall w' ensures w' in a.byVertex[v] <==> w' in b.byVertex[v] {
        assert InByVertex(a, v, w') <==> InByWeight(a, v, w');
        assert InByVertex(b, v, w') <==> InByWeight(b, v, w');
      }
    }
    forall v | v in b.byVertex ensures v in a.byVertex {
      var w :| w in b.byVertex[v];
      assert InByVertex(b, v, w);
    }
    assert a.byVertex == b.byVertex;
  }

  /** Two well-formed adjacency maps without empty pairs that record the same edges are equal. */
  lemma AdjacencyExt<V(!new), E(!new)>(m1: Adjacency<V, E>, m2: Adjacency<V, E>)
    requires AdjacencyWF(m1) && AdjacencyWF(m2)
    requires forall u :: u in m1 ==> m1[u].byVertex != map[]
    requires forall u :: u in m2 ==> m2[u].byVertex != map[]
    requires forall u, w, v :: Has(m1, u, w, v) <==> Has(m2, u, w, v)
    ensures m1 == m2
  {
    forall u | u in m1 ensures u in m2 {
      var ix := m1[u];
      assert IndexWF(ix);
      var v :| v in ix.byVertex;
      var w :| w in ix.byVertex[v];
      assert InByVertex(ix, v, w);
      assert Has(m1, u, w, v);
    }
    forall u | u in m2 ensures u in m1 {
      var ix := m2[u];
      assert IndexWF(ix);
      var v :| v in ix.byVertex;
      var w :| w in ix.byVertex[v];
      assert InByVertex(ix, v, w);
      assert Has(m2, u, w, v);
    }
    forall u | u in m1 ensures m1[u] == m2[u] {
      assert IndexWF(m1[u]) && IndexWF(m2[u]);
      forall v, w ensures InByWeight(m1[u], v, w) <==> InByWeight(m2[u], v, w) {
        assert Has(m1, u, w, v) <==> Has(m2, u, w, v);
      }
      IndexExt(m1[u], m2[u]);
    }
  }

  /** The representation is canonical: compact valid graphs with the same edges are equal. */
  lemma {:induction false} GraphExt<V(!new), E(!new)>(g1: Graph<V, E>, g2: Graph<V, E>)
    requires Valid(g1) && Compact(g1) && Valid(g2) && Compact(g2)
    requires Edges(g1) == Edges(g2)
    ensures g1 == g2
  {
    forall u, w, v ensures Has(g1.outgoing, u, w, v) <==> Has(g2.outgoing, u, w, v) {
      EdgesIff(g1, Edge(u, w, v));
      EdgesIff(g2, Edge(u, w, v));
    }
    AdjacencyExt(g1.outgoing, g2.outgoing);
    forall u, w, v ensures Has(g1.incoming, u, w, v) <==> Has(g2.incoming, u, w, v) {
      assert Has(g1.incoming, u, w, v) <==> Has(g1.outgoing, v, w, u);
      assert Has(g2.incoming, u, w, v) <==> Has(g2.outgoing, v, w, u);
    }
    AdjacencyExt(g1.incoming, g2.incoming);
  }

  /** Round trip: removing an edge just put into a compact graph gives the graph back. */
  lemma RemoveAfterPut<V(!new), E(!new)>(g: Graph<V, E>, s: V, d: V, w: E)
    requires Valid(g) && Compact(g) && Edge(s, w, d) !in Edges(g)
    ensures RemoveEdge(PutEdge(g, Some(s), Some(d), Some(w)), Some(s), Some(d), Some(w)) == g
  {
    var p := PutEdge(g, Some(s), Some(d), Some(w));
    PutEdgeSpec(g, s, d, w);
    RemoveEdgeSpec(p, s, d, w);
    GraphExt(RemoveEdge(p, Some(s), Some(d), Some(w)), g);
  }

  /** Round trip: putting back an edge just removed from a compact graph gives the graph back. */
  lemma PutAfterRemove<V(!new), E(!new)>(g: Graph<V, E>, s: V, d: V, w: E)
    requires Valid(g) && Compact(g) && Edge(s, w, d) in Edges(g)
    ensures PutEdge(RemoveEdge(g, Some(s), Some(d), Some(w)), Some(s), Some(d), Some(w)) == g
  {
    RemoveEdgeSpec(g, s, d, w);
    var q := RemoveEdge(g, Some(s), Some(d), Some(w));
    var es, e := Edges(g), Edge(s, w, d);
    assert (es - {e}) + {e} == es;
    PutBack(g, q, s, d, w);
  }

  lemma PutBack<V(!new), E(!new)>(g: Graph<V, E>, q: Graph<V, E>, s: V, d: V, w: E)
    requires Valid(g) && Compact(g) && Valid(q) && Compact(q)
    requires Edges(q) + {Edge(s, w, d)} == Edges(g)
    ensures PutEdge(q, Some(s), Some(d), Some(w)) == g
  {
    PutEdgeSpec(q, s, d, w);
    GraphExt(PutEdge(q, Some(s), Some(d), Some(w)), g);
  }

  /** In a compact valid graph `isEmpty` holds exactly when there is no edge, and then no vertex. */
  lemma IsEmptySpec<V(!new), E(!new)>(g: Graph<V, E>)
    requires Valid(g) && Compact(g)
    ensures IsEmpty(g) <==> Edges(g) == {}
    ensures IsEmpty(g) <==> g == Empty()
  {
    if IsEmpty(g) {
      GraphExt(g, Empty());
    } else {
      var u :| u in g.outgoing;
      var ix := g.outgoing[u];
      assert IndexWF(ix);
      var v :| v in ix.byVertex;
      var w :| w in ix.byVertex[v];
      assert InByVertex(ix, v, w);
      EdgesIff(g, Edge(u, w, v));
    }
  }

  // ---------------------------------------------------------------------------
  // inverted
  // ---------------------------------------------------------------------------

  /** `inverted` keeps the invariant and reverses every edge. */
  lemma {:induction false} InvertedSpec<V(!new), E(!new)>(g: Graph<V, E>)
    requires Valid(g)
    ensures Valid(Inverted(g))
    ensures Edges(Inverted(g)) == Reversed(Edges(g))
    ensures Compact(g) ==> Compact(Inverted(g))
  {
    var r := Inverted(g);
    if IsEmpty(g) {
      assert Edges(g) == {};
    } else {
      forall e ensures e in Edges(r) <==> e in Reversed(Edges(g)) {
        EdgesIff(r, e);
        EdgesIff(g, Edge(e.dst, e.weight, e.src));
        if e in Reversed(Edges(g)) {
          var e' :| e' in Edges(g) && e == Edge(e'.dst, e'.weight, e'.src);
          EdgesIff(g, e');
        }
      }
    }
  }

  /** On a compact valid graph `inverted` is an involution. */
  lemma InvertedTwice<V(!new), E(!new)>(g: Graph<V, E>)
    requires Valid(g) && Compact(g)
    ensures Inverted(Inverted(g)) == g
  {
    IsEmptySpec(g);
    if !IsEmpty(g) {
      var r := Inverted(g);
      InvertedSpec(g);
      IsEmptySpec(r);
      assert Edges(r) != {} by {
        var e :| e in Edges(g);
        assert Edge(e.dst, e.weight, e.src) in Reversed(Edges(g));
      }
    }
  }

  /** A graph whose edges are all self-loops equals its own inversion. */
  lemma InvertedSelfLoops<V(!new), E(!new)>(g: Graph<V, E>)
    requires Valid(g) && Compact(g)
    requires forall e :: e in Edges(g) ==> e.src == e.dst
    ensures Inverted(g) == g
  {
    InvertedSpec(g);
    forall e ensures e in Reversed(Edges(g)) <==> e in Edges(g) {
      if e in Edges(g) {
        assert Edge(e.dst, e.weight, e.src) == e;
      }
    }
    GraphExt(Inverted(g), g);
  }

  // ---------------------------------------------------------------------------
  // Lookups against the edge set
  // ---------------------------------------------------------------------------

  /** `getEdges(src, dst)` on nodes: exactly the weights of the edges `src -> dst`. */
  lemma GetEdgesSpec<V(!new), E(!new)>(g: Graph<V, E>, s: V, d: V)
    requires Valid(g) && s in GetNodes(g) && d in GetNodes(g)
    ensures GetEdges(g, Some(s), Some(d)).Some?
    ensures forall w :: w in GetEdges(g, Some(s), Some(d)).value <==> Edge(s, w, d) in Edges(g)
  {
    forall w ensures w in GetEdges(g, Some(s), Some(d)).value <==> Edge(s, w, d) in Edges(g) {
      ValidEdge(g, s, w, d);
    }
  }

  /** The pair stored for `n` in `outgoing` holds exactly the out-edges of `n`, in both halves. */
  lemma OutIndexSpec<V(!new), E(!new)>(g: Graph<V, E>, n: V)
    requires Valid(g)
    ensures IndexWF(IndexAt(g.outgoing, n))
    ensures forall w, v :: InByWeight(IndexAt(g.outgoing, n), v, w) <==> Edge(n, w, v) in Edges(g)
    ensures forall w, v :: InByVertex(IndexAt(g.outgoing, n), v, w) <==> Edge(n, w, v) in Edges(g)
  {
    forall w, v ensures InByWeight(IndexAt(g.outgoing, n), v, w) <==> Edge(n, w, v) in Edges(g) {
      ValidEdge(g, n, w, v);
    }
  }

  /** The pair stored for `n` in `incoming` holds exactly the in-edges of `n`, in both halves. */
  lemma InIndexSpec<V(!new), E(!new)>(g: Graph<V, E>, n: V)
    requires Valid(g)
    ensures IndexWF(IndexAt(g.incoming, n))
    ensures forall w, u :: InByWeight(IndexAt(g.incoming, n), u, w) <==> Edge(u, w, n) in Edges(g)
    ensures forall w, u :: InByVertex(IndexAt(g.incoming, n), u, w) <==> Edge(u, w, n) in Edges(g)
  {
    forall w, u ensures InByWeight(IndexAt(g.incoming, n), u, w) <==> Edge(u, w, n) in Edges(g) {
      ValidEdge(g, u, w, n);
    }
  }

  /** In a well-formed pair a key of either half has a partner in the other. */
  lemma IndexKeys<V(!new), E(!new)>(ix: Index<V, E>)
    requires IndexWF(ix)
    ensures forall w :: w in ix.byWeight <==> exists v :: InByWeight(ix, v, w)
    ensures forall v :: v in ix.byVertex <==> exists w :: InByVertex(ix, v, w)
  {
    forall w | w in ix.byWeight ensures exists v :: InByWeight(ix, v, w) {
      var v :| v in ix.byWeight[w];
      assert InByWeight(ix, v, w);
    }
    forall v | v in ix.byVertex ensures exists w :: InByVertex(ix, v, w) {
      var w :| w in ix.byVertex[v];
      assert InByVertex(ix, v, w);
    }
  }

  /** `getOutgoing(n)` and `getOutgoing(n, val)`: the destinations of `n`'s out-edges, by weight. */
  lemma GetOutgoingSpec<V(!new), E(!new)>(g: Graph<V, E>, n: V)
    requires Valid(g) && n in GetNodes(g)
    ensures GetOutgoing(g, Some(n)).Some?
    ensures forall w, v :: (w in GetOutgoing(g, Some(n)).value && v in GetOutgoing(g, Some(n)).value[w])
                           <==> Edge(n, w, v) in Edges(g)
    ensures forall w, v :: v in GetOutgoingByWeight(g, Some(n), Some(w)).value <==> Edge(n, w, v) in Edges(g)
  {
    OutIndexSpec(g, n);
  }

  /** `getOutgoingEdges(n)` and `getOutgoingNodes(n)`: the weights and the destinations of `n`'s out-edges. */
  lemma GetOutgoingKeysSpec<V(!new), E(!new)>(g: Graph<V, E>, n: V)
    requires Valid(g) && n in GetNodes(g)
    ensures GetOutgoingEdges(g, Some(n)).Some? && GetOutgoingNodes(g, Some(n)).Some?
    ensures forall w :: w in GetOutgoingEdges(g, Some(n)).value <==> exists v :: Edge(n, w, v) in Edges(g)
    ensures forall v :: v in GetOutgoingNodes(g, Some(n)).value <==> exists w :: Edge(n, w, v) in Edges(g)
  {
    OutIndexSpec(g, n);
    IndexKeys(IndexAt(g.outgoing, n));
  }

  /** `getIncoming(n)` and `getIncoming(n, val)`: the sources of `n`'s in-edges, by weight. */
  lemma GetIncomingSpec<V(!new), E(!new)>(g: Graph<V, E>, n: V)
    requires Valid(g) && n in GetNodes(g)
    ensures GetIncoming(g, Some(n)).Some?
    ensures forall w, u :: (w in GetIncoming(g, Some(n)).value && u in GetIncoming(g, Some(n)).value[w])
                           <==> Edge(u, w, n) in Edges(g)
    ensures forall w, u :: u in GetIncomingByWeight(g, Some(n), Some(w)).value <==> Edge(u, w, n) in Edges(g)
  {
    InIndexSpec(g, n);
  }

  /** `getIncomingEdges(n)` and `getIncomingNodes(n)`: the weights and the sources of `n`'s in-edges. */
  lemma GetIncomingKeysSpec<V(!new), E(!new)>(g: Graph<V, E>, n: V)
    requires Valid(g) && n in GetNodes(g)
    ensures GetIncomingEdges(g, Some(n)).Some? && GetIncomingNodes(g, Some(n)).Some?
    ensures forall w :: w in GetIncomingEdges(g, Some(n)).value <==> exists u :: Edge(u, w, n) in Edges(g)
    ensures forall u :: u in GetIncomingNodes(g, Some(n)).value <==> exists w :: Edge(u, w, n) in Edges(g)
  {
    InIndexSpec(g, n);
    IndexKeys(IndexAt(g.incoming, n));
  }

  // ---------------------------------------------------------------------------
  // Collection operations and construction
  // ---------------------------------------------------------------------------

  /** `add`, `remove` and `replace` of a triple act on the edge it denotes. */
  lemma CollectionOpsSpec<V(!new), E(!new)>(g: Graph<V, E>, pre: Option<Triple<V, E>>, post: Option<Triple<V, E>>)
    requires Valid(g)
    ensures Valid(Add(g, post)) && Valid(Remove(g, pre)) && Valid(Replace(g, pre, post))
    ensures Edges(Add(g, post)) == Edges(g) + OptEdges(post)
    ensures Edges(Remove(g, pre)) == Edges(g) - OptEdges(pre)
    ensures Contains(g, pre) ==> Edges(Replace(g, pre, post)) == Edges(g) - OptEdges(pre) + OptEdges(post)
    ensures Compact(g) ==> Compact(Add(g, post)) && Compact(Remove(g, pre)) && Compact(Replace(g, pre, post))
  {
    AddSpec(g, post);
    RemoveSpec(g, pre);
    if Contains(g, pre) {
      AddSpec(Remove(g, pre), post);
    }
  }

  /** The edge a possibly-null triple denotes, if any. */
  ghost function OptEdges<V(!new), E(!new)>(t: Option<Triple<V, E>>): set<Edge<V, E>> {
    if t.Some? then TripleEdges([t.value]) else {}
  }

  lemma OptEdgesSpec<V(!new), E(!new)>(t: Option<Triple<V, E>>)
    ensures OptEdges(t) == if t.Some? && t.value.a.Some? && t.value.b.Some? && t.value.c.Some?
                           then {Edge(t.value.a.value, t.value.b.value, t.value.c.value)} else {}
  {
  }

  lemma AddSpec<V(!new), E(!new)>(g: Graph<V, E>, t: Option<Triple<V, E>>)
    requires Valid(g)
    ensures Valid(Add(g, t)) && Edges(Add(g, t)) == Edges(g) + OptEdges(t)
    ensures Compact(g) ==> Compact(Add(g, t))
  {
    OptEdgesSpec(t);
    if t.Some? && t.value.a.Some? && t.value.b.Some? && t.value.c.Some? {
      var s, w, d := t.value.a.value, t.value.b.value, t.value.c.value;
      assert Add(g, t) == PutEdge(g, Some(s), Some(d), Some(w));
      PutEdgeSpec(g, s, d, w);
    }
  }

  lemma RemoveSpec<V(!new), E(!new)>(g: Graph<V, E>, t: Option<Triple<V, E>>)
    requires Valid(g)
    ensures Valid(Remove(g, t)) && Edges(Remove(g, t)) == Edges(g) - OptEdges(t)
    ensures Compact(g) ==> Compact(Remove(g, t))
  {
    OptEdgesSpec(t);
    if t.Some? && t.value.a.Some? && t.value.b.Some? && t.value.c.Some? {
      var s, w, d := t.value.a.value, t.value.b.value, t.value.c.value;
      assert Remove(g, t) == RemoveEdge(g, Some(s), Some(d), Some(w));
      RemoveEdgeSpec(g, s, d, w);
    }
  }

  lemma TripleEdgesCons<V(!new), E(!new)>(ts: seq<Triple<V, E>>)
    requires ts != []
    ensures TripleEdges(ts) == TripleEdges([ts[0]]) + TripleEdges(ts[1..])
  {
    assert forall t :: t in ts <==> t == ts[0] || t in ts[1..];
  }

  /** The array constructor's loop: the result holds the given edges plus every non-null triple. */
  lemma {:induction false} PutAllSpec<V(!new), E(!new)>(g: Graph<V, E>, ts: seq<Triple<V, E>>)
    requires Valid(g)
    ensures Valid(PutAll(g, ts))
    ensures Edges(PutAll(g, ts)) == Edges(g) + TripleEdges(ts)
    ensures Compact(g) ==> Compact(PutAll(g, ts))
    decreases |ts|
  {
    if ts != [] {
      var t := Some(ts[0]);
      assert PutEdge(g, ts[0].a, ts[0].c, ts[0].b) == Add(g, t);
      AddSpec(g, t);
      PutAllSpec(Add(g, t), ts[1..]);
      TripleEdgesCons(ts);
    }
  }

  /** `Graph.of(triples)`: a valid compact graph whose edges are the non-null triples. */
  lemma OfSpec<V(!new), E(!new)>(ts: seq<Triple<V, E>>)
    ensures Valid(Of(ts)) && Compact(Of(ts))
    ensures Edges(Of(ts)) == TripleEdges(ts)
    ensures GetNodes(Of(ts)) == Endpoints(TripleEdges(ts))
  {
    var e: Graph<V, E> := Empty();
    assert Edges(e) == {};
    PutAllSpec(e, ts);
    CompactNodes(Of(ts));
  }
}
