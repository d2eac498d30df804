/** `GraphImpl` as an object. Its two fields hold `DefaultMap` instances; the
    operations of `Graphs` act on their contents, but `equals` and the array
    constructor reassign the fields themselves, so the instances have an identity
    here (`AdjacencyMap`) that `Age.age` and the aliasing of `equals` can see. */
module GraphObjects {
  import opened Common
  import opened Graphs
  import opened GraphUpdates
  import opened GraphListing

  /** The run-time class of a plain `GraphImpl`, which `putEdge` and `Graph.of` always build
      whatever the class of the receiver. */
  const GraphImplClass: nat := 0

  /** One `DefaultMap` instance holding a graph index. */
  class AdjacencyMap<V(==, !new), E(==, !new)> {
    const entries: Adjacency<V, E>

    constructor (entries: Adjacency<V, E>)
      ensures this.entries == entries
    {
      this.entries := entries;
    }
  }

  /** The triples of an array of possibly-null triples, once none is null. */
  function Unwrap<T>(os: seq<Option<T>>): (r: seq<T>)
    requires forall i :: 0 <= i < |os| ==> os[i].Some?
    ensures |r| == |os| && forall i :: 0 <= i < |os| ==> r[i] == os[i].value
  {
    if os == [] then [] else [os[0].value] + Unwrap(os[1..])
  }

  lemma {:induction false} PutAllAppend<V(!new), E(!new)>(g: Graph<V, E>, ts: seq<Triple<V, E>>, t: Triple<V, E>)
    ensures PutAll(g, ts + [t]) == PutEdge(PutAll(g, ts), t.a, t.c, t.b)
    decreases |ts|
  {
    if ts == [] {
      assert ([] + [t])[1..] == [];
    } else {
      assert (ts + [t])[1..] == ts[1..] + [t];
      PutAllAppend(PutEdge(g, ts[0].a, ts[0].c, ts[0].b), ts[1..], t);
    }
  }

  /** One more triple of the array constructor's loop is one more `putEdge`. */
  lemma PutAllPrefix<V(!new), E(!new)>(os: seq<Option<Triple<V, E>>>, i: nat)
    requires i < |os| && forall k :: 0 <= k <= i ==> os[k].Some?
    ensures PutAll(Graphs.Empty(), Unwrap(os[..i + 1]))
            == PutEdge(PutAll(Graphs.Empty(), Unwrap(os[..i])), os[i].value.a, os[i].value.c, os[i].value.b)
  {
    assert os[..i + 1] == os[..i] + [os[i]];
    assert Unwrap(os[..i + 1]) == Unwrap(os[..i]) + [os[i].value];
    PutAllAppend(Graphs.Empty(), Unwrap(os[..i]), os[i].value);
  }

  class GraphImpl<V(==, !new), E(==, !new)> {
    /** The run-time class, which `equals` compares. */
    const runtimeClass: nat
    var outgoing: AdjacencyMap<V, E>
    var incoming: AdjacencyMap<V, E>

    /** The graph value the two fields hold. */
    function Value(): Graph<V, E>
      reads this
    {
      Graph(outgoing.entries, incoming.entries)
    }

    /** `GraphImpl()`: both fields point at the one shared empty map. */
    constructor Empty(cls: nat, shared: AdjacencyMap<V, E>)
      requires shared.entries == map[]
      ensures runtimeClass == cls && outgoing == shared && incoming == shared
      ensures Value() == Graphs.Empty()
    {
      runtimeClass := cls;
      outgoing := shared;
      incoming := shared;
    }

    /** `GraphImpl(outgoing, incoming)`: a null index is rebuilt from the other by
        `getReversedMap`; when both are null both fields get the shared empty map. */
    constructor FromIndices(cls: nat, out: AdjacencyMap?<V, E>, inc: AdjacencyMap?<V, E>, shared: AdjacencyMap<V, E>)
      requires shared.entries == map[]
      ensures runtimeClass == cls
      ensures out == null && inc == null ==> outgoing == shared && incoming == shared
      ensures out != null ==> outgoing == out
      ensures inc != null ==> incoming == inc
      ensures out != null && inc == null ==>
                AdjacencyWF(incoming.entries) && NoEmptyPair(incoming.entries)
                && forall a, w, b :: Has(incoming.entries, a, w, b) <==> b in out.entries && InByVertex(out.entries[b], a, w)
      ensures out == null && inc != null ==>
                AdjacencyWF(outgoing.entries) && NoEmptyPair(outgoing.entries)
                && forall a, w, b :: Has(outgoing.entries, a, w, b) <==> b in inc.entries && InByVertex(inc.entries[b], a, w)
    {
      runtimeClass := cls;
      if out == null && inc == null {
        incoming := shared;
        outgoing := shared;
      } else if inc == null {
        var rev := GetReversedMap(out.entries);
        incoming := new AdjacencyMap(rev);
        outgoing := out;
      } else if out == null {
        incoming := inc;
        var rev := GetReversedMap(inc.entries);
        outgoing := new AdjacencyMap(rev);
      } else {
        incoming := inc;
        outgoing := out;
      }
    }

    /** `putEdge` on the object: the receiver itself for a null argument or an edge already
        present, else a new plain `GraphImpl` over two new maps holding the edge added. */
    method PutEdgeObject(src: Option<V>, dst: Option<V>, val: Option<E>, shared: AdjacencyMap<V, E>)
      returns (next: GraphImpl<V, E>)
      requires shared.entries == map[]
      ensures next.Value() == PutEdge(Value(), src, dst, val)
      ensures next != this ==> next.runtimeClass == GraphImplClass
      ensures src.None? || dst.None? || val.None? || ContainsEdge(Value(), src, dst, val) ==> next == this
      ensures next != this ==> fresh(next)
    {
      if src.None? || dst.None? || val.None? || ContainsEdge(Value(), src, dst, val) {
        return this;
      }
      var r := PutEdge(Value(), src, dst, val);
      var out := new AdjacencyMap(r.outgoing);
      var inc := new AdjacencyMap(r.incoming);
      next := new GraphImpl.FromIndices(GraphImplClass, out, inc, shared);
    }

    /** One turn of the array constructor's loop: both fields are reassigned to those of
        `putEdge(a, c, b)`. */
    method TakeEdge(t: Triple<V, E>, shared: AdjacencyMap<V, E>)
      requires shared.entries == map[]
      modifies this
      ensures Value() == PutEdge(old(Value()), t.a, t.c, t.b)
    {
      var next := PutEdgeObject(t.a, t.c, t.b, shared);
      ghost var built := next.Value();
      outgoing := next.outgoing;
      incoming := next.incoming;
      assert Value() == built;
    }

    /** `GraphImpl(Triple[] edges)` (and `Graph.of` with at least one triple): start empty and
        reassign both fields to the result of `putEdge(a, c, b)` for each triple in turn;
        a null element throws NullPointerException. */
    static method FromArray(cls: nat, edges: array<Option<Triple<V, E>>>, shared: AdjacencyMap<V, E>) returns (r: Result<GraphImpl<V, E>>)
      requires shared.entries == map[]
      ensures r.Failure? <==> exists i :: 0 <= i < edges.Length && edges[i].None?
      ensures r.Failure? ==> r.error == NullPointer
      ensures r.Success? ==> fresh(r.value) && r.value.runtimeClass == cls
                             && r.value.Value() == PutAll(Graphs.Empty(), Unwrap(edges[..]))
    {
      var g := new GraphImpl.Empty(cls, shared);
      var i := 0;
      while i < edges.Length
        invariant 0 <= i <= edges.Length
        invariant forall k :: 0 <= k < i ==> edges[k].Some?
        invariant fresh(g) && g.runtimeClass == cls
        invariant g.Value() == PutAll(Graphs.Empty(), Unwrap(edges[..i]))
      {
        if edges[i].None? {
          return Failure(NullPointer);
        }
        var t := edges[i].value;
        PutAllPrefix(edges[..], i);
        g.TakeEdge(t, shared);
        i := i + 1;
      }
      assert edges[..i] == edges[..];
      r := Success(g);
    }

    /** `equals`: true for the same object; false for null, another class or another `outgoing`
        content, changing nothing; otherwise true, and each field of both graphs is repointed
        to the instance with the larger `Age.age` (the other's on a tie). */
    method Equals(other: GraphImpl?<V, E>, age: AdjacencyMap<V, E> -> int) returns (b: bool)
      modifies this, other
      ensures other == this ==> b && unchanged(this)
      ensures other != this ==>
                (b <==> other != null && other.runtimeClass == runtimeClass
                        && old(outgoing.entries) == old(other.outgoing.entries))
      ensures !b ==> unchanged(this) && (other != null ==> unchanged(other))
      ensures b && other != this ==>
                && outgoing == other.outgoing
                && incoming == other.incoming
                && outgoing == (if age(old(outgoing)) > age(old(other.outgoing)) then old(outgoing) else old(other.outgoing))
                && incoming == (if age(old(incoming)) > age(old(other.incoming)) then old(incoming) else old(other.incoming))
                && outgoing.entries == old(outgoing.entries)
      ensures b && other != null && old(Valid(Value()) && Compact(Value()))
                && old(Valid(other.Value()) && Compact(other.Value())) ==>
                  Value() == old(Value()) && other.Value() == old(other.Value())
    {
      if other == this {
        return true;
      }
      if other == null || other.runtimeClass != runtimeClass {
        return false;
      }
      if outgoing.entries != other.outgoing.entries {
        return false;
      }
      if Valid(Value()) && Compact(Value()) && Valid(other.Value()) && Compact(other.Value()) {
        EqualsKeepsValue(Value(), other.Value());
      }
      if age(outgoing) > age(other.outgoing) {
        other.outgoing := outgoing;
      } else {
        outgoing := other.outgoing;
      }
      if age(incoming) > age(other.incoming) {
        other.incoming := incoming;
      } else {
        incoming := other.incoming;
      }
      return true;
    }

    /** `listIterator(index)` over the walk `groups` of this graph: the iterator of
        `List.of(toList())`, starting at `index`, bounded by `size()`. */
    method ListIterator(groups: Listing<V, E>, index: int) returns (r: Result<GraphIterator<V, E>>)
      requires Valid(Value()) && Enumerates(Value(), groups)
      ensures (index < 0 || index > Size(Value())) <==> r == Failure(IndexOutOfBounds)
      ensures r.Success? ==> fresh(r.value) && r.value.edges == Flatten(groups)
                             && r.value.idx == index && r.value.size == Size(Value())
                             && r.value.Valid()
    {
      var size := SizeOf(Value(), groups);
      ListingSpec(Value(), groups);
      r := GraphIterator.Create(Flatten(groups), index, size);
    }
  }

  /** `Graph.of(e...)`: the shared `EMPTY` graph for no triples, else the array constructor of
      `GraphImpl` itself; either way a plain `GraphImpl`. */
  method Of<V(==, !new), E(==, !new)>(edges: array<Option<Triple<V, E>>>, empty: GraphImpl<V, E>, shared: AdjacencyMap<V, E>)
    returns (r: Result<GraphImpl<V, E>>)
    requires shared.entries == map[] && empty.Value() == Graphs.Empty() && empty.runtimeClass == GraphImplClass
    ensures edges.Length == 0 ==> r == Success(empty)
    ensures r.Success? ==> r.value.runtimeClass == GraphImplClass
    ensures r.Failure? <==> exists i :: 0 <= i < edges.Length && edges[i].None?
    ensures r.Failure? ==> r.error == NullPointer
    ensures r.Success? ==> r.value.Value() == Graphs.Of(Unwrap(edges[..]))
  {
    if edges.Length == 0 {
      return Success(empty);
    }
    r := GraphImpl.FromArray(GraphImplClass, edges, shared);
  }

  /** Aliasing through `equals` never changes what a compact valid graph holds: equal
      `outgoing` contents force equal `incoming` contents. */
  lemma EqualsKeepsValue<V(!new), E(!new)>(g1: Graph<V, E>, g2: Graph<V, E>)
    requires Valid(g1) && Compact(g1) && Valid(g2) && Compact(g2)
    requires g1.outgoing == g2.outgoing
    ensures g1.incoming == g2.incoming
  {
    forall e ensures e in Edges(g1) <==> e in Edges(g2) {
      EdgesIff(g1, e);
      EdgesIff(g2, e);
    }
    GraphExt(g1, g2);
  }

  /** Under the plain-update reading of `DefaultMap.put`, `EMPTY.equals(g.removeNode(0))` with
      `g` the graph `0 -7-> 1` is true, and its repointing of `incoming` either drops vertex 1
      from the removed graph or puts it into `EMPTY`. */
  method RemovedNodeEqualsEmpty(shared: AdjacencyMap<int, int>, age: AdjacencyMap<int, int> -> int)
    returns (b: bool, inRemoved: bool, inEmpty: bool)
    requires shared.entries == map[]
    ensures b
    ensures inRemoved == inEmpty
  {
    var g := SingleEdge();
    RemoveNodeLeavesEmptyPair();
    var r := RemoveNode(g, Some(0));
    var empty := new GraphImpl.Empty(GraphImplClass, shared);
    var out := new AdjacencyMap(r.outgoing);
    var inc := new AdjacencyMap(r.incoming);
    var removed := new GraphImpl.FromIndices(GraphImplClass, out, inc, shared);
    assert 1 in GetNodes(removed.Value()) && 1 !in GetNodes(empty.Value());
    b := empty.Equals(removed, age);
    inRemoved := 1 in GetNodes(removed.Value());
    inEmpty := 1 in GetNodes(empty.Value());
  }

  /** `GraphIterator`: a cursor `idx` over a fixed list of `size` edges. */
  class GraphIterator<V(==, !new), E(==, !new)> {
    var edges: seq<Edge<V, E>>
    var idx: int
    var size: int

    ghost predicate Valid()
      reads this
    {
      0 <= idx <= size == |edges|
    }

    constructor (edges: seq<Edge<V, E>>, idx: int, size: int)
      requires 0 <= idx <= size
      ensures this.edges == edges && this.idx == idx && this.size == size
    {
      this.edges := edges;
      this.idx := idx;
      this.size := size;
    }

    /** The constructor's bound check: IndexOutOfBounds unless `0 <= idx <= size`. */
    static method Create(edges: seq<Edge<V, E>>, idx: int, size: int) returns (r: Result<GraphIterator<V, E>>)
      ensures (idx < 0 || idx > size) <==> r == Failure(IndexOutOfBounds)
      ensures r.Success? ==> fresh(r.value) && r.value.edges == edges && r.value.idx == idx && r.value.size == size
    {
      if idx < 0 || idx > size {
        return Failure(IndexOutOfBounds);
      }
      var it := new GraphIterator(edges, idx, size);
      r := Success(it);
    }

    /** `hasNext()`: an edge remains at the cursor. */
    predicate HasNext(): (r: bool)
      reads this
      ensures Valid() ==> (r <==> idx < |edges|)
    {
      idx < size
    }

    /** `hasPrevious()`: an edge lies just before the cursor. */
    predicate HasPrevious(): (r: bool)
      reads this
      ensures Valid() ==> (r <==> 0 <= idx - 1 < |edges|)
    {
      idx > 0
    }

    /** `next()`: NoSuchElement at the end, else the edge at the cursor, which moves forward. */
    method Next() returns (r: Result<Edge<V, E>>)
      requires Valid()
      modifies this
      ensures Valid() && edges == old(edges) && size == old(size)
      ensures !old(HasNext()) ==> r == Failure(NoSuchElement) && idx == old(idx)
      ensures old(HasNext()) ==> r == Success(edges[old(idx)]) && idx == old(idx) + 1
    {
      if !HasNext() {
        return Failure(NoSuchElement);
      }
      r := Success(edges[idx]);
      idx := idx + 1;
    }

    /** `previous()`: NoSuchElement at the start, else the cursor moves back onto the edge it returns. */
    method Previous() returns (r: Result<Edge<V, E>>)
      requires Valid()
      modifies this
      ensures Valid() && edges == old(edges) && size == old(size)
      ensures !old(HasPrevious()) ==> r == Failure(NoSuchElement) && idx == old(idx)
      ensures old(HasPrevious()) ==> idx == old(idx) - 1 && r == Success(edges[idx])
    {
      if !HasPrevious() {
        return Failure(NoSuchElement);
      }
      idx := idx - 1;
      r := Success(edges[idx]);
    }

    /** `nextIndex`, `previousIndex`, `remove`, `set` and `add` all throw UnsupportedOperation. */
    method Unsupported() returns (r: Result<()>)
      ensures r == Failure(UnsupportedOperation)
    {
      r := Failure(UnsupportedOperation);
    }
  }

  /** Moving forward and back again returns the same edge and restores the cursor. */
  method NextThenPrevious<V(!new), E(!new)>(it: GraphIterator<V, E>) returns (a: Result<Edge<V, E>>, b: Result<Edge<V, E>>)
    requires it.Valid() && it.HasNext()
    modifies it
    ensures it.Valid() && it.idx == old(it.idx)
    ensures a.Success? && a == b
  {
    a := it.Next();
    b := it.Previous();
  }
}
