/** The order in which `GraphImpl` walks its edges: `size()` and `get(int)`.

    `outgoing` is walked vertex by vertex, each vertex's weight map weight by weight,
    and each weight's set element by element. That order belongs to the unseen hash
    trie, so it is a parameter here: a `Listing`, one `Group` per (vertex, weight) key
    of `outgoing`, each with its destinations in walking order. `Enumerates` says that
    a listing walks the given graph; the lemmas show that it then lists every edge
    exactly once. */
module GraphListing {
  import opened Common
  import opened Graphs

  /** One weight entry of one vertex of `outgoing`, its destinations in walking order. */
  datatype Group<V, E> = Group(src: V, weight: E, dsts: seq<V>)

  type Listing<V, E> = seq<Group<V, E>>

  predicate NoDup<T(==)>(s: seq<T>) {
    forall i, j :: 0 <= i < j < |s| ==> s[i] != s[j]
  }

  /** The edges of one group, in order. */
  function GroupEdges<V, E>(gr: Group<V, E>): (r: seq<Edge<V, E>>)
    ensures |r| == |gr.dsts|
    ensures forall k :: 0 <= k < |r| ==> r[k] == Edge(gr.src, gr.weight, gr.dsts[k])
  {
    seq(|gr.dsts|, k requires 0 <= k < |gr.dsts| => Edge(gr.src, gr.weight, gr.dsts[k]))
  }

  /** The edges in walking order: the order of the graph's iterator and of `toList()`. */
  function Flatten<V, E>(groups: Listing<V, E>): seq<Edge<V, E>>
    decreases |groups|
  {
    if groups == [] then [] else GroupEdges(groups[0]) + Flatten(groups[1..])
  }

  /** `groups` walks `g`: each key (vertex, weight) of `outgoing` once, each weight set completely and once. */
  ghost predicate Enumerates<V(!new), E(!new)>(g: Graph<V, E>, groups: Listing<V, E>) {
    && (forall i :: 0 <= i < |groups| ==>
          && groups[i].src in g.outgoing
          && groups[i].weight in g.outgoing[groups[i].src].byWeight
          && NoDup(groups[i].dsts)
          && (forall v :: v in groups[i].dsts <==> v in g.outgoing[groups[i].src].byWeight[groups[i].weight]))
    && (forall i, j :: 0 <= i < j < |groups| ==>
          groups[i].src != groups[j].src || groups[i].weight != groups[j].weight)
    && (forall u, w :: u in g.outgoing && w in g.outgoing[u].byWeight ==>
          exists i :: 0 <= i < |groups| && groups[i].src == u && groups[i].weight == w)
  }

  // ---------------------------------------------------------------------------
  // Lemmas: a listing lists every edge exactly once
  // ---------------------------------------------------------------------------

  lemma {:induction false} FlattenMember<V, E>(groups: Listing<V, E>, e: Edge<V, E>)
    ensures e in Flatten(groups) <==>
            exists i :: 0 <= i < |groups| && groups[i].src == e.src && groups[i].weight == e.weight && e.dst in groups[i].dsts
    decreases |groups|
  {
    if groups != [] {
      FlattenMember(groups[1..], e);
      if exists i :: 0 <= i < |groups| && groups[i].src == e.src && groups[i].weight == e.weight && e.dst in groups[i].dsts {
        var i :| 0 <= i < |groups| && groups[i].src == e.src && groups[i].weight == e.weight && e.dst in groups[i].dsts;
        if i == 0 {
          var k :| 0 <= k < |groups[0].dsts| && groups[0].dsts[k] == e.dst;
          assert GroupEdges(groups[0])[k] == e;
        } else {
          assert groups[1..][i - 1] == groups[i];
        }
      }
      if e in GroupEdges(groups[0]) {
        var k :| 0 <= k < |GroupEdges(groups[0])| && GroupEdges(groups[0])[k] == e;
        assert e.dst == groups[0].dsts[k];
      }
      if e in Flatten(groups[1..]) {
        var i :| 0 <= i < |groups[1..]| && groups[1..][i].src == e.src && groups[1..][i].weight == e.weight && e.dst in groups[1..][i].dsts;
        assert groups[i + 1] == groups[1..][i];
      }
    }
  }

  lemma {:induction false} FlattenNoDup<V, E>(groups: Listing<V, E>)
    requires forall i :: 0 <= i < |groups| ==> NoDup(groups[i].dsts)
    requires forall i, j :: 0 <= i < j < |groups| ==> groups[i].src != groups[j].src || groups[i].weight != groups[j].weight
    ensures NoDup(Flatten(groups))
    decreases |groups|
  {
    if groups != [] {
      var rest := groups[1..];
      assert forall i :: 0 <= i < |rest| ==> rest[i] == groups[i + 1];
      FlattenNoDup(rest);
      var a := GroupEdges(groups[0]);
      var b := Flatten(rest);
      forall x, y | 0 <= x < |a| && 0 <= y < |b| ensures a[x] != b[y] {
        FlattenMember(rest, b[y]);
        var i :| 0 <= i < |rest| && rest[i].src == b[y].src && rest[i].weight == b[y].weight && b[y].dst in rest[i].dsts;
        assert groups[i + 1] == rest[i];
      }
      assert Flatten(groups) == a + b;
      forall i, j | 0 <= i < j < |a + b| ensures (a + b)[i] != (a + b)[j] {
        if j < |a| {
          assert groups[0].dsts[i] != groups[0].dsts[j];
        } else if i >= |a| {
          assert (a + b)[i] == b[i - |a|] && (a + b)[j] == b[j - |a|];
        } else {
          assert (a + b)[j] == b[j - |a|];
        }
      }
    }
  }

  lemma {:induction false} NoDupCard<T>(s: seq<T>)
    requires NoDup(s)
    ensures |set x | x in s| == |s|
    decreases |s|
  {
    if s != [] {
      var rest := s[1..];
      assert NoDup(rest) by {
        forall i, j | 0 <= i < j < |rest| ensures rest[i] != rest[j] {
          assert rest[i] == s[i + 1] && rest[j] == s[j + 1];
        }
      }
      NoDupCard(rest);
      assert s[0] !in rest by {
        forall k | 0 <= k < |rest| ensures rest[k] != s[0] {
          assert rest[k] == s[k + 1];
        }
      }
      assert (set x | x in s) == (set x | x in rest) + {s[0]};
    }
  }

  /** A listing of a valid graph lists exactly its edges, each once; so it has `size()` elements. */
  lemma ListingSpec<V(!new), E(!new)>(g: Graph<V, E>, groups: Listing<V, E>)
    requires Valid(g) && Enumerates(g, groups)
    ensures forall e :: e in Flatten(groups) <==> e in Edges(g)
    ensures NoDup(Flatten(groups))
    ensures |Flatten(groups)| == Size(g)
  {
    forall e ensures e in Flatten(groups) <==> e in Edges(g) {
      FlattenMember(groups, e);
      EdgesIff(g, e);
      if Has(g.outgoing, e.src, e.weight, e.dst) {
        var i :| 0 <= i < |groups| && groups[i].src == e.src && groups[i].weight == e.weight;
        assert e.dst in groups[i].dsts;
      }
    }
    FlattenNoDup(groups);
    NoDupCard(Flatten(groups));
    assert (set x | x in Flatten(groups)) == Edges(g);
  }

  // ---------------------------------------------------------------------------
  // size() and get(int)
  // ---------------------------------------------------------------------------

  /** `size()`: the sizes of all weight sets of `outgoing`, summed in walking order. */
  method SizeOf<V(!new), E(!new)>(g: Graph<V, E>, groups: Listing<V, E>) returns (n: int)
    requires Valid(g) && Enumerates(g, groups)
    ensures n == Size(g)
  {
    n := CountListed(groups);
    ListingSpec(g, groups);
  }

  /** The summing loop of `size()`: one addition per group, of the group's set size. */
  method CountListed<V, E>(groups: Listing<V, E>) returns (n: int)
    ensures n == |Flatten(groups)|
  {
    n := 0;
    var i := 0;
    while i < |groups|
      invariant 0 <= i <= |groups|
      invariant n == |Flatten(groups[..i])|
    {
      FlattenAppend(groups[..i], groups[i]);
      assert groups[..i + 1] == groups[..i] + [groups[i]];
      n := n + |groups[i].dsts|;
      i := i + 1;
    }
    assert groups[..i] == groups;
  }

  lemma {:induction false} FlattenAppend<V, E>(groups: Listing<V, E>, gr: Group<V, E>)
    ensures Flatten(groups + [gr]) == Flatten(groups) + GroupEdges(gr)
    decreases |groups|
  {
    if groups == [] {
      assert [gr][1..] == [];
    } else {
      assert (groups + [gr])[1..] == groups[1..] + [gr];
      FlattenAppend(groups[1..], gr);
    }
  }

  lemma {:induction false} FlattenSplit<V, E>(groups: Listing<V, E>, i: nat)
    requires i <= |groups|
    ensures Flatten(groups) == Flatten(groups[..i]) + Flatten(groups[i..])
    decreases i
  {
    if i > 0 {
      assert groups[..i][1..] == groups[1..][..i - 1];
      assert groups[i..] == groups[1..][i - 1..];
      FlattenSplit(groups[1..], i - 1);
    } else {
      assert groups[i..] == groups;
    }
  }

  /** `get(index)`: IndexOutOfBounds outside `[0, size())`, else the edge at that position of the walk. */
  method Get<V(!new), E(!new)>(g: Graph<V, E>, groups: Listing<V, E>, index: int) returns (r: Result<Edge<V, E>>)
    requires Valid(g) && Enumerates(g, groups)
    ensures (index < 0 || index >= Size(g)) <==> r == Failure(IndexOutOfBounds)
    ensures 0 <= index < |Flatten(groups)| ==> r == Success(Flatten(groups)[index])
  {
    var size := SizeOf(g, groups);
    if index < 0 || index >= size {
      assert index >= |Flatten(groups)| || index < 0 by { ListingSpec(g, groups); }
      return Failure(IndexOutOfBounds);
    }
    assert index < |Flatten(groups)| by { ListingSpec(g, groups); }
    var e := Locate(groups, index);
    r := Success(e);
  }

  /** Where the skipping loop of `get(index)` stops: inside group `i`, at offset `idx`. */
  lemma PositionInGroup<V, E>(groups: Listing<V, E>, i: nat, idx: nat, index: nat)
    requires i <= |groups| && index < |Flatten(groups)|
    requires idx + |Flatten(groups[..i])| == index
    requires i == |groups| || idx < |groups[i].dsts|
    ensures i < |groups| && idx < |groups[i].dsts|
    ensures Flatten(groups)[index] == Edge(groups[i].src, groups[i].weight, groups[i].dsts[idx])
  {
    FlattenSplit(groups, i);
    assert |Flatten(groups[i..])| > idx;
    assert groups[i..] != [];
    assert Flatten(groups[i..]) == GroupEdges(groups[i]) + Flatten(groups[i + 1..]) by {
      assert groups[i..][1..] == groups[i + 1..];
    }
    assert Flatten(groups)[index] == GroupEdges(groups[i])[idx];
  }

  /** The outer loops of `get(index)` once the bound is checked: skip every weight set that
      ends before the position. */
  method SkipGroups<V, E>(groups: Listing<V, E>, index: int) returns (i: nat, idx: nat)
    requires 0 <= index < |Flatten(groups)|
    ensures i < |groups| && idx < |groups[i].dsts|
    ensures Flatten(groups)[index] == Edge(groups[i].src, groups[i].weight, groups[i].dsts[idx])
  {
    i := 0;
    idx := index;
    while i < |groups| && idx >= |groups[i].dsts|
      invariant 0 <= i <= |groups|
      invariant idx + |Flatten(groups[..i])| == index
    {
      FlattenAppend(groups[..i], groups[i]);
      assert groups[..i + 1] == groups[..i] + [groups[i]];
      idx := idx - |groups[i].dsts|;
      i := i + 1;
    }
    PositionInGroup(groups, i, idx, index);
  }

  /** The loops of `get(index)` once the bound is checked: skip to the weight set that holds
      the position, then count down within it. */
  method Locate<V, E>(groups: Listing<V, E>, index: int) returns (e: Edge<V, E>)
    requires 0 <= index < |Flatten(groups)|
    ensures e == Flatten(groups)[index]
  {
    var i, idx := SkipGroups(groups, index);
    ghost var offset := idx;
    var dsts := groups[i].dsts;
    var j := 0;
    while idx != 0
      invariant 0 <= j <= j + idx < |dsts|
      invariant j + idx == offset
    {
      idx := idx - 1;
      j := j + 1;
    }
    e := Edge(groups[i].src, groups[i].weight, dsts[j]);
  }

  /** `get` is a bijection from `[0, size())` onto the edges: each position yields an edge,
      distinct positions distinct edges, and every edge some position. */
  lemma GetBijection<V(!new), E(!new)>(g: Graph<V, E>, groups: Listing<V, E>)
    requires Valid(g) && Enumerates(g, groups)
    ensures |Flatten(groups)| == Size(g)
    ensures forall i :: 0 <= i < Size(g) ==> Flatten(groups)[i] in Edges(g)
    ensures forall i, j :: 0 <= i < j < Size(g) ==> Flatten(groups)[i] != Flatten(groups)[j]
    ensures forall e :: e in Edges(g) ==> exists i :: 0 <= i < Size(g) && Flatten(groups)[i] == e
  {
    ListingSpec(g, groups);
    forall e | e in Edges(g) ensures exists i :: 0 <= i < Size(g) && Flatten(groups)[i] == e {
      assert e in Flatten(groups);
      var i :| 0 <= i < |Flatten(groups)| && Flatten(groups)[i] == e;
    }
  }
}
