# Immutable directed graph and struct core, modelled in Dafny

This project models the core of a Java library of immutable collections:

- `GraphImpl`, an immutable directed graph with weighted edges. Each edge is a triple
  (source, weight, destination). The graph keeps two indices, `outgoing` and `incoming`.
  Each index maps a vertex to a pair of maps: neighbour to weights, and weight to neighbours.
- the default methods of `Graph` that detect cycles through a filtered view of the graph;
- `StructImpl`, a fixed-length tuple over a mutable backing array. Its `equals` makes two
  equal structs share one array.

Modules and files:

| file | module | what it holds |
|---|---|---|
| `common.dfy` | `Common` | `Option` (Java null), `Result` and `Error` (the exceptions the core throws) |
| `graph.dfy` | `Graphs` | The graph as a value: both indices, the invariant `Valid` (well-formed pairs, each index the transpose of the other), the edge set `Edges`, every query and value-level update, and their lemmas |
| `graph_updates.dfy` | `GraphUpdates` | `removeNode`, `removeEdges` and `getReversedMap`, whose helpers loop over maps. Each is a method proved against a function, and lemmas state each function in terms of `Edges` |
| `graph_listing.dfy` | `GraphListing` | The order in which the graph walks its edges; `size()` and `get(int)` |
| `graph_objects.dfy` | `GraphObjects` | `GraphImpl` as an object whose fields hold map instances: the constructors, the array constructor's loop, `equals` with its aliasing, `Graph.of`, and `GraphIterator` |
| `cycles.dfy` | `Cycles` | `hasCycles`, both overloads, and `cycleDetectionHelper`, plus the memoising variant under "Findings" |
| `cycle_cases.dfy` | `CycleCases` | The graphs of the cycle cases of `GraphTest`, with what the cycle specification says about them |
| `structs.dfy` | `Structs` | `StructImpl` over a Dafny `array`, and Java's `Arrays.hashCode` with 32-bit wrap-around |

Modelling choices:

- A `DefaultMap` is a Dafny `map`. Its default function is always the empty set or the
  empty pair, so a lookup of an absent key yields the empty value (`IndexAt`, `SetAt`).
- `Graphs.Valid` is the representation invariant. `Graphs.Compact` adds that no vertex keeps an
  empty pair, which `putEdge`, `removeEdge`, `removeEdges`, `inverted` and `Graph.of` preserve.
  On compact valid graphs the representation is canonical (`Graphs.GraphExt`). That is what
  makes the round trips and the involution of `inverted` hold as equalities.
- The hash-trie iteration order of the maps is not modelled. `size()`, `get(int)` and the
  iterator take the walk order as a parameter: a `Listing` constrained by `Enumerates` to walk
  the graph. Everything proved holds for every such order.
- `getClass()` is a constant field `runtimeClass`, and `Age.age` is a function parameter.
- The node and edge predicates of `hasCycles` are total Dafny functions.

## Model

| member | source | states |
|---|---|---|
| Graphs.GetNodes | src/main/java/org/modelingvalue/collections/impl/GraphImpl.java:176-178 | A vertex is a node exactly when it is a key of `outgoing` or of `incoming` |
| Graphs.ContainsNode | src/main/java/org/modelingvalue/collections/impl/GraphImpl.java:171-173 | False for null; otherwise true exactly when the vertex is a node |
| Graphs.ContainsEdge | src/main/java/org/modelingvalue/collections/impl/GraphImpl.java:212-215 | True exactly when no argument is null and the edge is in the graph's edge set |
| Graphs.GetEdges | src/main/java/org/modelingvalue/collections/impl/GraphImpl.java:205-210 | Null exactly when either argument is not a node |
| Graphs.GetEdgesSpec | src/main/java/org/modelingvalue/collections/impl/GraphImpl.java:205-210 | On two nodes of a valid graph: exactly the weights of the edges from `src` to `dst` |
| Graphs.IsEmpty | src/main/java/org/modelingvalue/collections/impl/GraphImpl.java:395-398 | An empty `outgoing` means no edges |
| Graphs.IsEmptySpec | src/main/java/org/modelingvalue/collections/impl/GraphImpl.java:395-398 | On a compact valid graph: empty exactly when there are no edges, and exactly when the graph is the empty graph |
| Graphs.GetIncoming | src/main/java/org/modelingvalue/collections/impl/GraphImpl.java:278-283 | Null exactly when the argument is not a node |
| Graphs.GetIncomingByWeight | src/main/java/org/modelingvalue/collections/impl/GraphImpl.java:285-290 | Null exactly when the weight is null or the vertex is not a node |
| Graphs.GetOutgoing | src/main/java/org/modelingvalue/collections/impl/GraphImpl.java:292-297 | Null exactly when the argument is not a node |
| Graphs.GetOutgoingByWeight | src/main/java/org/modelingvalue/collections/impl/GraphImpl.java:299-304 | Null exactly when the weight is null or the vertex is not a node |
| Graphs.GetIncomingEdges | src/main/java/org/modelingvalue/collections/impl/GraphImpl.java:306-311 | Null exactly when the argument is not a node |
| Graphs.GetOutgoingEdges | src/main/java/org/modelingvalue/collections/impl/GraphImpl.java:313-318 | Null exactly when the argument is not a node |
| Graphs.GetIncomingNodes | src/main/java/org/modelingvalue/collections/impl/GraphImpl.java:320-325 | Null exactly when the argument is not a node |
| Graphs.GetOutgoingNodes | src/main/java/org/modelingvalue/collections/impl/GraphImpl.java:327-332 | Null exactly when the argument is not a node |
| Graphs.OutIndexSpec | src/main/java/org/modelingvalue/collections/impl/GraphImpl.java:292-304 | The pair stored for a vertex in `outgoing` holds exactly that vertex's out-edges, in both halves |
| Graphs.InIndexSpec | src/main/java/org/modelingvalue/collections/impl/GraphImpl.java:278-290 | The pair stored for a vertex in `incoming` holds exactly that vertex's in-edges, in both halves |
| Graphs.GetOutgoingSpec | src/main/java/org/modelingvalue/collections/impl/GraphImpl.java:292-304 | For a node: weight to destination, in both lookups, exactly for its out-edges |
| Graphs.GetOutgoingKeysSpec | src/main/java/org/modelingvalue/collections/impl/GraphImpl.java:313-332 | For a node: the weights and the destinations of exactly its out-edges |
| Graphs.GetIncomingSpec | src/main/java/org/modelingvalue/collections/impl/GraphImpl.java:278-290 | For a node: weight to source, in both lookups, exactly for its in-edges |
| Graphs.GetIncomingKeysSpec | src/main/java/org/modelingvalue/collections/impl/GraphImpl.java:306-325 | For a node: the weights and the sources of exactly its in-edges |
| Graphs.AddTo | src/main/java/org/modelingvalue/collections/impl/GraphImpl.java:197-203 | The key gains the value; every other key keeps its set |
| Graphs.AddEdgeAt | src/main/java/org/modelingvalue/collections/impl/GraphImpl.java:188-192 | The index gains the updated key and keeps all the others |
| Graphs.AddEdgeAtSpec | src/main/java/org/modelingvalue/collections/impl/GraphImpl.java:188-203 | One side of `putEdge` keeps pairs well formed and records exactly one more edge |
| Graphs.AddToIndex | src/main/java/org/modelingvalue/collections/impl/GraphImpl.java:188-203 | Adding one (neighbour, weight) pair to a well-formed pair keeps it well formed and adds exactly that pair, in both halves |
| Graphs.PutEdge | src/main/java/org/modelingvalue/collections/impl/GraphImpl.java:181-195 | Returns the receiver when an argument is null or the edge is present; otherwise the edge is then contained |
| Graphs.PutEdgeSpec | src/main/java/org/modelingvalue/collections/impl/GraphImpl.java:181-195 | Keeps the invariant and compactness; the edge set gains exactly the edge and the nodes gain exactly its endpoints |
| Graphs.PutEdgeIndices | src/main/java/org/modelingvalue/collections/impl/GraphImpl.java:181-195 | For a new edge: the result is both indices updated, valid, and its `outgoing` records exactly one more edge |
| Graphs.RemoveEdgeAt | src/main/java/org/modelingvalue/collections/impl/GraphImpl.java:225-246 | No key is added, and `src`, if it stays a key, keeps a non-empty neighbour map |
| Graphs.RemoveEdgeAtSpec | src/main/java/org/modelingvalue/collections/impl/GraphImpl.java:225-246 | One side of `removeEdge` keeps pairs well formed, removes exactly the one edge and leaves every other key as it was |
| Graphs.RemoveEdge | src/main/java/org/modelingvalue/collections/impl/GraphImpl.java:217-223 | Returns the receiver when the edge is not contained |
| Graphs.RemoveEdgeSpec | src/main/java/org/modelingvalue/collections/impl/GraphImpl.java:217-246 | Keeps the invariant and compactness; the edge set loses exactly the edge; no node is added |
| Graphs.RemoveEdgeIndices | src/main/java/org/modelingvalue/collections/impl/GraphImpl.java:217-246 | For a present edge: the result is both indices updated, valid, and its `outgoing` records exactly one edge fewer |
| Graphs.RemoveEdgeVanish | src/main/java/org/modelingvalue/collections/impl/GraphImpl.java:225-246 | On a compact graph, a vertex stays exactly when a remaining edge touches it |
| Graphs.SizeUpdates | src/main/java/org/modelingvalue/collections/impl/GraphImpl.java:181-246 | `putEdge` adds one to the size unless the edge is present; `removeEdge` subtracts one if it is present |
| Graphs.SizeAfterPut | src/main/java/org/modelingvalue/collections/impl/GraphImpl.java:181-195 | `putEdge` adds one to the size unless the edge is present |
| Graphs.SizeAfterRemove | src/main/java/org/modelingvalue/collections/impl/GraphImpl.java:217-246 | `removeEdge` subtracts one from the size if the edge is present |
| Graphs.CompactNodes | src/main/java/org/modelingvalue/collections/impl/GraphImpl.java:175-178 | In a compact graph the nodes are exactly the endpoints of the edges |
| Graphs.GraphExt | src/main/java/org/modelingvalue/collections/impl/GraphImpl.java:71-72 | Compact valid graphs with the same edges have equal indices |
| Graphs.RemoveAfterPut | src/main/java/org/modelingvalue/collections/impl/GraphImpl.java:181-246 | Removing an edge just put into a compact graph gives the same graph back |
| Graphs.PutAfterRemove | src/main/java/org/modelingvalue/collections/impl/GraphImpl.java:181-246 | Putting back an edge just removed from a compact graph gives the same graph back |
| Graphs.Inverted | src/main/java/org/modelingvalue/collections/impl/GraphImpl.java:334-339 | Inversion keeps the node set |
| Graphs.InvertedSpec | src/main/java/org/modelingvalue/collections/impl/GraphImpl.java:334-339 | Keeps the invariant and compactness, and reverses every edge |
| Graphs.InvertedTwice | src/main/java/org/modelingvalue/collections/impl/GraphImpl.java:334-339 | On a compact valid graph, inverting twice gives the same graph |
| Graphs.InvertedSelfLoops | src/main/java/org/modelingvalue/collections/impl/GraphImpl.java:334-339 | A compact graph made only of self-loops is its own inversion |
| Graphs.Contains | src/main/java/org/modelingvalue/collections/impl/GraphImpl.java:400-407 | True exactly when the triple is non-null, has no null part, and its edge is in the graph |
| Graphs.Add | src/main/java/org/modelingvalue/collections/impl/GraphImpl.java:513-518 | Null gives the receiver; otherwise `putEdge(a, c, b)` |
| Graphs.Remove | src/main/java/org/modelingvalue/collections/impl/GraphImpl.java:489-497 | Null gives the receiver; otherwise `removeEdge(a, c, b)` |
| Graphs.Replace | src/main/java/org/modelingvalue/collections/impl/GraphImpl.java:544-552 | The receiver when `pre` is not contained |
| Graphs.CollectionOpsSpec | src/main/java/org/modelingvalue/collections/impl/GraphImpl.java:489-552 | `add`, `remove` and `replace` keep the invariant and add or remove exactly the edge the triple denotes; all three keep a compact graph compact |
| Graphs.AddSpec | src/main/java/org/modelingvalue/collections/impl/GraphImpl.java:513-518 | `add` keeps the invariant and compactness and adds the triple's edge |
| Graphs.RemoveSpec | src/main/java/org/modelingvalue/collections/impl/GraphImpl.java:489-497 | `remove` keeps the invariant and compactness and removes the triple's edge |
| Graphs.PutAllSpec | src/main/java/org/modelingvalue/collections/impl/GraphImpl.java:92-100 | The constructor loop keeps the invariant and compactness and adds the edge of every fully non-null triple |
| Graphs.Of | src/main/java/org/modelingvalue/collections/Graph.java:67-69 | No triples give the empty graph |
| Graphs.OfSpec | src/main/java/org/modelingvalue/collections/Graph.java:67-69 | `Graph.of` is valid and compact, its edges are exactly the fully non-null triples, and its nodes are exactly their endpoints |
| GraphUpdates.StripWeights | src/main/java/org/modelingvalue/collections/impl/GraphImpl.java:157-162 | The loop leaves no weight with an empty set unless that set was empty already |
| GraphUpdates.StripWeightsHas | src/main/java/org/modelingvalue/collections/impl/GraphImpl.java:157-162 | After the loop, a vertex is under a weight exactly when it was before and is not the removed node (for the weights visited) |
| GraphUpdates.StripWeightsLoop | src/main/java/org/modelingvalue/collections/impl/GraphImpl.java:157-162 | The inner loop of `removeNodeHelper` computes `StripWeights` |
| GraphUpdates.StripIndex | src/main/java/org/modelingvalue/collections/impl/GraphImpl.java:151-164 | The neighbour's pair loses exactly the key `node` from its neighbour map |
| GraphUpdates.Stripped | src/main/java/org/modelingvalue/collections/impl/GraphImpl.java:149-168 | The helper adds exactly the visited neighbours as keys |
| GraphUpdates.RemoveNodeHelper | src/main/java/org/modelingvalue/collections/impl/GraphImpl.java:149-168 | The outer loop strips `node` from every neighbour the other index records |
| GraphUpdates.RemoveNode | src/main/java/org/modelingvalue/collections/impl/GraphImpl.java:141-147 | Returns the receiver for a null or absent vertex; otherwise both indices are stripped and the vertex's key is dropped |
| GraphUpdates.StripIndexSpec | src/main/java/org/modelingvalue/collections/impl/GraphImpl.java:151-164 | A stripped pair stays well formed and holds exactly the old entries without the node |
| GraphUpdates.StrippedSpec | src/main/java/org/modelingvalue/collections/impl/GraphImpl.java:149-168 | One index after `removeNodeHelper` holds exactly the old edges whose far end is not the node |
| GraphUpdates.WithoutNodeSpec | src/main/java/org/modelingvalue/collections/impl/GraphImpl.java:141-168 | Keeps the invariant, removes exactly the edges touching the node, removes exactly that node, and the node is no longer contained |
| GraphUpdates.RemoveNodeLeavesEmptyPair | src/main/java/org/modelingvalue/collections/impl/GraphImpl.java:141-168 | `removeNode(0)` on the compact graph `0 -7-> 1` leaves no edge and the empty `outgoing`, yet keeps vertex 1 under an empty pair: the result is not compact |
| GraphUpdates.WithoutNodeIndices | src/main/java/org/modelingvalue/collections/impl/GraphImpl.java:141-168 | Both indices keep the invariant, `outgoing` keeps exactly the edges not touching the node, and the node leaves both key sets |
| GraphUpdates.RemoveEdgesHelper | src/main/java/org/modelingvalue/collections/impl/GraphImpl.java:256-276 | The helper's loop builds the pair without `dst`, dropping the key when the neighbour map empties |
| GraphUpdates.RemoveEdges | src/main/java/org/modelingvalue/collections/impl/GraphImpl.java:248-254 | Returns the receiver unless `src` is a key of `outgoing` whose pair lists `dst`; otherwise both indices lose the link |
| GraphUpdates.RemoveEdgesAtSpec | src/main/java/org/modelingvalue/collections/impl/GraphImpl.java:256-276 | One index loses exactly the edges from `src` to `dst` and keeps well-formed pairs |
| GraphUpdates.RemoveEdgesSpec | src/main/java/org/modelingvalue/collections/impl/GraphImpl.java:248-276 | The guard holds exactly when some edge goes from `src` to `dst`; then the result keeps the invariant and compactness, loses exactly those edges, and adds no node |
| GraphUpdates.ReverseWeights | src/main/java/org/modelingvalue/collections/impl/GraphImpl.java:108-117 | The innermost loop records exactly the reversed edges of one neighbour |
| GraphUpdates.ReversePair | src/main/java/org/modelingvalue/collections/impl/GraphImpl.java:107-118 | The middle loop records exactly the reversed edges of one vertex |
| GraphUpdates.GetReversedMap | src/main/java/org/modelingvalue/collections/impl/GraphImpl.java:102-122 | Builds the transpose: well-formed pairs with no empty pair, holding `a -w-> b` exactly when the input holds `b -w-> a` |
| GraphUpdates.ReversedIsIncoming | src/main/java/org/modelingvalue/collections/impl/GraphImpl.java:102-139 | Reversing a valid graph's `outgoing` yields its `incoming` |
| GraphUpdates.ReversedIsOutgoing | src/main/java/org/modelingvalue/collections/impl/GraphImpl.java:102-139 | Reversing a valid graph's `incoming` yields its `outgoing` |
| GraphListing.GroupEdges | src/main/java/org/modelingvalue/collections/impl/GraphImpl.java:479-482 | The edges of one weight set, in order, one per destination |
| GraphListing.ListingSpec | src/main/java/org/modelingvalue/collections/impl/GraphImpl.java:380-393 | A walk of a valid graph lists every edge, lists each only once, and has `size()` elements |
| GraphListing.SizeOf | src/main/java/org/modelingvalue/collections/impl/GraphImpl.java:341-344 | `size()` is the number of edges |
| GraphListing.CountListed | src/main/java/org/modelingvalue/collections/impl/GraphImpl.java:341-344 | Summing the sizes of the weight sets in walking order counts every listed edge |
| GraphListing.Get | src/main/java/org/modelingvalue/collections/impl/GraphImpl.java:466-487 | IndexOutOfBounds exactly outside `[0, size())`; otherwise the edge at that position of the walk |
| GraphListing.SkipGroups | src/main/java/org/modelingvalue/collections/impl/GraphImpl.java:472-478 | The skipping loop stops at a weight set that holds the position, with the offset of the edge inside it |
| GraphListing.Locate | src/main/java/org/modelingvalue/collections/impl/GraphImpl.java:472-484 | The skipping and counting loops reach the edge at that position of the walk |
| GraphListing.GetBijection | src/main/java/org/modelingvalue/collections/impl/GraphImpl.java:466-487 | `get` maps `[0, size())` one-to-one onto the edges |
| GraphObjects.GraphImpl.Empty | src/main/java/org/modelingvalue/collections/impl/GraphImpl.java:77-81 | Both fields point at the one shared empty map, so the value is the empty graph |
| GraphObjects.GraphImpl.FromIndices | src/main/java/org/modelingvalue/collections/impl/GraphImpl.java:124-139 | A given index is stored as is; a missing one is rebuilt as the transpose of the other; with neither, the shared empty map |
| GraphObjects.GraphImpl.FromArray | src/main/java/org/modelingvalue/collections/impl/GraphImpl.java:83-100 | NullPointer exactly when some element is null; otherwise the fields end up holding `putEdge` applied to each triple in turn |
| GraphObjects.GraphImpl.PutEdgeObject | src/main/java/org/modelingvalue/collections/impl/GraphImpl.java:181-195 | `putEdge` on the object: the receiver itself for a null argument or a present edge, else a new plain `GraphImpl`, whatever the receiver's class; either way holding the updated graph |
| GraphObjects.GraphImpl.TakeEdge | src/main/java/org/modelingvalue/collections/impl/GraphImpl.java:95-98 | One turn of the constructor loop: after reassigning both fields the object holds `putEdge` of its old value |
| GraphObjects.GraphImpl.Equals | src/main/java/org/modelingvalue/collections/impl/GraphImpl.java:351-378 | True for the same object. Otherwise true exactly when the other object is non-null, of the same class, and holds equal `outgoing` content. On false nothing changes. On true both graphs share their `outgoing` and their `incoming` instances, each the one with the larger `age` (the other's on a tie), and on compact valid graphs neither value changes |
| GraphObjects.EqualsKeepsValue | src/main/java/org/modelingvalue/collections/impl/GraphImpl.java:362-375 | On compact valid graphs, equal `outgoing` implies equal `incoming`, so the aliasing never changes a graph's value |
| GraphObjects.RemovedNodeEqualsEmpty | src/main/java/org/modelingvalue/collections/impl/GraphImpl.java:352-378 | `EMPTY.equals(g.removeNode(0))` for `g = 0 -7-> 1` is true, and afterwards both graphs agree on vertex 1: either the removed graph lost it or `EMPTY` gained it |
| GraphObjects.GraphImpl.ListIterator | src/main/java/org/modelingvalue/collections/impl/GraphImpl.java:575-578 | IndexOutOfBounds exactly outside `[0, size()]`; otherwise an iterator over the walk |
| GraphObjects.Of | src/main/java/org/modelingvalue/collections/Graph.java:67-69 | The shared `EMPTY` for no triples; NullPointer exactly when a triple is null; otherwise the value `Graphs.Of` describes; the result is always a plain `GraphImpl` |
| GraphObjects.GraphIterator.Create | src/main/java/org/modelingvalue/collections/impl/GraphImpl.java:642-650 | IndexOutOfBounds exactly when `idx` is outside `[0, size]`; otherwise an iterator with those fields |
| GraphObjects.GraphIterator.HasNext | src/main/java/org/modelingvalue/collections/impl/GraphImpl.java:652-655 | True exactly when the cursor is before the end, so an edge remains at the cursor |
| GraphObjects.GraphIterator.HasPrevious | src/main/java/org/modelingvalue/collections/impl/GraphImpl.java:665-668 | True exactly when the cursor is after the start, so an edge lies just before it |
| GraphObjects.GraphIterator.Next | src/main/java/org/modelingvalue/collections/impl/GraphImpl.java:657-663 | NoSuchElement at the end; otherwise the edge at the cursor, and the cursor moves forward |
| GraphObjects.GraphIterator.Previous | src/main/java/org/modelingvalue/collections/impl/GraphImpl.java:670-676 | NoSuchElement at the start; otherwise the cursor moves back onto the edge it returns |
| GraphObjects.GraphIterator.Unsupported | src/main/java/org/modelingvalue/collections/impl/GraphImpl.java:678-701 | One method standing for the five Java methods `nextIndex`, `previousIndex`, `remove`, `set` and `add`, each of which throws UnsupportedOperation |
| GraphObjects.NextThenPrevious | src/main/java/org/modelingvalue/collections/impl/GraphImpl.java:657-676 | `next` then `previous` return the same edge and restore the cursor |
| Cycles.StepSpec | src/main/java/org/modelingvalue/collections/Graph.java:303-304 | A followed edge leaves a node and reaches one of the successors `getOutgoingNodes` returns |
| Cycles.FollowsSpec | src/main/java/org/modelingvalue/collections/Graph.java:304 | The loop's test (node filter, then any weight of `getEdges` passing the edge filter) is exactly a followed edge |
| Cycles.RepeatIsCycle | src/main/java/org/modelingvalue/collections/Graph.java:299-300 | A walk that comes back to one of its own vertices closes a cycle |
| Cycles.StepBack | src/main/java/org/modelingvalue/collections/Graph.java:303-307 | A cycle reachable from a followed successor is reachable from the vertex itself, the reason a true result propagates up the recursion |
| Cycles.ClearFromSuccessors | src/main/java/org/modelingvalue/collections/Graph.java:303-310 | A vertex is clear when all of its followed successors are clear of it and the path |
| Cycles.SafeExtend | src/main/java/org/modelingvalue/collections/Graph.java:297-298 | A vertex whose followed successors are all safe may be added to the safe set |
| Cycles.HasCycleIffReachable | src/main/java/org/modelingvalue/collections/Graph.java:276-294 | The graph has a cycle exactly when one is reachable from some node, which links the two overloads |
| Cycles.NoCycle | src/main/java/org/modelingvalue/collections/Graph.java:280-289 | If every node is clear, there is no cycle |
| Cycles.CycleDetectionHelper | src/main/java/org/modelingvalue/collections/Graph.java:296-311 | True only when a cycle exists and is reachable from the path's start; false restores `visited` and guarantees no walk from `curr` repeats a vertex or meets the path |
| Cycles.FollowSuccessors | src/main/java/org/modelingvalue/collections/Graph.java:303-307 | The loop over `getOutgoingNodes(curr)`: true only when a cycle exists and is reachable from the path's start; false keeps `visited` and guarantees every followed successor is clear of the path |
| Cycles.HasCycles | src/main/java/org/modelingvalue/collections/Graph.java:276-290 | True exactly when the filtered graph has a cycle; `safe` is still empty at the end |
| Cycles.HasCyclesFrom | src/main/java/org/modelingvalue/collections/Graph.java:292-294 | NullPointer exactly when the start is null or not a node; otherwise true exactly when a cycle is reachable from it |
| Cycles.CycleDetectionMemo | src/main/java/org/modelingvalue/collections/Graph.java:296-311 | The helper with `curr` moved into `safe` on backtracking: same results, and on false `curr` ends up in a safe set that only grows |
| Cycles.FollowSuccessorsMemo | src/main/java/org/modelingvalue/collections/Graph.java:303-307 | The same loop in the memoising helper: on false every followed successor of `curr` is in a safe set that only grew |
| Cycles.HasCyclesMemo | src/main/java/org/modelingvalue/collections/Graph.java:276-290 | Same answer as `hasCycles`; without a cycle every node ends up in `safe` |
| CycleCases.WalkClimbs | src/main/java/org/modelingvalue/collections/Graph.java:296-311 | A walk from a closed set whose followed edges climb a rank stays in the set, and the rank strictly increases along it |
| CycleCases.RankedClear | src/main/java/org/modelingvalue/collections/Graph.java:292-294 | No cycle is reachable from such a set |
| CycleCases.RankedAcyclic | src/main/java/org/modelingvalue/collections/Graph.java:276-290 | A graph whose followed edges all climb a rank has no cycle |
| CycleCases.EmptyHasNoCycle | src/test/java/org/modelingvalue/collections/test/GraphTest.java:1577 | The empty graph has no cycle |
| CycleCases.OneEdgeHasNoCycle | src/test/java/org/modelingvalue/collections/test/GraphTest.java:1578 | The single edge `a -> b` has no cycle under any filters |
| CycleCases.TwoCycle | src/test/java/org/modelingvalue/collections/test/GraphTest.java:1566-1585 | `a -> b`, `b -> a` has a cycle exactly when both vertices and both edges pass the filters, whatever the weights |
| CycleCases.TriangleHasNoCycle | src/test/java/org/modelingvalue/collections/test/GraphTest.java:1595-1598 | `a -> b`, `a -> c`, `c -> b` has no cycle under any filters |
| CycleCases.FilteredSelfLoop | src/test/java/org/modelingvalue/collections/test/GraphTest.java:1588-1591 | A self-loop rejected by the edge filter is no cycle |
| CycleCases.Cycle4Loop | src/test/java/org/modelingvalue/collections/test/GraphTest.java:1623-1626 | A cycle is reachable from `a`, `b`, `c` and `d` |
| CycleCases.Cycle4Tail | src/test/java/org/modelingvalue/collections/test/GraphTest.java:1627-1630 | No cycle is reachable from `e`, `f`, `g` or `h` |
| CycleCases.Cycle4Reachable | src/test/java/org/modelingvalue/collections/test/GraphTest.java:1613-1631 | A cycle is reachable exactly from `a`, `b`, `c` and `d` |
| Structs.Wrap32 | immutable-collections/src/org/modelingvalue/collections/struct/impl/StructImpl.java:32-35 | A wrapped value lies in the 32-bit `int` range |
| Structs.WrapShift | immutable-collections/src/org/modelingvalue/collections/struct/impl/StructImpl.java:32-35 | Wrapping ignores multiples of 2^32 |
| Structs.ArrayHashIsPoly | immutable-collections/src/org/modelingvalue/collections/struct/impl/StructImpl.java:32-35 | `Arrays.hashCode` equals the unbounded polynomial hash reduced into the `int` range |
| Structs.StructImpl.constructor | immutable-collections/src/org/modelingvalue/collections/struct/impl/StructImpl.java:28-30 | The struct keeps the array it is given |
| Structs.StructImpl.Get | immutable-collections/src/org/modelingvalue/collections/struct/impl/StructImpl.java:60-63 | IndexOutOfBounds exactly outside the array; otherwise that slot |
| Structs.StructImpl.Set | immutable-collections/src/org/modelingvalue/collections/struct/impl/StructImpl.java:65-67 | Out of bounds: IndexOutOfBounds and nothing changes; otherwise returns `val`, only slot `i` changes, and the length stays |
| Structs.StructImpl.Length | immutable-collections/src/org/modelingvalue/collections/struct/impl/StructImpl.java:69-72 | The array's length |
| Structs.StructImpl.HashCode | immutable-collections/src/org/modelingvalue/collections/struct/impl/StructImpl.java:32-35 | The loop computes `Arrays.hashCode` of the contents |
| Structs.StructImpl.Equals | immutable-collections/src/org/modelingvalue/collections/struct/impl/StructImpl.java:37-58 | True for the same struct or a shared array, changing nothing. False, changing nothing, for null, another class or other contents. With equal contents in distinct arrays: true, and both structs then hold the array with the larger `age` (the other's on a tie). No array content changes |
| Structs.ObserveAcrossEquals | immutable-collections/src/org/modelingvalue/collections/struct/impl/StructImpl.java:32-72 | `get(i)`, `length()` and `hashCode()` are the same before and after `equals`; equal structs have equal hash codes |
| Structs.SetThenGet | immutable-collections/src/org/modelingvalue/collections/struct/impl/StructImpl.java:60-67 | `get(i)` after `set(i, v)` returns `v` |

## Left out

- Hash-trie iteration order: the walk order of `size()`, `get(int)`, `iterator()`, `toList()` and the iterators is a parameter (a `Listing` that `Enumerates` the graph), not the order the maps produce.
- `DefaultMap` is not part of this model beyond its interface. `put` is taken as a plain update that keeps a key even when its value equals the default. With that reading, `removeNode` leaves its neighbours with empty pairs, so it is not compactness-preserving (`GraphUpdates.WithoutNodeSpec` states no `Compact` clause). `GraphUpdates.RemoveNodeLeavesEmptyPair` shows it on `0 -7-> 1`.
- GraphObjects.GraphImpl.Equals: `equals` compares `outgoing` only, so with that reading of `put` a graph left by `removeNode` with empty pairs compares equal to one without them. Its repointing of `incoming` then changes the node set of one of the two graphs, possibly the shared `EMPTY` (`GraphObjects.RemovedNodeEqualsEmpty`). Whether this can happen in the library depends on whether `DefaultMap.put` drops default values, which is not part of this model.
- GraphUpdates.RemoveEdges: the guard reads `outgoing.get(src).a().contains(dst)` as key membership of `dst` in the neighbour map.
- `merge`, `partialMerge`, `getMerger`, `compare`, `linked`, `indexed`, `javaSerialize`/`javaDeserialize`, `toString`, `hashCode` of `GraphImpl`, the streams and spliterators: outside the modelled core.
- `StructImpl.toString` and `isInternable`: outside the modelled core.
- Structs.StructImpl.constructor: `postCreate` is taken as the identity; the hook's other implementations are not part of this model.
- `Age.age` is a function parameter of the `equals` methods, and `getClass()` a constant field. The elements' `hashCode` is a function parameter of `HashCode`.
- Structs.StructImpl.Equals: `Arrays.equals` compares elements with each element's own `equals`; the model compares them with value equality on the element type.
- Null predicates passed to `hasCycles` (a NullPointerException in Java) cannot occur: the predicates are total functions.
- Cycles.HasCycles, Cycles.HasCyclesFrom: the Java recursion depth (a StackOverflowError on long paths) and the running time are not modelled.
- The cycle cases of `GraphTest` are stated for every valid graph whose edges are the case's triples, which `Graphs.OfSpec` shows `Graph.of` builds. They are not stated on `Graph.of` applied to the literal triples.
- Graphs.Size and GraphListing.SizeOf: the size is an unbounded count; the 32-bit `int` overflow of `size()` beyond 2^31 - 1 edges is not modelled.

## Findings

| source | as written | input that shows it | evidently intended | confidence | as-written member | corrected member |
|---|---|---|---|---|---|---|
| src/main/java/org/modelingvalue/collections/Graph.java:276-311 | `cycleDetectionHelper` removes `curr` from `visited` on every false return. So after a root that finds no cycle, `visited` is empty again, `safe.addAll(visited)` adds nothing, and `safe` stays empty for the whole run. The answer is right, but every vertex is explored again from every root that reaches it; on some acyclic graphs this takes exponential time | the graph `a -> b` with both filters passing everything: after root `a`, `safe` is empty, so root `b` is explored again | a vertex explored without finding a cycle goes into `safe` and is never explored again | not executed | Cycles.HasCycles | Cycles.HasCyclesMemo |
