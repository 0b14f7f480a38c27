# Airport route analyser: strongly connected components and fewest-hop paths

The analyser holds a directed graph of airport codes: a declared vertex list and a dictionary
of successor lists filled in one route at a time. It offers three queries:

- **Strongly connected components.** Kosaraju's two-pass algorithm lists them.
  - The first pass is a post-order depth-first search. It pushes each vertex when it finishes.
  - The second pass pops that stack and searches the transposed graph from each unclaimed vertex.
    Each such search claims exactly one component.
- **Same component?** A lookup over the computed list answers whether two airports share a component.
- **Shortest path.** `dijkstra` asks for a path between two airports with every route weighing one.
  So it asks for a path with the fewest hops.

The model is written in Dafny:

- `reach.dfy` (`Reachability`): vertices, successor lists, paths, reachability, transposition.
- `adjacency.dfy` (`Adjacencies`): the dictionary as a value. It holds the key order and the lists.
  It also holds the edge bookkeeping: edge lists and multiplicities.
- `kosaraju_proof.dfy` (`KosarajuProof`): the invariants of the two passes.
  - First pass: finished, active and unvisited vertices.
  - Second pass: the components collected so far.
- `graph.dfy` (`Graphs`): the `Graph` class (`V`, `graph`, `AddEdge`, `Transpose`, `FirstPass`,
  `KosarajuScc`), the two depth-first searches and the graph construction.
- `shortest_path.dfy` (`ShortestPath`): `dijkstra` as a level-by-level breadth-first search.
  It is proved to return a fewest-hop path.
- `scc_lookup.dfy` (`SccLookup`): the same-component lookup of the component page.
- `examples.dfy` (`Examples`): the repository's two unit tests, plus facts about the airport
  network of the analyser.

Every route endpoint must be a declared vertex.
- The searches look up `visited[neighbor]` in a dictionary keyed by `V`. A route that leaves `V` from a vertex of `V` raises `KeyError`.
- The model states the stronger condition that both endpoints of every route lie in `V` as a precondition (`EdgesWithin`) of the searches and of `KosarajuScc`.

## Model

| member | source | states |
|---|---|---|
| Adjacencies.WithEdge | app.py:46-47 | Appending `v` to the list of `u` leaves that list as the old one followed by `v`. Every other list is unchanged. `u` becomes a key, and a well-formed dictionary stays well-formed: each key once in insertion order. |
| Adjacencies.WithEdgeCount | app.py:46-47 | One `add_edge` raises the multiplicity of its own edge by one and leaves every other edge's multiplicity unchanged. |
| Adjacencies.WithEdgesCount | app.py:104-105 | Adding a list of routes in order adds exactly each route's number of occurrences to its edge's multiplicity. |
| Adjacencies.EdgeListAllEdges | app.py:103-105 | The graph built from a route list has the edge `(u, v)` exactly when the route `(u, v)` is listed. |
| Adjacencies.EdgeListCount | app.py:58-59 | Visiting every key once and each of its successors in order yields every edge exactly as many times as it occurs in the dictionary. Keys outside the dictionary yield none. |
| Adjacencies.FlippedCount | app.py:60 | Reversing each visited edge gives `(a, b)` exactly as many times as `(b, a)` was visited. |
| Adjacencies.TransposedCount | app.py:56-61 | The transposed dictionary holds `(x, y)` exactly as many times as the original holds `(y, x)`. |
| Adjacencies.TransposedAll | app.py:56-61 | The same for all pairs at once, so the transposed dictionary has edge `(x, y)` exactly when the original has `(y, x)`. |
| Adjacencies.CountsTranspose | app.py:56-61 | Equal reversed multiplicities imply that edges correspond one for one in reverse. |
| Graphs.Graph.constructor | app.py:42-44 | A new graph keeps the given vertex list and starts with an empty, well-formed dictionary. |
| Graphs.Graph.AddEdge | app.py:46-47 | The new dictionary is the old one with `v` appended to `u`'s list. Every other list and `V` are unchanged. |
| Graphs.Graph.Transpose | app.py:56-61 | Returns a fresh graph over the same `V`. It is built by reversing each edge, visiting keys in insertion order and each list in order. Every edge `(x, y)` of the result has the multiplicity of `(y, x)` in the receiver, so edge `(x, y)` exists in the result exactly when `(y, x)` exists in the receiver. The receiver is not modified. |
| Graphs.DfsFillOrder | app.py:49-54 | Searching from the unvisited `v` marks it and pushes it last. Everything reachable from `v` through vertices unvisited before the call is pushed by this call. The stack grows only at its end. The marked set is exactly the pushed vertices plus the active chain. The first-pass invariant is kept, so no vertex is pushed twice. |
| Graphs.FillFromSuccessors | app.py:51-53 | The successor loop of the search visits every successor of `v`. It only appends to the stack and keeps the first-pass invariant. |
| Graphs.FinishVisit | app.py:54 | Pushing `v` after its successor loop restores the first-pass invariant. Every vertex reachable from `v` along unvisited vertices has then been pushed. |
| Graphs.DfsCollectScc | app.py:63-68 | Searching from the unvisited `v` appends `v` first, then only vertices unvisited before the call, each once. Each of them is reachable from `v`. They include every vertex reachable from `v` through vertices unvisited before the call. The marked set grows by exactly the appended vertices. |
| Graphs.Graph.FirstPass | app.py:71-76 | After the first pass the stack holds every vertex of `V` exactly once. Whenever a vertex reaches a vertex that finished later, some vertex of its component finished no earlier than that later one. |
| Graphs.ClaimComponent | app.py:83-87 | A search of the transposed graph from an unclaimed popped vertex, with every later-finishing vertex claimed, collects exactly that vertex's component. The collected lists stay exact, disjoint, non-empty and free of repeats. |
| Graphs.SecondPass | app.py:78-88 | Popping the finish-order stack and collecting from each unclaimed vertex over the transposed graph yields a partition of `V` into its strongly connected components. |
| Graphs.CompletePartition | app.py:82-88 | Once every vertex is claimed, the exact and disjoint lists cover exactly `V`, forming the partition. |
| Graphs.Graph.KosarajuScc | app.py:70-88 | The lists returned partition `V`. Each is non-empty and without repeats, and no vertex is in two lists. Two vertices share a list exactly when each reaches the other in the graph. |
| Graphs.PartitionUnique | app.py:70-88 | Any two such partitions list the same vertex sets, so the answer does not depend on the visiting order. |
| Graphs.LoneReach | app.py:70-88 | A vertex without successors, or without predecessors, is mutually reachable only with itself. |
| Graphs.SingletonComponent | app.py:70-88 | In a component partition, a vertex of `V` without successors, or without predecessors, has a list of its own that holds only it. |
| Graphs.Build | app.py:103-105 | Building the graph from the airports and adding every route in order gives a graph over those airports. Its edges are exactly the listed routes. |
| KosarajuProof.DiscoverStep | app.py:50-52 | Entering an unvisited successor of the innermost active vertex keeps the first-pass invariant. |
| KosarajuProof.FinishStep | app.py:54 | Finishing a vertex whose successors are all visited keeps the first-pass invariant. |
| KosarajuProof.FinishedOrder | app.py:74-76 | With no active vertex left, every vertex reaching `order[j]` has a member of its component at position `j` or later. |
| KosarajuProof.AddComponent | app.py:85-87 | Appending exactly the component of an unclaimed vertex keeps the collected lists exact and disjoint. |
| KosarajuProof.CollectedInComponent | app.py:82-86 | A vertex collected through the transpose from the root lies in the root's component, provided every later-finishing vertex is claimed. |
| KosarajuProof.ComponentReachedUnclaimed | app.py:82-86 | Every vertex of an unclaimed root's component is reached from the root in the transpose along unclaimed vertices. |
| KosarajuProof.CollectedExactly | app.py:82-86 | The vertices collected from the root are exactly the root's component. |
| ShortestPath.EndpointsIff | app.py:92-94 | A vertex of the graph built from the routes is exactly an endpoint of some route. |
| ShortestPath.RoutesWithin | app.py:92-94 | Every edge of that graph joins two of its vertices. |
| ShortestPath.RoutesArePaths | app.py:93-94 | A stop sequence follows listed routes exactly when it is a path of the graph built from them. |
| ShortestPath.LayeredStart | app.py:97 | Before the first level, the source alone is found, by the one-vertex path. |
| ShortestPath.ExpandVertex | app.py:97 | Expanding one frontier vertex finds each of its successors not found yet, through it, with a path one hop longer. Earlier finds are kept. |
| ShortestPath.LevelDone | app.py:97 | After a whole level, the found paths are still shortest. The new frontier is exactly the vertices one hop further. |
| ShortestPath.ExpandLevel | app.py:97 | One level keeps the search invariant one hop further out. The found set grows whenever the new frontier is non-empty. |
| ShortestPath.Search | app.py:96-100 | A path result starts at the source, ends at the target and has no more vertices than any other such path. A no-path result means the target is unreachable. |
| ShortestPath.Dijkstra | app.py:91-100 | The error result comes exactly when the source or the target is no endpoint of any route. A path result follows listed routes from source to target and is no longer than any other such route sequence. A no-path result means no route sequence from the source ends at the target. |
| SccLookup.FirstComponent | app.py:131-135 | Returns the index of the first list holding the airport, or reports that no list holds it. |
| SccLookup.SameScc | app.py:131-137 | The scan stops at the first list holding the source, and answers whether that list holds the destination. |
| SccLookup.SameSccIffMutual | app.py:131-137 | Over a component partition, the lookup answers yes exactly when the source is a vertex and the two airports reach each other. |
| Examples.TriangleComponents | ada_test.py:5-15 | Over `A..E` with `A -> B -> C -> A` and `D -> E`, any component partition has exactly three lists. |
| Examples.TriangleTest | ada_test.py:5-15 | The component test: building that graph and running Kosaraju gives three components. |
| Examples.ChainRoute | ada_test.py:18-25 | Along `A -> B -> C -> D`, the only route sequence from `A` to `D` with at most four stops is the chain. |
| Examples.ChainTest | ada_test.py:18-25 | The shortest-path test: the query from `A` to `D` returns the path `A, B, C, D`. |
| Examples.PuneClosed | app.py:28-37 | In the airport network, Pune and Ahmedabad only fly to each other, so Pune does not reach Delhi. |
| Examples.PuneToDelhi | app.py:28-37 | The shortest-path query from Pune to Delhi returns no path, although both are airports of the network. |
| Examples.PuneLookups | app.py:28-37 | On the airport network's components, Pune shares a component with Ahmedabad and not with Delhi. |

## Left out

- Streamlit pages, widgets and messages, and the Matplotlib and networkx drawing with its floating-point layout (app.py:109-208). These are user interface, not logic.
- networkx is not part of this model. `nx.DiGraph` and `nx.shortest_path` are replaced by the graph built from the routes and a breadth-first search. With every weight equal to one, the promised result is a path with the fewest hops.
  - When several such paths exist, the model does not fix which one networkx returns.
  - `DiGraph` merges repeated routes into one edge. The model keeps them as repeated list entries, which changes no path.
- Dijkstra: returns `NodeNotFound` when the source or the target is no endpoint of any route. The code catches only `NetworkXNoPath`, so the error raised for an unknown node escapes the call. The model follows the code: a query for an airport that no route mentions is not turned into "no path".
- Reads from the dictionary of lists: reading a missing key in the searches inserts an empty list into it. The model reads without inserting.
  - Those insertions add keys with no edges. They change no edge, no transposed edge and no result.
- The shared `visited` dictionary and the `stack`/`scc` lists are mutated in place and shared between calls. The model passes them as values (`set` and `seq`) and returns their new contents. It therefore does not capture aliasing of those containers.
- DfsFillOrder, DfsCollectScc: they read the dictionary as a value rather than running as methods of the graph object. They change the graph only by the key insertions above, so no edge and no result differs.
- The successor loop of `dfs_fill_order` is split into its own method, FillFromSuccessors, with the same steps in the same order.
- The second pass of `kosaraju_scc` is split into its own method, SecondPass, with the same steps in the same order.
- Graphs.Graph.KosarajuScc, Graphs.DfsFillOrder, Graphs.DfsCollectScc, Graphs.SecondPass: a route whose two endpoints both lie outside `V` is never reached by a search from `V`, so the code accepts it and returns the components of `V`. The model's `EdgesWithin` precondition excludes such routes, so it makes no promise for them.
- Python's recursion-depth limit is not modelled. The searches are unbounded recursion, as the code is written.
- The airport and route datasets appear only in the examples. ada_pbl.py (a dataset and a constructor) is not part of this model.
- SingletonComponent: stated for a vertex with no outgoing edges or no incoming edges. A vertex with no incident edges is a special case of both.
