# objmanip mesh topology, modelled in Dafny

objmanip reads a Wavefront OBJ mesh and turns its faces into graphs. This model covers that mesh-topology core:

- **Mesh graphs.** One node per position index in a directed graph and in an undirected mesh graph. A vertex takes its attributes from the first face corner that references it. Each polygon's cyclically consecutive corners are joined by an upserted undirected edge.
- **Two acyclic orientations.** `VertexDag::add_dag_edges` runs chained greedy walks from node 1. The depth-first pass of `load_wavefront` runs a search from every node not yet given an incoming edge. Both add an edge `prv -> next` only when `next` cannot already reach `prv`, so the directed graph stays acyclic.
- **Greedy path partition.** `get_paths` ranks nodes by height and walks to the lowest-ranked unseen neighbour.
- **Polar offset encoding.** `path_to_polar_offs` and the coordinate types and their text form in `conversion.rs`.
- **Index lists.** `get_indices` for the index buffer, and the `LinesList` index list of `buffer.rs`.

Modules:

| module | file | models |
|---|---|---|
| `Wrappers` | wrappers.dfy | `Option` and `Result` |
| `Obj` | obj.dfy | `ObjData` as a parsed input, `ObjVertex`, the first-reference attribute policy |
| `Graphs` | graphs.dfy | the used part of petgraph on values (see below) |
| `MeshBuild` | mesh_build.dfy | the graph-building loop shared by `From<&ObjData>` and `load_wavefront`, with the attribute policy as a parameter |
| `Coordinates` | coordinates.dfy | `PolarCoords`, `CartesianCoords`, the conversions, `PolarCoordSeq` and the text forms |
| `Dag` | dag.dfy | class `VertexDag` with `add_dag_edges`, `get_paths`, `position_at`, `path_to_polar_offs` and `From<&ObjData>` |
| `PathPartition` | paths.dfy | the loops of `get_paths`, on graph values |
| `Load` | load.dfy | `get_indices`, petgraph's `Dfs`, the orientation pass, `load_wavefront` |
| `Buffer` | buffer.dfy | the index list of `TryFrom<DisplayVertexBuffer>` |

The petgraph functions are modelled as follows:

- A graph is an arena of node weights plus a list of weighted edges.
- `update_edge` reweights the first edge joining two nodes, or appends a new edge.
- `has_path_connecting` is membership in a closure fixpoint.
- `astar` with unit costs is the first breadth-first layer that contains the target.
- `neighbors` is a set, and the order petgraph yields it in is left open. Choices among equally good candidates are nondeterministic (`:|`).

Stateful parts of the source are imperative Dafny:

- `VertexDag` is a class.
- `PolarCoords` and `CartesianCoords` are classes whose `sum_with` and `subtract_with` update fields in place.
- `add_dag_edges`, `get_paths`, `path_to_polar_offs`, the graph builders, the depth-first search and `PolarCoordSeq::from(&String)` are `while`/`for` loops proved against specification functions.

Floating point numbers are reals. `sqrt`, `atan2`, `sin` and `cos` are supplied as a `MathLib` record of functions. A formatted number is one opaque, space-free glyph of a `Text`.

Source inconsistencies and how the model resolves them:

- src/graph.rs:159 calls `PolarCoords::subtract_with`, which src/conversion.rs does not define. It is modelled component-wise, like `CartesianCoords::subtract_with` (src/conversion.rs:114-118).
- src/load.rs:11 and src/load.rs:113 name `VertexGraph`, which is read as `VertexDag` (src/graph.rs:18).

## Model

| member | source | states |
|---|---|---|
| Obj.FirstRef | src/graph.rs:191 | the corner that `seen_vertices.insert` lets through for vertex `v` is a corner of the list referencing `v`, and one exists exactly when `v` is referenced |
| Obj.FirstRefConcat | src/graph.rs:185-211 | later polygons never change a vertex's first corner: a vertex referenced in the first part keeps its corner from there, and any other takes its first corner in the rest |
| Obj.LoadableInRange | src/graph.rs:215-220 | in a file the builder accepts, every corner (not only first ones) names an existing node, so `update_edge` never panics |
| MeshBuild.TrianglePairs | src/graph.rs:213-215 | the corner pairs of a triangle `(a, b, c)` are `(a, b), (b, c), (c, a)` |
| MeshBuild.BadFirstCorner | src/graph.rs:191-192 | a first corner whose index is out of range makes the whole file unloadable (the source panics there) |
| MeshBuild.RecordFirstCorners | src/graph.rs:191-211 | processing one polygon's corners stores, for each vertex it references first, the attributes of that corner and leaves every other node as it was; it fails exactly on an out-of-range first corner |
| MeshBuild.ConnectPolygon | src/graph.rs:215-220 | upserting a polygon's cyclic pairs adds exactly their unordered pairs to the undirected edge set, keeps the graph free of parallel edges and keeps every weight equal to the weight used |
| MeshBuild.BuildGraphs | src/graph.rs:174-221 | fails exactly on files where a first reference indexes out of range; otherwise both graphs have one node per position, directed node `v` holds the first-reference attributes (face normal or zero, zero texture for `From<&ObjData>`; `vn` normal at the position index and the corner's texture for `load_wavefront`), undirected nodes are default, the undirected edges are exactly the polygons' cyclic pairs without duplicates, all of weight 1 (`From`) or 0.0 (`load_wavefront`) |
| Graphs.FindEdge | src/load.rs:103 | the index found joins the two nodes and no earlier edge does; `None` means no edge joins them |
| Graphs.UpdateEdge | src/graph.rs:219 | `update_edge` keeps the nodes, adds exactly the pair to the pair set, grows the edge list by one only when the pair was absent, keeps the graph free of parallel edges and gives the pair the new weight |
| Graphs.UpdateExistingIsIdentity | src/load.rs:106 | upserting an existing pair with the weight every edge already has changes nothing |
| Graphs.AdjacentPair | src/load.rs:103 | `contains_edge` holds exactly for the pairs of the edge set |
| Graphs.NeighboursAdjacent | src/graph.rs:114-115 | `neighbors` of the undirected graph are exactly the nodes `contains_edge` pairs with the node |
| Graphs.NeighboursSymmetric | src/graph.rs:114-115 | undirected neighbourhood is symmetric |
| Graphs.ReachesTrans | src/graph.rs:118 | `has_path_connecting` is transitive |
| Graphs.ReachesAfterInsert | src/graph.rs:132 | after adding `p -> x`, a new path from `a` to `b` must run from `a` to `p` and from `x` to `b` in the old graph |
| Graphs.GatedInsertKeepsAcyclic | src/graph.rs:116-132 | adding `p -> x` when `x` cannot reach `p` keeps the directed graph acyclic |
| Graphs.GatedUpdateKeepsAcyclic | src/load.rs:102-106 | the same for `update_edge` with the weight every edge already carries, which also stays uniform |
| Graphs.AcyclicNoSelfLoop | src/graph.rs:116-132 | an acyclic graph has no self-loop |
| Graphs.AcyclicAntisymmetric | src/graph.rs:118 | in an acyclic graph two nodes that reach each other are the same |
| Graphs.HopDistanceCorrect | src/graph.rs:121-129 | the unit-cost A* distance is the least breadth-first layer holding the node; it is missing exactly when no layer holds the node, which is exactly when the node lies outside the start's component |
| Dag.NearestExists | src/graph.rs:120-130 | among candidates that all have a distance, `min_by_key` has a closest one |
| Dag.NearestIsGreedy | src/graph.rs:113-130 | a closest candidate is a greedy step: a neighbour not seen in this walk, unable to reach `prv`, and no farther from the walk's start than any other such neighbour |
| Dag.NoCandidatesStuck | src/graph.rs:113-119 | when the filter leaves nothing, no node passes it: the walk is stuck |
| Dag.WalkCandidatesHaveDistance | src/graph.rs:120-129 | the `astar(...).unwrap()` never panics: every candidate has a distance back to the walk's start |
| Dag.WalkNodesDistinct | src/graph.rs:104-134 | within one walk no node is chosen twice |
| Dag.TraceEdgeAt | src/graph.rs:132 | step `k` of the run appended edge `o + k`, from its `prv` to its `next`, with weight -1 |
| Dag.TraceLinkAt | src/graph.rs:98-103 | the first walk starts at node 1 with nothing seen; every later step continues its walk or opens a new walk at the node where a stuck walk ended |
| Dag.AddedEdgesGated | src/graph.rs:113-132 | every edge `add_dag_edges` added goes from a node to a mesh neighbour, weighs -1, and its target could not reach its source when it was added |
| Dag.Walk | src/graph.rs:104-135 | one walk keeps the directed graph acyclic and its nodes, only extends its edges, and leaves the run trace and the start bookkeeping consistent |
| Dag.VertexDag.constructor | src/graph.rs:25-31 | `VertexDag::new` keeps the given graph, with an empty undirected graph and no components |
| Dag.VertexDag.AddDagEdges | src/graph.rs:95-140 | the directed graph stays acyclic, node weights and the undirected graph are unchanged, old edges stay; the new edges are a greedy walk trace starting at node 1 whose nodes lie in node 1's component; the run ends stuck, and `components` is the set of walk starts |
| Dag.VertexDag.GetPaths | src/graph.rs:48-89 | the nodes are ranked by non-decreasing height, and under that ranking the result is `PathPartition.GreedyPaths` of the mesh neighbours: each path is a greedy walk, and a node begins a path exactly when, at its turn, it is unseen and has an unseen neighbour |
| Dag.VertexDag.PathToPolarOffs | src/graph.rs:147-165 | one offset fewer than the path has nodes (none for an empty path); offset `i` is the text of `polar(path[i]) - polar(path[i + 1])`, and parses back to that difference |
| Dag.PolarOffsets | src/graph.rs:151-163 | the subtraction loop yields one text fewer than the path has nodes; text `j` is the polar position of node `path[j]` minus that of `path[j + 1]`, and parses back to that difference |
| Dag.VertexDag.FromObjData | src/graph.rs:170-227 | fails exactly on unloadable files; otherwise the nodes and mesh graph are those `BuildGraphs` promises with face normals, and the directed edges, stuck end and components are those of an `add_dag_edges` run |
| PathPartition.SortByHeight | src/graph.rs:51-58 | the order lists every node index exactly once, by non-decreasing `y` |
| PathPartition.Rank | src/graph.rs:77 | `position(..)` finds the node at the returned index |
| PathPartition.RankAt | src/graph.rs:77 | in the sorted order (no repetitions) the rank of the entry at `k` is `k` |
| PathPartition.LowestExists | src/graph.rs:73-77 | a non-empty candidate set has a lowest-ranked member |
| PathPartition.GreedyPartition | src/graph.rs:60-88 | every returned path has at least two nodes, was built from a node not seen before, moved each time to the lowest-ranked unseen neighbour, and stopped only when the last node had no unseen neighbour; paths come out in increasing rank of their starts; and the node at each turn begins a path exactly when it is unseen and has an unseen neighbour, counting as seen the nodes ranked before it and the nodes of earlier paths |
| PathPartition.TurnOutcomeAt | src/graph.rs:60-85 | for every turn of a `get_paths` result there is a point that splits the paths into those begun before the turn and the rest, and the node at that turn begins the next path exactly when it was unseen and had an unseen neighbour |
| PathPartition.WalkFrom | src/graph.rs:67-82 | the inner `while let` returns a greedy walk from the start: its nodes are distinct and were unseen, each step went to the lowest-ranked unseen neighbour, `prv` is its last node, and every neighbour of `prv` has been seen |
| PathPartition.PathsDisjoint | src/graph.rs:63-86 | no node lies on two paths, nor twice on one |
| PathPartition.StartIsLowest | src/graph.rs:49-77 | each path's first node has the lowest rank and lowest height of its nodes |
| PathPartition.PathsFollowEdges | src/graph.rs:73-81 | consecutive nodes of a path are mesh neighbours |
| Coordinates.PolarCoords.SumWith | src/conversion.rs:9-13 | adds `r`, `long` and `lat` component-wise and changes no other object |
| Coordinates.PolarCoords.SubtractWith | src/graph.rs:159 | subtracts the other triple component-wise |
| Coordinates.CartesianCoords.SumWith | src/conversion.rs:108-112 | adds `x`, `y`, `z` component-wise |
| Coordinates.CartesianCoords.SubtractWith | src/conversion.rs:114-118 | subtracts `x`, `y`, `z` component-wise |
| Coordinates.MinusUndoesPlus | src/conversion.rs:108-118 | over reals `subtract_with(b)` undoes `sum_with(b)` and conversely |
| Coordinates.NormSquaredFacts | src/conversion.rs:18-20 | `x² + y² + z²` is at least `z²` and is zero exactly at the origin |
| Coordinates.LatitudeBound | src/conversion.rs:27 | `z / r` lies in `[-1, 1]` when `abs(z) <= r` |
| Coordinates.ToPolarFacts | src/conversion.rs:16-38 | with a sound `sqrt`: `r >= 0` and `r² = x² + y² + z²`, `r = 0` exactly at the origin, where `lat` (and `long`, when `atan2` gives no number) fall back to 0; elsewhere `lat · r = z` and `lat` is in `[-1, 1]`; `long` is `atan2(y, x)` |
| Coordinates.ToCartesianFacts | src/conversion.rs:121-129 | `z = r · sin(long)` does not depend on `lat`, and `r = 0` gives the origin |
| Coordinates.AxisPointsLoseHeight | src/conversion.rs:16-38 | the two conversions are not inverse: a point on the z axis comes back at height 0 |
| Coordinates.ArrayRoundTrip | src/conversion.rs:131-145 | `[f32; 3]` and `CartesianCoords` convert into each other without loss, keeping the order x, y, z |
| Coordinates.Split | src/conversion.rs:42 | `split(' ')` yields at least one piece |
| Coordinates.SplitJoin | src/conversion.rs:53-58 | splitting a join of space-free pieces gives the pieces back |
| Coordinates.JoinSplit | src/conversion.rs:42 | joining the pieces of a split gives the text back |
| Coordinates.ParseNumber | src/conversion.rs:44 | a piece parses exactly when it is one formatted number, and gives that number back |
| Coordinates.PolarTextRoundTrip | src/conversion.rs:40-60 | `to_string` gives exactly three space-separated fields, and parsing them gives the triple back |
| Coordinates.ParsePolarIgnoresRest | src/conversion.rs:41-47 | parsing reads only the first three fields and ignores whatever follows |
| Coordinates.ParsePolarFails | src/conversion.rs:44-46 | parsing fails (a panic in the source) exactly when there are fewer than three fields or one of the first three is not a number; otherwise it gives those three numbers as `r`, `long` and `lat` |
| Coordinates.SeqFieldsLength | src/conversion.rs:90-98 | `n` coordinates give `3n` fields |
| Coordinates.SeqTextFields | src/conversion.rs:90-98 | the text of `n > 0` coordinates splits into their `3n` fields; that of none is empty |
| Coordinates.ParseSeq | src/conversion.rs:75-88 | the chunk loop succeeds exactly when every chunk of three fields parses, and returns those coordinates in order |
| Coordinates.ParseChunksSeqFields | src/conversion.rs:78-86 | the fields of a coordinate list parse back, three at a time, to that list |
| Coordinates.SeqTextRoundTrip | src/conversion.rs:75-98 | a non-empty coordinate sequence written out and read back is unchanged |
| Coordinates.EmptySeqDoesNotParse | src/conversion.rs:78-84 | the empty sequence's text `""` does not parse back: its one empty field is a partial chunk |
| Coordinates.PartialChunkFails | src/conversion.rs:78-84 | a field count that is not a multiple of three makes parsing fail |
| Load.IndexListAt | src/load.rs:28 | the flattened list has one entry per corner, each the corner's position index cut to 16 bits |
| Load.GetIndicesSpec | src/load.rs:24-31 | `max(corners - 6, 0)` entries; entry `i` is the position index of corner `i + 6` modulo 65536, and that index itself when it fits in 16 bits |
| Load.TriangleCorners | src/load.rs:20-21 | the corners of a triangle list: corner `c` of face `f` is at `3f + c` |
| Load.TriangleChunks | src/load.rs:20-31 | on a triangle mesh, chunk `k` of three indices holds the corners of face `k + 2` |
| Load.DfsNext | src/load.rs:101 | `Dfs::next` pops last-in-first-out: it returns the topmost undiscovered stack entry and marks it, dropping only discovered entries above it; the new stack is the part below that entry followed by the entry's undiscovered neighbours. It returns `None`, leaving an empty stack, exactly when every stacked node is discovered. Every discovered node's neighbours stay discovered or stacked |
| Load.DfsCoversComponent | src/load.rs:99-101 | a search whose stack ran out has discovered exactly the mesh component of its start |
| Load.OrientStep | src/load.rs:102-107 | a gated `update_edge(prv, visited, -1.0)` keeps the directed graph acyclic, free of parallel edges, weighted -1, made of mesh edges, and adds `visited` to the nodes with an incoming edge |
| Load.OrientFrom | src/load.rs:99-109 | one search keeps those facts and only adds to `seen_vertices`. Its visits are the depth-first order of `Dfs::new(start)` and `next`: they begin at the start, repeat no node and cover exactly the start's component. The resulting graph is `OrientAlong` of those visits: each visit in turn adds `prv -> visited` when it passes the gate |
| Load.OrientAlongPairs | src/load.rs:101-108 | a search adds exactly the directed pairs `prv -> visited` of the visits that passed the gate (`visited` cannot reach `prv` and the two are mesh neighbours) on the graph the earlier visits left |
| Load.Orient | src/load.rs:92-110 | the pass yields an acyclic graph of -1 mesh edges without parallels, and `seen_vertices` is the set of nodes with an incoming edge. The graph is `OrientAll` of the searches: node `v`'s search ran exactly when no earlier search had given `v` an incoming edge, and a search that ran is the depth-first order of `v`'s component from `v`. `start_vertices` is the set of nodes whose search ran. Node 0 and every node never given an incoming edge are starts |
| Load.RunsWithoutTarget | src/load.rs:94-98 | node 0, and every node that ends without an incoming edge, had its own search |
| Load.LoadWavefront | src/load.rs:41-113 | fails exactly on unloadable files. Otherwise the directed graph is `OrientAll` of the built mesh graphs under depth-first searches taken as `Load.Orient` states. It has one node per position with the per-position-normal attributes, and is acyclic, weighted -1 and free of parallel edges. Its edges join corners of some polygon. Node 0 and every node without an incoming edge are among the starts. The returned `VertexDag` has an empty mesh graph and component set |
| Buffer.SegmentsAt | src/buffer.rs:16 | entry `k` of the flattened segments is `(k + 1) / 2` |
| Buffer.LineListSpec | src/buffer.rs:15-17 | the list exists exactly when the length fits in `u32`; it has `2 · max(len - 1, 0)` entries, entry `2i` is `i` and `2i + 1` is `i + 1`, every entry is below `len`, and the list never decreases |

## Left out

- `to_buffer`, `glium::implement_vertex!`, `IndexBuffer::new`, `get_objdata` and the `println!` of the start vertices: GPU buffers, the OBJ parser and output. `ObjData` is an input, and the start vertices are a ghost result.
- Floating point behaviour: `f32` rounding, NaN and infinities, `{:.16}` formatting and `parse::<f32>`. Numbers are reals, and a formatted number is one opaque glyph. `sqrt`, `atan2`, `sin` and `cos` are parameters, so their accuracy is not modelled.
- Coordinates.ToPolarFacts: the source's NaN checks are modelled as the origin fallback only. An `atan2` that returns no number stands for the NaN case. An infinite or NaN input is not modelled.
- The order in which petgraph yields neighbours, and the tie order of `sorted_unstable_by` and `min_by_key`. Choices among equal candidates are nondeterministic. `PathPartition.SortByHeight` keeps equal heights in index order, which is one order the source may produce.
- Load.DfsNext: pushes the undiscovered neighbours of the returned node in an order left open, since petgraph's neighbour order depends on edge insertion order. The pushed entries are stated as a set.
- The `u32` conversions of node indices (`u32::try_from(..).unwrap()` and `as u32` in the builders): indices are unbounded naturals. The `u32` check of the buffer length is modelled.
- Dag.VertexDag.constructor: requires the given graph to be acyclic, which `VertexDag::new` does not check. Both callers pass an acyclic graph.
- Dag.Walk: the inner loop of `add_dag_edges` is a module-level method on graph values that the class method calls, not a loop inside the class method.
- Dag.PolarOffsets: the loop of `path_to_polar_offs` is likewise a module-level method over the node weights, which the class method calls with its graph's nodes.
- Dag.VertexDag.GetPaths: also returns the ranking `order` that the source keeps in a local variable, so that the contract can state the paths in terms of it.
- PathPartition.WalkFrom: the inner loop of `get_paths` is a separate method that the outer loop calls.
- `FromIterator for PolarCoordSeq` is the datatype constructor `PolarCoordSeq(coords)`, which keeps order and count by construction. It has no separate member.
- `CartesianCoords::from(&PolarCoords)` is the function `ToCartesian`, described by `Coordinates.ToCartesianFacts`.
