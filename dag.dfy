/**
 * `VertexDag` of src/graph.rs: a directed graph over the mesh vertices, the undirected mesh
 * graph it was oriented from, and the set of walk starts (`components`).
 */
module Dag {
  import opened Wrappers
  import opened Obj
  import opened Graphs
  import opened MeshBuild
  import opened Coordinates
  import PathPartition

  /** The weight of every edge `add_dag_edges` and the DFS pass of src/load.rs insert. */
  const DagWeight: real := -1.0

  /**
   * One iteration of the inner loop of `add_dag_edges`: the walk that began at `start` has
   * already chosen the nodes in `seen` (`currently_seen_vertices`), stands at `prv`, and
   * moves to `next`.
   */
  datatype WalkStep = WalkStep(start: nat, seen: set<nat>, prv: nat, next: nat)

  /**
   * `c` passes the filter of the inner `while let`: a neighbour of `prv` not used yet in this
   * walk that cannot reach `prv` in the directed graph.
   */
  predicate Candidate(g: Graph, u: Graph, seen: set<nat>, prv: nat, c: nat)
    requires g.WellFormed()
  {
    c in Neighbours(u, prv) && c !in seen && !Reaches(g, c, prv)
  }

  /** The candidates the walk chooses among. */
  function Candidates(g: Graph, u: Graph, seen: set<nat>, prv: nat): set<nat>
    requires g.WellFormed()
  {
    set c | c in Neighbours(u, prv) && Candidate(g, u, seen, prv, c)
  }

  /** The walk standing at `prv` has nowhere to go. */
  ghost predicate Stuck(g: Graph, u: Graph, seen: set<nat>, prv: nat)
    requires g.WellFormed()
  {
    forall c :: !Candidate(g, u, seen, prv, c)
  }

  /** `c` is no closer to `start` than `next`, both having an A* distance. */
  predicate NoCloser(u: Graph, start: nat, next: nat, c: nat)
    requires u.WellFormed()
  {
    && HopDistance(u, next, start).Some? && HopDistance(u, c, start).Some?
    && HopDistance(u, next, start).value <= HopDistance(u, c, start).value
  }

  /** `min_by_key` over the A* distance back to the walk's start: `next` is a closest candidate. */
  predicate Nearest(u: Graph, cands: set<nat>, start: nat, next: nat)
    requires u.WellFormed()
  {
    next in cands && forall c | c in cands :: NoCloser(u, start, next, c)
  }

  /** A non-empty set of candidates that all have a distance has a closest one. */
  lemma {:induction false} NearestExists(u: Graph, cands: set<nat>, start: nat) returns (next: nat)
    requires u.WellFormed() && cands != {}
    requires forall c | c in cands :: HopDistance(u, c, start).Some?
    ensures Nearest(u, cands, start, next)
    decreases |cands|
  {
    var x :| x in cands;
    if cands == {x} {
      next := x;
      assert NoCloser(u, start, x, x);
    } else {
      var m := NearestExists(u, cands - {x}, start);
      if HopDistance(u, x, start).value <= HopDistance(u, m, start).value {
        next := x;
        forall c | c in cands ensures NoCloser(u, start, x, c) {
          if c != x {
            assert NoCloser(u, start, m, c);
          }
        }
      } else {
        next := m;
        assert NoCloser(u, start, m, x);
      }
    }
  }

  /** The step `s` is one the source can take in the graph `g`: a closest candidate. */
  ghost predicate Greedy(g: Graph, u: Graph, s: WalkStep)
    requires g.WellFormed() && u.WellFormed()
  {
    && Candidate(g, u, s.seen, s.prv, s.next)
    && forall c | Candidate(g, u, s.seen, s.prv, c) :: NoCloser(u, s.start, s.next, c)
  }

  lemma NearestIsGreedy(g: Graph, u: Graph, s: WalkStep)
    requires g.WellFormed() && u.WellFormed()
    requires Nearest(u, Candidates(g, u, s.seen, s.prv), s.start, s.next)
    ensures Greedy(g, u, s)
  {
    forall c | Candidate(g, u, s.seen, s.prv, c) ensures NoCloser(u, s.start, s.next, c) {
      assert c in Candidates(g, u, s.seen, s.prv);
    }
  }

  lemma NoCandidatesStuck(g: Graph, u: Graph, seen: set<nat>, prv: nat)
    requires g.WellFormed()
    requires Candidates(g, u, seen, prv) == {}
    ensures Stuck(g, u, seen, prv)
  {
    forall c ensures !Candidate(g, u, seen, prv, c) {
      assert c !in Candidates(g, u, seen, prv);
    }
  }

  /** `g` as it was after its first `m` edges. */
  function Prefix(g: Graph, m: nat): Graph
    requires m <= |g.edges|
  {
    Graph(g.nodes, g.edges[..m])
  }

  lemma PrefixWellFormed(g: Graph, m: nat)
    requires m <= |g.edges| && g.WellFormed()
    ensures Prefix(g, m).WellFormed()
  {
    forall e | e in g.edges[..m] ensures e in g.edges { }
  }

  /** `b` carries on the walk of `a`. */
  ghost predicate Continues(a: WalkStep, b: WalkStep)
  {
    b.prv == a.next && b.start == a.start && b.seen == a.seen + {a.next}
  }

  /** The walk of `a` is stuck after it in `g`, and `b` opens a new walk where it ended. */
  ghost predicate Restarts(g: Graph, u: Graph, a: WalkStep, b: WalkStep)
    requires g.WellFormed()
  {
    && b.prv == a.next && b.start == a.next && b.seen == {}
    && Stuck(g, u, a.seen + {a.next}, a.next)
  }

  /**
   * `steps` is the run of `add_dag_edges` that turned the first `o` edges of `g` into all of
   * them: step `k` appended edge `o + k` and was a greedy choice in the graph of its time, the
   * first walk starts at node 1, and each walk either carries on or is stuck and hands over to
   * a new walk starting at its last node.
   */
  ghost predicate Trace(g: Graph, u: Graph, o: nat, steps: seq<WalkStep>)
    requires g.WellFormed() && u.WellFormed()
    decreases |steps|
  {
    && o + |steps| == |g.edges|
    && (steps != [] ==>
          var k := |steps| - 1;
          var h := Prefix(g, o + k);
          && h.WellFormed()
          && g.edges[o + k] == Edge(steps[k].prv, steps[k].next, DagWeight)
          && Greedy(h, u, steps[k])
          && (k == 0 ==> steps[k].start == 1 && steps[k].seen == {} && steps[k].prv == 1)
          && (k > 0 ==> Continues(steps[k - 1], steps[k]) || Restarts(h, u, steps[k - 1], steps[k]))
          && Trace(h, u, o, steps[..k]))
  }

  /** Where the run stands once it is over: node 1 if it took no step. */
  function FinalPrv(steps: seq<WalkStep>): nat
  {
    if steps == [] then 1 else steps[|steps| - 1].next
  }

  function StartsOf(steps: seq<WalkStep>): set<nat>
  {
    set k | 0 <= k < |steps| :: steps[k].start
  }

  lemma StartsOfAppend(steps: seq<WalkStep>, s: WalkStep)
    ensures StartsOf(steps + [s]) == StartsOf(steps) + {s.start}
  {
    var steps' := steps + [s];
    assert steps'[|steps|] == s;
    forall x | x in StartsOf(steps) ensures x in StartsOf(steps') {
      var k :| 0 <= k < |steps| && steps[k].start == x;
      assert steps'[k] == steps[k];
    }
  }

  /** Within one walk, every node chosen earlier is in the walk's `seen` set later on. */
  lemma {:induction false} WalkSeenGrows(steps: seq<WalkStep>, i: nat, k: nat)
    requires i < k < |steps|
    requires forall j | i <= j < k :: Continues(steps[j], steps[j + 1])
    ensures steps[i].next in steps[k].seen
    decreases k - i
  {
    if i + 1 < k {
      WalkSeenGrows(steps, i, k - 1);
    }
  }

  /** A trace of `g` holds, unchanged, for the graph before its last step. */
  lemma TraceShrinks(g: Graph, u: Graph, o: nat, steps: seq<WalkStep>, k: nat)
    requires g.WellFormed() && u.WellFormed() && Trace(g, u, o, steps)
    requires k < |steps| - 1
    ensures var h := Prefix(g, o + |steps| - 1);
            && h.WellFormed() && Trace(h, u, o, steps[..|steps| - 1])
            && Prefix(h, o + k) == Prefix(g, o + k) && h.edges[o + k] == g.edges[o + k]
            && steps[..|steps| - 1][k] == steps[k] && (k > 0 ==> steps[..|steps| - 1][k - 1] == steps[k - 1])
  {
    var h := Prefix(g, o + |steps| - 1);
    assert h.edges[..o + k] == g.edges[..o + k];
  }

  /** What a trace says about the edge its `k`-th step added. */
  lemma {:induction false} TraceEdgeAt(g: Graph, u: Graph, o: nat, steps: seq<WalkStep>, k: nat)
    requires g.WellFormed() && u.WellFormed() && Trace(g, u, o, steps)
    requires k < |steps|
    ensures o + k < |g.edges| && g.edges[o + k] == Edge(steps[k].prv, steps[k].next, DagWeight)
    decreases |steps|
  {
    if k < |steps| - 1 {
      TraceShrinks(g, u, o, steps, k);
      TraceEdgeAt(Prefix(g, o + |steps| - 1), u, o, steps[..|steps| - 1], k);
    }
  }

  /** What a trace says about the choice made at its `k`-th step. */
  lemma {:induction false} TraceStepAt(g: Graph, u: Graph, o: nat, steps: seq<WalkStep>, k: nat)
    requires g.WellFormed() && u.WellFormed() && Trace(g, u, o, steps)
    requires k < |steps|
    ensures o + k < |g.edges| && Prefix(g, o + k).WellFormed()
    ensures Greedy(Prefix(g, o + k), u, steps[k])
    decreases |steps|
  {
    if k < |steps| - 1 {
      TraceShrinks(g, u, o, steps, k);
      TraceStepAt(Prefix(g, o + |steps| - 1), u, o, steps[..|steps| - 1], k);
    }
  }

  /** What a trace says about how its `k`-th step follows the one before. */
  lemma {:induction false} TraceLinkAt(g: Graph, u: Graph, o: nat, steps: seq<WalkStep>, k: nat)
    requires g.WellFormed() && u.WellFormed() && Trace(g, u, o, steps)
    requires k < |steps|
    ensures o + k < |g.edges| && Prefix(g, o + k).WellFormed()
    ensures k == 0 ==> steps[k].start == 1 && steps[k].seen == {} && steps[k].prv == 1
    ensures k > 0 ==> Continues(steps[k - 1], steps[k]) || Restarts(Prefix(g, o + k), u, steps[k - 1], steps[k])
    decreases |steps|
  {
    if k < |steps| - 1 {
      TraceShrinks(g, u, o, steps, k);
      TraceLinkAt(Prefix(g, o + |steps| - 1), u, o, steps[..|steps| - 1], k);
    }
  }

  /** Within one walk no node is chosen twice. */
  lemma WalkNodesDistinct(g: Graph, u: Graph, o: nat, steps: seq<WalkStep>, i: nat, k: nat)
    requires g.WellFormed() && u.WellFormed() && Trace(g, u, o, steps)
    requires i < k < |steps|
    requires forall j | i <= j < k :: Continues(steps[j], steps[j + 1])
    ensures steps[i].next != steps[k].next
  {
    WalkSeenGrows(steps, i, k);
    TraceStepAt(g, u, o, steps, k);
  }

  /** The run so far, and where its nodes lie: all inside the mesh component of node 1. */
  ghost predicate RunInv(g: Graph, u: Graph, o: nat, steps: seq<WalkStep>)
    requires g.WellFormed() && u.WellFormed()
  {
    && Trace(g, u, o, steps)
    && FinalPrv(steps) in Component(u, 1)
    && (forall k | 0 <= k < |steps| :: steps[k].prv in Component(u, 1) && steps[k].next in Component(u, 1))
  }

  /**
   * The state of the walk that began at `start` when `steps` had `walkFrom` entries: it has
   * chosen `seen`, stands at `prv`, at most `hops` undirected hops from `start`.
   */
  ghost predicate WalkInv(g: Graph, u: Graph, steps: seq<WalkStep>, walkFrom: nat, start: nat, seen: set<nat>, prv: nat, hops: nat)
    requires g.WellFormed() && u.WellFormed()
  {
    && walkFrom <= |steps| && prv == FinalPrv(steps)
    && seen <= NodeSet(g)
    && (walkFrom == |steps| ==> seen == {} && prv == start)
    && (walkFrom == |steps| && steps != [] ==> Stuck(g, u, steps[|steps| - 1].seen + {prv}, prv))
    && (walkFrom == 0 ==> start == 1)
    && (walkFrom < |steps| ==> steps[|steps| - 1].start == start && seen == steps[|steps| - 1].seen + {prv})
    && Reaches(g, start, prv) && prv in Ball(u, start, hops)
  }

  /** How the walk in progress relates to the walks before it (`start_vertices`). */
  ghost predicate WalkStarts(g: Graph, steps: seq<WalkStep>, walkFrom: nat, start: nat, prv: nat, starts: set<nat>, universe: set<nat>)
    requires g.WellFormed()
  {
    && StartsOf(steps) == starts + (if walkFrom < |steps| then {start} else {})
    && starts <= universe && start in universe && prv in universe && start !in starts
    && (forall s | s in starts :: Reaches(g, s, start))
    && (walkFrom < |steps| ==> prv != start && prv !in starts)
  }

  /** The state between two walks of the outer loop. */
  ghost predicate RunStarts(g: Graph, u: Graph, steps: seq<WalkStep>, start: nat, prv: nat, starts: set<nat>, universe: set<nat>)
    requires g.WellFormed()
  {
    && prv == FinalPrv(steps) && prv in universe
    && (steps != [] ==> Stuck(g, u, steps[|steps| - 1].seen + {prv}, prv))
    && starts == StartsOf(steps) + (if prv == start then {prv} else {})
    && starts <= universe
    && (forall s | s in starts :: Reaches(g, s, prv))
    && (prv != start ==> prv !in starts)
    && (prv == start ==> Stuck(g, u, {}, prv))
  }

  /** The directed graph is an acyclic petgraph graph with at least the nodes of the mesh graph. */
  ghost predicate DagShape(g: Graph, u: Graph)
  {
    g.WellFormed() && Acyclic(g) && u.WellFormed() && |u.nodes| <= |g.nodes|
  }

  /** Everything the inner loop of `add_dag_edges` keeps. */
  ghost predicate WalkState(g: Graph, u: Graph, o: nat, steps: seq<WalkStep>, walkFrom: nat, start: nat, seen: set<nat>,
                            prv: nat, hops: nat, starts: set<nat>, universe: set<nat>)
  {
    && DagShape(g, u)
    && universe == NodeSet(g) + {1}
    && RunInv(g, u, o, steps)
    && WalkInv(g, u, steps, walkFrom, start, seen, prv, hops)
    && WalkStarts(g, steps, walkFrom, start, prv, starts, universe)
  }

  /** The polar form of the position of node `idx` among `nodes`. */
  function NodePolar(m: MathLib, nodes: seq<ObjVertex>, idx: nat): Polar
    requires idx < |nodes|
  {
    ToPolar(m, FromArray(nodes[idx].position))
  }

  /** The polar offset from node `path[j]` to node `path[j + 1]`. */
  function OffsetAt(m: MathLib, nodes: seq<ObjVertex>, path: seq<nat>, j: nat): Polar
    requires j + 1 < |path| && path[j] < |nodes| && path[j + 1] < |nodes|
  {
    NodePolar(m, nodes, path[j]).Minus(NodePolar(m, nodes, path[j + 1]))
  }

  /** Each of `offsets` is the text of the offset between the path nodes at its index. */
  ghost predicate OffsetsFrom(m: MathLib, nodes: seq<ObjVertex>, path: seq<nat>, offsets: seq<Text>)
  {
    && |offsets| < |path|
    && (forall i | 0 <= i < |path| :: path[i] < |nodes|)
    && forall j | 0 <= j < |offsets| :: offsets[j] == PolarText(OffsetAt(m, nodes, path, j))
  }

  lemma OffsetsAppend(m: MathLib, nodes: seq<ObjVertex>, path: seq<nat>, offsets: seq<Text>, t: Text)
    requires OffsetsFrom(m, nodes, path, offsets) && |offsets| + 1 < |path|
    requires t == PolarText(OffsetAt(m, nodes, path, |offsets|))
    ensures OffsetsFrom(m, nodes, path, offsets + [t])
  {
    var o := offsets + [t];
    forall j | 0 <= j < |o| ensures o[j] == PolarText(OffsetAt(m, nodes, path, j)) {
      if j < |offsets| {
        assert o[j] == offsets[j];
      }
    }
  }

  /**
   * The loop of `path_to_polar_offs` over the node weights `nodes`: a `PolarCoords` holding the
   * previous node's polar position subtracts the next one's, and the difference is written out.
   */
  method PolarOffsets(m: MathLib, nodes: seq<ObjVertex>, path: seq<nat>) returns (offsets: seq<Text>)
    requires forall i | 0 <= i < |path| :: path[i] < |nodes|
    ensures |offsets| == if path == [] then 0 else |path| - 1
    ensures forall j | 0 <= j < |offsets| ::
              && offsets[j] == PolarText(OffsetAt(m, nodes, path, j))
              && ParsePolar(offsets[j]) == Some(OffsetAt(m, nodes, path, j))
  {
    offsets := [];
    if path == [] {
      return;
    }
    var prv := new PolarCoords(NodePolar(m, nodes, path[0]));
    var i := 0;
    while i + 1 < |path|
      invariant i < |path| && |offsets| == i && fresh(prv)
      invariant prv.Value() == NodePolar(m, nodes, path[i])
      invariant OffsetsFrom(m, nodes, path, offsets)
    {
      var next := NodePolar(m, nodes, path[i + 1]);
      prv.SubtractWith(next);
      var offset := PolarText(prv.Value());
      OffsetsAppend(m, nodes, path, offsets, offset);
      offsets := offsets + [offset];
      prv := new PolarCoords(next);
      i := i + 1;
    }
    forall j | 0 <= j < |offsets| ensures ParsePolar(offsets[j]) == Some(OffsetAt(m, nodes, path, j)) {
      PolarTextRoundTrip(OffsetAt(m, nodes, path, j));
    }
  }

  class VertexDag {
    var graph: Graph
    var undirected: Graph
    var components: set<nat>

    /** Both graphs are petgraph graphs; the directed one is acyclic. */
    ghost predicate Valid()
      reads this
    {
      DagShape(graph, undirected)
    }

    /** `VertexDag::new`: the given graph, an empty undirected graph, no components. */
    constructor (g: Graph)
      requires g.WellFormed() && Acyclic(g)
      ensures Valid()
      ensures graph == g && undirected == Graph([], []) && components == {}
    {
      graph := g;
      undirected := Graph([], []);
      components := {};
    }

    /**
     * `add_dag_edges`: chained greedy walks that orient undirected mesh edges, starting at
     * node 1. The ghost result `steps` records every step taken.
     */
    method AddDagEdges() returns (ghost steps: seq<WalkStep>)
      requires Valid()
      modifies this
      ensures Valid()
      ensures graph.nodes == old(graph.nodes) && undirected == old(undirected)
      ensures old(graph.edges) <= graph.edges
      ensures Trace(graph, undirected, |old(graph.edges)|, steps)
      ensures forall k | 0 <= k < |steps| ::
                steps[k].prv in Component(undirected, 1) && steps[k].next in Component(undirected, 1)
      ensures Stuck(graph, undirected, {}, FinalPrv(steps))
      ensures components == StartsOf(steps) + {FinalPrv(steps)}
    {
      ghost var o := |graph.edges|;
      ghost var u := undirected;
      ghost var nodes := graph.nodes;
      ghost var universe := NodeSet(graph) + {1};
      ClosureExtends(u, {1}, false);
      var startVertices: set<nat> := {};
      var start: nat := 2;
      var prv: nat := 1;
      steps := [];
      while prv != start
        invariant Valid() && graph.nodes == nodes && undirected == u
        invariant old(graph.edges) <= graph.edges && o == |old(graph.edges)|
        invariant universe == NodeSet(graph) + {1}
        invariant RunInv(graph, u, o, steps)
        invariant RunStarts(graph, u, steps, start, prv, startVertices, universe)
        decreases universe - startVertices
      {
        WalkBegins(graph, u, o, steps, start, prv, startVertices, universe);
        start := prv;
        ghost var before := graph;
        graph, prv, steps := Walk(graph, undirected, start, o, steps, startVertices, universe);
        PrefixTransitive(old(graph.edges), before.edges, graph.edges);
        startVertices := startVertices + {start};
      }
      components := startVertices;
    }

    /**
     * `get_paths`: nodes ranked by height, and from each unseen node in rank order a greedy
     * walk to the lowest-ranked unseen mesh neighbour; walks of two or more nodes are returned.
     * The extra result `order` is the ranking the sort produced.
     */
    method GetPaths() returns (paths: seq<seq<nat>>, order: seq<nat>)
      requires Valid()
      ensures PathPartition.SortedOrder(order, graph.nodes)
      ensures PathPartition.GreedyPaths(PathPartition.Adjacency(undirected, |graph.nodes|), order, paths)
    {
      PathPartition.AdjacencyBounded(undirected, |graph.nodes|);
      paths, order := PathPartition.GreedyPartition(graph.nodes, PathPartition.Adjacency(undirected, |graph.nodes|));
    }

    /** `position_at`: the source unwraps the node weight, so `idx` must be a node. */
    function PositionAt(idx: nat): F3
      reads this
      requires idx < |graph.nodes|
    {
      graph.nodes[idx].position
    }

    /** The polar form of the position of node `idx`. */
    function PolarAt(m: MathLib, idx: nat): Polar
      reads this
      requires idx < |graph.nodes|
    {
      NodePolar(m, graph.nodes, idx)
    }

    /**
     * `path_to_polar_offs`: for each consecutive pair of nodes on `path`, the text of the polar
     * position of the first minus that of the second. Each offset reads back as that difference.
     */
    method PathToPolarOffs(m: MathLib, path: seq<nat>) returns (offsets: seq<Text>)
      requires forall i | 0 <= i < |path| :: path[i] < |graph.nodes|
      ensures |offsets| == if path == [] then 0 else |path| - 1
      ensures forall i | 0 <= i < |offsets| ::
                offsets[i] == PolarText(PolarAt(m, path[i]).Minus(PolarAt(m, path[i + 1])))
      ensures forall i | 0 <= i < |offsets| ::
                ParsePolar(offsets[i]) == Some(PolarAt(m, path[i]).Minus(PolarAt(m, path[i + 1])))
    {
      offsets := PolarOffsets(m, graph.nodes, path);
    }

    /**
     * `From<&ObjData> for VertexDag`: the mesh graphs built with face normals, wrapped in a new
     * `VertexDag`, then oriented by `add_dag_edges`. A file on which the source would panic
     * yields an error.
     */
    static method FromObjData(data: ObjData) returns (res: Result<VertexDag, LoadError>, ghost steps: seq<WalkStep>)
      ensures res.Failure? <==> !Loadable(data, FaceNormals)
      ensures res.Success? ==> fresh(res.value) && res.value.Valid() && Loadable(data, FaceNormals)
      ensures res.Success? ==>
                var d := res.value;
                && BuiltFrom(MeshGraphs(Graph(d.graph.nodes, []), d.undirected), data, FaceNormals)
                && Trace(d.graph, d.undirected, 0, steps)
                && Stuck(d.graph, d.undirected, {}, FinalPrv(steps))
                && d.components == StartsOf(steps) + {FinalPrv(steps)}
    {
      var built := BuildGraphs(data, FaceNormals);
      if built.Failure? {
        return Failure(built.error), [];
      }
      var d := new VertexDag(built.value.directed);
      d.undirected := built.value.undirected;
      steps := d.AddDagEdges();
      res := Success(d);
    }
  }

  /**
   * The inner loop of `add_dag_edges`: one walk from `start` over the mesh graph `u`, adding
   * edges to `g0` until no candidate is left.
   */
  method Walk(g0: Graph, u: Graph, start: nat, ghost o: nat, ghost steps0: seq<WalkStep>, ghost starts: set<nat>,
              ghost universe: set<nat>)
    returns (g: Graph, prv: nat, ghost steps: seq<WalkStep>)
    requires WalkState(g0, u, o, steps0, |steps0|, start, {}, start, 0, starts, universe)
    ensures DagShape(g, u) && g.nodes == g0.nodes && g0.edges <= g.edges
    ensures RunInv(g, u, o, steps)
    ensures RunStarts(g, u, steps, start, prv, starts + {start}, universe)
  {
    g := g0;
    prv := start;
    steps := steps0;
    var seen: set<nat> := {};
    ghost var hops: nat := 0;
    ghost var walkFrom := |steps|;
    while true
      invariant g.nodes == g0.nodes && g0.edges <= g.edges
      invariant WalkState(g, u, o, steps, walkFrom, start, seen, prv, hops, starts, universe)
      decreases NodeSet(g) - seen
    {
      var cands := Candidates(g, u, seen, prv);
      if cands == {} {
        NoCandidatesStuck(g, u, seen, prv);
        break;
      }
      WalkCandidatesHaveDistance(g, u, seen, prv, start, hops);
      ghost var closest := NearestExists(u, cands, start);
      var next :| Nearest(u, cands, start, next);
      ghost var before := g;
      NearestIsGreedy(before, u, WalkStep(start, seen, prv, next));
      StepFacts(before, u, WalkStep(start, seen, prv, next));
      g := AddEdge(g, prv, next, DagWeight);
      Advance(before, u, o, steps, walkFrom, start, seen, prv, hops, next, starts, universe);
      AddEdgeExtends(before, prv, next, DagWeight);
      PrefixTransitive(g0.edges, before.edges, g.edges);
      steps := steps + [WalkStep(start, seen, prv, next)];
      seen := seen + {next};
      prv := next;
      hops := hops + 1;
    }
    WalkEnds(g, u, o, steps, walkFrom, start, seen, prv, hops, starts, universe);
  }

  lemma PrefixTransitive<T>(a: seq<T>, b: seq<T>, c: seq<T>)
    requires a <= b && b <= c
    ensures a <= c
  {
    assert a == b[..|a|];
    assert b == c[..|b|];
  }

  /** Every candidate of a walk that stands `hops` layers from its start has an A* distance. */
  lemma WalkCandidatesHaveDistance(g: Graph, u: Graph, seen: set<nat>, prv: nat, start: nat, hops: nat)
    requires g.WellFormed() && u.WellFormed()
    requires prv in Ball(u, start, hops)
    ensures forall c | c in Candidates(g, u, seen, prv) :: HopDistance(u, c, start).Some?
  {
    forall c | c in Candidates(g, u, seen, prv) ensures HopDistance(u, c, start).Some? {
      StepMonotone(u, {prv}, Ball(u, start, hops), false);
      assert c in Ball(u, start, hops + 1);
      HopDistanceCorrect(u, c, start);
    }
  }

  /** What a single greedy step gives: both ends are nodes, and the edge passes the gate. */
  lemma StepFacts(g: Graph, u: Graph, s: WalkStep)
    requires g.WellFormed() && u.WellFormed() && |u.nodes| <= |g.nodes|
    requires Greedy(g, u, s)
    ensures s.next in Neighbours(u, s.prv) && s.prv in Neighbours(u, s.next)
    ensures s.prv < |g.nodes| && s.next < |g.nodes|
    ensures !Reaches(g, s.next, s.prv) && s.next !in s.seen
  {
    NeighboursSymmetric(u, s.prv, s.next);
    StepInNodes(u, {s.prv}, false);
    StepInNodes(u, {s.next}, false);
  }

  lemma PrefixOfExtension(g: Graph, g': Graph, m: nat)
    requires g'.nodes == g.nodes && |g.edges| <= |g'.edges| && g'.edges[..|g.edges|] == g.edges
    requires m <= |g.edges|
    ensures Prefix(g', m) == Prefix(g, m)
  {
    assert g'.edges[..m] == g.edges[..m];
  }

  /** Appending a greedy step and its edge extends a trace. */
  lemma TraceExtends(g: Graph, g': Graph, u: Graph, o: nat, steps: seq<WalkStep>, s: WalkStep)
    requires g.WellFormed() && g'.WellFormed() && u.WellFormed()
    requires Trace(g, u, o, steps)
    requires Greedy(g, u, s)
    requires s.prv < |g.nodes| && s.next < |g.nodes|
    requires g' == AddEdge(g, s.prv, s.next, DagWeight)
    requires steps == [] ==> s.start == 1 && s.seen == {} && s.prv == 1
    requires steps != [] ==>
               || Continues(steps[|steps| - 1], s)
               || Restarts(g, u, steps[|steps| - 1], s)
    ensures Trace(g', u, o, steps + [s])
  {
    var steps' := steps + [s];
    assert Prefix(g', o + |steps|) == g by {
      assert g'.edges[..|g.edges|] == g.edges;
    }
    assert steps'[..|steps|] == steps;
  }

  /** One iteration of the inner loop keeps the run invariant. */
  lemma RunAdvance(g: Graph, u: Graph, o: nat, steps: seq<WalkStep>, walkFrom: nat, start: nat, seen: set<nat>,
                   prv: nat, hops: nat, next: nat)
    requires g.WellFormed() && u.WellFormed() && |u.nodes| <= |g.nodes|
    requires RunInv(g, u, o, steps)
    requires WalkInv(g, u, steps, walkFrom, start, seen, prv, hops)
    requires Greedy(g, u, WalkStep(start, seen, prv, next))
    ensures var g' := AddEdge(g, prv, next, DagWeight);
            g'.WellFormed() && RunInv(g', u, o, steps + [WalkStep(start, seen, prv, next)])
  {
    var s := WalkStep(start, seen, prv, next);
    var g' := AddEdge(g, prv, next, DagWeight);
    StepFacts(g, u, s);
    if steps != [] && walkFrom < |steps| {
      assert Continues(steps[|steps| - 1], s);
    }
    TraceExtends(g, g', u, o, steps, s);
    ClosureExtends(u, {1}, false);
    StepMonotone(u, {prv}, Component(u, 1), false);
    assert next in Component(u, 1);
    var steps' := steps + [s];
    forall k | 0 <= k < |steps'| ensures steps'[k].prv in Component(u, 1) && steps'[k].next in Component(u, 1) {
      if k < |steps| {
        assert steps'[k] == steps[k];
      }
    }
  }

  /** One iteration of the inner loop keeps the directed graph acyclic. */
  lemma GraphAdvance(g: Graph, u: Graph, seen: set<nat>, prv: nat, start: nat, next: nat)
    requires g.WellFormed() && Acyclic(g) && u.WellFormed() && |u.nodes| <= |g.nodes|
    requires Greedy(g, u, WalkStep(start, seen, prv, next))
    ensures var g' := AddEdge(g, prv, next, DagWeight);
            && g'.WellFormed() && Acyclic(g') && g'.nodes == g.nodes
            && next in NodeSet(g) && next !in seen
  {
    StepFacts(g, u, WalkStep(start, seen, prv, next));
    GatedInsertKeepsAcyclic(g, prv, next, DagWeight);
    RangeMembers(|g.nodes|);
  }

  /** One iteration of the inner loop keeps the walk invariant. */
  lemma WalkAdvance(g: Graph, u: Graph, steps: seq<WalkStep>, walkFrom: nat, start: nat, seen: set<nat>,
                    prv: nat, hops: nat, next: nat)
    requires g.WellFormed() && u.WellFormed() && |u.nodes| <= |g.nodes|
    requires WalkInv(g, u, steps, walkFrom, start, seen, prv, hops)
    requires Greedy(g, u, WalkStep(start, seen, prv, next))
    ensures var g' := AddEdge(g, prv, next, DagWeight);
            g'.WellFormed() && WalkInv(g', u, steps + [WalkStep(start, seen, prv, next)], walkFrom, start, seen + {next}, next, hops + 1)
  {
    var s := WalkStep(start, seen, prv, next);
    var g' := AddEdge(g, prv, next, DagWeight);
    StepFacts(g, u, s);
    StepMonotone(u, {prv}, Ball(u, start, hops), false);
    assert next in Ball(u, start, hops + 1);
    ReachesAfterStep(g, prv, next, start, {});
    RangeMembers(|g.nodes|);
  }

  /** One iteration of the inner loop keeps the relation to earlier walks. */
  lemma StartsAdvance(g: Graph, u: Graph, steps: seq<WalkStep>, walkFrom: nat, start: nat, seen: set<nat>,
                      prv: nat, next: nat, starts: set<nat>, universe: set<nat>)
    requires g.WellFormed() && u.WellFormed() && |u.nodes| <= |g.nodes|
    requires universe == NodeSet(g) + {1}
    requires walkFrom <= |steps| && Reaches(g, start, prv)
    requires WalkStarts(g, steps, walkFrom, start, prv, starts, universe)
    requires Greedy(g, u, WalkStep(start, seen, prv, next))
    ensures var g' := AddEdge(g, prv, next, DagWeight);
            g'.WellFormed() && WalkStarts(g', steps + [WalkStep(start, seen, prv, next)], walkFrom, start, next, starts, universe)
  {
    var s := WalkStep(start, seen, prv, next);
    var steps' := steps + [s];
    StepFacts(g, u, s);
    RangeMembers(|g.nodes|);
    ReachesAfterStep(g, prv, next, start, starts);
    if next == start || next in starts {
      if next in starts {
        ReachesTrans(g, next, start, prv);
      }
      assert false;
    }
    StartsOfAppend(steps, s);
  }

  /** One iteration of the inner loop keeps every invariant of the walk. */
  lemma Advance(g: Graph, u: Graph, o: nat, steps: seq<WalkStep>, walkFrom: nat, start: nat, seen: set<nat>,
                prv: nat, hops: nat, next: nat, starts: set<nat>, universe: set<nat>)
    requires WalkState(g, u, o, steps, walkFrom, start, seen, prv, hops, starts, universe)
    requires Greedy(g, u, WalkStep(start, seen, prv, next))
    ensures var g' := AddEdge(g, prv, next, DagWeight);
            && g'.nodes == g.nodes && next in NodeSet(g) && next !in seen
            && WalkState(g', u, o, steps + [WalkStep(start, seen, prv, next)], walkFrom, start, seen + {next}, next, hops + 1, starts, universe)
  {
    RunAdvance(g, u, o, steps, walkFrom, start, seen, prv, hops, next);
    GraphAdvance(g, u, seen, prv, start, next);
    WalkAdvance(g, u, steps, walkFrom, start, seen, prv, hops, next);
    StartsAdvance(g, u, steps, walkFrom, start, seen, prv, next, starts, universe);
  }

  /** Entering the inner loop from the state between walks. */
  lemma WalkBegins(g: Graph, u: Graph, o: nat, steps: seq<WalkStep>, lastStart: nat, prv: nat, starts: set<nat>, universe: set<nat>)
    requires DagShape(g, u) && universe == NodeSet(g) + {1} && RunInv(g, u, o, steps)
    requires RunStarts(g, u, steps, lastStart, prv, starts, universe) && prv != lastStart
    ensures WalkState(g, u, o, steps, |steps|, prv, {}, prv, 0, starts, universe)
  {
    ReachesRefl(g, prv);
  }

  /** Leaving the inner loop re-establishes the state between walks. */
  lemma WalkEnds(g: Graph, u: Graph, o: nat, steps: seq<WalkStep>, walkFrom: nat, start: nat, seen: set<nat>,
                 prv: nat, hops: nat, starts: set<nat>, universe: set<nat>)
    requires WalkState(g, u, o, steps, walkFrom, start, seen, prv, hops, starts, universe)
    requires Stuck(g, u, seen, prv)
    ensures RunStarts(g, u, steps, start, prv, starts + {start}, universe)
  {
    ReachesRefl(g, prv);
    forall s | s in starts ensures Reaches(g, s, prv) {
      ReachesTrans(g, s, start, prv);
    }
  }

  /** Reachability facts carried across one inserted edge. */
  lemma ReachesAfterStep(g: Graph, prv: nat, next: nat, start: nat, starts: set<nat>)
    requires g.WellFormed() && prv < |g.nodes| && next < |g.nodes|
    requires Reaches(g, start, prv)
    requires forall s | s in starts :: Reaches(g, s, start)
    ensures Reaches(AddEdge(g, prv, next, DagWeight), start, next)
    ensures forall s | s in starts :: Reaches(AddEdge(g, prv, next, DagWeight), s, start)
  {
    var h := AddEdge(g, prv, next, DagWeight);
    ReachesMonotone(g, h, start, prv);
    ReachesEdge(h, start, Edge(prv, next, DagWeight));
    forall s | s in starts ensures Reaches(h, s, start) {
      ReachesMonotone(g, h, s, start);
    }
  }

  /**
   * Every edge `add_dag_edges` appended goes from a node to one of its mesh neighbours, weighs
   * -1, and passed the gate: its target did not reach its source when it was added.
   */
  lemma AddedEdgesGated(g: Graph, u: Graph, o: nat, steps: seq<WalkStep>, k: nat)
    requires g.WellFormed() && u.WellFormed() && Trace(g, u, o, steps)
    requires o <= k < |g.edges|
    ensures var e := g.edges[k];
            && e.weight == DagWeight && e.target in Neighbours(u, e.source)
            && !Reaches(Prefix(g, k), e.target, e.source)
  {
    var s := steps[k - o];
    TraceEdgeAt(g, u, o, steps, k - o);
    TraceStepAt(g, u, o, steps, k - o);
    assert g.edges[k] == Edge(s.prv, s.next, DagWeight);
    assert Candidate(Prefix(g, k), u, s.seen, s.prv, s.next);
  }
}
