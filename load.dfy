/**
 * src/load.rs: `get_indices`, which flattens the faces into the index list of the index
 * buffer, and `load_wavefront`, which builds the mesh graphs with per-position normals and
 * then orients mesh edges by one depth-first search per unseen node.
 */
module Load {
  import opened Wrappers
  import opened Obj
  import opened Graphs
  import opened MeshBuild
  import opened Dag

  // ---------------------------------------------------------------------------------------
  // get_indices

  /** A 16-bit index, the element type of the index buffer. */
  type U16 = x: nat | x < 65536

  /** `x as u16`: keeps the low 16 bits. */
  function AsU16(x: nat): U16
  {
    x % 65536
  }

  /** The position indices of `refs`, in order, each cut to 16 bits. */
  function IndexList(refs: seq<VertexRef>): seq<U16>
  {
    if refs == [] then [] else IndexList(refs[..|refs| - 1]) + [AsU16(refs[|refs| - 1].pos)]
  }

  lemma {:induction false} IndexListAt(refs: seq<VertexRef>)
    ensures |IndexList(refs)| == |refs|
    ensures forall i | 0 <= i < |refs| :: IndexList(refs)[i] == AsU16(refs[i].pos)
  {
    if refs != [] {
      IndexListAt(refs[..|refs| - 1]);
    }
  }

  /** `get_indices`: the position index of every corner, cut to 16 bits, without the first six. */
  function GetIndices(data: ObjData): seq<U16>
  {
    var all := IndexList(Corners(Polygons(data)));
    if |all| <= 6 then [] else all[6..]
  }

  /**
   * Entry `i` of the index list is the position index of corner `i + 6`, cut to 16 bits, and
   * the index itself when it fits; six or fewer corners give an empty list.
   */
  lemma GetIndicesSpec(data: ObjData)
    ensures var cs := Corners(Polygons(data));
            && |GetIndices(data)| == (if |cs| <= 6 then 0 else |cs| - 6)
            && (forall i | 0 <= i < |GetIndices(data)| :: GetIndices(data)[i] == AsU16(cs[i + 6].pos))
            && (forall i | 0 <= i < |GetIndices(data)| && cs[i + 6].pos < 65536 :: GetIndices(data)[i] == cs[i + 6].pos)
  {
    IndexListAt(Corners(Polygons(data)));
  }

  /** The corners of a list of triangles: corner `c` of triangle `f` sits at `3 * f + c`. */
  lemma {:induction false} TriangleCorners(ps: seq<Polygon>)
    requires forall f | 0 <= f < |ps| :: |ps[f]| == 3
    ensures |Corners(ps)| == 3 * |ps|
    ensures forall f, c | 0 <= f < |ps| && 0 <= c < 3 :: Corners(ps)[3 * f + c] == ps[f][c]
  {
    if ps != [] {
      var init := ps[..|ps| - 1];
      TriangleCorners(init);
      assert Corners(ps) == Corners(init) + ps[|ps| - 1];
      forall f, c | 0 <= f < |ps| && 0 <= c < 3 ensures Corners(ps)[3 * f + c] == ps[f][c] {
        if f < |ps| - 1 {
          assert init[f] == ps[f];
        }
      }
    }
  }

  /**
   * On a triangle mesh the index list comes in faces of three, starting from the third face:
   * chunk `k` holds the corners of face `k + 2`, since the first six indices are dropped.
   */
  lemma TriangleChunks(data: ObjData, k: nat, c: nat)
    requires forall f | 0 <= f < |Polygons(data)| :: |Polygons(data)[f]| == 3
    requires k + 2 < |Polygons(data)| && c < 3
    ensures 3 * k + c < |GetIndices(data)|
    ensures GetIndices(data)[3 * k + c] == AsU16(Polygons(data)[k + 2][c].pos)
  {
    TriangleCorners(Polygons(data));
    GetIndicesSpec(data);
    assert 3 * k + c + 6 == 3 * (k + 2) + c;
  }

  // ---------------------------------------------------------------------------------------
  // The depth-first search of petgraph's `Dfs`

  /** petgraph's `Dfs`: the nodes discovered so far and the stack of nodes still to visit. */
  datatype DfsState = DfsState(discovered: set<nat>, stack: seq<nat>)

  /** Every neighbour of a discovered node is discovered or waiting on the stack. */
  ghost predicate Frontier(u: Graph, d: DfsState)
  {
    forall x | x in d.discovered :: Neighbours(u, x) <= d.discovered + Elements(d.stack)
  }

  /** Lists the elements of `s` once each, in an order left open. */
  method Enumerate(s: set<nat>) returns (xs: seq<nat>)
    ensures Elements(xs) == s
  {
    xs := [];
    var rest := s;
    while rest != {}
      invariant Elements(xs) + rest == s
      decreases rest
    {
      var x :| x in rest;
      xs := xs + [x];
      rest := rest - {x};
    }
  }

  /**
   * How much of `stack` is left once the discovered nodes on its top are popped off: the
   * entry just below that point is the next node `Dfs::next` returns.
   */
  function Unpopped(discovered: set<nat>, stack: seq<nat>): (i: nat)
    ensures i <= |stack|
    ensures forall j | i <= j < |stack| :: stack[j] in discovered
    ensures 0 < i ==> stack[i - 1] !in discovered
    decreases |stack|
  {
    if stack == [] then 0
    else if stack[|stack| - 1] in discovered then Unpopped(discovered, stack[..|stack| - 1])
    else |stack|
  }

  /**
   * One successful `Dfs::next`: `v` is the topmost undiscovered entry of the stack, the entries
   * above it are dropped, `v` becomes discovered, and its undiscovered neighbours are pushed.
   */
  ghost predicate DfsMove(u: Graph, d: DfsState, v: nat, d': DfsState)
  {
    var i := Unpopped(d.discovered, d.stack);
    && 0 < i && v == d.stack[i - 1]
    && d'.discovered == d.discovered + {v}
    && i - 1 <= |d'.stack| && d'.stack[..i - 1] == d.stack[..i - 1]
    && Elements(d'.stack[i - 1..]) == Neighbours(u, v) - d'.discovered
  }

  /**
   * `Dfs::next` over the mesh graph `u`: pops nodes until one not yet discovered turns up,
   * marks it, pushes its undiscovered neighbours (in petgraph's order, left open here) and
   * returns it; `None` once the stack runs out.
   */
  method DfsNext(u: Graph, d: DfsState) returns (visited: Option<nat>, d': DfsState)
    ensures visited.None? <==> Unpopped(d.discovered, d.stack) == 0
    ensures visited.None? ==> d'.stack == [] && d'.discovered == d.discovered
    ensures visited.Some? ==> DfsMove(u, d, visited.value, d')
    ensures visited.Some? ==>
              && visited.value !in d.discovered && visited.value in d.stack
              && d'.discovered == d.discovered + {visited.value}
              && Elements(d'.stack) <= Elements(d.stack) + Neighbours(u, visited.value)
    ensures d.discovered + Elements(d.stack) <= d'.discovered + Elements(d'.stack)
    ensures Frontier(u, d) ==> Frontier(u, d')
  {
    var stack := d.stack;
    while stack != []
      invariant stack == d.stack[..|stack|]
      invariant Unpopped(d.discovered, stack) == Unpopped(d.discovered, d.stack)
      invariant d.discovered + Elements(d.stack) <= d.discovered + Elements(stack)
      invariant Frontier(u, d) ==> Frontier(u, DfsState(d.discovered, stack))
      decreases |stack|
    {
      var node := stack[|stack| - 1];
      var rest := stack[..|stack| - 1];
      assert Elements(stack) == Elements(rest) + {node};
      if node !in d.discovered {
        var found := d.discovered + {node};
        var succs := Enumerate(Neighbours(u, node) - found);
        PopFound(u, d, stack, succs);
        return Some(node), DfsState(found, rest + succs);
      }
      stack := rest;
      assert stack == d.stack[..|stack|];
    }
    return None, DfsState(d.discovered, []);
  }

  /** The facts `DfsNext` promises when the top of what is left of the stack is undiscovered. */
  lemma PopFound(u: Graph, d: DfsState, stack: seq<nat>, succs: seq<nat>)
    requires stack != [] && |stack| <= |d.stack| && stack == d.stack[..|stack|]
    requires Unpopped(d.discovered, stack) == Unpopped(d.discovered, d.stack)
    requires d.discovered + Elements(d.stack) <= d.discovered + Elements(stack)
    requires Frontier(u, d) ==> Frontier(u, DfsState(d.discovered, stack))
    requires stack[|stack| - 1] !in d.discovered
    requires Elements(succs) == Neighbours(u, stack[|stack| - 1]) - (d.discovered + {stack[|stack| - 1]})
    ensures var node, d' := stack[|stack| - 1], DfsState(d.discovered + {stack[|stack| - 1]}, stack[..|stack| - 1] + succs);
            && DfsMove(u, d, node, d')
            && node in d.stack
            && Elements(d'.stack) <= Elements(d.stack) + Neighbours(u, node)
            && d.discovered + Elements(d.stack) <= d'.discovered + Elements(d'.stack)
            && (Frontier(u, d) ==> Frontier(u, d'))
  {
    var node := stack[|stack| - 1];
    var rest := stack[..|stack| - 1];
    var d' := DfsState(d.discovered + {node}, rest + succs);
    assert Elements(stack) == Elements(rest) + {node};
    assert node in d.stack by {
      assert d.stack[|stack| - 1] == node;
    }
    assert Elements(rest + succs) == Elements(rest) + Elements(succs);
    assert Elements(rest) <= Elements(d.stack) by {
      forall x | x in rest ensures x in d.stack {
        var i :| 0 <= i < |rest| && rest[i] == x;
        assert d.stack[i] == x;
      }
    }
    assert DfsMove(u, d, node, d') by {
      assert Unpopped(d.discovered, stack) == |stack|;
      assert rest == d.stack[..|stack| - 1];
      assert (rest + succs)[..|rest|] == rest;
      assert (rest + succs)[|rest|..] == succs;
    }
  }

  /** What one search from `start` keeps: its nodes lie in the mesh component of `start`. */
  ghost predicate DfsInv(u: Graph, start: nat, d: DfsState)
    requires u.WellFormed()
  {
    && Frontier(u, d)
    && start in d.discovered + Elements(d.stack)
    && d.discovered + Elements(d.stack) <= Component(u, start)
  }

  /** The neighbours of a node of a component are in the component. */
  lemma ComponentClosed(u: Graph, start: nat, x: nat)
    requires u.WellFormed() && x in Component(u, start)
    ensures Neighbours(u, x) <= Component(u, start)
  {
    ClosureExtends(u, {start}, false);
    StepMonotone(u, {x}, Component(u, start), false);
  }

  /** A set that holds every neighbour of each of its members has no edge leaving it. */
  lemma NeighbourClosedIsClosed(u: Graph, t: set<nat>)
    requires forall x | x in t :: Neighbours(u, x) <= t
    ensures Closed(u, t, false)
  {
    forall y | y in Step(u, t, false) ensures y in t {
      var e :| e in u.edges && ((e.source in t && e.target == y) || (e.target in t && e.source == y));
      if e.source in t && e.target == y {
        assert y in Neighbours(u, e.source);
      } else {
        assert y in Neighbours(u, e.target);
      }
    }
  }

  /** A search whose stack ran out has discovered exactly the component of its start. */
  lemma DfsCoversComponent(u: Graph, start: nat, d: DfsState)
    requires u.WellFormed() && DfsInv(u, start, d) && d.stack == []
    ensures d.discovered == Component(u, start)
  {
    assert Elements(d.stack) == {};
    NeighbourClosedIsClosed(u, d.discovered);
    ClosureLeast(u, {start}, d.discovered, false);
  }

  lemma DfsStep(u: Graph, start: nat, d: DfsState, visited: Option<nat>, d': DfsState)
    requires u.WellFormed() && DfsInv(u, start, d)
    requires visited.Some? ==>
               && visited.value in d.stack
               && d'.discovered == d.discovered + {visited.value}
               && Elements(d'.stack) <= Elements(d.stack) + Neighbours(u, visited.value)
    requires visited.None? ==> d'.stack == [] && d'.discovered == d.discovered
    requires d.discovered + Elements(d.stack) <= d'.discovered + Elements(d'.stack)
    requires Frontier(u, d')
    ensures DfsInv(u, start, d')
  {
    if visited.Some? {
      assert visited.value in Elements(d.stack);
      ComponentClosed(u, start, visited.value);
    }
  }

  // ---------------------------------------------------------------------------------------
  // load_wavefront

  /** The nodes that have an incoming edge. */
  function Targets(g: Graph): set<nat>
  {
    set e | e in g.edges :: e.target
  }

  /**
   * What the orientation pass keeps: the directed graph is acyclic, has no parallel edges,
   * weighs -1 on every edge, orients only mesh edges, and `seen` holds the nodes that received
   * an incoming edge.
   */
  ghost predicate Oriented(g: Graph, u: Graph, seen: set<nat>)
  {
    && g.WellFormed() && Acyclic(g) && u.WellFormed() && |u.nodes| <= |g.nodes|
    && NoParallelEdges(g, true) && Weighted(g, DagWeight)
    && (forall e | e in g.edges :: Adjacent(u, e.source, e.target, false))
    && seen == Targets(g)
  }

  /** A mesh component lies among the nodes `0 .. n - 1` when its start does. */
  lemma ComponentInRange(u: Graph, start: nat, n: nat)
    requires u.WellFormed() && |u.nodes| <= n && start < n
    ensures Component(u, start) <= Range(n)
  {
    RangeMembers(n);
    RangeMembers(|u.nodes|);
    StepInNodes(u, Range(n), false);
    ClosureLeast(u, {start}, Range(n), false);
  }

  /** One gated `update_edge(prv, visited, -1.0)` of the search keeps the pass invariant. */
  lemma OrientStep(g: Graph, u: Graph, seen: set<nat>, prv: nat, v: nat)
    requires Oriented(g, u, seen) && prv < |g.nodes| && v < |g.nodes|
    requires !Reaches(g, v, prv) && Adjacent(u, prv, v, false)
    ensures Oriented(UpdateEdge(g, prv, v, DagWeight, true), u, seen + {v})
  {
    var r := UpdateEdge(g, prv, v, DagWeight, true);
    GatedUpdateKeepsAcyclic(g, prv, v, DagWeight);
    if Adjacent(g, prv, v, true) {
      UpdateExistingIsIdentity(g, prv, v, DagWeight, true);
      assert g.edges[FindEdge(g.edges, prv, v, true).value] in g.edges;
    } else {
      assert r.edges == g.edges + [Edge(prv, v, DagWeight)];
      AppendedEdgeOriented(g, r, u, prv, v);
    }
  }

  /** The facts of `Oriented` that do not follow from the acyclicity gate, for a new edge. */
  lemma AppendedEdgeOriented(g: Graph, r: Graph, u: Graph, prv: nat, v: nat)
    requires r.edges == g.edges + [Edge(prv, v, DagWeight)]
    requires forall e | e in g.edges :: Adjacent(u, e.source, e.target, false)
    requires Adjacent(u, prv, v, false)
    ensures forall e | e in r.edges :: Adjacent(u, e.source, e.target, false)
    ensures Targets(r) == Targets(g) + {v}
  {
    var e := Edge(prv, v, DagWeight);
    assert forall x | x in r.edges :: x in g.edges || x == e;
    assert e in r.edges;
    assert forall x | x in g.edges :: x in r.edges;
  }

  /** The `prv` of visit `i` of a search from `start`: the start itself, then the visit before. */
  function PrvAt(start: nat, visits: seq<nat>, i: nat): nat
    requires i <= |visits|
  {
    if i == 0 then start else visits[i - 1]
  }

  /**
   * One visit of `v` after `prv`: the edge `prv -> v` of weight -1 when the two are mesh
   * neighbours and `v` cannot reach `prv`; otherwise the graph unchanged.
   */
  function Visit(g: Graph, u: Graph, prv: nat, v: nat): Graph
    requires g.WellFormed() && prv < |g.nodes| && v < |g.nodes|
  {
    if !Reaches(g, v, prv) && Adjacent(u, prv, v, false) then UpdateEdge(g, prv, v, DagWeight, true) else g
  }

  /** Every node named in `visits`, and `start`, is a node of `g`. */
  ghost predicate VisitsIn(g: Graph, start: nat, visits: seq<nat>)
  {
    start < |g.nodes| && forall i | 0 <= i < |visits| :: visits[i] < |g.nodes|
  }

  /** The directed graph after a search from `start` has visited `visits`, in that order. */
  function OrientAlong(g0: Graph, u: Graph, start: nat, visits: seq<nat>): (g: Graph)
    requires g0.WellFormed() && VisitsIn(g0, start, visits)
    ensures g.WellFormed() && g.nodes == g0.nodes
    decreases |visits|
  {
    if visits == [] then g0
    else
      var n := |visits| - 1;
      Visit(OrientAlong(g0, u, start, visits[..n]), u, PrvAt(start, visits, n), visits[n])
  }

  /** Visit `i` passes the gate of the source on the graph the earlier visits left. */
  ghost predicate GateAt(g0: Graph, u: Graph, start: nat, visits: seq<nat>, i: nat)
    requires g0.WellFormed() && VisitsIn(g0, start, visits) && i < |visits|
  {
    var g := OrientAlong(g0, u, start, visits[..i]);
    !Reaches(g, visits[i], PrvAt(start, visits, i)) && Adjacent(u, PrvAt(start, visits, i), visits[i], false)
  }

  /** The directed pairs `prv -> v` of the visits that passed the gate. */
  ghost function GatedPairs(g0: Graph, u: Graph, start: nat, visits: seq<nat>): set<(nat, nat)>
    requires g0.WellFormed() && VisitsIn(g0, start, visits)
  {
    set i | 0 <= i < |visits| && GateAt(g0, u, start, visits, i) :: Key(PrvAt(start, visits, i), visits[i], true)
  }

  /**
   * The search adds exactly the edges `prv -> v` of the visits that passed the gate: the
   * directed pairs afterwards are those before and those.
   */
  lemma {:induction false} OrientAlongPairs(g0: Graph, u: Graph, start: nat, visits: seq<nat>)
    requires g0.WellFormed() && VisitsIn(g0, start, visits)
    ensures Pairs(OrientAlong(g0, u, start, visits), true) == Pairs(g0, true) + GatedPairs(g0, u, start, visits)
    decreases |visits|
  {
    if visits != [] {
      var n := |visits| - 1;
      var init := visits[..n];
      OrientAlongPairs(g0, u, start, init);
      GatedPairsAppend(g0, u, start, visits);
      var g := OrientAlong(g0, u, start, init);
      assert OrientAlong(g0, u, start, visits) == Visit(g, u, PrvAt(start, visits, n), visits[n]);
    }
  }

  /** The gated pairs of one more visit: those before, and the new one when it passed the gate. */
  lemma GatedPairsAppend(g0: Graph, u: Graph, start: nat, visits: seq<nat>)
    requires g0.WellFormed() && VisitsIn(g0, start, visits) && visits != []
    ensures var n := |visits| - 1;
            GatedPairs(g0, u, start, visits)
            == GatedPairs(g0, u, start, visits[..n])
               + (if GateAt(g0, u, start, visits, n) then {Key(PrvAt(start, visits, n), visits[n], true)} else {})
  {
    var n := |visits| - 1;
    var init := visits[..n];
    var key := Key(PrvAt(start, visits, n), visits[n], true);
    var extra: set<(nat, nat)> := if GateAt(g0, u, start, visits, n) then {key} else {};
    var now, before := GatedPairs(g0, u, start, visits), GatedPairs(g0, u, start, init);
    forall p | p in now ensures p in before + extra {
      var i :| 0 <= i < |visits| && GateAt(g0, u, start, visits, i) && p == Key(PrvAt(start, visits, i), visits[i], true);
      if i < n {
        GateAtPrefix(g0, u, start, visits, i);
        assert p in before;
      } else {
        assert i == n;
        assert extra == {key};
      }
    }
    forall p | p in before + extra ensures p in now {
      if p in before {
        var i :| 0 <= i < |init| && GateAt(g0, u, start, init, i) && p == Key(PrvAt(start, init, i), init[i], true);
        GateAtPrefix(g0, u, start, visits, i);
        assert p in now;
      } else {
        assert p == key && GateAt(g0, u, start, visits, n);
        assert p in now;
      }
    }
  }

  /** Visits before the last one passed the gate or not regardless of the last one. */
  lemma GateAtPrefix(g0: Graph, u: Graph, start: nat, visits: seq<nat>, i: nat)
    requires g0.WellFormed() && VisitsIn(g0, start, visits) && i < |visits| - 1
    ensures var init := visits[..|visits| - 1];
            && GateAt(g0, u, start, visits, i) == GateAt(g0, u, start, init, i)
            && PrvAt(start, visits, i) == PrvAt(start, init, i) && visits[i] == init[i]
  {
    var init := visits[..|visits| - 1];
    assert init[..i] == visits[..i];
  }

  /**
   * `states` are the states of petgraph's `Dfs` as the search from `start` moved through
   * `visits`: it begins with nothing discovered and `start` on the stack, and each visit is one
   * successful `Dfs::next`.
   */
  ghost predicate DfsPrefix(u: Graph, start: nat, visits: seq<nat>, states: seq<DfsState>)
  {
    && |states| == |visits| + 1 && states[0] == DfsState({}, [start])
    && forall i | 0 <= i < |visits| :: DfsMove(u, states[i], visits[i], states[i + 1])
  }

  /** `visits` is the whole visit order of `Dfs::new(start)` and `next` until it returns `None`. */
  ghost predicate DfsOrder(u: Graph, start: nat, visits: seq<nat>)
  {
    exists states: seq<DfsState> ::
      DfsPrefix(u, start, visits, states) && Unpopped(states[|visits|].discovered, states[|visits|].stack) == 0
  }

  lemma DfsPrefixAppend(u: Graph, start: nat, visits: seq<nat>, states: seq<DfsState>, v: nat, d': DfsState)
    requires DfsPrefix(u, start, visits, states) && DfsMove(u, states[|visits|], v, d')
    ensures DfsPrefix(u, start, visits + [v], states + [d'])
  {
    var vs, ss := visits + [v], states + [d'];
    forall i | 0 <= i < |vs| ensures DfsMove(u, ss[i], vs[i], ss[i + 1]) {
      if i < |visits| {
        assert ss[i] == states[i] && ss[i + 1] == states[i + 1] && vs[i] == visits[i];
      }
    }
  }

  /** One more visit extends the graph of the search by one `Visit`. */
  lemma OrientAlongAppend(g0: Graph, u: Graph, start: nat, visits: seq<nat>, v: nat)
    requires g0.WellFormed() && VisitsIn(g0, start, visits) && v < |g0.nodes|
    ensures VisitsIn(g0, start, visits + [v])
    ensures OrientAlong(g0, u, start, visits + [v])
            == Visit(OrientAlong(g0, u, start, visits), u, PrvAt(start, visits, |visits|), v)
  {
    var vs := visits + [v];
    assert vs[..|visits|] == visits;
    assert PrvAt(start, vs, |visits|) == PrvAt(start, visits, |visits|);
  }

  /** No node occurs twice in `visits`. */
  predicate NoRepeats(visits: seq<nat>)
  {
    forall i, j | 0 <= i < j < |visits| :: visits[i] != visits[j]
  }

  lemma NoRepeatsAppend(visits: seq<nat>, v: nat)
    requires NoRepeats(visits) && v !in Elements(visits)
    ensures NoRepeats(visits + [v]) && Elements(visits + [v]) == Elements(visits) + {v}
  {
    var vs := visits + [v];
    forall i, j | 0 <= i < j < |vs| ensures vs[i] != vs[j] {
      assert vs[i] == visits[i];
      if j < |visits| {
        assert vs[j] == visits[j];
      } else {
        assert visits[i] in Elements(visits);
      }
    }
  }

  /** What the search from `start` keeps while it runs. */
  ghost predicate SearchInv(g0: Graph, u: Graph, start: nat, visits: seq<nat>, states: seq<DfsState>, g: Graph, prv: nat)
    requires g0.WellFormed()
  {
    && VisitsIn(g0, start, visits)
    && DfsPrefix(u, start, visits, states)
    && Elements(visits) == states[|visits|].discovered
    && NoRepeats(visits)
    && (visits != [] ==> visits[0] == start)
    && prv == PrvAt(start, visits, |visits|)
    && g == OrientAlong(g0, u, start, visits)
  }

  /** One visit keeps `SearchInv`. */
  lemma SearchStep(g0: Graph, u: Graph, start: nat, visits: seq<nat>, states: seq<DfsState>, g: Graph, prv: nat, v: nat, d': DfsState)
    requires g0.WellFormed() && SearchInv(g0, u, start, visits, states, g, prv)
    requires DfsMove(u, states[|visits|], v, d') && v < |g0.nodes|
    ensures SearchInv(g0, u, start, visits + [v], states + [d'], Visit(g, u, prv, v), v)
  {
    var d := states[|visits|];
    var vs, ss := visits + [v], states + [d'];
    DfsPrefixAppend(u, start, visits, states, v, d');
    OrientAlongAppend(g0, u, start, visits, v);
    assert v !in d.discovered by {
      assert Unpopped(d.discovered, d.stack) > 0;
    }
    NoRepeatsAppend(visits, v);
    assert Elements(vs) == ss[|vs|].discovered by {
      assert ss[|vs|] == d';
    }
    assert vs[0] == start by {
      if visits == [] {
        assert d == DfsState({}, [start]);
        assert Unpopped({}, [start]) == 1;
      } else {
        assert vs[0] == visits[0];
      }
    }
    assert v == PrvAt(start, vs, |vs|);
  }

  /**
   * One iteration of the outer `for` of the orientation pass: a depth-first search from
   * `start` over the mesh graph; each visited node `v` gets the edge `prv -> v` when the two
   * are mesh neighbours and `v` cannot reach `prv`, and becomes `prv` either way. The ghost
   * result `visits` is the order in which the search visited the nodes.
   */
  method OrientFrom(g0: Graph, u: Graph, start: nat, seen0: set<nat>)
    returns (g: Graph, seen: set<nat>, ghost visits: seq<nat>)
    requires Oriented(g0, u, seen0) && start < |g0.nodes|
    ensures Oriented(g, u, seen) && g.nodes == g0.nodes && seen0 <= seen
    ensures VisitsIn(g0, start, visits) && g == OrientAlong(g0, u, start, visits)
    ensures DfsOrder(u, start, visits)
    ensures visits != [] && visits[0] == start
    ensures NoRepeats(visits)
    ensures Elements(visits) == Component(u, start)
  {
    var n := |g0.nodes|;
    RangeMembers(n);
    var dfs := DfsState({}, [start]);
    var prv: nat := start;
    g, seen := g0, seen0;
    visits := [];
    ghost var states := [dfs];
    assert Component(u, start) == Closure(u, {start}, false);
    ClosureExtends(u, {start}, false);
    ComponentInRange(u, start, n);
    while true
      invariant Oriented(g, u, seen) && g.nodes == g0.nodes && seen0 <= seen
      invariant DfsInv(u, start, dfs) && prv < n
      invariant SearchInv(g0, u, start, visits, states, g, prv) && dfs == states[|visits|]
      decreases Range(n) - dfs.discovered
    {
      var next, dfs' := DfsNext(u, dfs);
      DfsStep(u, start, dfs, next, dfs');
      if next.None? {
        assert DfsPrefix(u, start, visits, states) && Unpopped(states[|visits|].discovered, states[|visits|].stack) == 0;
        dfs := dfs';
        break;
      }
      var v := next.value;
      assert v in Elements(dfs.stack);
      assert v in Range(n);
      SearchStep(g0, u, start, visits, states, g, prv, v, dfs');
      if !Reaches(g, v, prv) && Adjacent(u, prv, v, false) {
        OrientStep(g, u, seen, prv, v);
        seen := seen + {v};
      }
      g := Visit(g, u, prv, v);
      visits := visits + [v];
      states := states + [dfs'];
      dfs := dfs';
      prv := v;
    }
    DfsCoversComponent(u, start, dfs);
  }

  /** The graph after the searches `runs[0]`, `runs[1]`, ... from the nodes `0`, `1`, ... in turn. */
  function OrientAll(g0: Graph, u: Graph, runs: seq<seq<nat>>): (g: Graph)
    requires g0.WellFormed() && RunsIn(g0, runs)
    ensures g.WellFormed() && g.nodes == g0.nodes
    decreases |runs|
  {
    if runs == [] then g0
    else
      var n := |runs| - 1;
      OrientAlong(OrientAll(g0, u, runs[..n]), u, n, runs[n])
  }

  /** There is a node for each search and for each node a search visits. */
  ghost predicate RunsIn(g0: Graph, runs: seq<seq<nat>>)
  {
    |runs| <= |g0.nodes| && forall i | 0 <= i < |runs| :: VisitsIn(g0, i, runs[i])
  }

  /**
   * The turn of node `|before|`, after the searches `before`: its search `r` ran exactly when
   * no earlier search had given it an incoming edge, and a search that ran is the depth-first
   * order of the component of the node, from the node.
   */
  ghost predicate TurnAt(g0: Graph, u: Graph, before: seq<seq<nat>>, r: seq<nat>)
    requires g0.WellFormed() && RunsIn(g0, before) && u.WellFormed()
  {
    && (r == [] <==> |before| in Targets(OrientAll(g0, u, before)))
    && (r != [] ==> r[0] == |before| && DfsOrder(u, |before|, r) && Elements(r) == Component(u, |before|))
  }

  /** Every turn of `runs` went as `TurnAt` says. */
  ghost predicate TurnsTaken(g0: Graph, u: Graph, runs: seq<seq<nat>>)
    requires g0.WellFormed() && RunsIn(g0, runs) && u.WellFormed()
  {
    forall v | 0 <= v < |runs| :: TurnAt(g0, u, runs[..v], runs[v])
  }

  /** One more turn extends the graph by one search and keeps `TurnsTaken`. */
  lemma TurnsAppend(g0: Graph, u: Graph, runs: seq<seq<nat>>, r: seq<nat>)
    requires g0.WellFormed() && u.WellFormed() && RunsIn(g0, runs) && TurnsTaken(g0, u, runs)
    requires |runs| < |g0.nodes| && VisitsIn(g0, |runs|, r)
    requires TurnAt(g0, u, runs, r)
    ensures RunsIn(g0, runs + [r]) && TurnsTaken(g0, u, runs + [r])
    ensures OrientAll(g0, u, runs + [r]) == OrientAlong(OrientAll(g0, u, runs), u, |runs|, r)
  {
    var rs := runs + [r];
    assert rs[..|runs|] == runs;
    forall v | 0 <= v < |rs| ensures TurnAt(g0, u, rs[..v], rs[v]) {
      if v < |runs| {
        assert rs[..v] == runs[..v] && rs[v] == runs[v];
      }
    }
  }

  /**
   * The orientation pass of `load_wavefront` over the edgeless directed graph `g0` and the
   * mesh graph `u`: a search from each node, in index order, that no earlier search gave an
   * incoming edge. The ghost results are `seen_vertices`, `start_vertices` and the visit order
   * of each search (empty for a node that was skipped).
   */
  method Orient(g0: Graph, u: Graph) returns (g: Graph, ghost seen: set<nat>, ghost starts: set<nat>, ghost runs: seq<seq<nat>>)
    requires g0.WellFormed() && g0.edges == [] && u.WellFormed() && |u.nodes| == |g0.nodes|
    ensures g.nodes == g0.nodes && Oriented(g, u, seen)
    ensures |runs| == |u.nodes| && RunsIn(g0, runs) && g == OrientAll(g0, u, runs)
    ensures TurnsTaken(g0, u, runs)
    ensures forall v | 0 <= v < |runs| :: v in starts <==> runs[v] != []
    ensures starts <= Range(|u.nodes|)
    ensures |u.nodes| > 0 ==> 0 in starts
    ensures forall v | 0 <= v < |u.nodes| && v !in seen :: v in starts
  {
    g := g0;
    var seenNodes: set<nat> := {};
    starts := {};
    runs := [];
    for start := 0 to |u.nodes|
      invariant g.nodes == g0.nodes && Oriented(g, u, seenNodes)
      invariant |runs| == start && RunsIn(g0, runs) && g == OrientAll(g0, u, runs) && TurnsTaken(g0, u, runs)
      invariant starts == StartsOf(runs)
      invariant start == 0 ==> seenNodes == {}
    {
      if start in seenNodes {
        TurnsAppend(g0, u, runs, []);
        StartsAppend(runs, []);
        runs := runs + [[]];
        continue;
      }
      starts := starts + {start};
      ghost var visits;
      g, seenNodes, visits := OrientFrom(g, u, start, seenNodes);
      TurnsAppend(g0, u, runs, visits);
      StartsAppend(runs, visits);
      runs := runs + [visits];
    }
    RangeMembers(|u.nodes|);
    seen := seenNodes;
    forall v | 0 <= v < |u.nodes| && (v == 0 || v !in seen) ensures runs[v] != [] {
      RunsWithoutTarget(g0, u, runs, v);
    }
  }

  /** The nodes whose search ran. */
  function StartsOf(runs: seq<seq<nat>>): set<nat>
  {
    set v | 0 <= v < |runs| && runs[v] != []
  }

  lemma StartsAppend(runs: seq<seq<nat>>, r: seq<nat>)
    ensures StartsOf(runs + [r]) == StartsOf(runs) + (if r == [] then {} else {|runs|})
  {
    var rs := runs + [r];
    assert forall v | 0 <= v < |runs| :: rs[v] == runs[v];
  }

  /** Node 0, and any node left without an incoming edge, started a search of its own. */
  lemma RunsWithoutTarget(g0: Graph, u: Graph, runs: seq<seq<nat>>, v: nat)
    requires g0.WellFormed() && g0.edges == [] && u.WellFormed() && RunsIn(g0, runs) && TurnsTaken(g0, u, runs)
    requires v < |runs| && (v == 0 || v !in Targets(OrientAll(g0, u, runs)))
    ensures runs[v] != []
  {
    assert TurnAt(g0, u, runs[..v], runs[v]);
    if v == 0 {
      assert runs[..0] == [];
      assert Targets(g0) == {};
    } else {
      TargetsGrow(g0, u, runs, v);
    }
  }

  /** Later searches only add edges: the nodes with an incoming edge at turn `v` keep one. */
  lemma {:induction false} TargetsGrow(g0: Graph, u: Graph, runs: seq<seq<nat>>, v: nat)
    requires g0.WellFormed() && RunsIn(g0, runs) && v <= |runs|
    ensures Targets(OrientAll(g0, u, runs[..v])) <= Targets(OrientAll(g0, u, runs))
    decreases |runs|
  {
    if v == |runs| {
      assert runs[..v] == runs;
    } else {
      var n := |runs| - 1;
      var init := runs[..n];
      assert init[..v] == runs[..v];
      TargetsGrow(g0, u, init, v);
      TargetsAlong(OrientAll(g0, u, init), u, n, runs[n]);
    }
  }

  /** A search only adds edges, so it keeps every node that had an incoming edge. */
  lemma {:induction false} TargetsAlong(g0: Graph, u: Graph, start: nat, visits: seq<nat>)
    requires g0.WellFormed() && VisitsIn(g0, start, visits)
    ensures Targets(g0) <= Targets(OrientAlong(g0, u, start, visits))
  {
    OrientAlongPairs(g0, u, start, visits);
    var g := OrientAlong(g0, u, start, visits);
    forall x | x in Targets(g0) ensures x in Targets(g) {
      var e :| e in g0.edges && e.target == x;
      assert Key(e.source, e.target, true) in Pairs(g0, true);
      assert Key(e.source, e.target, true) in Pairs(g, true);
      var f :| f in g.edges && Key(f.source, f.target, true) == Key(e.source, e.target, true);
    }
  }

  /**
   * `load_wavefront`: the mesh graphs built with per-position normals and texture
   * coordinates, then oriented by `Orient`, in a new `VertexDag` (`VertexGraph::new` in the
   * source). A file on which the source would panic yields an error. The ghost results are the
   * built mesh graphs, `start_vertices` and the visit order of each search.
   */
  method LoadWavefront(data: ObjData)
    returns (res: Result<VertexDag, LoadError>, ghost built: MeshGraphs, ghost starts: set<nat>, ghost runs: seq<seq<nat>>)
    ensures res.Failure? <==> !Loadable(data, VertexNormals)
    ensures res.Success? ==> Loadable(data, VertexNormals) && fresh(res.value) && res.value.Valid()
    ensures res.Success? ==>
              && BuiltFrom(built, data, VertexNormals)
              && built.directed.WellFormed() && built.undirected.WellFormed() && RunsIn(built.directed, runs)
              && res.value.graph == OrientAll(built.directed, built.undirected, runs)
              && TurnsTaken(built.directed, built.undirected, runs)
              && |runs| == |data.position|
              && (forall v | 0 <= v < |runs| :: v in starts <==> runs[v] != [])
    ensures res.Success? ==>
              var g := res.value.graph;
              && |g.nodes| == |data.position|
              && (forall v | 0 <= v < |data.position| :: g.nodes[v] == ExpectedVertex(data, VertexNormals, v))
              && NoParallelEdges(g, true) && Weighted(g, DagWeight)
              && (forall e | e in g.edges :: Key(e.source, e.target, false) in UndirectedKeys(AllPairs(Polygons(data))))
              && (|g.nodes| > 0 ==> 0 in starts)
              && (forall v | 0 <= v < |g.nodes| && v !in Targets(g) :: v in starts)
              && starts <= Range(|g.nodes|)
              && res.value.undirected == Graph([], []) && res.value.components == {}
  {
    var r := BuildGraphs(data, VertexNormals);
    if r.Failure? {
      return Failure(r.error), MeshGraphs(Graph([], []), Graph([], [])), {}, [];
    }
    var graphs := r.value;
    built := graphs;
    var u := graphs.undirected;
    ghost var seen;
    var g;
    g, seen, starts, runs := Orient(graphs.directed, u);
    forall e | e in g.edges ensures Key(e.source, e.target, false) in UndirectedKeys(AllPairs(Polygons(data))) {
      AdjacentPair(u, e.source, e.target, false);
    }
    var d := new VertexDag(g);
    res := Success(d);
  }
}
