/**
 * The part of petgraph's `Graph` that the mesh pipeline relies on, as values: an arena of
 * node weights addressed by index and a list of weighted edges. One type serves for both the
 * directed graph and the undirected one; the functions below say which reading they take.
 *
 * `has_path_connecting` becomes `Reaches`, a fixpoint over successor sets; A* with unit costs
 * becomes `HopDistance`, the index of the first breadth-first layer that contains a node.
 */
module Graphs {
  import opened Wrappers
  import opened Obj

  datatype Edge = Edge(source: nat, target: nat, weight: real)

  datatype Graph = Graph(nodes: seq<ObjVertex>, edges: seq<Edge>)
  {
    /** Every edge joins two existing nodes: petgraph refuses any other edge. */
    ghost predicate WellFormed()
    {
      forall e | e in edges :: e.source < |nodes| && e.target < |nodes|
    }
  }

  /** The indices `0 .. n - 1`. */
  function Range(n: nat): set<nat>
  {
    if n == 0 then {} else Range(n - 1) + {n - 1}
  }

  lemma {:induction false} RangeMembers(n: nat)
    ensures forall i: int :: i in Range(n) <==> 0 <= i < n
  {
    if n > 0 {
      RangeMembers(n - 1);
    }
  }

  /** The elements of `s`, as a set. */
  function Elements(s: seq<nat>): set<nat>
  {
    set x | x in s
  }

  /** The indices of the nodes of `g`. */
  function NodeSet(g: Graph): set<nat>
  {
    Range(|g.nodes|)
  }

  /** Whether `e` joins `a` to `b`; an undirected edge joins its ends either way round. */
  predicate Joins(e: Edge, a: nat, b: nat, directed: bool)
  {
    (e.source == a && e.target == b) || (!directed && e.source == b && e.target == a)
  }

  /** The identity of an edge up to its weight; undirected ends are put in order. */
  function Key(a: nat, b: nat, directed: bool): (nat, nat)
  {
    if directed || a <= b then (a, b) else (b, a)
  }

  lemma JoinsKey(e: Edge, a: nat, b: nat, directed: bool)
    ensures Joins(e, a, b, directed) <==> Key(e.source, e.target, directed) == Key(a, b, directed)
  {
  }

  /** The set of end pairs of the edges of `g`. */
  function Pairs(g: Graph, directed: bool): set<(nat, nat)>
  {
    set e | e in g.edges :: Key(e.source, e.target, directed)
  }

  /** No two edges join the same pair of nodes. */
  ghost predicate NoParallelEdges(g: Graph, directed: bool)
  {
    forall i, j | 0 <= i < j < |g.edges| ::
      Key(g.edges[i].source, g.edges[i].target, directed) != Key(g.edges[j].source, g.edges[j].target, directed)
  }

  /** Every edge of `g` carries weight `w`. */
  ghost predicate Weighted(g: Graph, w: real)
  {
    forall e | e in g.edges :: e.weight == w
  }

  /** `find_edge`: the first edge that joins `a` to `b`, if there is one. */
  function FindEdge(edges: seq<Edge>, a: nat, b: nat, directed: bool): (r: Option<nat>)
    ensures r.Some? ==> r.value < |edges| && Joins(edges[r.value], a, b, directed)
    ensures r.Some? ==> forall i | 0 <= i < r.value :: !Joins(edges[i], a, b, directed)
    ensures r.None? ==> forall e | e in edges :: !Joins(e, a, b, directed)
  {
    if edges == [] then None
    else if Joins(edges[0], a, b, directed) then Some(0)
    else
      match FindEdge(edges[1..], a, b, directed)
      case None => None
      case Some(i) => Some(i + 1)
  }

  /** `contains_edge`. */
  predicate Adjacent(g: Graph, a: nat, b: nat, directed: bool)
  {
    FindEdge(g.edges, a, b, directed).Some?
  }

  /** `add_edge`: appends a new edge, even one parallel to an existing edge. */
  function AddEdge(g: Graph, a: nat, b: nat, w: real): Graph
    requires a < |g.nodes| && b < |g.nodes|
  {
    Graph(g.nodes, g.edges + [Edge(a, b, w)])
  }

  lemma AddEdgeExtends(g: Graph, a: nat, b: nat, w: real)
    requires a < |g.nodes| && b < |g.nodes|
    ensures var h := AddEdge(g, a, b, w);
            h.nodes == g.nodes && g.edges <= h.edges && forall e | e in g.edges :: e in h.edges
  {
  }

  /**
   * `update_edge`: sets the weight of the edge joining `a` to `b` if there is one, and adds
   * the edge otherwise. The ends must be existing nodes (petgraph panics otherwise).
   */
  function UpdateEdge(g: Graph, a: nat, b: nat, w: real, directed: bool): (r: Graph)
    requires a < |g.nodes| && b < |g.nodes|
    requires g.WellFormed()
    ensures r.nodes == g.nodes && r.WellFormed()
    ensures Pairs(r, directed) == Pairs(g, directed) + {Key(a, b, directed)}
    ensures |r.edges| == |g.edges| + (if Adjacent(g, a, b, directed) then 0 else 1)
    ensures NoParallelEdges(g, directed) ==> NoParallelEdges(r, directed)
    ensures forall e | e in r.edges :: e in g.edges || e.weight == w
    ensures Adjacent(r, a, b, directed)
  {
    match FindEdge(g.edges, a, b, directed)
    case Some(i) =>
      var e := g.edges[i];
      var r := Graph(g.nodes, g.edges[i := Edge(e.source, e.target, w)]);
      ReweightKeepsPairs(g, i, a, b, w, directed);
      r
    case None =>
      var r := Graph(g.nodes, g.edges + [Edge(a, b, w)]);
      AppendNewPair(g, a, b, w, directed);
      r
  }

  lemma ReweightKeepsPairs(g: Graph, i: nat, a: nat, b: nat, w: real, directed: bool)
    requires g.WellFormed() && i < |g.edges| && Joins(g.edges[i], a, b, directed)
    ensures var r := Graph(g.nodes, g.edges[i := Edge(g.edges[i].source, g.edges[i].target, w)]);
      && r.WellFormed()
      && Pairs(r, directed) == Pairs(g, directed) + {Key(a, b, directed)}
      && (NoParallelEdges(g, directed) ==> NoParallelEdges(r, directed))
      && Joins(r.edges[i], a, b, directed)
  {
    var e := g.edges[i];
    var r := Graph(g.nodes, g.edges[i := Edge(e.source, e.target, w)]);
    JoinsKey(e, a, b, directed);
    assert e in g.edges;
    forall p | p in Pairs(g, directed) ensures p in Pairs(r, directed) {
      var e' :| e' in g.edges && p == Key(e'.source, e'.target, directed);
      var j :| 0 <= j < |g.edges| && g.edges[j] == e';
      assert r.edges[j] in r.edges;
    }
    forall p | p in Pairs(r, directed) ensures p in Pairs(g, directed) {
      var e' :| e' in r.edges && p == Key(e'.source, e'.target, directed);
      var j :| 0 <= j < |r.edges| && r.edges[j] == e';
      assert g.edges[j] in g.edges;
    }
  }

  lemma AppendNewPair(g: Graph, a: nat, b: nat, w: real, directed: bool)
    requires g.WellFormed() && a < |g.nodes| && b < |g.nodes|
    requires FindEdge(g.edges, a, b, directed).None?
    ensures var r := Graph(g.nodes, g.edges + [Edge(a, b, w)]);
      && r.WellFormed()
      && Pairs(r, directed) == Pairs(g, directed) + {Key(a, b, directed)}
      && (NoParallelEdges(g, directed) ==> NoParallelEdges(r, directed))
      && Joins(r.edges[|g.edges|], a, b, directed)
  {
    var e := Edge(a, b, w);
    var r := Graph(g.nodes, g.edges + [e]);
    assert r.edges[|g.edges|] == e;
    assert r.WellFormed() by {
      forall x | x in r.edges ensures x.source < |r.nodes| && x.target < |r.nodes| {
        if x != e {
          assert x in g.edges;
        }
      }
    }
    assert Pairs(r, directed) == Pairs(g, directed) + {Key(a, b, directed)} by {
      forall x | x in r.edges ensures x in g.edges || x == e {
      }
      assert e in r.edges;
      forall x | x in g.edges ensures x in r.edges {
      }
    }
    forall i | 0 <= i < |g.edges|
      ensures Key(g.edges[i].source, g.edges[i].target, directed) != Key(a, b, directed)
    {
      JoinsKey(g.edges[i], a, b, directed);
      assert g.edges[i] in g.edges;
    }
    if NoParallelEdges(g, directed) {
      forall i, j | 0 <= i < j < |r.edges|
        ensures Key(r.edges[i].source, r.edges[i].target, directed) != Key(r.edges[j].source, r.edges[j].target, directed)
      {
        assert r.edges[i] == g.edges[i];
        if j < |g.edges| {
          assert r.edges[j] == g.edges[j];
        }
      }
    }
  }

  /** When every edge already has weight `w`, upserting an existing edge with `w` changes nothing. */
  lemma UpdateExistingIsIdentity(g: Graph, a: nat, b: nat, w: real, directed: bool)
    requires a < |g.nodes| && b < |g.nodes| && g.WellFormed()
    requires Weighted(g, w) && Adjacent(g, a, b, directed)
    ensures UpdateEdge(g, a, b, w, directed) == g
  {
    var i := FindEdge(g.edges, a, b, directed).value;
    assert g.edges[i] in g.edges;
    assert g.edges[i := Edge(g.edges[i].source, g.edges[i].target, w)] == g.edges;
  }

  /** `contains_edge` holds exactly for the pairs the edges join. */
  lemma AdjacentPair(g: Graph, a: nat, b: nat, directed: bool)
    ensures Adjacent(g, a, b, directed) <==> Key(a, b, directed) in Pairs(g, directed)
  {
    if Adjacent(g, a, b, directed) {
      var e := g.edges[FindEdge(g.edges, a, b, directed).value];
      JoinsKey(e, a, b, directed);
    }
    if Key(a, b, directed) in Pairs(g, directed) {
      var e :| e in g.edges && Key(e.source, e.target, directed) == Key(a, b, directed);
      JoinsKey(e, a, b, directed);
    }
  }

  /**
   * `update_edge` with the weight every edge already has, gated like `add_edge` in the walks:
   * when `x` cannot reach `p`, the graph stays acyclic and uniformly weighted.
   */
  lemma GatedUpdateKeepsAcyclic(g: Graph, p: nat, x: nat, w: real)
    requires g.WellFormed() && p < |g.nodes| && x < |g.nodes|
    requires Acyclic(g) && Weighted(g, w) && !Reaches(g, x, p)
    ensures Acyclic(UpdateEdge(g, p, x, w, true)) && Weighted(UpdateEdge(g, p, x, w, true), w)
  {
    if Adjacent(g, p, x, true) {
      UpdateExistingIsIdentity(g, p, x, w, true);
    } else {
      assert UpdateEdge(g, p, x, w, true) == AddEdge(g, p, x, w);
      GatedInsertKeepsAcyclic(g, p, x, w);
    }
  }

  // ---------------------------------------------------------------------------------------
  // Neighbourhoods and closures

  /** The nodes one edge away from `s`; undirected edges are followed both ways. */
  function Step(g: Graph, s: set<nat>, directed: bool): set<nat>
  {
    (set e | e in g.edges && e.source in s :: e.target)
    + (if directed then {} else set e | e in g.edges && e.target in s :: e.source)
  }

  /** `neighbors(v)` of the undirected graph, as a set. */
  function Neighbours(g: Graph, v: nat): set<nat>
  {
    Step(g, {v}, false)
  }

  lemma NeighboursAdjacent(g: Graph, a: nat, b: nat)
    ensures b in Neighbours(g, a) <==> Adjacent(g, a, b, false)
  {
    if b in Neighbours(g, a) {
      var e :| e in g.edges && ((e.source == a && e.target == b) || (e.target == a && e.source == b));
      assert Joins(e, a, b, false);
    }
    if Adjacent(g, a, b, false) {
      var i := FindEdge(g.edges, a, b, false).value;
      assert g.edges[i] in g.edges;
    }
  }

  lemma NeighboursSymmetric(g: Graph, a: nat, b: nat)
    ensures b in Neighbours(g, a) <==> a in Neighbours(g, b)
  {
    if b in Neighbours(g, a) {
      var e :| e in g.edges && ((e.source == a && e.target == b) || (e.target == a && e.source == b));
      assert a in Neighbours(g, b);
    }
    if a in Neighbours(g, b) {
      var e :| e in g.edges && ((e.source == b && e.target == a) || (e.target == b && e.source == a));
      assert b in Neighbours(g, a);
    }
  }

  lemma StepInNodes(g: Graph, s: set<nat>, directed: bool)
    requires g.WellFormed()
    ensures Step(g, s, directed) <= NodeSet(g)
  {
    RangeMembers(|g.nodes|);
  }

  lemma StepMonotone(g: Graph, s: set<nat>, t: set<nat>, directed: bool)
    requires s <= t
    ensures Step(g, s, directed) <= Step(g, t, directed)
  {
  }

  /** `t` is closed when no edge leads out of it. */
  ghost predicate Closed(g: Graph, t: set<nat>, directed: bool)
  {
    Step(g, t, directed) <= t
  }

  /** The least set containing `s` and closed under following edges. */
  function Closure(g: Graph, s: set<nat>, directed: bool): set<nat>
    requires g.WellFormed()
    decreases NodeSet(g) - s
  {
    var s' := s + Step(g, s, directed);
    if s' == s then s
    else
      assert NodeSet(g) - s' < NodeSet(g) - s by { StepInNodes(g, s, directed); }
      Closure(g, s', directed)
  }

  lemma {:induction false} ClosureExtends(g: Graph, s: set<nat>, directed: bool)
    requires g.WellFormed()
    ensures s <= Closure(g, s, directed)
    ensures Closed(g, Closure(g, s, directed), directed)
    decreases NodeSet(g) - s
  {
    var s' := s + Step(g, s, directed);
    if s' != s {
      StepInNodes(g, s, directed);
      assert NodeSet(g) - s' < NodeSet(g) - s;
      ClosureExtends(g, s', directed);
    }
  }

  lemma {:induction false} ClosureLeast(g: Graph, s: set<nat>, t: set<nat>, directed: bool)
    requires g.WellFormed()
    requires s <= t && Closed(g, t, directed)
    ensures Closure(g, s, directed) <= t
    decreases NodeSet(g) - s
  {
    var s' := s + Step(g, s, directed);
    if s' != s {
      StepInNodes(g, s, directed);
      StepMonotone(g, s, t, directed);
      assert NodeSet(g) - s' < NodeSet(g) - s;
      ClosureLeast(g, s', t, directed);
    }
  }

  // ---------------------------------------------------------------------------------------
  // Directed reachability and acyclicity

  /** `has_path_connecting(g, a, b)`: a directed path, possibly empty, leads from `a` to `b`. */
  predicate Reaches(g: Graph, a: nat, b: nat)
    requires g.WellFormed()
  {
    b in Closure(g, {a}, true)
  }

  lemma ReachesRefl(g: Graph, a: nat)
    requires g.WellFormed()
    ensures Reaches(g, a, a)
  {
    ClosureExtends(g, {a}, true);
  }

  lemma ReachesEdge(g: Graph, a: nat, e: Edge)
    requires g.WellFormed() && e in g.edges
    requires Reaches(g, a, e.source)
    ensures Reaches(g, a, e.target)
  {
    ClosureExtends(g, {a}, true);
    assert e.target in Step(g, Closure(g, {a}, true), true);
  }

  lemma ReachesTrans(g: Graph, a: nat, b: nat, c: nat)
    requires g.WellFormed()
    requires Reaches(g, a, b) && Reaches(g, b, c)
    ensures Reaches(g, a, c)
  {
    ClosureExtends(g, {a}, true);
    ClosureLeast(g, {b}, Closure(g, {a}, true), true);
  }

  /** A non-empty path to `b` ends with an edge into `b` whose source is reachable. */
  lemma ReachesLastEdge(g: Graph, a: nat, b: nat) returns (e: Edge)
    requires g.WellFormed()
    requires Reaches(g, a, b) && a != b
    ensures e in g.edges && e.target == b && Reaches(g, a, e.source)
  {
    var t := {a} + set e | e in g.edges && Reaches(g, a, e.source) :: e.target;
    forall y | y in Step(g, t, true) ensures y in t {
      var e :| e in g.edges && e.source in t && e.target == y;
      if e.source != a {
        var e' :| e' in g.edges && Reaches(g, a, e'.source) && e'.target == e.source;
        ReachesEdge(g, a, e');
      } else {
        ReachesRefl(g, a);
      }
    }
    ClosureLeast(g, {a}, t, true);
    e :| e in g.edges && Reaches(g, a, e.source) && e.target == b;
  }

  /** Adding more edges keeps every path. */
  lemma ReachesMonotone(g: Graph, h: Graph, a: nat, b: nat)
    requires g.WellFormed() && h.WellFormed() && g.nodes == h.nodes
    requires forall e | e in g.edges :: e in h.edges
    requires Reaches(g, a, b)
    ensures Reaches(h, a, b)
  {
    ClosureExtends(h, {a}, true);
    assert Closed(g, Closure(h, {a}, true), true);
    ClosureLeast(g, {a}, Closure(h, {a}, true), true);
  }

  /**
   * A path in `g` plus the edge `p -> x` either avoids the new edge, or runs through it: from
   * `a` to `p` in `g`, then from `x` to `b` in `g`.
   */
  lemma ReachesAfterInsert(g: Graph, p: nat, x: nat, w: real, a: nat, b: nat)
    requires g.WellFormed() && p < |g.nodes| && x < |g.nodes|
    requires Reaches(AddEdge(g, p, x, w), a, b)
    ensures Reaches(g, a, b) || (Reaches(g, a, p) && Reaches(g, x, b))
  {
    var h := AddEdge(g, p, x, w);
    var ca := Closure(g, {a}, true);
    var t := ca + (if p in ca then Closure(g, {x}, true) else {});
    ClosureExtends(g, {a}, true);
    ClosureExtends(g, {x}, true);
    forall y | y in Step(h, t, true) ensures y in t {
      var e :| e in h.edges && e.source in t && e.target == y;
      if e in g.edges {
        assert y in Step(g, t, true);
        if e.source in ca {
          assert y in Step(g, ca, true);
        } else {
          assert y in Step(g, Closure(g, {x}, true), true);
        }
      } else {
        assert e == Edge(p, x, w) && p in ca;
        assert x in Closure(g, {x}, true);
      }
    }
    ClosureLeast(h, {a}, t, true);
  }

  /** No edge `u -> v` has a path back from `v` to `u`; in particular there are no self-loops. */
  ghost predicate Acyclic(g: Graph)
    requires g.WellFormed()
  {
    forall e {:trigger Backward(g, e)} | e in g.edges :: !Backward(g, e)
  }

  /** A path leads back from the target of `e` to its source. */
  predicate Backward(g: Graph, e: Edge)
    requires g.WellFormed()
  {
    Reaches(g, e.target, e.source)
  }

  lemma AcyclicEdge(g: Graph, e: Edge)
    requires g.WellFormed() && Acyclic(g) && e in g.edges
    ensures !Reaches(g, e.target, e.source)
  {
    assert !Backward(g, e);
  }

  /** An acyclic graph has no self-loop. */
  lemma AcyclicNoSelfLoop(g: Graph, e: Edge)
    requires g.WellFormed() && Acyclic(g) && e in g.edges
    ensures e.source != e.target
  {
    AcyclicEdge(g, e);
    ReachesRefl(g, e.source);
  }

  /** In an acyclic graph two nodes that reach each other are the same node. */
  lemma AcyclicAntisymmetric(g: Graph, a: nat, b: nat)
    requires g.WellFormed() && Acyclic(g)
    requires Reaches(g, a, b) && Reaches(g, b, a)
    ensures a == b
  {
    if a != b {
      var e := ReachesLastEdge(g, b, a);
      ReachesTrans(g, a, b, e.source);
      AcyclicEdge(g, e);
      assert false;
    }
  }

  /**
   * The reachability gate of both orientation passes: adding `p -> x` when `x` cannot reach
   * `p` keeps the graph acyclic.
   */
  lemma GatedInsertKeepsAcyclic(g: Graph, p: nat, x: nat, w: real)
    requires g.WellFormed() && p < |g.nodes| && x < |g.nodes|
    requires Acyclic(g) && !Reaches(g, x, p)
    ensures Acyclic(AddEdge(g, p, x, w))
  {
    var h := AddEdge(g, p, x, w);
    forall e | e in h.edges ensures !Backward(h, e) {
      if Reaches(h, e.target, e.source) {
        ReachesAfterInsert(g, p, x, w, e.target, e.source);
        if e in g.edges {
          AcyclicEdge(g, e);
          ReachesEdge(g, x, e);
          ReachesTrans(g, x, e.target, p);
          assert false;
        } else {
          assert false;
        }
      }
    }
  }

  // ---------------------------------------------------------------------------------------
  // Undirected components and hop distances

  /** The undirected connected component of `s`. */
  function Component(g: Graph, s: nat): set<nat>
    requires g.WellFormed()
  {
    Closure(g, {s}, false)
  }

  /** The nodes at most `k` undirected hops from `s`. */
  function Ball(g: Graph, s: nat, k: nat): set<nat>
  {
    if k == 0 then {s} else Ball(g, s, k - 1) + Step(g, Ball(g, s, k - 1), false)
  }

  lemma {:induction false} BallMonotone(g: Graph, s: nat, j: nat, k: nat)
    requires j <= k
    ensures Ball(g, s, j) <= Ball(g, s, k)
    decreases k
  {
    if j < k {
      BallMonotone(g, s, j, k - 1);
    }
  }

  /** Once a layer adds nothing, no later layer does. */
  lemma {:induction false} BallStable(g: Graph, s: nat, k: nat, j: nat)
    requires Ball(g, s, k + 1) == Ball(g, s, k) && k <= j
    ensures Ball(g, s, j) == Ball(g, s, k)
    decreases j
  {
    if j == k {
    } else if j == k + 1 {
    } else {
      BallStable(g, s, k, j - 1);
      BallNextEqual(g, s, j, k);
    }
  }

  /** Equal layers have equal successors. */
  lemma BallNextEqual(g: Graph, s: nat, j: nat, k: nat)
    requires j > 0 && Ball(g, s, j - 1) == Ball(g, s, k)
    ensures Ball(g, s, j) == Ball(g, s, k + 1)
  {
  }

  lemma {:induction false} BallInComponent(g: Graph, s: nat, k: nat)
    requires g.WellFormed()
    ensures Ball(g, s, k) <= Component(g, s)
    decreases k
  {
    ClosureExtends(g, {s}, false);
    if k > 0 {
      BallInComponent(g, s, k - 1);
      StepMonotone(g, Ball(g, s, k - 1), Component(g, s), false);
    }
  }

  /** A layer that grows takes at least one more node of `g`. */
  lemma BallGrowthShrinks(g: Graph, s: nat, k: nat)
    requires g.WellFormed() && Ball(g, s, k + 1) != Ball(g, s, k)
    ensures NodeSet(g) - Ball(g, s, k + 1) < NodeSet(g) - Ball(g, s, k)
  {
    StepInNodes(g, Ball(g, s, k), false);
  }

  /** The first layer, from `k` on, that holds `u`; `None` once the layers stop growing. */
  function HopSearch(g: Graph, u: nat, s: nat, k: nat): Option<nat>
    requires g.WellFormed()
    decreases NodeSet(g) - Ball(g, s, k)
  {
    if u in Ball(g, s, k) then Some(k)
    else if Ball(g, s, k + 1) == Ball(g, s, k) then None
    else
      assert NodeSet(g) - Ball(g, s, k + 1) < NodeSet(g) - Ball(g, s, k) by {
        BallGrowthShrinks(g, s, k);
      }
      HopSearch(g, u, s, k + 1)
  }

  lemma {:induction false} HopSearchFound(g: Graph, u: nat, s: nat, k: nat)
    requires g.WellFormed() && HopSearch(g, u, s, k).Some?
    ensures k <= HopSearch(g, u, s, k).value
    ensures u in Ball(g, s, HopSearch(g, u, s, k).value)
    ensures forall j | k <= j < HopSearch(g, u, s, k).value :: u !in Ball(g, s, j)
    decreases NodeSet(g) - Ball(g, s, k)
  {
    if u in Ball(g, s, k) {
      assert HopSearch(g, u, s, k) == Some(k);
    } else {
      assert Ball(g, s, k + 1) != Ball(g, s, k);
      BallGrowthShrinks(g, s, k);
      var r := HopSearch(g, u, s, k + 1);
      assert HopSearch(g, u, s, k) == r;
      HopSearchFound(g, u, s, k + 1);
      assert k + 1 <= r.value;
      forall j | k <= j < r.value ensures u !in Ball(g, s, j) {
        if j > k {
          assert k + 1 <= j;
        }
      }
    }
  }

  lemma {:induction false} HopSearchMissing(g: Graph, u: nat, s: nat, k: nat)
    requires g.WellFormed() && HopSearch(g, u, s, k).None?
    ensures forall j | k <= j :: u !in Ball(g, s, j)
    decreases NodeSet(g) - Ball(g, s, k)
  {
    assert u !in Ball(g, s, k);
    if Ball(g, s, k + 1) == Ball(g, s, k) {
      forall j | k <= j ensures u !in Ball(g, s, j) {
        BallStable(g, s, k, j);
      }
    } else {
      BallGrowthShrinks(g, s, k);
      assert HopSearch(g, u, s, k) == HopSearch(g, u, s, k + 1);
      HopSearchMissing(g, u, s, k + 1);
      forall j | k <= j ensures u !in Ball(g, s, j) {
        if j > k {
          assert k + 1 <= j;
        }
      }
    }
  }

  /**
   * The fewest undirected hops from `u` to `s` (A* with unit costs and no heuristic), or
   * `None` when no path joins them.
   */
  function HopDistance(g: Graph, u: nat, s: nat): Option<nat>
    requires g.WellFormed()
  {
    HopSearch(g, u, s, 0)
  }

  /** The layers stop growing at some layer from `k` on. */
  lemma {:induction false} StableLayer(g: Graph, s: nat, k: nat) returns (top: nat)
    requires g.WellFormed()
    ensures k <= top && Ball(g, s, top + 1) == Ball(g, s, top)
    decreases NodeSet(g) - Ball(g, s, k)
  {
    if Ball(g, s, k + 1) == Ball(g, s, k) {
      top := k;
    } else {
      BallGrowthShrinks(g, s, k);
      top := StableLayer(g, s, k + 1);
    }
  }

  /** The component of `s` lies within one layer around `s`: every node of it has a distance. */
  lemma ComponentInLayer(g: Graph, s: nat) returns (k: nat)
    requires g.WellFormed()
    ensures Component(g, s) <= Ball(g, s, k)
  {
    k := StableLayer(g, s, 0);
    assert Ball(g, s, k + 1) == Ball(g, s, k) + Step(g, Ball(g, s, k), false);
    assert {s} <= Ball(g, s, k) by {
      BallMonotone(g, s, 0, k);
    }
    ClosureLeast(g, {s}, Ball(g, s, k), false);
  }

  /**
   * `HopDistance` is the least layer holding `u`, and is missing exactly when none does,
   * which is exactly when `u` lies outside the component of `s`.
   */
  lemma HopDistanceCorrect(g: Graph, u: nat, s: nat)
    requires g.WellFormed()
    ensures var r := HopDistance(g, u, s);
            && (r.Some? ==> u in Ball(g, s, r.value) && forall j: nat | j < r.value :: u !in Ball(g, s, j))
            && (r.None? <==> forall j: nat :: u !in Ball(g, s, j))
    ensures HopDistance(g, u, s).Some? <==> u in Component(g, s)
  {
    if HopDistance(g, u, s).Some? {
      HopSearchFound(g, u, s, 0);
      BallInComponent(g, s, HopDistance(g, u, s).value);
    } else {
      HopSearchMissing(g, u, s, 0);
      var k := ComponentInLayer(g, s);
      assert u !in Ball(g, s, k);
    }
  }
}
