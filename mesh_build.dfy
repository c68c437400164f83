/**
 * The graph construction shared by `From<&ObjData> for VertexDag` (src/graph.rs) and
 * `load_wavefront` (src/load.rs): one node per position index in both graphs, vertex records
 * from each vertex's first corner, and an undirected edge, upserted, for every pair of
 * cyclically consecutive corners of every polygon. The two differ only in the attribute policy
 * (`Variant`) and in the weight given to undirected edges.
 */
module MeshBuild {
  import opened Wrappers
  import opened Obj
  import opened Graphs

  /** An index that the builder would use out of range; the source panics there. */
  datatype LoadError = IndexOutOfRange(corner: VertexRef)

  datatype MeshGraphs = MeshGraphs(directed: Graph, undirected: Graph)

  /** The corner after corner `j` of an `m`-gon, wrapping round to the first. */
  function NextCorner(j: nat, m: nat): nat
  {
    if j + 1 < m then j + 1 else 0
  }

  /** `indices.iter().zip(indices.iter().cycle().skip(1))`, as position pairs. */
  function CyclicPairs(p: Polygon): seq<(nat, nat)>
  {
    seq(|p|, j requires 0 <= j < |p| => (p[j].pos, p[NextCorner(j, |p|)].pos))
  }

  /** A triangle `(a, b, c)` yields the pairs `(a, b)`, `(b, c)` and `(c, a)`. */
  lemma TrianglePairs(a: VertexRef, b: VertexRef, c: VertexRef)
    ensures CyclicPairs([a, b, c]) == [(a.pos, b.pos), (b.pos, c.pos), (c.pos, a.pos)]
  {

  }

  /** The cyclic pairs of every polygon of `ps`, in order. */
  function AllPairs(ps: seq<Polygon>): seq<(nat, nat)>
  {
    if ps == [] then [] else AllPairs(ps[..|ps| - 1]) + CyclicPairs(ps[|ps| - 1])
  }

  /** The unordered pairs among `pairs`. */
  function UndirectedKeys(pairs: seq<(nat, nat)>): set<(nat, nat)>
  {
    set q | q in pairs :: Key(q.0, q.1, false)
  }

  lemma UndirectedKeysAppend(pairs: seq<(nat, nat)>, q: (nat, nat))
    ensures UndirectedKeys(pairs + [q]) == UndirectedKeys(pairs) + {Key(q.0, q.1, false)}
  {
    assert forall x | x in pairs + [q] :: x in pairs || x == q;
  }

  /** src/graph.rs weighs undirected edges 1 (a `usize`), src/load.rs 0.0. */
  function UndirectedWeight(variant: Variant): real
  {
    match variant
    case FaceNormals => 1.0
    case VertexNormals => 0.0
  }

  /** What a successful build produces. */
  ghost predicate BuiltFrom(m: MeshGraphs, data: ObjData, variant: Variant)
    requires Loadable(data, variant)
  {
    var n := |data.position|;
    && |m.directed.nodes| == n && |m.undirected.nodes| == n
    && m.directed.edges == []
    && (forall v | 0 <= v < n :: m.directed.nodes[v] == ExpectedVertex(data, variant, v))
    && (forall v | 0 <= v < n :: m.undirected.nodes[v] == DefaultVertex)
    && m.undirected.WellFormed()
    && Pairs(m.undirected, false) == UndirectedKeys(AllPairs(Polygons(data)))
    && NoParallelEdges(m.undirected, false)
    && Weighted(m.undirected, UndirectedWeight(variant))
  }

  /** Processing one more corner keeps the first-reference bookkeeping in step. */
  lemma CornerStep(data: ObjData, variant: Variant, before: seq<VertexRef>, c: VertexRef)
    requires FirstRefsOk(data, before, variant)
    requires c.pos !in Positions(before) ==> RefOk(data, c, variant)
    ensures FirstRefsOk(data, before + [c], variant)
    ensures forall v: nat | v != c.pos || c.pos in Positions(before) ::
              StoredVertex(data, variant, before + [c], v) == StoredVertex(data, variant, before, v)
    ensures c.pos !in Positions(before) ==>
              StoredVertex(data, variant, before + [c], c.pos) == Attributes(data, c, variant)
  {
    forall v: nat ensures FirstRef(before + [c], v) == if v in Positions(before) then FirstRef(before, v) else FirstRef([c], v) {
      FirstRefConcat(before, [c], v);
    }
  }

  /** A bad first corner makes the whole file unloadable. */
  lemma BadFirstCorner(data: ObjData, variant: Variant, before: seq<VertexRef>, c: VertexRef)
    requires before + [c] <= Corners(Polygons(data))
    requires c.pos !in Positions(before) && !RefOk(data, c, variant)
    ensures !Loadable(data, variant)
  {
    var all := Corners(Polygons(data));
    assert all == before + ([c] + all[|before| + 1..]);
    FirstRefConcat(before, [c] + all[|before| + 1..], c.pos);
    assert FirstRef(all, c.pos) == Some(c);
  }

  /**
   * The first loop over the corners of one polygon: every corner whose position was not seen
   * before writes its record into the directed graph.
   */
  method RecordFirstCorners(data: ObjData, variant: Variant, done: seq<VertexRef>, poly: Polygon,
                            nodes: seq<ObjVertex>, seen: set<nat>)
    returns (res: Result<(seq<ObjVertex>, set<nat>), LoadError>)
    requires |nodes| == |data.position|
    requires seen == Positions(done) && forall v | v in seen :: v < |nodes|
    requires FirstRefsOk(data, done, variant)
    requires forall v | 0 <= v < |nodes| :: nodes[v] == StoredVertex(data, variant, done, v)
    requires done + poly <= Corners(Polygons(data))
    ensures res.Failure? ==> !Loadable(data, variant)
    ensures res.Success? ==>
      var (nodes', seen') := res.value;
      && |nodes'| == |nodes|
      && seen' == Positions(done + poly) && (forall v | v in seen' :: v < |nodes|)
      && FirstRefsOk(data, done + poly, variant)
      && forall v | 0 <= v < |nodes| :: nodes'[v] == StoredVertex(data, variant, done + poly, v)
  {
    var nodes', seen' := nodes, seen;
    var j := 0;
    assert done + poly[..j] == done;
    while j < |poly|
      invariant 0 <= j <= |poly|
      invariant |nodes'| == |nodes|
      invariant seen' == Positions(done + poly[..j])
      invariant forall v | v in seen' :: v < |nodes|
      invariant FirstRefsOk(data, done + poly[..j], variant)
      invariant forall v | 0 <= v < |nodes| :: nodes'[v] == StoredVertex(data, variant, done + poly[..j], v)
    {
      var c := poly[j];
      ghost var before := done + poly[..j];
      assert done + poly[..j + 1] == before + [c];
      if c.pos !in seen' {
        if !RefOk(data, c, variant) {
          assert before + [c] <= done + poly;
          BadFirstCorner(data, variant, before, c);
          return Failure(IndexOutOfRange(c));
        }
        nodes' := nodes'[c.pos := Attributes(data, c, variant)];
        seen' := seen' + {c.pos};
      }
      CornerStep(data, variant, before, c);
      j := j + 1;
    }
    assert poly[..j] == poly;
    return Success((nodes', seen'));
  }

  /**
   * The second loop over the corners of one polygon: upsert the undirected edge between each
   * corner and the next, the last one joining back to the first.
   */
  method ConnectPolygon(g: Graph, poly: Polygon, w: real) returns (g': Graph)
    requires g.WellFormed() && Weighted(g, w)
    requires forall c | c in poly :: c.pos < |g.nodes|
    ensures g'.nodes == g.nodes && g'.WellFormed() && Weighted(g', w)
    ensures Pairs(g', false) == Pairs(g, false) + UndirectedKeys(CyclicPairs(poly))
    ensures NoParallelEdges(g, false) ==> NoParallelEdges(g', false)
  {
    g' := g;
    var j := 0;
    while j < |poly|
      invariant 0 <= j <= |poly|
      invariant ConnectedUpTo(g, g', poly, j, w)
    {
      var a := poly[j].pos;
      var b := poly[NextCorner(j, |poly|)].pos;
      ConnectStep(g, g', poly, j, w);
      g' := UpdateEdge(g', a, b, w, false);
      j := j + 1;
    }
    assert CyclicPairs(poly)[..j] == CyclicPairs(poly);
  }

  /** The state of `ConnectPolygon` after its first `j` pairs. */
  ghost predicate ConnectedUpTo(g: Graph, g': Graph, poly: Polygon, j: nat, w: real)
    requires j <= |poly|
  {
    && g.WellFormed() && (forall c | c in poly :: c.pos < |g.nodes|)
    && g'.nodes == g.nodes && g'.WellFormed() && Weighted(g', w)
    && Pairs(g', false) == Pairs(g, false) + UndirectedKeys(CyclicPairs(poly)[..j])
    && (NoParallelEdges(g, false) ==> NoParallelEdges(g', false))
  }

  lemma ConnectStep(g: Graph, g': Graph, poly: Polygon, j: nat, w: real)
    requires j < |poly| && ConnectedUpTo(g, g', poly, j, w)
    ensures poly[j].pos < |g'.nodes| && poly[NextCorner(j, |poly|)].pos < |g'.nodes|
    ensures ConnectedUpTo(g, UpdateEdge(g', poly[j].pos, poly[NextCorner(j, |poly|)].pos, w, false), poly, j + 1, w)
  {
    assert poly[j] in poly && poly[NextCorner(j, |poly|)] in poly;
    PairsStep(g, g', poly, j, w);
  }

  lemma PairsStep(g: Graph, g': Graph, poly: Polygon, j: nat, w: real)
    requires j < |poly| && g'.WellFormed()
    requires poly[j].pos < |g'.nodes| && poly[NextCorner(j, |poly|)].pos < |g'.nodes|
    requires Pairs(g', false) == Pairs(g, false) + UndirectedKeys(CyclicPairs(poly)[..j])
    ensures Pairs(UpdateEdge(g', poly[j].pos, poly[NextCorner(j, |poly|)].pos, w, false), false)
         == Pairs(g, false) + UndirectedKeys(CyclicPairs(poly)[..j + 1])
  {
    CyclicPairsStep(poly, j);
  }

  lemma CyclicPairsStep(poly: Polygon, j: nat)
    requires j < |poly|
    ensures UndirectedKeys(CyclicPairs(poly)[..j + 1])
         == UndirectedKeys(CyclicPairs(poly)[..j]) + {Key(poly[j].pos, poly[NextCorner(j, |poly|)].pos, false)}
  {
    var t := CyclicPairs(poly);
    assert t[..j + 1] == t[..j] + [t[j]];
    UndirectedKeysAppend(t[..j], t[j]);
  }

  lemma UndirectedKeysConcat(p: seq<(nat, nat)>, q: seq<(nat, nat)>)
    ensures UndirectedKeys(p + q) == UndirectedKeys(p) + UndirectedKeys(q)
  {
    assert forall x | x in p + q :: x in p || x in q;
  }

  /**
   * Builds the directed graph (nodes only) and the undirected mesh graph. Fails exactly when
   * the source would panic on an index out of range.
   */
  method BuildGraphs(data: ObjData, variant: Variant) returns (res: Result<MeshGraphs, LoadError>)
    ensures res.Failure? <==> !Loadable(data, variant)
    ensures res.Success? ==> Loadable(data, variant) && BuiltFrom(res.value, data, variant)
  {
    var n := |data.position|;
    var w := UndirectedWeight(variant);
    var directed := Graph(seq(n, _ => DefaultVertex), []);
    var undirected := Graph(seq(n, _ => DefaultVertex), []);
    var seen: set<nat> := {};
    var polys := Polygons(data);
    var k := 0;
    while k < |polys|
      invariant 0 <= k <= |polys|
      invariant |directed.nodes| == n && directed.edges == []
      invariant seen == Positions(Corners(polys[..k]))
      invariant forall v | v in seen :: v < n
      invariant FirstRefsOk(data, Corners(polys[..k]), variant)
      invariant forall v | 0 <= v < n :: directed.nodes[v] == StoredVertex(data, variant, Corners(polys[..k]), v)
      invariant |undirected.nodes| == n && undirected.WellFormed()
      invariant forall v | 0 <= v < n :: undirected.nodes[v] == DefaultVertex
      invariant Pairs(undirected, false) == UndirectedKeys(AllPairs(polys[..k]))
      invariant NoParallelEdges(undirected, false) && Weighted(undirected, w)
    {
      var poly := polys[k];
      assert Corners(polys[..k + 1]) == Corners(polys[..k]) + poly by {
        assert polys[..k + 1][..k] == polys[..k];
      }
      assert AllPairs(polys[..k + 1]) == AllPairs(polys[..k]) + CyclicPairs(poly) by {
        assert polys[..k + 1][..k] == polys[..k];
      }
      CornersPrefix(polys, k + 1);
      var recorded := RecordFirstCorners(data, variant, Corners(polys[..k]), poly, directed.nodes, seen);
      if recorded.Failure? {
        return Failure(recorded.error);
      }
      directed := directed.(nodes := recorded.value.0);
      seen := recorded.value.1;
      assert forall c | c in poly :: c.pos in seen;
      undirected := ConnectPolygon(undirected, poly, w);
      UndirectedKeysConcat(AllPairs(polys[..k]), CyclicPairs(poly));
      k := k + 1;
    }
    assert polys[..k] == polys;
    return Success(MeshGraphs(directed, undirected));
  }
}
