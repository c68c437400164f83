/**
 * The parsed Wavefront data the mesh pipeline consumes (the `obj` crate's `ObjData`, taken
 * as an input that is already parsed) and the per-vertex record `ObjVertex` of src/load.rs.
 *
 * Floating point numbers are modelled as reals; `[f32; 3]` and `[f32; 2]` as tuples.
 */
module Obj {
  import opened Wrappers

  type F3 = (real, real, real)
  type F2 = (real, real)

  const Zero3: F3 := (0.0, 0.0, 0.0)
  const Zero2: F2 := (0.0, 0.0)

  /** `ObjVertex { position, normal, texture }`; its `Default` is all zeros. */
  datatype ObjVertex = ObjVertex(position: F3, normal: F3, texture: F2)

  const DefaultVertex: ObjVertex := ObjVertex(Zero3, Zero3, Zero2)

  /** One corner of a polygon: position index, optional texture index, optional normal index. */
  datatype VertexRef = VertexRef(pos: nat, tex: Option<nat>, normal: Option<nat>)

  /** `obj::SimplePolygon`: the corners of one face, in order. */
  type Polygon = seq<VertexRef>

  datatype Group = Group(polys: seq<Polygon>)

  datatype Object = Object(groups: seq<Group>)

  datatype ObjData = ObjData(position: seq<F3>, texture: seq<F2>, normal: seq<F3>, objects: seq<Object>)

  /** The polygons of a list of groups, in order (`groups.iter().flat_map(|g| g.polys.iter())`). */
  function GroupPolygons(gs: seq<Group>): seq<Polygon>
  {
    if gs == [] then [] else GroupPolygons(gs[..|gs| - 1]) + gs[|gs| - 1].polys
  }

  function ObjectPolygons(os: seq<Object>): seq<Polygon>
  {
    if os == [] then [] else ObjectPolygons(os[..|os| - 1]) + GroupPolygons(os[|os| - 1].groups)
  }

  /** Every polygon of every group of every object, in file order. */
  function Polygons(data: ObjData): seq<Polygon>
  {
    ObjectPolygons(data.objects)
  }

  /** The corners of a list of polygons, flattened in order. */
  function Corners(ps: seq<Polygon>): seq<VertexRef>
  {
    if ps == [] then [] else Corners(ps[..|ps| - 1]) + ps[|ps| - 1]
  }

  /** The set of position indices that a list of corners references. */
  function Positions(refs: seq<VertexRef>): set<nat>
  {
    set r | r in refs :: r.pos
  }

  /**
   * The first corner, in order, that references position `v`: the one whose attributes the
   * mesh builders store for vertex `v`.
   */
  function FirstRef(refs: seq<VertexRef>, v: nat): (r: Option<VertexRef>)
    ensures r.Some? ==> r.value in refs && r.value.pos == v
    ensures r.Some? <==> v in Positions(refs)
  {
    if refs == [] then None
    else if refs[0].pos == v then Some(refs[0])
    else
      assert refs == [refs[0]] + refs[1..];
      FirstRef(refs[1..], v)
  }

  /**
   * Later corners never change which corner is first: a vertex first referenced in `p` keeps
   * that corner whatever follows, and one not referenced in `p` takes its first corner in `q`.
   */
  lemma {:induction false} FirstRefConcat(p: seq<VertexRef>, q: seq<VertexRef>, v: nat)
    ensures FirstRef(p + q, v) == if v in Positions(p) then FirstRef(p, v) else FirstRef(q, v)
  {
    if p != [] {
      assert (p + q)[1..] == p[1..] + q;
      if p[0].pos != v {
        FirstRefConcat(p[1..], q, v);
        assert p == [p[0]] + p[1..];
        assert v in Positions(p) <==> v in Positions(p[1..]);
      }
    } else {
      assert p + q == q;
    }
  }

  /** Which of the two attribute policies of the source a builder follows. */
  datatype Variant =
    | FaceNormals    // src/graph.rs: normal from the corner's normal index, texture zero
    | VertexNormals  // src/load.rs: normal from the `vn` array at the position index, texture from the corner

  /**
   * The indexing the builder performs for the first corner of a vertex succeeds. Both variants
   * index `position[pos]` and, when the corner names one, `normal[index]` (src/load.rs computes
   * that normal and discards it, but the indexing still happens); src/load.rs also indexes
   * `texture[index]` and `normal[pos]`.
   */
  predicate RefOk(data: ObjData, r: VertexRef, variant: Variant)
  {
    && r.pos < |data.position|
    && (r.normal.Some? ==> r.normal.value < |data.normal|)
    && (variant == VertexNormals ==>
          && (r.tex.Some? ==> r.tex.value < |data.texture|)
          && r.pos < |data.normal|)
  }

  /** The vertex record that the first corner `r` of a vertex produces. */
  function Attributes(data: ObjData, r: VertexRef, variant: Variant): (vx: ObjVertex)
    requires RefOk(data, r, variant)
    ensures vx.position == data.position[r.pos]
    ensures variant == FaceNormals ==>
              vx.texture == Zero2 && vx.normal == (if r.normal.Some? then data.normal[r.normal.value] else Zero3)
    ensures variant == VertexNormals ==>
              vx.normal == data.normal[r.pos] && vx.texture == (if r.tex.Some? then data.texture[r.tex.value] else Zero2)
  {
    match variant
    case FaceNormals =>
      var normal := if r.normal.Some? then data.normal[r.normal.value] else Zero3;
      ObjVertex(data.position[r.pos], normal, Zero2)
    case VertexNormals =>
      var texture := if r.tex.Some? then data.texture[r.tex.value] else Zero2;
      ObjVertex(data.position[r.pos], data.normal[r.pos], texture)
  }

  /** The corners of `refs` that are first references of their vertex all index in range. */
  ghost predicate FirstRefsOk(data: ObjData, refs: seq<VertexRef>, variant: Variant)
  {
    forall v: nat :: FirstRef(refs, v).Some? ==> RefOk(data, FirstRef(refs, v).value, variant)
  }

  /**
   * The builders run to the end without panicking exactly when every first reference indexes
   * in range. A position index out of range is caught at its first reference, since it can
   * never have been seen before.
   */
  ghost predicate Loadable(data: ObjData, variant: Variant)
  {
    FirstRefsOk(data, Corners(Polygons(data)), variant)
  }

  /** In a loadable file every corner names an existing position. */
  lemma LoadableInRange(data: ObjData, variant: Variant, r: VertexRef)
    requires Loadable(data, variant)
    requires r in Corners(Polygons(data))
    ensures r.pos < |data.position|
  {
    var first := FirstRef(Corners(Polygons(data)), r.pos);
    assert r.pos in Positions(Corners(Polygons(data)));
    assert first.Some? && first.value.pos == r.pos;
  }

  /** The record stored at node `v` once the corners `refs` are processed. */
  ghost function StoredVertex(data: ObjData, variant: Variant, refs: seq<VertexRef>, v: nat): ObjVertex
    requires FirstRefsOk(data, refs, variant)
  {
    match FirstRef(refs, v)
    case None => DefaultVertex
    case Some(r) => Attributes(data, r, variant)
  }

  /** The record the builders store at node `v`: from its first corner, or the default. */
  ghost function ExpectedVertex(data: ObjData, variant: Variant, v: nat): ObjVertex
    requires Loadable(data, variant)
  {
    StoredVertex(data, variant, Corners(Polygons(data)), v)
  }

  /** The corners of the first `k` polygons come first among all corners. */
  lemma {:induction false} CornersPrefix(ps: seq<Polygon>, k: nat)
    requires k <= |ps|
    ensures Corners(ps[..k]) <= Corners(ps)
    decreases |ps|
  {
    if k < |ps| {
      CornersPrefix(ps[..|ps| - 1], k);
      assert ps[..|ps| - 1][..k] == ps[..k];
    } else {
      assert ps[..k] == ps;
    }
  }
}
