/**
 * The three remaining `CreateTriangle` overloads of `Mesh` (Mesh.cs:61-86, 516-533, 543-552),
 * built on the boundary operator and the face split.
 */
module Triangles {
  import opened Wrappers
  import opened Halfedges
  import opened Edges
  import opened Faces
  import opened Vertices
  import opened Meshes
  import opened MeshOperations

  /** In a wired mesh `HalfedgeTo` an anchored vertex ends its search, and what it finds is a
      live halfedge running between the two vertices. */
  lemma HalfedgeBetweenRuns<VT, FT>(a: Arena<VT, FT>, v: nat, w: nat)
    requires Fit(a) && Wired(a.hes, a.halfedges) && w < |a.vs| && Anchored(a.hes, a.halfedges, a.vs, w)
    ensures HalfedgeBetween(a, v, w).Ok?
    ensures var r := HalfedgeBetween(a, v, w).value;
      r.Some? ==> r.value in a.halfedges && Source(a.hes, r.value) == v && a.hes[r.value].target == w
  {
    HalfedgeToRunsBetween(a.hes, a.halfedges, a.vs, v, w);
  }

  // CreateTriangle(v1, v2, v3, ft) (Mesh.cs:516-533)

  /**
   * The searches and guards of `CreateTriangle(v1, v2, v3, ft)` (Mesh.cs:518-529): `e23` from
   * `v2` to `v3` and `e31` from `v3` to `v1` must exist and have no face, and `v1` must not yet
   * be a neighbour of `v2`. The three searches run first, in the order of the source, then the
   * five guards. On success, the two halfedges the face split at line 531 is given: `e31` and
   * `e23.Previous`.
   */
  function BetweenGuards<VT, FT>(a: Arena<VT, FT>, v1: nat, v2: nat, v3: nat): (r: Result<(nat, nat)>)
    requires Fit(a) && v1 < |a.vs| && v2 < |a.vs| && v3 < |a.vs|
    ensures r.Ok? ==> r.value.0 < |a.hes| && r.value.1 < |a.hes| && a.hes[r.value.0].face.None?
  {
    match HalfedgeBetween(a, v2, v3)
    case Err(x) => Err(x)
    case Ok(e23) =>
      match HalfedgeBetween(a, v3, v1)
      case Err(x) => Err(x)
      case Ok(e31) =>
        match HalfedgeBetween(a, v1, v2)
        case Err(x) => Err(x)
        case Ok(e12) =>
          if e23.None? || e31.None? then Err(InvalidOperation(NotNeighbors))
          else if e12.Some? then Err(InvalidOperation(AlreadyNeighbors))
          else if a.hes[e23.value].face.Some? || a.hes[e31.value].face.Some? then Err(InvalidOperation(NotBoundary))
          else Ok((e31.value, a.hes[e23.value].previous))
  }

  /**
   * `CreateTriangle(v1, v2, v3, ft)` as written: past the guards, the boundary region is split
   * by a new edge from `v1` to `v2`, between `e31` and `e23.Previous`, with the unchecked
   * `SplitFace`. Returns the arena and the `Face` of the new halfedge.
   */
  function CreateTriangleBetween<VT, FT>(a: Arena<VT, FT>, v1: nat, v2: nat, v3: nat, ft: FT): Result<(Arena<VT, FT>, Option<nat>)>
    requires Fit(a) && v1 < |a.vs| && v2 < |a.vs| && v3 < |a.vs|
  {
    match BetweenGuards(a, v1, v2, v3)
    case Err(x) => Err(x)
    case Ok((e31, p)) =>
      match SplitFace(a, e31, p, ft)
      case Err(x) => Err(x)
      case Ok((g, e)) => Ok((g, g.hes[e].face))
  }

  /** `CreateTriangle(v1, v2, v3, ft)` on the checked split, which refuses `v1 == v2`. */
  function CreateTriangleBetweenChecked<VT, FT>(a: Arena<VT, FT>, v1: nat, v2: nat, v3: nat, ft: FT): Result<(Arena<VT, FT>, Option<nat>)>
    requires Fit(a) && v1 < |a.vs| && v2 < |a.vs| && v3 < |a.vs|
  {
    match BetweenGuards(a, v1, v2, v3)
    case Err(x) => Err(x)
    case Ok((e31, p)) =>
      match SplitFaceChecked(a, e31, p, ft)
      case Err(x) => Err(x)
      case Ok((g, e)) => Ok((g, g.hes[e].face))
  }

  /**
   * Mesh.cs:518-529: the searches fail first, in their order; then a missing `e23` or `e31`
   * gives `NotNeighbors`, an existing `e12` `AlreadyNeighbors`, and a face on `e23` or `e31`
   * `NotBoundary`, in that order. No failure of the split at line 531 reads as `NotBoundary`.
   */
  lemma CreateTriangleBetweenGuards<VT, FT>(a: Arena<VT, FT>, v1: nat, v2: nat, v3: nat, ft: FT)
    requires Fit(a) && v1 < |a.vs| && v2 < |a.vs| && v3 < |a.vs|
    ensures var r, s23, s31, s12 := CreateTriangleBetween(a, v1, v2, v3, ft),
                 HalfedgeBetween(a, v2, v3), HalfedgeBetween(a, v3, v1), HalfedgeBetween(a, v1, v2);
      && (s23.Err? ==> r == Err(s23.failure))
      && (s23.Ok? && s31.Err? ==> r == Err(s31.failure))
      && (s23.Ok? && s31.Ok? && s12.Err? ==> r == Err(s12.failure))
      && (s23.Ok? && s31.Ok? && s12.Ok? ==>
            && (s23.value.None? || s31.value.None? ==> r == Err(InvalidOperation(NotNeighbors)))
            && (s23.value.Some? && s31.value.Some? && s12.value.Some? ==>
                  r == Err(InvalidOperation(AlreadyNeighbors)))
            && (s23.value.Some? && s31.value.Some? && s12.value.None? ==>
                  (a.hes[s23.value.value].face.Some? || a.hes[s31.value.value].face.Some? <==>
                     r == Err(InvalidOperation(NotBoundary)))))
  {
    var g := BetweenGuards(a, v1, v2, v3);
    if g.Ok? {
      SplitNeverNotBoundary(a, g.value.0, g.value.1, ft);
    }
  }

  /** `SplitFace` never fails with `NotBoundary`. */
  lemma SplitNeverNotBoundary<VT, FT>(a: Arena<VT, FT>, he1: nat, he2: nat, ft: FT)
    requires Fit(a) && he1 < |a.hes| && he2 < |a.hes|
    ensures SplitFace(a, he1, he2, ft) != Err(InvalidOperation(NotBoundary))
  {
    if a.hes[he1].face == a.hes[he2].face {
      var v1, v2 := a.hes[he1].target, a.hes[he2].target;
      SplitFaceGuards(a, he1, he2, ft);
      if HalfedgeBetween(a, v1, v2) == Ok(None) {
        SplitFaceCreates(a, he1, he2, ft);
        var d := Divide(a, he1, he2);
        CreateFaceGuards(d, Some(|a.hes|), ft);
      } else if HalfedgeBetween(a, v1, v2).Err? {
        HalfedgeBetweenNeverNotBoundary(a, v1, v2);
      }
    }
  }

  /** `HalfedgeTo` fails only with `NullReference` or `Diverges`. */
  lemma HalfedgeBetweenNeverNotBoundary<VT, FT>(a: Arena<VT, FT>, v: nat, w: nat)
    requires Fit(a) && w < |a.vs|
    ensures HalfedgeBetween(a, v, w).Err? ==>
      HalfedgeBetween(a, v, w).failure == NullReference || HalfedgeBetween(a, v, w).failure == Diverges
  {
  }

  /**
   * In a wired mesh with `v1` and `v3` anchored, once the guards pass, the split is given `e31`,
   * which arrives at `v1`, and `e23.Previous`, which arrives at `v2`: the new halfedge runs from
   * `v1` to `v2`.
   */
  lemma BetweenGuardsRun<VT, FT>(a: Arena<VT, FT>, v1: nat, v2: nat, v3: nat)
    requires Fit(a) && Wired(a.hes, a.halfedges) && v1 < |a.vs| && v2 < |a.vs| && v3 < |a.vs|
    requires Anchored(a.hes, a.halfedges, a.vs, v1) && Anchored(a.hes, a.halfedges, a.vs, v3)
    requires BetweenGuards(a, v1, v2, v3).Ok?
    ensures var (e31, p) := BetweenGuards(a, v1, v2, v3).value;
      && e31 in a.halfedges && p in a.halfedges && a.hes[e31].target == v1 && a.hes[p].target == v2
      && HalfedgeBetween(a, v3, v1) == Ok(Some(e31)) && HalfedgeBetween(a, v1, v2) == Ok(None)
      && HalfedgeBetween(a, v2, v3).Ok? && HalfedgeBetween(a, v2, v3).value.Some?
      && p == a.hes[HalfedgeBetween(a, v2, v3).value.value].previous
  {
    var e23, e31 := HalfedgeBetween(a, v2, v3).value.value, HalfedgeBetween(a, v3, v1).value.value;
    HalfedgeBetweenRuns(a, v2, v3);
    HalfedgeBetweenRuns(a, v3, v1);
    assert WiredAt(a.hes, a.halfedges, e23);
    var p := a.hes[e23].previous;
    assert WiredAt(a.hes, a.halfedges, p);
  }

  /**
   * In a wired mesh, with `v1` and `v3` anchored, when `e23` and `e31` are boundary halfedges,
   * `v1 != v2` are not neighbours and `e23.Previous` has no face either, `CreateTriangle(v1, v2,
   * v3, ft)` succeeds: it splits the boundary with a new halfedge from `v1` to `v2`, after `e31`,
   * bounding a new face, which it returns, as `FaceSplit` describes; the mesh stays wired, and
   * the checked operator gives the same result.
   */
  lemma CreateTriangleBetweenSplits<VT, FT>(a: Arena<VT, FT>, v1: nat, v2: nat, v3: nat, ft: FT)
    requires Fit(a) && Wired(a.hes, a.halfedges) && v1 < |a.vs| && v2 < |a.vs| && v3 < |a.vs|
    requires Anchored(a.hes, a.halfedges, a.vs, v1) && Anchored(a.hes, a.halfedges, a.vs, v3)
    requires v1 != v2
    requires BetweenGuards(a, v1, v2, v3).Ok? && a.hes[BetweenGuards(a, v1, v2, v3).value.1].face.None?
    ensures CreateTriangleBetween(a, v1, v2, v3, ft).Ok?
    ensures CreateTriangleBetweenChecked(a, v1, v2, v3, ft) == CreateTriangleBetween(a, v1, v2, v3, ft)
    ensures var (e31, p) := BetweenGuards(a, v1, v2, v3).value;
      var (g, f) := CreateTriangleBetween(a, v1, v2, v3, ft).value;
      && SplitFace(a, e31, p, ft).Ok? && FaceSplit(a, SplitFace(a, e31, p, ft).value, e31, p, ft)
      && g == SplitFace(a, e31, p, ft).value.0 && f == Some(|a.fs|)
      && Source(g.hes, |a.hes|) == v1 && g.hes[|a.hes|].target == v2 && g.hes[e31].next == |a.hes|
  {
    var (e31, p) := BetweenGuards(a, v1, v2, v3).value;
    BetweenGuardsRun(a, v1, v2, v3);
    SplitFaceCheckedSplits(a, e31, p, ft);
  }

  /**
   * As written, `CreateTriangle(v1, v1, v3, ft)` in a wired mesh succeeds only by adding a
   * halfedge from `v1` to itself: `e31` and `e23.Previous` both arrive at `v1`, and the split
   * does not refuse them. The checked operator refuses the same input with `SameTarget`.
   */
  lemma CreateTriangleBetweenSelfLoop<VT, FT>(a: Arena<VT, FT>, v1: nat, v3: nat, ft: FT)
    requires Fit(a) && Wired(a.hes, a.halfedges) && v1 < |a.vs| && v3 < |a.vs|
    requires Anchored(a.hes, a.halfedges, a.vs, v1) && Anchored(a.hes, a.halfedges, a.vs, v3)
    requires BetweenGuards(a, v1, v1, v3).Ok? && a.hes[BetweenGuards(a, v1, v1, v3).value.1].face.None?
    ensures var r := CreateTriangleBetween(a, v1, v1, v3, ft);
      r.Ok? ==> Source(r.value.0.hes, |a.hes|) == v1 && r.value.0.hes[|a.hes|].target == v1
    ensures CreateTriangleBetweenChecked(a, v1, v1, v3, ft) == Err(InvalidOperation(SameTarget))
  {
    var (e31, p) := BetweenGuards(a, v1, v1, v3).value;
    BetweenGuardsRun(a, v1, v1, v3);
    SplitFaceRuns(a, e31, p, ft);
  }

  /**
   * The checked operator never adds a self-loop: in a wired mesh, with `v1` and `v3` anchored
   * and the guards passed on boundary halfedges, it succeeds exactly when `v1 != v2`, and then
   * splits the boundary with a halfedge from `v1` to the different vertex `v2`, as `FaceSplit`
   * describes.
   */
  lemma CreateTriangleBetweenCheckedSplits<VT, FT>(a: Arena<VT, FT>, v1: nat, v2: nat, v3: nat, ft: FT)
    requires Fit(a) && Wired(a.hes, a.halfedges) && v1 < |a.vs| && v2 < |a.vs| && v3 < |a.vs|
    requires Anchored(a.hes, a.halfedges, a.vs, v1) && Anchored(a.hes, a.halfedges, a.vs, v3)
    requires BetweenGuards(a, v1, v2, v3).Ok? && a.hes[BetweenGuards(a, v1, v2, v3).value.1].face.None?
    ensures var r := CreateTriangleBetweenChecked(a, v1, v2, v3, ft);
      && (r.Ok? <==> v1 != v2)
      && (r.Err? ==> r.failure == InvalidOperation(SameTarget))
    ensures var r := CreateTriangleBetweenChecked(a, v1, v2, v3, ft);
      var (e31, p) := BetweenGuards(a, v1, v2, v3).value;
      r.Ok? ==>
        && SplitFaceChecked(a, e31, p, ft).Ok? && FaceSplit(a, SplitFaceChecked(a, e31, p, ft).value, e31, p, ft)
        && Source(r.value.0.hes, |a.hes|) == v1 && r.value.0.hes[|a.hes|].target == v2
        && Source(r.value.0.hes, |a.hes|) != r.value.0.hes[|a.hes|].target
  {
    if v1 == v2 {
      CreateTriangleBetweenSelfLoop(a, v1, v3, ft);
    } else {
      CreateTriangleBetweenSplits(a, v1, v2, v3, ft);
      var (e31, p) := BetweenGuards(a, v1, v2, v3).value;
      BetweenGuardsRun(a, v1, v2, v3);
      SplitFaceCheckedSplits(a, e31, p, ft);
    }
  }

  /** The wired isolated edge of Mesh.cs:65-78 on its own, from `v0` to `v1`. */
  function Dangling<VT, FT>(vt1: VT, vt2: VT): Arena<VT, FT>
  {
    IsolatedEdge(EmptyMesh(), vt1, vt2).0
  }

  /**
   * On the isolated edge, `CreateTriangle(v0, v0, v1, ft)` passes every guard: `e23` is the
   * halfedge from `v0` to `v1`, `e31` its opposite, and `v0` is no neighbour of itself. The
   * split at line 531 then joins `e31` to itself and succeeds, adding a face bounded by a halfedge
   * from `v0` to `v0` that is its own `Next`. The checked operator refuses it.
   */
  lemma DanglingTriangleSelfLoop<VT, FT>(vt1: VT, vt2: VT, ft: FT)
    ensures Fit(Dangling<VT, FT>(vt1, vt2))
    ensures var a := Dangling<VT, FT>(vt1, vt2);
      && CreateTriangleBetween(a, 0, 0, 1, ft).Ok?
      && var g := CreateTriangleBetween(a, 0, 0, 1, ft).value.0;
      && |g.hes| == 4 && Closed(g.hes) && g.hes[2].next == 2 && Source(g.hes, 2) == 0 && g.hes[2].target == 0
      && CreateTriangleBetweenChecked(a, 0, 0, 1, ft) == Err(InvalidOperation(SameTarget))
  {
    var a := Dangling<VT, FT>(vt1, vt2);
    DanglingShape<VT, FT>(vt1, vt2);
    DanglingSearches<VT, FT>(vt1, vt2);
    assert BetweenGuards(a, 0, 0, 1) == Ok((1, 1));
    SplitFaceSelfLoop(a, 1, ft);
    SplitFaceRuns(a, 1, 1, ft);
  }

  /** The isolated edge on its own: halfedge 0 from `v0` to `v1`, halfedge 1 back. */
  lemma DanglingShape<VT, FT>(vt1: VT, vt2: VT)
    ensures var a := Dangling<VT, FT>(vt1, vt2);
      && a.hes == [Halfedge(1, None, 1, 1, 1, 0), Halfedge(0, None, 0, 0, 0, 0)]
      && a.vs == [Vertex(Some(0), vt1), Vertex(Some(1), vt2)] && a.halfedges == [0, 1]
      && Fit(a) && Wired(a.hes, a.halfedges)
      && Anchored(a.hes, a.halfedges, a.vs, 0) && Anchored(a.hes, a.halfedges, a.vs, 1)
  {
    var e := EmptyMesh<VT, FT>();
    IsolatedEdgeAdds(e, vt1, vt2);
    IsolatedEdgeFits(e, vt1, vt2);
    var a := Dangling<VT, FT>(vt1, vt2);
    DanglingWired(a);
  }

  /** On the isolated edge, `HalfedgeTo` finds halfedge 0 from `v0` to `v1`, halfedge 1 from
      `v1` to `v0`, and nothing from `v0` to itself. */
  lemma DanglingSearches<VT, FT>(vt1: VT, vt2: VT)
    requires Fit(Dangling<VT, FT>(vt1, vt2))
    ensures var a := Dangling<VT, FT>(vt1, vt2);
      && HalfedgeBetween(a, 0, 1) == Ok(Some(0)) && HalfedgeBetween(a, 1, 0) == Ok(Some(1))
      && HalfedgeBetween(a, 0, 0) == Ok(None)
  {
    var a := Dangling<VT, FT>(vt1, vt2);
    DanglingShape<VT, FT>(vt1, vt2);
    IsolatedEdgeFound(EmptyMesh<VT, FT>(), vt1, vt2);
    assert NextAtTarget(a.hes, 1) == 1;
    assert Incomings(a.hes, a.vs, 0) == Some([1]);
    assert Source(a.hes, 1) == 1;
    NoHalfedgeToSelf(a, 0);
  }

  /** The isolated edge, two halfedges that are each other's `Opposite`, `Next` and `Previous`, is wired. */
  lemma DanglingWired<VT, FT>(a: Arena<VT, FT>)
    requires a.hes == [Halfedge(1, None, 1, 1, 1, 0), Halfedge(0, None, 0, 0, 0, 0)] && a.halfedges == [0, 1]
    ensures Closed(a.hes) && Wired(a.hes, a.halfedges)
  {
    assert Closed(a.hes);
    forall x | x in a.halfedges ensures WiredAt(a.hes, a.halfedges, x) {
      assert x == 0 || x == 1;
    }
  }

  // CreateTriangle(he, vt3, ft) (Mesh.cs:543-552)

  /** A new triangle outside the boundary halfedge `he`; a halfedge with a face is refused. */
  function CreateTriangleOnHalfedge<VT, FT>(a: Arena<VT, FT>, he: nat, vt3: VT, ft: FT): Result<(Arena<VT, FT>, nat)>
    requires Fit(a) && he < |a.hes|
  {
    if !IsBoundary(a.hes, he) then Err(Argument(NotBoundary))
    else CreateTriangleOnBoundary(a, Source(a.hes, he), a.hes[he].target, vt3, ft)
  }

  /**
   * In a wired mesh whose target vertex of `he` is anchored, a halfedge with a face is
   * refused, and on a boundary halfedge that `HalfedgeTo` finds (the only one from its source
   * to its target, say) the triangle is added outside it as `TriangleAdded` describes.
   */
  lemma CreateTriangleOnHalfedgeAdds<VT, FT>(a: Arena<VT, FT>, he: nat, vt3: VT, ft: FT)
    requires Fit(a) && Wired(a.hes, a.halfedges) && he in a.halfedges
    ensures a.hes[he].face.Some? ==> CreateTriangleOnHalfedge(a, he, vt3, ft) == Err(Argument(NotBoundary))
    ensures var v1, v2 := Source(a.hes, he), a.hes[he].target;
      a.hes[he].face.None? && HalfedgeBetween(a, v1, v2) == Ok(Some(he)) ==>
        && CreateTriangleOnHalfedge(a, he, vt3, ft).Ok?
        && TriangleAdded(a, CreateTriangleOnHalfedge(a, he, vt3, ft).value, v1, he)
  {
    var v1, v2 := Source(a.hes, he), a.hes[he].target;
    if a.hes[he].face.None? && HalfedgeBetween(a, v1, v2) == Ok(Some(he)) {
      assert WiredAt(a.hes, a.halfedges, he);
      var n, p := a.hes[he].next, a.hes[he].previous;
      assert WiredAt(a.hes, a.halfedges, n) && WiredAt(a.hes, a.halfedges, p);
      CreateTriangleOnBoundaryAdds(a, v1, v2, vt3, ft, he);
    }
  }

  // CreateTriangle(vt1, vt2, vt3, ft) (Mesh.cs:61-86)

  /** Mesh.cs:65-78: two new vertices joined by a new edge whose halfedges are each other's
      `Next` and `Previous`. Returns the arena, `v1`, `v2` and `e12`. */
  function IsolatedEdge<VT, FT>(a: Arena<VT, FT>, vt1: VT, vt2: VT): (Arena<VT, FT>, nat, nat, nat)
  {
    var (b0, v1) := CreateVertex(a, vt1);
    var (b1, v2) := CreateVertex(b0, vt2);
    var (b2, e12) := CreateEdgeInvalid(b1, v1, v2);
    var e21 := b2.hes[e12].opposite;
    var b3 := SetOutgoing(b2, v1, e12);
    var b4 := SetOutgoing(b3, v2, e21);
    var b5 := SetNext(b4, e12, e21);
    var b6 := SetPrevious(b5, e12, e21);
    var b7 := SetNext(b6, e21, e12);
    (SetPrevious(b7, e21, e12), v1, v2, e12)
  }

  /** `IsolatedEdge` appends two vertices, two halfedges and one edge, and nothing else. */
  lemma IsolatedEdgeAdds<VT, FT>(a: Arena<VT, FT>, vt1: VT, vt2: VT)
    ensures var (b, v1, v2, e12) := IsolatedEdge(a, vt1, vt2);
      var h, v, e := |a.hes|, |a.vs|, |a.es|;
      && v1 == v && v2 == v + 1 && e12 == h
      && b.hes == a.hes + [Halfedge(v + 1, None, h + 1, h + 1, h + 1, e), Halfedge(v, None, h, h, h, e)]
      && b.vs == a.vs + [Vertex(Some(h), vt1), Vertex(Some(h + 1), vt2)]
      && b.es == a.es + [Edge(h)] && b.fs == a.fs
      && b.halfedges == a.halfedges + [h, h + 1] && b.vertices == a.vertices + [v, v + 1]
      && b.edges == a.edges + [e] && b.faces == a.faces
  {
    var (b, v1, v2, e12) := IsolatedEdge(a, vt1, vt2);
    var h, v, e := |a.hes|, |a.vs|, |a.es|;
    assert b.hes == a.hes + [Halfedge(v + 1, None, h + 1, h + 1, h + 1, e), Halfedge(v, None, h, h, h, e)];
    assert b.vs == a.vs + [Vertex(Some(h), vt1), Vertex(Some(h + 1), vt2)];
  }

  lemma IsolatedEdgeFits<VT, FT>(a: Arena<VT, FT>, vt1: VT, vt2: VT)
    requires Fit(a)
    ensures Fit(IsolatedEdge(a, vt1, vt2).0)
  {
    IsolatedEdgeAdds(a, vt1, vt2);
    var b := IsolatedEdge(a, vt1, vt2).0;
    var h, v, e := |a.hes|, |a.vs|, |a.es|;
    DistinctConcat(a.halfedges, [h, h + 1]);
    DistinctConcat(a.vertices, [v, v + 1]);
    DistinctConcat(a.edges, [e]);
    assert Closed(b.hes) && EdgesClosed(b.hes, b.es) && VerticesClosed(b.hes, b.vs) && FacesClosed(b.hes, b.fs) by {
      forall x | 0 <= x < |b.hes| ensures b.hes[x].opposite < |b.hes| && b.hes[x].next < |b.hes| && b.hes[x].previous < |b.hes|
        && b.hes[x].edge < |b.es| && b.hes[x].target < |b.vs| && (b.hes[x].face.Some? ==> b.hes[x].face.value < |b.fs|) {
        if x < h { assert b.hes[x] == a.hes[x]; }
      }
      forall x | 0 <= x < |b.es| ensures b.es[x].half1 < |b.hes| {
        if x < e { assert b.es[x] == a.es[x]; }
      }
      forall x | 0 <= x < |b.vs| && b.vs[x].outgoing.Some? ensures b.vs[x].outgoing.value < |b.hes| {
        if x < v { assert b.vs[x] == a.vs[x]; }
      }
      forall x | 0 <= x < |b.fs| ensures b.fs[x].bounding < |b.hes| {
        assert b.fs[x] == a.fs[x];
      }
    }
  }

  /**
   * `CreateTriangle(vt1, vt2, vt3, ft)`: an isolated edge from a new `v1` to a new `v2`, then
   * the boundary operator on it, which adds `v3` and the face. Returns the arena and the face.
   */
  function CreateIsolatedTriangle<VT, FT>(a: Arena<VT, FT>, vt1: VT, vt2: VT, vt3: VT, ft: FT): Result<(Arena<VT, FT>, nat)>
    requires Fit(a)
  {
    var (b, v1, v2, _) := IsolatedEdge(a, vt1, vt2);
    IsolatedEdgeFits(a, vt1, vt2);
    IsolatedEdgeAdds(a, vt1, vt2);
    CreateTriangleOnBoundary(b, v1, v2, vt3, ft)
  }

  /** On the isolated edge `HalfedgeTo` finds `e12`: the only halfedge arriving at `v2`. */
  lemma IsolatedEdgeFound<VT, FT>(a: Arena<VT, FT>, vt1: VT, vt2: VT)
    requires Fit(a)
    ensures var (b, v1, v2, e12) := IsolatedEdge(a, vt1, vt2);
      Fit(b) && v2 < |b.vs| && HalfedgeBetween(b, v1, v2) == Ok(Some(e12))
  {
    IsolatedEdgeAdds(a, vt1, vt2);
    IsolatedEdgeFits(a, vt1, vt2);
    var (b, v1, v2, e12) := IsolatedEdge(a, vt1, vt2);
    var h := |a.hes|;
    assert NextAtTarget(b.hes, h) == h;
    assert Incomings(b.hes, b.vs, v2) == Some([h]);
    assert Source(b.hes, h) == v1;
  }

  /**
   * What `CreateTriangle(vt1, vt2, vt3, ft)` leaves, for the arena `r.0` and face `r.1`: three
   * new vertices carrying the three traits, three edges, six halfedges and one face. The face's
   * `Bounding` runs from the first new vertex to the second (Mesh.cs:55-56: `face.Bounding.Source`
   * and `face.Bounding.Target` recover them), its ring is the three inner halfedges, leading on
   * to the third vertex and back, and the three outer halfedges form the opposite ring.
   */
  ghost predicate IsolatedTriangle<VT, FT>(a: Arena<VT, FT>, r: (Arena<VT, FT>, nat), vt1: VT, vt2: VT, vt3: VT, ft: FT)
  {
    var (b, f) := r;
    var h, v, e := |a.hes|, |a.vs|, |a.es|;
    && Fit(b) && f == |a.fs| && |b.hes| == h + 6 && |b.vs| == v + 3 && |b.fs| == |a.fs| + 1
    && b.vertices == a.vertices + [v, v + 1, v + 2] && b.halfedges == a.halfedges + [h, h + 1, h + 2, h + 3, h + 4, h + 5]
    && b.edges == a.edges + [e, e + 1, e + 2] && b.faces == a.faces + [f]
    && b.fs[f].bounding == h && Perimeter(b.hes, b.fs, f) == Some([h, h + 2, h + 4])
    && Source(b.hes, h) == v && b.hes[h].target == v + 1 && b.hes[h + 2].target == v + 2 && b.hes[h + 4].target == v
    && Orbit(b.hes, AlongNext, h + 1) == Some([h + 1, h + 5, h + 3])
    && b.vs[v].traits == vt1 && b.vs[v + 1].traits == vt2 && b.vs[v + 2].traits == vt3
  }

  /** From the isolated edge `c` of `a` and the triangle added on it to `IsolatedTriangle`. */
  lemma IsolatedTriangleShape<VT, FT>(a: Arena<VT, FT>, c: Arena<VT, FT>, r: (Arena<VT, FT>, nat), vt1: VT, vt2: VT, vt3: VT, ft: FT)
    requires Fit(a) && Fit(c)
    requires var h, v, e := |a.hes|, |a.vs|, |a.es|;
      && c.hes == a.hes + [Halfedge(v + 1, None, h + 1, h + 1, h + 1, e), Halfedge(v, None, h, h, h, e)]
      && c.vs == a.vs + [Vertex(Some(h), vt1), Vertex(Some(h + 1), vt2)]
      && |c.es| == e + 1 && c.fs == a.fs
      && c.halfedges == a.halfedges + [h, h + 1] && c.vertices == a.vertices + [v, v + 1]
      && c.edges == a.edges + [e] && c.faces == a.faces
    requires TriangleAdded(c, r, |a.vs|, |a.hes|)
    requires r.0.vs == c.vs[|a.vs| := c.vs[|a.vs|].(outgoing := Some(|c.hes| + 3))] + [Vertex(Some(|c.hes| + 1), vt3)]
    ensures IsolatedTriangle(a, r, vt1, vt2, vt3, ft)
  {
    var (b, f) := r;
    var h, v, e := |a.hes|, |a.vs|, |a.es|;
    assert b.vertices == a.vertices + [v, v + 1, v + 2];
    assert b.halfedges == a.halfedges + [h, h + 1, h + 2, h + 3, h + 4, h + 5];
    assert b.edges == a.edges + [e, e + 1, e + 2];
    assert b.hes[h + 1].next == h + 5;
    TriangleRing(b.hes, h + 1, h + 5, h + 3);
  }

  /** On any fit mesh `CreateTriangle(vt1, vt2, vt3, ft)` succeeds as `IsolatedTriangle` says. */
  lemma CreateIsolatedTriangleAdds<VT, FT>(a: Arena<VT, FT>, vt1: VT, vt2: VT, vt3: VT, ft: FT)
    requires Fit(a)
    ensures CreateIsolatedTriangle(a, vt1, vt2, vt3, ft).Ok?
    ensures IsolatedTriangle(a, CreateIsolatedTriangle(a, vt1, vt2, vt3, ft).value, vt1, vt2, vt3, ft)
  {
    IsolatedEdgeFound(a, vt1, vt2);
    IsolatedEdgeAdds(a, vt1, vt2);
    var (c, v1, v2, e12) := IsolatedEdge(a, vt1, vt2);
    assert CreateIsolatedTriangle(a, vt1, vt2, vt3, ft) == CreateTriangleOnBoundary(c, v1, v2, vt3, ft);
    CreateTriangleOnBoundaryAdds(c, v1, v2, vt3, ft, e12);
    IsolatedTriangleShape(a, c, CreateTriangleOnBoundary(c, v1, v2, vt3, ft).value, vt1, vt2, vt3, ft);
  }

  // The first triangle of a new mesh passes `AssertValid` (Mesh.cs:84)

  /** The records `CreateTriangle(vt1, vt2, vt3, ft)` leaves in a new mesh: halfedges 0, 2 and 4
      run around face 0 from vertex 0 to 1 to 2, and 1, 5 and 3 back around the outside. */
  function FirstTriangle<VT, FT>(vt1: VT, vt2: VT, vt3: VT, ft: FT): Arena<VT, FT>
  {
    Arena([Halfedge(1, Some(0), 1, 2, 4, 0), Halfedge(0, None, 0, 5, 3, 0),
           Halfedge(2, Some(0), 3, 4, 0, 1), Halfedge(1, None, 2, 1, 5, 1),
           Halfedge(0, Some(0), 5, 0, 2, 2), Halfedge(2, None, 4, 3, 1, 2)],
          [Vertex(Some(5), vt1), Vertex(Some(1), vt2), Vertex(Some(3), vt3)],
          [Edge(0), Edge(2), Edge(4)], [Face(0, ft)],
          [0, 1, 2, 3, 4, 5], [0, 1, 2], [0, 1, 2], [0])
  }

  /** `CreateTriangle(vt1, vt2, vt3, ft)` on a new mesh leaves `FirstTriangle` and returns face 0. */
  lemma FirstTriangleMade<VT, FT>(vt1: VT, vt2: VT, vt3: VT, ft: FT)
    ensures Fit(EmptyMesh<VT, FT>())
    ensures CreateIsolatedTriangle(EmptyMesh<VT, FT>(), vt1, vt2, vt3, ft) == Ok((FirstTriangle(vt1, vt2, vt3, ft), 0))
  {
    FirstEdgeMade(vt1, vt2, vt3, ft);
    FirstEdgeSearched(vt1, vt2, vt3, ft);
    FirstTriangleAdjoined<VT, FT>(vt1, vt2, vt3);
    FirstTriangleFaced(vt1, vt2, vt3, ft);
  }

  /** `CreateTriangle(vt1, vt2, vt3, ft)` on a new mesh is the boundary operator on the isolated edge. */
  lemma FirstEdgeMade<VT, FT>(vt1: VT, vt2: VT, vt3: VT, ft: FT)
    ensures Fit(EmptyMesh<VT, FT>()) && Fit(Dangling<VT, FT>(vt1, vt2)) && |Dangling<VT, FT>(vt1, vt2).vs| == 2
    ensures CreateIsolatedTriangle(EmptyMesh<VT, FT>(), vt1, vt2, vt3, ft) == CreateTriangleOnBoundary(Dangling(vt1, vt2), 0, 1, vt3, ft)
  {
    var e := EmptyMesh<VT, FT>();
    assert Fit(e);
    IsolatedEdgeFits(e, vt1, vt2);
    IsolatedEdgeAdds(e, vt1, vt2);
  }

  /** On the isolated edge the boundary operator finds halfedge 0 and goes on to `Adjoin`. */
  lemma FirstEdgeSearched<VT, FT>(vt1: VT, vt2: VT, vt3: VT, ft: FT)
    ensures Fit(Dangling<VT, FT>(vt1, vt2)) && |Dangling<VT, FT>(vt1, vt2).vs| == 2
    ensures CreateTriangleOnBoundary(Dangling(vt1, vt2), 0, 1, vt3, ft) == CreateFace(Adjoin(Dangling(vt1, vt2), 0, 1, 0, vt3), Some(0), ft)
  {
    DanglingShape<VT, FT>(vt1, vt2);
    DanglingSearches<VT, FT>(vt1, vt2);
  }

  /** `CreateFace(e12, ft)` on the rewired isolated edge gives the inner ring face 0. */
  lemma FirstTriangleFaced<VT, FT>(vt1: VT, vt2: VT, vt3: VT, ft: FT)
    ensures Closed(FirstRewired<VT, FT>(vt1, vt2, vt3).hes)
    ensures CreateFace(FirstRewired<VT, FT>(vt1, vt2, vt3), Some(0), ft) == Ok((FirstTriangle(vt1, vt2, vt3, ft), 0))
  {
    var b := FirstRewired<VT, FT>(vt1, vt2, vt3);
    FirstRing<VT, FT>(vt1, vt2, vt3);
    FirstRelabel(vt1, vt2, vt3, ft);
    var b' := b.(fs := b.fs + [Face(0, ft)], faces := b.faces + [0]);
    assert SetFaces(b', [0, 2, 4], Some(0)) == FirstTriangle(vt1, vt2, vt3, ft);
  }

  /** The inner ring of the rewired isolated edge. */
  lemma FirstRing<VT, FT>(vt1: VT, vt2: VT, vt3: VT)
    ensures Closed(FirstRewired<VT, FT>(vt1, vt2, vt3).hes)
    ensures Orbit(FirstRewired<VT, FT>(vt1, vt2, vt3).hes, AlongNext, 0) == Some([0, 2, 4])
  {
    var hes := FirstRewired<VT, FT>(vt1, vt2, vt3).hes;
    assert Closed(hes);
    TriangleRing(hes, 0, 2, 4);
  }

  /** Face 0 given to the inner ring. */
  lemma FirstRelabel<VT, FT>(vt1: VT, vt2: VT, vt3: VT, ft: FT)
    ensures Relabel(FirstRewired<VT, FT>(vt1, vt2, vt3).hes, [0, 2, 4], Some(0)) == FirstTriangle(vt1, vt2, vt3, ft).hes
  {
    var ring := Relabel(FirstRewired<VT, FT>(vt1, vt2, vt3).hes, [0, 2, 4], Some(0));
    var t := FirstTriangle(vt1, vt2, vt3, ft).hes;
    forall x | 0 <= x < 6 ensures ring[x] == t[x] {
    }
  }

  /** The records on the isolated edge once Mesh.cs:109-137 have rewired it, before the face is made. */
  function FirstRewired<VT, FT>(vt1: VT, vt2: VT, vt3: VT): Arena<VT, FT>
  {
    Arena(RewiredRing(),
          [Vertex(Some(5), vt1), Vertex(Some(1), vt2), Vertex(Some(3), vt3)],
          [Edge(0), Edge(2), Edge(4)], [], [0, 1, 2, 3, 4, 5], [0, 1, 2], [0, 1, 2], [])
  }

  /** The rewiring of Mesh.cs:109-137 on the isolated edge, before the face is made. */
  lemma FirstTriangleAdjoined<VT, FT>(vt1: VT, vt2: VT, vt3: VT)
    ensures Dangling<VT, FT>(vt1, vt2) == DanglingRecords(vt1, vt2) && Closed(DanglingRecords<VT, FT>(vt1, vt2).hes)
    ensures Adjoin(DanglingRecords<VT, FT>(vt1, vt2), 0, 1, 0, vt3) == FirstRewired(vt1, vt2, vt3)
  {
    DanglingIs<VT, FT>(vt1, vt2);
    var c := DanglingRecords<VT, FT>(vt1, vt2);
    assert Closed(c.hes);
    FirstSprouts<VT, FT>(vt1, vt2, vt3);
    var s := FirstSprouted<VT, FT>(vt1, vt2, vt3);
    FirstThreaded();
    FirstTurned();
    FirstClosing();
    assert SproutedRing()[2].opposite == 3 && SproutedRing()[4].opposite == 5;
    assert Adjoin(c, 0, 1, 0, vt3) == Close(Turn(Thread(s, 0, 3, 5), 0, 2, 3, 4, 5), 0, 2, 4);
  }

  /** The isolated edge after Mesh.cs:109-119: vertex 2 and the halfedges 2 to 5 on edges 1 and 2. */
  function FirstSprouted<VT, FT>(vt1: VT, vt2: VT, vt3: VT): Arena<VT, FT>
  {
    Arena(SproutedRing(),
          [Vertex(Some(5), vt1), Vertex(Some(1), vt2), Vertex(Some(3), vt3)],
          [Edge(0), Edge(2), Edge(4)], [], [0, 1, 2, 3, 4, 5], [0, 1, 2], [0, 1, 2], [])
  }

  /** Mesh.cs:109-119 on the isolated edge: `e23` is halfedge 2 and `e31` halfedge 4. */
  lemma FirstSprouts<VT, FT>(vt1: VT, vt2: VT, vt3: VT)
    ensures Sprout(DanglingRecords<VT, FT>(vt1, vt2), 0, 1, vt3) == (FirstSprouted(vt1, vt2, vt3), 2, 4)
  {
    FirstSproutHalfedges<VT, FT>(vt1, vt2, vt3);
    FirstSproutVertices<VT, FT>(vt1, vt2, vt3);
    FirstSproutLists<VT, FT>(vt1, vt2, vt3);
  }

  lemma FirstSproutHalfedges<VT, FT>(vt1: VT, vt2: VT, vt3: VT)
    ensures var (s, e23, e31) := Sprout(DanglingRecords<VT, FT>(vt1, vt2), 0, 1, vt3);
      s.hes == FirstSprouted<VT, FT>(vt1, vt2, vt3).hes && e23 == 2 && e31 == 4
  {
    SproutAdds(DanglingRecords<VT, FT>(vt1, vt2), 0, 1, vt3);
  }

  lemma FirstSproutVertices<VT, FT>(vt1: VT, vt2: VT, vt3: VT)
    ensures Sprout(DanglingRecords<VT, FT>(vt1, vt2), 0, 1, vt3).0.vs == FirstSprouted<VT, FT>(vt1, vt2, vt3).vs
  {
    SproutAdds(DanglingRecords<VT, FT>(vt1, vt2), 0, 1, vt3);
  }

  lemma FirstSproutLists<VT, FT>(vt1: VT, vt2: VT, vt3: VT)
    ensures var s, f := Sprout(DanglingRecords<VT, FT>(vt1, vt2), 0, 1, vt3).0, FirstSprouted<VT, FT>(vt1, vt2, vt3);
      && s.es == f.es && s.fs == f.fs && s.halfedges == f.halfedges
      && s.vertices == f.vertices && s.edges == f.edges && s.faces == f.faces
  {
    SproutAdds(DanglingRecords<VT, FT>(vt1, vt2), 0, 1, vt3);
  }

  /** The records of the isolated edge. */
  function DanglingRecords<VT, FT>(vt1: VT, vt2: VT): Arena<VT, FT>
  {
    Arena([Halfedge(1, None, 1, 1, 1, 0), Halfedge(0, None, 0, 0, 0, 0)],
          [Vertex(Some(0), vt1), Vertex(Some(1), vt2)], [Edge(0)], [], [0, 1], [0, 1], [0], [])
  }

  lemma DanglingIs<VT, FT>(vt1: VT, vt2: VT)
    ensures Dangling<VT, FT>(vt1, vt2) == DanglingRecords(vt1, vt2)
  {
    IsolatedEdgeAdds(EmptyMesh<VT, FT>(), vt1, vt2);
  }

  /** The halfedges of the isolated edge after Mesh.cs:109-119. */
  function SproutedRing(): seq<Halfedge>
  {
    [Halfedge(1, None, 1, 1, 1, 0), Halfedge(0, None, 0, 0, 0, 0),
     Halfedge(2, None, 3, 2, 2, 1), Halfedge(1, None, 2, 3, 3, 1),
     Halfedge(0, None, 5, 4, 4, 2), Halfedge(2, None, 4, 5, 5, 2)]
  }

  /** ... after Mesh.cs:122-125. */
  function ThreadedRing(): seq<Halfedge>
  {
    [Halfedge(1, None, 1, 1, 1, 0), Halfedge(0, None, 0, 5, 3, 0),
     Halfedge(2, None, 3, 2, 2, 1), Halfedge(1, None, 2, 1, 3, 1),
     Halfedge(0, None, 5, 4, 4, 2), Halfedge(2, None, 4, 5, 1, 2)]
  }

  /** ... after Mesh.cs:127-131. */
  function TurnedRing(): seq<Halfedge>
  {
    [Halfedge(1, None, 1, 2, 4, 0), Halfedge(0, None, 0, 5, 3, 0),
     Halfedge(2, None, 3, 2, 2, 1), Halfedge(1, None, 2, 1, 5, 1),
     Halfedge(0, None, 5, 4, 4, 2), Halfedge(2, None, 4, 3, 1, 2)]
  }

  /** ... and after Mesh.cs:133-137. */
  function RewiredRing(): seq<Halfedge>
  {
    [Halfedge(1, None, 1, 2, 4, 0), Halfedge(0, None, 0, 5, 3, 0),
     Halfedge(2, None, 3, 4, 0, 1), Halfedge(1, None, 2, 1, 5, 1),
     Halfedge(0, None, 5, 0, 2, 2), Halfedge(2, None, 4, 3, 1, 2)]
  }

  /** Mesh.cs:122-125 on the sprouted isolated edge: e12 = 0, e32 = 3, e13 = 5. */
  lemma FirstThreaded()
    ensures Closed(SproutedRing()) && Threaded(SproutedRing(), 0, 3, 5) == ThreadedRing()
  {
    assert Closed(SproutedRing());
  }

  /** Mesh.cs:127-131 on the threaded edge: e12 = 0, e23 = 2, e32 = 3, e31 = 4, e13 = 5. */
  lemma FirstTurned()
    ensures Closed(ThreadedRing()) && Turned(ThreadedRing(), 0, 2, 3, 4, 5) == TurnedRing()
  {
    assert Closed(ThreadedRing());
  }

  /** Mesh.cs:133-137 closing the ring 0 -> 2 -> 4. */
  lemma FirstClosing()
    ensures Closed(TurnedRing()) && Closing(TurnedRing(), 0, 2, 4) == RewiredRing()
  {
    assert Closed(TurnedRing());
  }

  /**
   * `AssertValid` holds after `CreateTriangle(vt1, vt2, vt3, ft)` on a new mesh, as Mesh.cs:84
   * checks: every vertex passes `Vertex.AssertValid`, every halfedge passes `Halfedge.AssertValid`
   * and its ring holds at most half the halfedges, and every edge passes `Edge.CheckValid`.
   */
  lemma FirstTriangleValid<VT, FT>(vt1: VT, vt2: VT, vt3: VT, ft: FT)
    ensures Fit(EmptyMesh<VT, FT>()) && CreateIsolatedTriangle(EmptyMesh<VT, FT>(), vt1, vt2, vt3, ft).Ok?
    ensures var b := CreateIsolatedTriangle(EmptyMesh<VT, FT>(), vt1, vt2, vt3, ft).value.0;
      && Fit(b) && Valid(b) && forall e | e in b.edges :: EdgeValid(b.hes, b.es, e)
  {
    FirstTriangleMade(vt1, vt2, vt3, ft);
    var b := FirstTriangle(vt1, vt2, vt3, ft);
    FirstTriangleFits(vt1, vt2, vt3, ft);
    forall v | v in b.vertices ensures VertexValid(b.hes, b.es, b.vs, v) {
      FirstVertexValid(vt1, vt2, vt3, ft, v);
    }
    forall h | h in b.halfedges ensures HalfedgeValid(b, h) && RingBounded(b, h) {
      FirstHalfedgeValid(vt1, vt2, vt3, ft, h);
    }
  }

  lemma FirstTriangleFits<VT, FT>(vt1: VT, vt2: VT, vt3: VT, ft: FT)
    ensures var b := FirstTriangle(vt1, vt2, vt3, ft);
      Fit(b) && forall e | e in b.edges :: EdgeValid(b.hes, b.es, e)
  {
    var b := FirstTriangle(vt1, vt2, vt3, ft);
    FirstTriangleClosed(vt1, vt2, vt3, ft);
    FirstTriangleLists(vt1, vt2, vt3, ft);
    forall e | e in b.edges ensures EdgeValid(b.hes, b.es, e) {
      assert e == 0 || e == 1 || e == 2;
    }
  }

  /** Every pointer of the first triangle names one of its records. */
  lemma FirstTriangleClosed<VT, FT>(vt1: VT, vt2: VT, vt3: VT, ft: FT)
    ensures var b := FirstTriangle(vt1, vt2, vt3, ft);
      && Closed(b.hes) && EdgesClosed(b.hes, b.es) && FacesClosed(b.hes, b.fs) && VerticesClosed(b.hes, b.vs)
  {
  }

  /** The id lists of the first triangle hold each record once. */
  lemma FirstTriangleLists<VT, FT>(vt1: VT, vt2: VT, vt3: VT, ft: FT)
    ensures var b := FirstTriangle(vt1, vt2, vt3, ft);
      && (forall h | h in b.halfedges :: h < |b.hes|) && (forall v | v in b.vertices :: v < |b.vs|)
      && (forall e | e in b.edges :: e < |b.es|) && (forall f | f in b.faces :: f < |b.fs|)
      && Distinct(b.halfedges) && Distinct(b.vertices) && Distinct(b.edges) && Distinct(b.faces)
  {
  }

  /** Each vertex of the first triangle sits on the boundary, leaves through a boundary halfedge
      and has two incoming halfedges, both on boundary edges. */
  lemma FirstVertexValid<VT, FT>(vt1: VT, vt2: VT, vt3: VT, ft: FT, v: nat)
    requires v < 3
    ensures var b := FirstTriangle(vt1, vt2, vt3, ft);
      Fit(b) && VertexValid(b.hes, b.es, b.vs, v)
  {
    var b := FirstTriangle(vt1, vt2, vt3, ft);
    FirstTriangleFits(vt1, vt2, vt3, ft);
    var hes := b.hes;
    if v == 0 {
      PairRing(hes, AroundTarget, 4, 1);
      assert CountOnBoundary(hes, b.es, [4, 1]) == 2;
    } else if v == 1 {
      PairRing(hes, AroundTarget, 0, 3);
      assert CountOnBoundary(hes, b.es, [0, 3]) == 2;
    } else {
      PairRing(hes, AroundTarget, 2, 5);
      assert CountOnBoundary(hes, b.es, [2, 5]) == 2;
    }
  }

  /** Each halfedge of the first triangle is on a ring of three, half of the six halfedges. */
  lemma FirstHalfedgeValid<VT, FT>(vt1: VT, vt2: VT, vt3: VT, ft: FT, h: nat)
    requires h < 6
    ensures var b := FirstTriangle(vt1, vt2, vt3, ft);
      Fit(b) && HalfedgeValid(b, h) && RingBounded(b, h)
  {
    var b := FirstTriangle(vt1, vt2, vt3, ft);
    FirstTriangleFits(vt1, vt2, vt3, ft);
    var hes := b.hes;
    if h == 0 { TriangleRing(hes, 0, 2, 4); }
    else if h == 2 { TriangleRing(hes, 2, 4, 0); }
    else if h == 4 { TriangleRing(hes, 4, 0, 2); }
    else if h == 1 { TriangleRing(hes, 1, 5, 3); }
    else if h == 5 { TriangleRing(hes, 5, 3, 1); }
    else { TriangleRing(hes, 3, 1, 5); }
  }
}
