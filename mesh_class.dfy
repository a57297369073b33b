/**
 * The `Mesh` object itself (Mesh.cs:14-600): its records and its four lists are fields that the
 * operators update in place, one assignment of the source at a time, and the `foreach` loops
 * over a ring or a fan are `while` loops. Each operator is proved to leave the state, and to
 * return the id, that the operator of the same name on values gives: every property proved
 * about those operators is a property of the object.
 */
module HalfedgeMesh {
  import opened Wrappers
  import opened Halfedges
  import opened Edges
  import opened Faces
  import opened Vertices
  import opened Meshes
  import MeshOperations
  import Joins
  import VertexSplits
  import Triangles
  import Circulation

  /** `r` and `b` are what the operator on values that gave `x` returns and leaves: its id
      and its arena when it succeeds, its exception otherwise. */
  ghost predicate Agrees<VT, FT, T>(r: Result<T>, b: Arena<VT, FT>, x: Result<(Arena<VT, FT>, T)>)
  {
    match x
    case Ok((g, v)) => r == Ok(v) && b == g
    case Err(e) => r == Err(e)
  }

  /** A halfedge's `NextAtTarget` does not depend on faces. */
  lemma RelabelKeepsNextAtTarget(hes: seq<Halfedge>, ring: seq<nat>, f: Option<nat>, h: nat)
    requires Closed(hes) && h < |hes|
    ensures Closed(Relabel(hes, ring, f))
    ensures NextAtTarget(Relabel(hes, ring, f), h) == NextAtTarget(hes, h)
  {
    RelabelKeepsLinks(hes, ring, f);
  }

  /** The four assignments of Mesh.cs:122-125, run one after the other, leave `Threaded`. */
  lemma ThreadSteps(h0: seq<Halfedge>, e12: nat, e32: nat, e13: nat,
                    h1: seq<Halfedge>, h2: seq<Halfedge>, h3: seq<Halfedge>, h4: seq<Halfedge>)
    requires Closed(h0) && e12 < |h0| && e32 < |h0| && e13 < |h0|
    requires h1 == h0[e32 := h0[e32].(next := h0[e12].next)]
    requires h2 == h1[e13 := h1[e13].(previous := h1[e12].previous)]
    requires h3 == h2[h2[e12].previous := h2[h2[e12].previous].(next := e13)]
    requires h4 == h3[h3[e12].next := h3[h3[e12].next].(previous := e32)]
    ensures h4 == MeshOperations.Threaded(h0, e12, e32, e13)
  {
    var t := MeshOperations.Threaded(h0, e12, e32, e13);
    forall x | 0 <= x < |h4| ensures h4[x] == t[x] {
    }
  }

  class Mesh<VT, FT> {
    // Every record ever created, its id its index; a record that leaves a list stays here.
    var hes: seq<Halfedge>
    var vs: seq<Vertex<VT>>
    var es: seq<Edge>
    var fs: seq<Face<FT>>
    // `_halfedges`, `_vertices`, `_edges` and `_faces` (Mesh.cs:22-25).
    var halfedges: seq<nat>
    var vertices: seq<nat>
    var edges: seq<nat>
    var faces: seq<nat>

    /** The object's state as a value. */
    function State(): Arena<VT, FT>
      reads this
    {
      Arena(hes, vs, es, fs, halfedges, vertices, edges, faces)
    }

    /** A new mesh holds no records. */
    constructor ()
      ensures State() == EmptyMesh()
    {
      hes, vs, es, fs := [], [], [], [];
      halfedges, vertices, edges, faces := [], [], [], [];
    }

    /** `IsEmpty` (Mesh.cs:566-569). */
    predicate IsEmpty()
      reads this
    {
      Meshes.IsEmpty(State())
    }

    // Private creation and deletion (Mesh.cs:349-455)

    /** `CreateVertex(traits)` (Mesh.cs:349-358). */
    method CreateVertex(traits: VT) returns (v: nat)
      modifies this
      ensures (State(), v) == Meshes.CreateVertex(old(State()), traits)
    {
      v := |vs|;
      vs := vs + [Vertex(None, traits)];
      vertices := vertices + [v];
    }

    /** `CreateHalfedge()` (Mesh.cs:360-368). */
    method CreateHalfedge() returns (h: nat)
      modifies this
      ensures (State(), h) == Meshes.CreateHalfedge(old(State()))
    {
      h := |hes|;
      hes := hes + [Halfedge(0, None, h, h, h, 0)];
      halfedges := halfedges + [h];
    }

    /** `CreateEdge()` (Mesh.cs:370-378). */
    method CreateEdge() returns (e: nat)
      modifies this
      ensures (State(), e) == Meshes.CreateEdge(old(State()))
    {
      e := |es|;
      es := es + [Edge(0)];
      edges := edges + [e];
    }

    /** `CreateEdgeInvalid(source, target)` (Mesh.cs:423-455); vertex ids are never null. */
    method CreateEdgeInvalid(source: nat, target: nat) returns (he1: nat)
      modifies this
      ensures (State(), he1) == Meshes.CreateEdgeInvalid(old(State()), source, target)
      ensures (State(), he1) == EdgeAdded(old(State()), source, target)
    {
      he1 := CreateHalfedge();
      hes := hes[he1 := hes[he1].(target := target)];
      var he2 := CreateHalfedge();
      hes := hes[he2 := hes[he2].(target := source)];
      hes := hes[he1 := hes[he1].(opposite := he2)];
      hes := hes[he2 := hes[he2].(opposite := he1)];
      var e := CreateEdge();
      es := es[e := Edge(he1)];
      hes := hes[he1 := hes[he1].(edge := e)];
      hes := hes[he2 := hes[he2].(edge := e)];
      assert hes == old(hes) + [Halfedge(target, None, he2, he1, he1, e), Halfedge(source, None, he1, he2, he2, e)];
    }

    /** `DeleteEdge(e)` (Mesh.cs:390-397). */
    method DeleteEdge(e: nat)
      requires Closed(hes) && EdgesClosed(hes, es) && e < |es|
      modifies this
      ensures State() == Meshes.DeleteEdge(old(State()), e)
    {
      var h1, h2 := es[e].half1, Half2(hes, es, e);
      halfedges := RemoveFirst(halfedges, h1);
      halfedges := RemoveFirst(halfedges, h2);
      edges := RemoveFirst(edges, e);
    }

    /** `DeleteFace(f)` (Mesh.cs:400-405); removing `null` removes nothing. */
    method DeleteFace(f: Option<nat>)
      modifies this
      ensures State() == Meshes.DeleteFace(old(State()), f)
    {
      if f.Some? {
        faces := RemoveFirst(faces, f.value);
      }
    }

    /**
     * `foreach (var he in ring) he.Face = f;` (Mesh.cs:233-236, 477-480). Setting a `Face`
     * does not move a `Next`, so the ring enumerated lazily is the ring enumerated first.
     */
    method SetRingFaces(ring: seq<nat>, f: Option<nat>)
      requires forall i | 0 <= i < |ring| :: ring[i] < |hes|
      modifies this
      ensures State() == SetFaces(old(State()), ring, f)
    {
      ghost var h0 := hes;
      var i := 0;
      while i < |ring|
        invariant 0 <= i <= |ring| && |hes| == |h0|
        invariant State() == old(State()).(hes := hes)
        invariant forall x | 0 <= x < |hes| :: hes[x] == if x in ring[..i] then h0[x].(face := f) else h0[x]
      {
        var he := ring[i];
        hes := hes[he := hes[he].(face := f)];
        assert ring[..i + 1] == ring[..i] + [he];
        i := i + 1;
      }
      assert ring[..i] == ring;
      assert hes == Relabel(h0, ring, f);
    }

    /**
     * `CreateFace(halfedge, ft)` (Mesh.cs:465-487); `None` is a null argument. A ring that
     * never comes back to `halfedge` is `Diverges`, reported before the mesh is touched.
     */
    method CreateFace(halfedge: Option<nat>, ft: FT) returns (r: Result<nat>)
      requires Closed(hes) && (halfedge.Some? ==> halfedge.value < |hes|)
      modifies this
      ensures Agrees(r, State(), Meshes.CreateFace(old(State()), halfedge, ft))
      ensures r.Err? ==> State() == old(State())
    {
      if halfedge.None? {
        return Err(ArgumentNull);
      }
      var h := halfedge.value;
      if hes[h].face.Some? {
        return Err(InvalidOperation(HasFace));
      }
      var walk := Orbit(hes, AlongNext, h);
      if walk.None? {
        return Err(Diverges);
      }
      TraceReturns(hes, AlongNext, h, h, |hes|);
      var f := |fs|;
      fs := fs + [Face(h, ft)];
      faces := faces + [f];
      SetRingFaces(walk.value, Some(f));
      r := Ok(f);
    }

    // SplitFace(he1, he2, ft) (Mesh.cs:171-197)

    /** Mesh.cs:183-186, each assignment reading what the ones before it left. */
    method LinkAfterFirst(he1: nat, he2: nat, e12: nat, e21: nat)
      requires Closed(hes) && he1 < |hes| && he2 < |hes| && e12 < |hes| && e21 < |hes|
      modifies this
      ensures State() == old(State()).(hes := MeshOperations.AfterFirst(old(hes), he1, he2, e12, e21))
    {
      hes := hes[e21 := hes[e21].(next := hes[he1].next)];
      var n1 := hes[he1].next;
      hes := hes[n1 := hes[n1].(previous := e21)];
      hes := hes[he1 := hes[he1].(next := e12)];
      hes := hes[e21 := hes[e21].(previous := he2)];
    }

    /** Mesh.cs:188-191, each assignment reading what the ones before it left. */
    method LinkAfterSecond(he1: nat, he2: nat, e12: nat, e21: nat)
      requires Closed(hes) && he1 < |hes| && he2 < |hes| && e12 < |hes| && e21 < |hes|
      modifies this
      ensures State() == old(State()).(hes := MeshOperations.AfterSecond(old(hes), he1, he2, e12, e21))
    {
      hes := hes[e12 := hes[e12].(next := hes[he2].next)];
      var n2 := hes[he2].next;
      hes := hes[n2 := hes[n2].(previous := e12)];
      hes := hes[he2 := hes[he2].(next := e21)];
      hes := hes[e12 := hes[e12].(previous := he1)];
    }

    /** Mesh.cs:176-193: the new edge from `he1.Target` to `he2.Target`, linked in after `he1`
        and after `he2`, with `e21` on `he2`'s face. Returns `e12`. */
    method Divide(he1: nat, he2: nat) returns (e12: nat)
      requires Closed(hes) && he1 < |hes| && he2 < |hes|
      modifies this
      ensures State() == MeshOperations.Divide(old(State()), he1, he2) && e12 == |old(hes)|
    {
      var v1, v2 := hes[he1].target, hes[he2].target;
      e12 := CreateEdgeInvalid(v1, v2);
      var e21 := hes[e12].opposite;
      LinkAfterFirst(he1, he2, e12, e21);
      LinkAfterSecond(he1, he2, e12, e21);
      hes := hes[e21 := hes[e21].(face := hes[he2].face)];
    }

    /** `SplitFace(he1, he2, ft)` as written (Mesh.cs:171-197). Returns `e12`. */
    method SplitFace(he1: nat, he2: nat, ft: FT) returns (r: Result<nat>)
      requires Fit(State()) && he1 < |hes| && he2 < |hes|
      modifies this
      ensures Agrees(r, State(), MeshOperations.SplitFace(old(State()), he1, he2, ft))
    {
      if hes[he1].face != hes[he2].face {
        return Err(InvalidOperation(DifferentFaces));
      }
      var found := MeshOperations.HalfedgeBetween(State(), hes[he1].target, hes[he2].target);
      if found.Err? {
        return Err(found.failure);
      }
      if found.value.Some? {
        return Err(InvalidOperation(AlreadyNeighbors));
      }
      var e12 := Divide(he1, he2);
      var made := CreateFace(Some(e12), ft);
      if made.Err? {
        return Err(made.failure);
      }
      r := Ok(e12);
    }

    /** `SplitFace` as evidently intended: two halfedges with one target are refused too. */
    method SplitFaceChecked(he1: nat, he2: nat, ft: FT) returns (r: Result<nat>)
      requires Fit(State()) && he1 < |hes| && he2 < |hes|
      modifies this
      ensures Agrees(r, State(), MeshOperations.SplitFaceChecked(old(State()), he1, he2, ft))
    {
      if hes[he1].face != hes[he2].face {
        return Err(InvalidOperation(DifferentFaces));
      }
      if hes[he1].target == hes[he2].target {
        return Err(InvalidOperation(SameTarget));
      }
      r := SplitFace(he1, he2, ft);
    }

    // JoinFaces(he) (Mesh.cs:219-255)

    /** Mesh.cs:226-231: `Bounding` of the near face `f` moves off `h`, and the far face goes. */
    method RetireFaces(h: nat, f: nat)
      requires Closed(hes) && h < |hes| && f < |fs|
      modifies this
      ensures State() == Joins.Retire(old(State()), h, f)
    {
      if fs[f].bounding == h {
        fs := fs[f := fs[f].(bounding := hes[h].next)];
      }
      DeleteFace(hes[hes[h].opposite].face);
    }

    /** Mesh.cs:240-241: the endpoints of `h` stop leaving by `h` and `h.Opposite`. */
    method Reanchor(h: nat)
      requires Closed(hes) && VerticesClosed(hes, vs) && h < |hes|
      modifies this
      ensures State() == Joins.Reanchor(old(State()), h, NextAtTarget(old(hes), h))
    {
      var s, t, o := Source(hes, h), hes[h].target, hes[h].opposite;
      if vs[s].outgoing == Some(h) {
        vs := vs[s := vs[s].(outgoing := Some(NextAtSource(hes, h)))];
      }
      if vs[t].outgoing == Some(o) {
        vs := vs[t := vs[t].(outgoing := Some(NextAtTarget(hes, h)))];
      }
    }

    /** Mesh.cs:244-248, each assignment reading what the ones before it left. */
    method Unlink(h: nat)
      requires Closed(hes) && h < |hes|
      modifies this
      ensures State() == Joins.Unlink(old(State()), h)
    {
      var p := hes[h].previous;
      hes := hes[p := hes[p].(next := NextAtSource(hes, h))];
      var ns := NextAtSource(hes, h);
      hes := hes[ns := hes[ns].(previous := hes[h].previous)];
      var n := hes[h].next;
      hes := hes[n := hes[n].(previous := PreviousAtTarget(hes, h))];
      var pt := PreviousAtTarget(hes, h);
      hes := hes[pt := hes[pt].(next := hes[h].next)];
    }

    /** Mesh.cs:232-251: the far ring `ring` joins face `f`, the endpoints are re-anchored, the
        pair is cut out of its rings and the edge deleted. */
    method MergeRing(h: nat, ring: seq<nat>, f: nat)
      requires Fit(State()) && h < |hes| && f < |fs| && forall i | 0 <= i < |ring| :: ring[i] < |hes|
      modifies this
      ensures State() == Joins.Merge(old(State()), h, ring, f, NextAtTarget(old(hes), h))
    {
      ghost var b := State();
      ghost var w := NextAtTarget(hes, h);
      SetRingFaces(ring, Some(f));
      SetFacesFits(b, ring, Some(f));
      RelabelKeepsNextAtTarget(b.hes, ring, Some(f), h);
      Reanchor(h);
      Unlink(h);
      Joins.RewireFits(b, h, ring, f, w);
      DeleteEdge(hes[h].edge);
    }

    /** `JoinFaces(he)` as written (Mesh.cs:219-255); `None` is a null argument. Returns the face
        that remains. */
    method JoinFaces(he: Option<nat>) returns (r: Result<nat>)
      requires Fit(State()) && (he.Some? ==> he.value < |hes|)
      modifies this
      ensures Agrees(r, State(), Joins.JoinFaces(old(State()), he))
    {
      if he.None? {
        return Err(ArgumentNull);
      }
      var h := he.value;
      var o := hes[h].opposite;
      if hes[h].face == hes[o].face {
        return Err(Argument(SameFace));
      }
      if hes[h].face.None? {
        return Err(Argument(OnBoundary));
      }
      ghost var a := State();
      ghost var w := NextAtTarget(a.hes, h);
      assert Joins.JoinFaces(a, he) == Joins.Join(a, h, w);
      var f := hes[h].face.value;
      RetireFaces(h, f);
      Joins.RetireFits(a, h, f);
      var walk := Orbit(hes, AlongNext, o);
      if walk.None? {
        return Err(Diverges);
      }
      TraceReturns(hes, AlongNext, o, o, |hes|);
      MergeRing(h, walk.value, f);
      r := Ok(f);
    }

    // SplitVertex(he1, he2, vt) (Mesh.cs:301-335)

    /** One batch of Mesh.cs:315-323: `e` is linked in after `he`. */
    method LinkAfter(he: nat, e: nat)
      requires Closed(hes) && he < |hes| && e < |hes|
      modifies this
      ensures State() == old(State()).(hes := VertexSplits.LinkedAfter(old(hes), he, e))
    {
      hes := hes[e := hes[e].(next := hes[he].next)];
      var n := hes[he].next;
      hes := hes[n := hes[n].(previous := e)];
      hes := hes[he := hes[he].(next := e)];
      hes := hes[e := hes[e].(previous := he)];
    }

    /** `foreach (var he in movedIncomings) he.Target = v;` (Mesh.cs:328-331). */
    method Retarget(moved: seq<nat>, v: nat)
      requires forall i | 0 <= i < |moved| :: moved[i] < |hes|
      modifies this
      ensures State() == old(State()).(hes := VertexSplits.Retargeted(old(hes), moved, v))
    {
      ghost var h0 := hes;
      var i := 0;
      while i < |moved|
        invariant 0 <= i <= |moved| && |hes| == |h0|
        invariant State() == old(State()).(hes := hes)
        invariant forall x | 0 <= x < |hes| :: hes[x] == if x in moved[..i] then h0[x].(target := v) else h0[x]
      {
        var he := moved[i];
        hes := hes[he := hes[he].(target := v)];
        assert moved[..i + 1] == moved[..i] + [he];
        i := i + 1;
      }
      assert moved[..i] == moved;
      assert hes == VertexSplits.Retargeted(h0, moved, v);
    }

    /** Mesh.cs:305-323: the new vertex `v1`, the new edge from `v1` to `v2 = he1.Target`,
        `v1.Outgoing := e12`, and the two batches of links. Returns `v1` and `e12`. */
    method Sprout(he1: nat, he2: nat, vt: VT) returns (v1: nat, e12: nat)
      requires Closed(hes) && he1 < |hes| && he2 < |hes|
      modifies this
      ensures State() == VertexSplits.Sprung(old(State()), he1, he2, vt)
      ensures v1 == |old(vs)| && e12 == |old(hes)|
    {
      var v2 := hes[he1].target;
      v1 := CreateVertex(vt);
      e12 := CreateEdgeInvalid(v1, v2);
      var e21 := hes[e12].opposite;
      vs := vs[v1 := vs[v1].(outgoing := Some(e12))];
      LinkAfter(he1, e12);
      LinkAfter(he2, e21);
    }

    /** `SplitVertex(he1, he2, vt)` as written (Mesh.cs:301-335). Returns `e12`. */
    method SplitVertex(he1: nat, he2: nat, vt: VT) returns (r: Result<nat>)
      requires Fit(State()) && he1 < |hes| && he2 < |hes|
      modifies this
      ensures Agrees(r, State(), VertexSplits.SplitVertex(old(State()), he1, he2, vt))
    {
      if hes[he1].target != hes[he2].target {
        return Err(Argument(DifferentTargets));
      }
      if he1 == he2 && hes[he1].face.None? {
        return Err(Argument(OnBoundary));
      }
      r := SplitAround(he1, he2, vt);
    }

    /** Mesh.cs:305-333, once the guards of Mesh.cs:303-304 have passed. */
    method SplitAround(he1: nat, he2: nat, vt: VT) returns (r: Result<nat>)
      requires Fit(State()) && he1 < |hes| && he2 < |hes|
      requires hes[he1].target == hes[he2].target && (he1 == he2 ==> hes[he1].face.Some?)
      modifies this
      ensures Agrees(r, State(), VertexSplits.SplitVertex(old(State()), he1, he2, vt))
    {
      ghost var a := State();
      var v2 := hes[he1].target;
      var v1, e12 := Sprout(he1, he2, vt);
      assert vs[v2] == a.vs[v2];
      if vs[v2].outgoing.None? {
        return Err(NullReference);
      }
      var start := hes[vs[v2].outgoing.value].opposite;
      var moved := VertexSplits.MovedIncomings(hes, start, he1, he2);
      if moved.None? {
        return Err(Diverges);
      }
      Retarget(moved.value, v1);
      r := Ok(e12);
    }

    // CreateTriangle(v1, v2, vt3, ft) (Mesh.cs:97-151)

    /** Mesh.cs:122-125, each assignment reading what the ones before it left. */
    method ThreadAround(e12: nat, e32: nat, e13: nat)
      requires Closed(hes) && e12 < |hes| && e32 < |hes| && e13 < |hes|
      modifies this
      ensures State() == old(State()).(hes := MeshOperations.Threaded(old(hes), e12, e32, e13))
    {
      ghost var h0 := hes;
      hes := hes[e32 := hes[e32].(next := hes[e12].next)];
      ghost var h1 := hes;
      hes := hes[e13 := hes[e13].(previous := hes[e12].previous)];
      ghost var h2 := hes;
      var p := hes[e12].previous;
      hes := hes[p := hes[p].(next := e13)];
      ghost var h3 := hes;
      var n := hes[e12].next;
      hes := hes[n := hes[n].(previous := e32)];
      ThreadSteps(h0, e12, e32, e13, h1, h2, h3, hes);
    }

    /** Mesh.cs:127-131. */
    method TurnInto(e12: nat, e23: nat, e32: nat, e31: nat, e13: nat)
      requires Closed(hes) && e12 < |hes| && e23 < |hes| && e32 < |hes| && e31 < |hes| && e13 < |hes|
      modifies this
      ensures State() == old(State()).(hes := MeshOperations.Turned(old(hes), e12, e23, e32, e31, e13))
    {
      hes := hes[e12 := hes[e12].(next := e23)];
      hes := hes[e12 := hes[e12].(previous := e31)];
      hes := hes[e32 := hes[e32].(previous := e13)];
      hes := hes[e13 := hes[e13].(next := e32)];
    }

    /** Mesh.cs:133-137. */
    method CloseTriangle(e12: nat, e23: nat, e31: nat)
      requires Closed(hes) && e12 < |hes| && e23 < |hes| && e31 < |hes|
      modifies this
      ensures State() == old(State()).(hes := MeshOperations.Closing(old(hes), e12, e23, e31))
    {
      hes := hes[e23 := hes[e23].(previous := e12)];
      hes := hes[e23 := hes[e23].(next := e31)];
      hes := hes[e31 := hes[e31].(previous := e23)];
      hes := hes[e31 := hes[e31].(next := e12)];
    }

    /** Mesh.cs:109-119: the new vertex `v3`, the edges v2-v3 and v3-v1, and the two
        `Outgoing` updates. Returns `e23` and `e31`. */
    method SproutTriangle(v1: nat, v2: nat, vt3: VT) returns (e23: nat, e31: nat)
      requires v1 < |vs|
      modifies this
      ensures (State(), e23, e31) == MeshOperations.Sprout(old(State()), v1, v2, vt3)
    {
      var v3 := CreateVertex(vt3);
      e23 := CreateEdgeInvalid(v2, v3);
      var e32 := hes[e23].opposite;
      e31 := CreateEdgeInvalid(v3, v1);
      var e13 := hes[e31].opposite;
      vs := vs[v3 := vs[v3].(outgoing := Some(e32))];
      vs := vs[v1 := vs[v1].(outgoing := Some(e13))];
    }

    /** Mesh.cs:109-137: the new vertex and edges, and the rewiring around the boundary
        halfedge `e12` from `v1` to `v2`. */
    method Adjoin(v1: nat, v2: nat, e12: nat, vt3: VT)
      requires Closed(hes) && v1 < |vs| && e12 < |hes|
      modifies this
      ensures State() == MeshOperations.Adjoin(old(State()), v1, v2, e12, vt3)
    {
      ghost var a := State();
      var e23, e31 := SproutTriangle(v1, v2, vt3);
      MeshOperations.SproutAdds(a, v1, v2, vt3);
      var e32, e13 := hes[e23].opposite, hes[e31].opposite;
      ThreadAround(e12, e32, e13);
      TurnInto(e12, e23, e32, e31, e13);
      CloseTriangle(e12, e23, e31);
    }

    /**
     * `CreateTriangle(v1, v2, vt3, ft)` (Mesh.cs:97-151): a new vertex and face outside the
     * boundary halfedge from `v1` to `v2`. Returns the new face.
     */
    method CreateTriangleOnBoundary(v1: nat, v2: nat, vt3: VT, ft: FT) returns (r: Result<nat>)
      requires Fit(State()) && v1 < |vs| && v2 < |vs|
      modifies this
      ensures Agrees(r, State(), MeshOperations.CreateTriangleOnBoundary(old(State()), v1, v2, vt3, ft))
    {
      var found := MeshOperations.HalfedgeBetween(State(), v1, v2);
      if found.Err? {
        return Err(found.failure);
      }
      if found.value.None? {
        return Err(NullReference);
      }
      var e12 := found.value.value;
      if hes[e12].face.Some? {
        return Err(InvalidOperation(NotBoundary));
      }
      Adjoin(v1, v2, e12, vt3);
      r := CreateFace(Some(e12), ft);
    }

    /** `CreateTriangle(vt1, vt2, vt3, ft)` (Mesh.cs:61-86): an isolated triangle. */
    method CreateIsolatedTriangle(vt1: VT, vt2: VT, vt3: VT, ft: FT) returns (r: Result<nat>)
      requires Fit(State())
      modifies this
      ensures Agrees(r, State(), Triangles.CreateIsolatedTriangle(old(State()), vt1, vt2, vt3, ft))
    {
      ghost var a := State();
      var v1 := CreateVertex(vt1);
      var v2 := CreateVertex(vt2);
      var e12 := CreateEdgeInvalid(v1, v2);
      var e21 := hes[e12].opposite;
      vs := vs[v1 := vs[v1].(outgoing := Some(e12))];
      vs := vs[v2 := vs[v2].(outgoing := Some(e21))];
      hes := hes[e12 := hes[e12].(next := e21)];
      hes := hes[e12 := hes[e12].(previous := e21)];
      hes := hes[e21 := hes[e21].(next := e12)];
      hes := hes[e21 := hes[e21].(previous := e12)];
      assert (State(), v1, v2, e12) == Triangles.IsolatedEdge(a, vt1, vt2);
      Triangles.IsolatedEdgeFits(a, vt1, vt2);
      r := CreateTriangleOnBoundary(v1, v2, vt3, ft);
    }

    /** `CreateTriangle(he, vt3, ft)` (Mesh.cs:543-552): a triangle outside a boundary halfedge. */
    method CreateTriangleOnHalfedge(he: nat, vt3: VT, ft: FT) returns (r: Result<nat>)
      requires Fit(State()) && he < |hes|
      modifies this
      ensures Agrees(r, State(), Triangles.CreateTriangleOnHalfedge(old(State()), he, vt3, ft))
    {
      if hes[he].face.Some? {
        return Err(Argument(NotBoundary));
      }
      r := CreateTriangleOnBoundary(Source(hes, he), hes[he].target, vt3, ft);
    }

    /**
     * `CreateTriangle(v1, v2, v3, ft)` (Mesh.cs:516-533), which splits with the unchecked
     * `SplitFace`. Returns the `Face` of the new halfedge.
     */
    method CreateTriangleBetween(v1: nat, v2: nat, v3: nat, ft: FT) returns (r: Result<Option<nat>>)
      requires Fit(State()) && v1 < |vs| && v2 < |vs| && v3 < |vs|
      modifies this
      ensures Agrees(r, State(), Triangles.CreateTriangleBetween(old(State()), v1, v2, v3, ft))
    {
      var e23 := MeshOperations.HalfedgeBetween(State(), v2, v3);
      if e23.Err? {
        return Err(e23.failure);
      }
      var e31 := MeshOperations.HalfedgeBetween(State(), v3, v1);
      if e31.Err? {
        return Err(e31.failure);
      }
      var e12 := MeshOperations.HalfedgeBetween(State(), v1, v2);
      if e12.Err? {
        return Err(e12.failure);
      }
      if e23.value.None? || e31.value.None? {
        return Err(InvalidOperation(NotNeighbors));
      }
      if e12.value.Some? {
        return Err(InvalidOperation(AlreadyNeighbors));
      }
      if hes[e23.value.value].face.Some? || hes[e31.value.value].face.Some? {
        return Err(InvalidOperation(NotBoundary));
      }
      var made := SplitFace(e31.value.value, hes[e23.value.value].previous, ft);
      if made.Err? {
        return Err(made.failure);
      }
      r := Ok(hes[made.value].face);
    }
  }
}
