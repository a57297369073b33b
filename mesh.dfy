/**
 * The mesh's records and lists (Mesh.cs:22-25), its private creation and deletion routines
 * (Mesh.cs:349-455), `CreateFace(halfedge)` (Mesh.cs:465-487), `IsEmpty` (Mesh.cs:566-569) and
 * the mesh-wide check `AssertValid` (Mesh.cs:579-598), on values.
 */
module Meshes {
  import opened Wrappers
  import opened Halfedges
  import opened Edges
  import opened Faces
  import opened Vertices

  /**
   * Every record ever created stays in its arena (`hes`, `vs`, `es`, `fs`) and its id is its
   * index there. The lists `halfedges`, `vertices`, `edges` and `faces` are the mesh's
   * `_halfedges`, `_vertices`, `_edges` and `_faces`: the ids of the records the mesh holds,
   * in the order they were added. A record removed from its list stays in the arena, as an
   * object that is no longer referenced by the mesh's lists.
   */
  datatype Arena<VT, FT> = Arena(
    hes: seq<Halfedge>, vs: seq<Vertex<VT>>, es: seq<Edge>, fs: seq<Face<FT>>,
    halfedges: seq<nat>, vertices: seq<nat>, edges: seq<nat>, faces: seq<nat>)

  /** A freshly constructed mesh. */
  function EmptyMesh<VT, FT>(): Arena<VT, FT>
  {
    Arena([], [], [], [], [], [], [], [])
  }

  /** Every id stored anywhere names a record of its arena, and no list holds an id twice. */
  ghost predicate Fit<VT, FT>(a: Arena<VT, FT>)
  {
    && Closed(a.hes) && EdgesClosed(a.hes, a.es) && FacesClosed(a.hes, a.fs) && VerticesClosed(a.hes, a.vs)
    && (forall h | h in a.halfedges :: h < |a.hes|)
    && (forall v | v in a.vertices :: v < |a.vs|)
    && (forall e | e in a.edges :: e < |a.es|)
    && (forall f | f in a.faces :: f < |a.fs|)
    && Distinct(a.halfedges) && Distinct(a.vertices) && Distinct(a.edges) && Distinct(a.faces)
  }

  /** Why a guard of an operator throws. */
  datatype Why =
    | NotNeighbors       // no halfedge runs between the two vertices
    | AlreadyNeighbors   // a halfedge between the two vertices exists already
    | NotBoundary        // the halfedge must have no face, and has one
    | OnBoundary         // the halfedge must have a face, and has none
    | HasFace            // the halfedge has a face already
    | DifferentFaces     // the halfedges must share a face
    | SameFace           // the two sides of the halfedge are one face
    | DifferentTargets   // the halfedges must end at the same vertex
    | SameTarget         // the halfedges must end at different vertices
    | NotAround          // the halfedges do not arrive at their vertex in one fan

  /** The exceptions an operator raises; `Diverges` is a walk the source never finishes. */
  datatype Failure =
    | ArgumentNull                  // ArgumentNullException
    | Argument(why: Why)            // ArgumentException
    | InvalidOperation(why: Why)    // InvalidOperationException
    | NullReference                 // a member access through a null reference
    | Diverges                      // a ring walk that never comes back to its start
    | OutOfRange                    // ArgumentOutOfRangeException: an index past the end of a list

  datatype Result<T> = Ok(value: T) | Err(failure: Failure)

  // Single-field updates, one per assignment statement of the source.

  function SetTarget<VT, FT>(a: Arena<VT, FT>, h: nat, v: nat): Arena<VT, FT>
    requires h < |a.hes|
  {
    a.(hes := a.hes[h := a.hes[h].(target := v)])
  }

  function SetFace<VT, FT>(a: Arena<VT, FT>, h: nat, f: Option<nat>): Arena<VT, FT>
    requires h < |a.hes|
  {
    a.(hes := a.hes[h := a.hes[h].(face := f)])
  }

  function SetNext<VT, FT>(a: Arena<VT, FT>, h: nat, n: nat): Arena<VT, FT>
    requires h < |a.hes|
  {
    a.(hes := a.hes[h := a.hes[h].(next := n)])
  }

  function SetPrevious<VT, FT>(a: Arena<VT, FT>, h: nat, p: nat): Arena<VT, FT>
    requires h < |a.hes|
  {
    a.(hes := a.hes[h := a.hes[h].(previous := p)])
  }

  function SetOutgoing<VT, FT>(a: Arena<VT, FT>, v: nat, h: nat): Arena<VT, FT>
    requires v < |a.vs|
  {
    a.(vs := a.vs[v := a.vs[v].(outgoing := Some(h))])
  }

  function SetBounding<VT, FT>(a: Arena<VT, FT>, f: nat, h: nat): Arena<VT, FT>
    requires f < |a.fs|
  {
    a.(fs := a.fs[f := a.fs[f].(bounding := h)])
  }

  // Private creation and deletion (Mesh.cs:349-455)

  /** `CreateVertex` (Mesh.cs:349-358): a vertex without `Outgoing`, added to `_vertices`. */
  function CreateVertex<VT, FT>(a: Arena<VT, FT>, traits: VT): (Arena<VT, FT>, nat)
  {
    var v := |a.vs|;
    (a.(vs := a.vs + [Vertex(None, traits)], vertices := a.vertices + [v]), v)
  }

  /** `CreateHalfedge` (Mesh.cs:360-368): a halfedge whose pointers are not set yet (here they
      point at the halfedge itself and at record 0), added to `_halfedges`. */
  function CreateHalfedge<VT, FT>(a: Arena<VT, FT>): (Arena<VT, FT>, nat)
  {
    var h := |a.hes|;
    (a.(hes := a.hes + [Halfedge(0, None, h, h, h, 0)], halfedges := a.halfedges + [h]), h)
  }

  /** `CreateEdge` (Mesh.cs:370-378): an edge whose `Half1` is not set yet, added to `_edges`. */
  function CreateEdge<VT, FT>(a: Arena<VT, FT>): (Arena<VT, FT>, nat)
  {
    var e := |a.es|;
    (a.(es := a.es + [Edge(0)], edges := a.edges + [e]), e)
  }

  /** The arena and id that `CreateEdgeInvalid` leaves, stated record by record. */
  function EdgeAdded<VT, FT>(a: Arena<VT, FT>, source: nat, target: nat): (Arena<VT, FT>, nat)
  {
    var he1, he2, e := |a.hes|, |a.hes| + 1, |a.es|;
    (a.(hes := a.hes + [Halfedge(target, None, he2, he1, he1, e), Halfedge(source, None, he1, he2, he2, e)],
        es := a.es + [Edge(he1)], halfedges := a.halfedges + [he1, he2], edges := a.edges + [e]), he1)
  }

  /**
   * `CreateEdgeInvalid(source, target)` (Mesh.cs:423-455), statement by statement: two new
   * halfedges that are each other's `Opposite`, end at `target` and `source`, and share a new
   * edge whose `Half1` is the first; `Next` and `Previous` are left unset. Returns the first.
   */
  function CreateEdgeInvalid<VT, FT>(a: Arena<VT, FT>, source: nat, target: nat): (r: (Arena<VT, FT>, nat))
    ensures r == EdgeAdded(a, source, target)
    ensures Closed(a.hes) ==> Closed(r.0.hes)
  {
    var (a1, he1) := CreateHalfedge(a);
    var a2 := SetTarget(a1, he1, target);
    var (a3, he2) := CreateHalfedge(a2);
    var a4 := SetTarget(a3, he2, source);
    var a5 := a4.(hes := a4.hes[he1 := a4.hes[he1].(opposite := he2)]);
    var a6 := a5.(hes := a5.hes[he2 := a5.hes[he2].(opposite := he1)]);
    var (a7, e) := CreateEdge(a6);
    var a8 := a7.(es := a7.es[e := Edge(he1)]);
    var a9 := a8.(hes := a8.hes[he1 := a8.hes[he1].(edge := e)]);
    var b := a9.(hes := a9.hes[he2 := a9.hes[he2].(edge := e)]);
    assert b == EdgeAdded(a, source, target).0 by {
      assert b.hes == a.hes + [Halfedge(target, None, he2, he1, he1, e), Halfedge(source, None, he1, he2, he2, e)];
    }
    (b, he1)
  }

  /** `DeleteEdge` (Mesh.cs:390-397): `Half1`, then `Half2`, then the edge leave their lists. */
  function DeleteEdge<VT, FT>(a: Arena<VT, FT>, e: nat): Arena<VT, FT>
    requires Closed(a.hes) && EdgesClosed(a.hes, a.es) && e < |a.es|
  {
    var h1 := a.es[e].half1;
    var h2 := Half2(a.hes, a.es, e);
    a.(halfedges := RemoveFirst(RemoveFirst(a.halfedges, h1), h2), edges := RemoveFirst(a.edges, e))
  }

  /** `DeleteFace` (Mesh.cs:400-405); `List.Remove(null)` finds nothing and removes nothing. */
  function DeleteFace<VT, FT>(a: Arena<VT, FT>, f: Option<nat>): Arena<VT, FT>
  {
    match f
    case None => a
    case Some(g) => a.(faces := RemoveFirst(a.faces, g))
  }

  /** `IsEmpty` (Mesh.cs:566-569). */
  predicate IsEmpty<VT, FT>(a: Arena<VT, FT>)
  {
    |a.vertices| == 0
  }

  /** The halfedges of `hes` with the ids in `ring` moved onto face `f`. */
  function Relabel(hes: seq<Halfedge>, ring: seq<nat>, f: Option<nat>): seq<Halfedge>
  {
    seq(|hes|, h requires 0 <= h < |hes| => if h in ring then hes[h].(face := f) else hes[h])
  }

  /** The `foreach (var he in ring) he.Face = f;` loops (Mesh.cs:233-236, 477-480). */
  function SetFaces<VT, FT>(a: Arena<VT, FT>, ring: seq<nat>, f: Option<nat>): (r: Arena<VT, FT>)
    ensures Closed(a.hes) ==> Closed(r.hes)
  {
    a.(hes := Relabel(a.hes, ring, f))
  }

  /**
   * `CreateFace(halfedge, ft)` (Mesh.cs:465-487): a new face bounded by `halfedge`, set as the
   * face of every halfedge of `halfedge.Ring`. `None` is a null argument.
   */
  function CreateFace<VT, FT>(a: Arena<VT, FT>, halfedge: Option<nat>, ft: FT): (r: Result<(Arena<VT, FT>, nat)>)
    requires Closed(a.hes) && (halfedge.Some? ==> halfedge.value < |a.hes|)
    ensures r.Ok? ==> |r.value.0.hes| == |a.hes| && Closed(r.value.0.hes) && r.value.1 == |a.fs| && r.value.0.vs == a.vs
  {
    match halfedge
    case None => Err(ArgumentNull)
    case Some(h) =>
      if a.hes[h].face.Some? then Err(InvalidOperation(HasFace))
      else match Orbit(a.hes, AlongNext, h)
        case None => Err(Diverges)
        case Some(ring) =>
          var f := |a.fs|;
          Ok((SetFaces(a.(fs := a.fs + [Face(h, ft)], faces := a.faces + [f]), ring, Some(f)), f))
  }

  // The mesh-wide check (Mesh.cs:579-598)

  /** `Halfedge.AssertValid` (Halfedge.cs:58-72): `Opposite.Opposite` is the halfedge itself and
      the halfedge is not a self-loop. The non-null checks hold of every id. */
  ghost predicate HalfedgeValid<VT, FT>(a: Arena<VT, FT>, h: nat)
    requires Fit(a) && h < |a.hes|
  {
    a.hes[a.hes[h].opposite].opposite == h && Source(a.hes, h) != a.hes[h].target
  }

  /** The ring count check of `AssertValid` (Mesh.cs:590-596): the ring ends, after at most
      half as many halfedges as the mesh has. */
  ghost predicate RingBounded<VT, FT>(a: Arena<VT, FT>, h: nat)
    requires Fit(a) && h < |a.hes|
  {
    Orbit(a.hes, AlongNext, h).Some? && |Orbit(a.hes, AlongNext, h).value| <= |a.halfedges| / 2
  }

  /** `Mesh.AssertValid` (Mesh.cs:579-598). */
  ghost predicate Valid<VT, FT>(a: Arena<VT, FT>)
    requires Fit(a)
  {
    && (forall v | v in a.vertices :: VertexValid(a.hes, a.es, a.vs, v))
    && (forall h | h in a.halfedges :: HalfedgeValid(a, h) && RingBounded(a, h))
  }

  // The single-field updates keep the arena fit when the id they store names a record

  lemma SetLinkFits<VT, FT>(a: Arena<VT, FT>, h: nat, x: nat)
    requires Fit(a) && h < |a.hes| && x < |a.hes|
    ensures Fit(SetNext(a, h, x)) && Fit(SetPrevious(a, h, x))
  {
  }

  lemma SetTargetFits<VT, FT>(a: Arena<VT, FT>, h: nat, v: nat)
    requires Fit(a) && h < |a.hes| && v < |a.vs|
    ensures Fit(SetTarget(a, h, v))
  {
  }

  lemma SetFaceFits<VT, FT>(a: Arena<VT, FT>, h: nat, f: Option<nat>)
    requires Fit(a) && h < |a.hes| && (f.Some? ==> f.value < |a.fs|)
    ensures Fit(SetFace(a, h, f))
  {
  }

  lemma SetOutgoingFits<VT, FT>(a: Arena<VT, FT>, v: nat, h: nat)
    requires Fit(a) && v < |a.vs| && h < |a.hes|
    ensures Fit(SetOutgoing(a, v, h))
  {
  }

  lemma SetBoundingFits<VT, FT>(a: Arena<VT, FT>, f: nat, h: nat)
    requires Fit(a) && f < |a.fs| && h < |a.hes|
    ensures Fit(SetBounding(a, f, h))
  {
  }

  lemma SetFacesFits<VT, FT>(a: Arena<VT, FT>, ring: seq<nat>, f: Option<nat>)
    requires Fit(a) && (f.Some? ==> f.value < |a.fs|)
    ensures Fit(SetFaces(a, ring, f))
  {
  }

  // What the private routines do

  /** `CreateVertex` adds one new vertex, with no `Outgoing`, and changes nothing else. */
  lemma CreateVertexAdds<VT, FT>(a: Arena<VT, FT>, traits: VT)
    requires Fit(a)
    ensures var (b, v) := CreateVertex(a, traits);
      && Fit(b) && v !in a.vertices && b.vertices == a.vertices + [v]
      && v < |b.vs| && b.vs[v] == Vertex(None, traits) && b.vs[..|a.vs|] == a.vs
      && b.hes == a.hes && b.es == a.es && b.fs == a.fs
      && b.halfedges == a.halfedges && b.edges == a.edges && b.faces == a.faces
  {
    var (b, v) := CreateVertex(a, traits);
    DistinctAppend(a.vertices, v);
  }

  /**
   * `CreateEdgeInvalid(source, target)` returns a new halfedge `he1` from `source` to `target`
   * whose `Opposite` is the other new halfedge, running back; the two share a new edge whose
   * `Half1` is `he1`; neither has a face; the earlier records are untouched.
   */
  lemma CreateEdgeInvalidPairs<VT, FT>(a: Arena<VT, FT>, source: nat, target: nat)
    requires Fit(a) && source < |a.vs| && target < |a.vs|
    ensures var (b, he1) := CreateEdgeInvalid(a, source, target);
      var he2, e := he1 + 1, |a.es|;
      && Fit(b) && he1 == |a.hes| && |b.hes| == |a.hes| + 2 && |b.es| == |a.es| + 1
      && b.hes[he1].target == target && Source(b.hes, he1) == source
      && b.hes[he1].opposite == he2 && b.hes[he2].opposite == he1
      && b.hes[he1].edge == e && b.hes[he2].edge == e && b.es[e].half1 == he1
      && b.hes[he1].face.None? && b.hes[he2].face.None?
      && b.hes[..|a.hes|] == a.hes && b.es[..|a.es|] == a.es && b.vs == a.vs && b.fs == a.fs
      && he1 !in a.halfedges && he2 !in a.halfedges && e !in a.edges
      && b.halfedges == a.halfedges + [he1, he2] && b.edges == a.edges + [e]
      && b.vertices == a.vertices && b.faces == a.faces
  {
    var (b, he1) := CreateEdgeInvalid(a, source, target);
    var he2, e := he1 + 1, |a.es|;
    assert b.hes == a.hes + [Halfedge(target, None, he2, he1, he1, e), Halfedge(source, None, he1, he2, he2, e)];
    assert b.es == a.es + [Edge(he1)];
    DistinctAppend(a.halfedges, he1);
    DistinctAppend(a.halfedges + [he1], he2);
    assert a.halfedges + [he1] + [he2] == b.halfedges;
    DistinctAppend(a.edges, e);
  }

  /** `DeleteEdge` takes the edge and its two halfedges out of the lists and nothing else. */
  lemma DeleteEdgeRemoves<VT, FT>(a: Arena<VT, FT>, e: nat)
    requires Fit(a) && e in a.edges
    requires a.es[e].half1 in a.halfedges && Half2(a.hes, a.es, e) in a.halfedges
    requires Half2(a.hes, a.es, e) != a.es[e].half1
    ensures var b := DeleteEdge(a, e);
      && Fit(b)
      && |b.halfedges| == |a.halfedges| - 2 && |b.edges| == |a.edges| - 1
      && (forall h :: h in b.halfedges <==> h in a.halfedges && h != a.es[e].half1 && h != Half2(a.hes, a.es, e))
      && (forall x :: x in b.edges <==> x in a.edges && x != e)
      && b.hes == a.hes && b.vs == a.vs && b.es == a.es && b.fs == a.fs
      && b.vertices == a.vertices && b.faces == a.faces
  {
    var h1, h2 := a.es[e].half1, Half2(a.hes, a.es, e);
    RemoveFirstDistinct(a.halfedges, h1);
    RemoveFirstDistinct(RemoveFirst(a.halfedges, h1), h2);
    RemoveFirstDistinct(a.edges, e);
  }

  /** `DeleteFace` takes a face out of `_faces`; a null face leaves the mesh as it was. */
  lemma DeleteFaceRemoves<VT, FT>(a: Arena<VT, FT>, f: Option<nat>)
    requires Fit(a)
    ensures var b := DeleteFace(a, f);
      && Fit(b)
      && (f.None? ==> b == a)
      && (f.Some? && f.value in a.faces ==> |b.faces| == |a.faces| - 1)
      && (forall g :: g in b.faces <==> g in a.faces && f != Some(g))
      && b.hes == a.hes && b.vs == a.vs && b.es == a.es && b.fs == a.fs
      && b.halfedges == a.halfedges && b.vertices == a.vertices && b.edges == a.edges
  {
    if f.Some? {
      RemoveFirstDistinct(a.faces, f.value);
    }
  }

  // What CreateFace does

  /** The relabelled arena keeps every link, target and edge. */
  lemma RelabelKeepsLinks(hes: seq<Halfedge>, ring: seq<nat>, f: Option<nat>)
    ensures SameLinks(hes, Relabel(hes, ring, f))
    ensures forall h | 0 <= h < |hes| ::
      Relabel(hes, ring, f)[h].target == hes[h].target && Relabel(hes, ring, f)[h].edge == hes[h].edge
  {
  }

  /** `CreateFace(halfedge)` throws `ArgumentNullException` for null and
      `InvalidOperationException` for a halfedge that has a face, and otherwise fails only
      when the ring never comes back. */
  lemma CreateFaceGuards<VT, FT>(a: Arena<VT, FT>, halfedge: Option<nat>, ft: FT)
    requires Closed(a.hes) && (halfedge.Some? ==> halfedge.value < |a.hes|)
    ensures halfedge.None? ==> CreateFace(a, halfedge, ft) == Err(ArgumentNull)
    ensures halfedge.Some? && a.hes[halfedge.value].face.Some? ==>
      CreateFace(a, halfedge, ft) == Err(InvalidOperation(HasFace))
    ensures halfedge.Some? && a.hes[halfedge.value].face.None? ==>
      (CreateFace(a, halfedge, ft).Err? <==> Orbit(a.hes, AlongNext, halfedge.value).None?)
  {
  }

  /**
   * Once the ring of a faceless halfedge ends, `CreateFace` adds one face whose `Bounding` is
   * the halfedge and whose `Perimeter` is the ring; exactly the halfedges of the ring now have
   * the new face; links, targets, edges and the other lists are unchanged.
   */
  lemma CreateFaceFillsRing<VT, FT>(a: Arena<VT, FT>, h: nat, ft: FT)
    requires Fit(a) && h < |a.hes| && a.hes[h].face.None? && Orbit(a.hes, AlongNext, h).Some?
    ensures CreateFace(a, Some(h), ft).Ok?
    ensures var (b, f) := CreateFace(a, Some(h), ft).value;
      var ring := Orbit(a.hes, AlongNext, h).value;
      && Fit(b) && f == |a.fs| && f !in a.faces && b.faces == a.faces + [f]
      && b.fs[..|a.fs|] == a.fs && b.fs[f] == Face(h, ft)
      && Perimeter(b.hes, b.fs, f) == Some(ring)
      && (forall x | 0 <= x < |a.hes| :: b.hes[x].face == if x in ring then Some(f) else a.hes[x].face)
      && SameLinks(a.hes, b.hes)
      && (forall x | 0 <= x < |a.hes| :: b.hes[x].target == a.hes[x].target && b.hes[x].edge == a.hes[x].edge)
      && b.vs == a.vs && b.es == a.es
      && b.halfedges == a.halfedges && b.vertices == a.vertices && b.edges == a.edges
  {
    var ring := Orbit(a.hes, AlongNext, h).value;
    var f := |a.fs|;
    var c := a.(fs := a.fs + [Face(h, ft)], faces := a.faces + [f]);
    var b := SetFaces(c, ring, Some(f));
    assert CreateFace(a, Some(h), ft) == Ok((b, f));
    FaceAddedFits(a, h, ft);
    SetFacesFits(c, ring, Some(f));
    RelabelKeepsLinks(a.hes, ring, Some(f));
    OrbitSameLinks(a.hes, b.hes, AlongNext, h);
  }

  /** Appending a face bounded by a halfedge of the arena keeps the arena fit; its id is new. */
  lemma FaceAddedFits<VT, FT>(a: Arena<VT, FT>, h: nat, ft: FT)
    requires Fit(a) && h < |a.hes|
    ensures |a.fs| !in a.faces && Fit(a.(fs := a.fs + [Face(h, ft)], faces := a.faces + [|a.fs|]))
  {
    DistinctAppend(a.faces, |a.fs|);
  }

  /** In a wired mesh `CreateFace` on a live boundary halfedge always succeeds, every halfedge
      of the new face is live, and the mesh stays wired. */
  lemma CreateFaceInWiredMesh<VT, FT>(a: Arena<VT, FT>, h: nat, ft: FT)
    requires Fit(a) && Wired(a.hes, a.halfedges) && h in a.halfedges && a.hes[h].face.None?
    ensures Orbit(a.hes, AlongNext, h).Some? && CreateFace(a, Some(h), ft).Ok?
    ensures forall x | x in Orbit(a.hes, AlongNext, h).value :: x in a.halfedges
    ensures Wired(CreateFace(a, Some(h), ft).value.0.hes, a.halfedges)
  {
    WalkReturns(a.hes, a.halfedges, AlongNext, h);
    var ring := Orbit(a.hes, AlongNext, h).value;
    var f := |a.fs|;
    var b := SetFaces(a.(fs := a.fs + [Face(h, ft)], faces := a.faces + [f]), ring, Some(f));
    assert CreateFace(a, Some(h), ft) == Ok((b, f));
    RelabelKeepsLinks(a.hes, ring, Some(f));
    WiredSameLinks(a.hes, b.hes, a.halfedges);
  }

  /** A new mesh is empty, and a mesh holding a created vertex is not. */
  lemma IsEmptyUntilVertex<VT, FT>(a: Arena<VT, FT>, traits: VT)
    ensures IsEmpty(EmptyMesh<VT, FT>())
    ensures !IsEmpty(CreateVertex(a, traits).0)
  {
  }

  /** In a wired mesh every live halfedge passes `Halfedge.AssertValid`. */
  lemma WiredHalfedgesValid<VT, FT>(a: Arena<VT, FT>)
    requires Fit(a) && Wired(a.hes, a.halfedges)
    ensures forall h | h in a.halfedges :: HalfedgeValid(a, h)
  {
    forall h | h in a.halfedges ensures HalfedgeValid(a, h) {
      assert WiredAt(a.hes, a.halfedges, h);
    }
  }
}
