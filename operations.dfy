/**
 * The public Euler operators of `Mesh` (Mesh.cs:61-335, 516-552) on values: each takes the
 * arena before the call and gives the arena after it, or the exception it throws. The bodies
 * follow the source statement by statement, each assignment reading the state the earlier
 * ones left, so that aliasing between the halfedges involved is what it is in the source.
 */
module MeshOperations {
  import opened Wrappers
  import opened Halfedges
  import opened Edges
  import opened Faces
  import opened Vertices
  import opened Meshes

  /**
   * `v.HalfedgeTo(w)` (Vertex.cs:62-69) as the operators call it, with its failures: a vertex
   * `w` without `Outgoing` throws at `Outgoing.Opposite`, and a walk around `w` that never
   * comes back diverges unless it meets a halfedge from `v` first (`FirstOrDefault` stops at
   * the first match). A walk in a finite arena visits no new halfedge after |hes| steps, so
   * searching its first |hes| + 1 halfedges is searching all of it.
   */
  function HalfedgeBetween<VT, FT>(a: Arena<VT, FT>, v: nat, w: nat): (r: Result<Option<nat>>)
    requires Fit(a) && w < |a.vs|
    ensures a.vs[w].outgoing.None? ==> r == Err(NullReference)
    ensures r.Ok? && r.value.Some? ==> r.value.value < |a.hes| && Source(a.hes, r.value.value) == v
    ensures a.vs[w].outgoing.Some? && Incomings(a.hes, a.vs, w).Some? ==>
      r == Ok(HalfedgeTo(a.hes, a.vs, v, w))
  {
    match a.vs[w].outgoing
    case None => Err(NullReference)
    case Some(o) =>
      match Incomings(a.hes, a.vs, w)
      case Some(_) => Ok(HalfedgeTo(a.hes, a.vs, v, w))
      case None =>
        var start := a.hes[o].opposite;
        var hit := FirstFrom(a.hes, Walked(a.hes, AroundTarget, start, |a.hes| + 1), v);
        if hit.Some? then Ok(hit) else Err(Diverges)
  }

  /**
   * When the walk around `w` does not come back, `FirstOrDefault` reads it lazily for ever. The
   * first |hes| + 1 steps decide it: the search diverges exactly when no step of the endless walk
   * starts at `v`, and otherwise finds the first step that does.
   */
  lemma HalfedgeBetweenLazy<VT, FT>(a: Arena<VT, FT>, v: nat, w: nat)
    requires Fit(a) && w < |a.vs| && a.vs[w].outgoing.Some? && Incomings(a.hes, a.vs, w).None?
    ensures var start := a.hes[a.vs[w].outgoing.value].opposite;
      HalfedgeBetween(a, v, w) == Err(Diverges) <==>
        forall k: nat :: Source(a.hes, Iterate(a.hes, AroundTarget, start, k)) != v
    ensures var start := a.hes[a.vs[w].outgoing.value].opposite;
      var r := HalfedgeBetween(a, v, w);
      r.Ok? ==>
        && r.value.Some?
        && exists k: nat :: && r.value.value == Iterate(a.hes, AroundTarget, start, k)
                            && forall j | 0 <= j < k :: Source(a.hes, Iterate(a.hes, AroundTarget, start, j)) != v
  {
    var start := a.hes[a.vs[w].outgoing.value].opposite;
    HalfedgeBetweenWindow(a, v, w);
    WindowDecides(a.hes, start, v);
  }

  /** When `w` has an `Outgoing` and the walk around it does not come back, `HalfedgeBetween` is
      the search of the first |hes| + 1 steps. */
  lemma HalfedgeBetweenWindow<VT, FT>(a: Arena<VT, FT>, v: nat, w: nat)
    requires Fit(a) && w < |a.vs| && a.vs[w].outgoing.Some? && Incomings(a.hes, a.vs, w).None?
    ensures var start := a.hes[a.vs[w].outgoing.value].opposite;
      var hit := FirstFrom(a.hes, Walked(a.hes, AroundTarget, start, |a.hes| + 1), v);
      HalfedgeBetween(a, v, w) == if hit.Some? then Ok(hit) else Err(Diverges)
  {
  }

  /** Searching the first |hes| + 1 steps of a walk is searching all of it. */
  lemma WindowDecides(hes: seq<Halfedge>, start: nat, v: nat)
    requires Closed(hes) && start < |hes|
    ensures var hit := FirstFrom(hes, Walked(hes, AroundTarget, start, |hes| + 1), v);
      && (hit.None? <==> forall k: nat :: Source(hes, Iterate(hes, AroundTarget, start, k)) != v)
      && (hit.Some? ==> exists k: nat :: && hit.value == Iterate(hes, AroundTarget, start, k)
                                          && forall j | 0 <= j < k :: Source(hes, Iterate(hes, AroundTarget, start, j)) != v)
  {
    if FirstFrom(hes, Walked(hes, AroundTarget, start, |hes| + 1), v).None? {
      WindowMisses(hes, start, v);
    } else {
      WindowFinds(hes, start, v);
    }
  }

  /** A window with no step from `v` means a walk with none: later steps repeat earlier ones. */
  lemma WindowMisses(hes: seq<Halfedge>, start: nat, v: nat)
    requires Closed(hes) && start < |hes|
    requires FirstFrom(hes, Walked(hes, AroundTarget, start, |hes| + 1), v).None?
    ensures forall k: nat :: Source(hes, Iterate(hes, AroundTarget, start, k)) != v
  {
    var walk := Walked(hes, AroundTarget, start, |hes| + 1);
    forall k: nat ensures Source(hes, Iterate(hes, AroundTarget, start, k)) != v {
      var r := WalkRevisits(hes, AroundTarget, start, k);
      assert walk[r] == Iterate(hes, AroundTarget, start, k);
    }
  }

  /** What the window finds is the first step of the walk that starts at `v`. */
  lemma WindowFinds(hes: seq<Halfedge>, start: nat, v: nat)
    requires Closed(hes) && start < |hes|
    requires FirstFrom(hes, Walked(hes, AroundTarget, start, |hes| + 1), v).Some?
    ensures var hit := FirstFrom(hes, Walked(hes, AroundTarget, start, |hes| + 1), v).value;
      && Source(hes, hit) == v
      && exists k: nat :: && hit == Iterate(hes, AroundTarget, start, k)
                          && forall j | 0 <= j < k :: Source(hes, Iterate(hes, AroundTarget, start, j)) != v
  {
    var walk := Walked(hes, AroundTarget, start, |hes| + 1);
    var hit := FirstFrom(hes, walk, v).value;
    var k :| 0 <= k < |walk| && walk[k] == hit && Source(hes, hit) == v
      && forall j | 0 <= j < k :: Source(hes, walk[j]) != v;
    var n: nat := k;
    assert hit == Iterate(hes, AroundTarget, start, n);
    assert forall j | 0 <= j < n :: walk[j] == Iterate(hes, AroundTarget, start, j);
  }

  // CreateTriangle(v1, v2, vt3, ft) (Mesh.cs:97-151)

  /** Mesh.cs:109-119: the new vertex `v3`, the edges v2-v3 and v3-v1, and the two `Outgoing`
      updates. Returns the arena, `e23` and `e31`. */
  function Sprout<VT, FT>(a: Arena<VT, FT>, v1: nat, v2: nat, vt3: VT): (r: (Arena<VT, FT>, nat, nat))
    requires v1 < |a.vs|
    ensures Closed(a.hes) ==> Closed(r.0.hes)
  {
    var (b0, v3) := CreateVertex(a, vt3);
    var (b1, e23) := CreateEdgeInvalid(b0, v2, v3);
    var e32 := b1.hes[e23].opposite;
    var (b2, e31) := CreateEdgeInvalid(b1, v3, v1);
    var e13 := b2.hes[e31].opposite;
    var b3 := SetOutgoing(b2, v3, e32);
    (SetOutgoing(b3, v1, e13), e23, e31)
  }

  /**
   * Mesh.cs:122-125, a later assignment winning where two meet: `e32.Next := e12.Next`,
   * `e13.Previous := e12.Previous`, `e12.Previous.Next := e13` and `e12.Next.Previous := e32`,
   * the last reading `e12.Next` after the third assignment.
   */
  function Threaded(hes: seq<Halfedge>, e12: nat, e32: nat, e13: nat): (r: seq<Halfedge>)
    requires Closed(hes) && e12 < |hes| && e32 < |hes| && e13 < |hes|
    ensures Closed(r) && |r| == |hes|
  {
    var n, p := hes[e12].next, hes[e12].previous;
    var n' := if e12 == p then e13 else n;
    seq(|hes|, x requires 0 <= x < |hes| => hes[x].(
      next := if x == p then e13 else if x == e32 then n else hes[x].next,
      previous := if x == n' then e32 else if x == e13 then p else hes[x].previous))
  }

  /** Mesh.cs:122-125: the outer boundary is threaded through `e13` and `e32` around `e12`. */
  function Thread<VT, FT>(a: Arena<VT, FT>, e12: nat, e32: nat, e13: nat): (r: Arena<VT, FT>)
    requires Closed(a.hes) && e12 < |a.hes| && e32 < |a.hes| && e13 < |a.hes|
    ensures Closed(r.hes)
  {
    a.(hes := Threaded(a.hes, e12, e32, e13))
  }

  /** Mesh.cs:127-131, a later assignment winning where two meet: `e12.Next := e23`,
      `e12.Previous := e31`, `e32.Previous := e13`, `e13.Next := e32`. */
  function Turned(hes: seq<Halfedge>, e12: nat, e23: nat, e32: nat, e31: nat, e13: nat): (r: seq<Halfedge>)
    requires Closed(hes) && e12 < |hes| && e23 < |hes| && e32 < |hes| && e31 < |hes| && e13 < |hes|
    ensures Closed(r) && |r| == |hes|
  {
    seq(|hes|, x requires 0 <= x < |hes| => hes[x].(
      next := if x == e13 then e32 else if x == e12 then e23 else hes[x].next,
      previous := if x == e32 then e13 else if x == e12 then e31 else hes[x].previous))
  }

  /** Mesh.cs:127-131: `e12` enters the triangle and `e13` leads on to `e32`. */
  function Turn<VT, FT>(a: Arena<VT, FT>, e12: nat, e23: nat, e32: nat, e31: nat, e13: nat): (r: Arena<VT, FT>)
    requires Closed(a.hes) && e12 < |a.hes| && e23 < |a.hes| && e32 < |a.hes| && e31 < |a.hes| && e13 < |a.hes|
    ensures Closed(r.hes)
  {
    a.(hes := Turned(a.hes, e12, e23, e32, e31, e13))
  }

  /** Mesh.cs:133-137, a later assignment winning where two meet: `e23.Previous := e12`,
      `e23.Next := e31`, `e31.Previous := e23`, `e31.Next := e12`. */
  function Closing(hes: seq<Halfedge>, e12: nat, e23: nat, e31: nat): (r: seq<Halfedge>)
    requires Closed(hes) && e12 < |hes| && e23 < |hes| && e31 < |hes|
    ensures Closed(r) && |r| == |hes|
  {
    seq(|hes|, x requires 0 <= x < |hes| => hes[x].(
      next := if x == e31 then e12 else if x == e23 then e31 else hes[x].next,
      previous := if x == e31 then e23 else if x == e23 then e12 else hes[x].previous))
  }

  /** Mesh.cs:133-137: the rest of the triangle ring e12 -> e23 -> e31 -> e12. */
  function Close<VT, FT>(a: Arena<VT, FT>, e12: nat, e23: nat, e31: nat): (r: Arena<VT, FT>)
    requires Closed(a.hes) && e12 < |a.hes| && e23 < |a.hes| && e31 < |a.hes|
    ensures Closed(r.hes)
  {
    a.(hes := Closing(a.hes, e12, e23, e31))
  }

  /**
   * The new vertex, the two new edges and the rewiring of Mesh.cs:109-137, for a boundary
   * halfedge `e12` from `v1` to `v2`, before the face is made.
   */
  function Adjoin<VT, FT>(a: Arena<VT, FT>, v1: nat, v2: nat, e12: nat, vt3: VT): (r: Arena<VT, FT>)
    requires Closed(a.hes) && v1 < |a.vs| && e12 < |a.hes|
    ensures Closed(r.hes)
  {
    var (b, e23, e31) := Sprout(a, v1, v2, vt3);
    SproutAdds(a, v1, v2, vt3);
    var e32, e13 := b.hes[e23].opposite, b.hes[e31].opposite;
    Close(Turn(Thread(b, e12, e32, e13), e12, e23, e32, e31, e13), e12, e23, e31)
  }

  /**
   * `CreateTriangle(v1, v2, vt3, ft)` (Mesh.cs:97-151): a new vertex outside the boundary
   * halfedge from `v1` to `v2` and a new face on that halfedge. When `v1.HalfedgeTo(v2)` is
   * null, `e12.Opposite` at Mesh.cs:103 throws before the null check at Mesh.cs:106 is reached.
   * Returns the arena and the new face.
   */
  function CreateTriangleOnBoundary<VT, FT>(a: Arena<VT, FT>, v1: nat, v2: nat, vt3: VT, ft: FT): Result<(Arena<VT, FT>, nat)>
    requires Fit(a) && v1 < |a.vs| && v2 < |a.vs|
  {
    match HalfedgeBetween(a, v1, v2)
    case Err(x) => Err(x)
    case Ok(None) => Err(NullReference)
    case Ok(Some(e12)) =>
      if a.hes[e12].face.Some? then Err(InvalidOperation(NotBoundary))
      else CreateFace(Adjoin(a, v1, v2, e12, vt3), Some(e12), ft)
  }

  /**
   * Mesh.cs:102-107: the operator fails, before anything is created, exactly when no
   * halfedge from `v1` to `v2` is found (the null dereference at Mesh.cs:103, or the failure of
   * the search itself) or the one found has a face.
   */
  lemma CreateTriangleOnBoundaryGuards<VT, FT>(a: Arena<VT, FT>, v1: nat, v2: nat, vt3: VT, ft: FT)
    requires Fit(a) && v1 < |a.vs| && v2 < |a.vs|
    ensures HalfedgeBetween(a, v1, v2).Err? ==>
      CreateTriangleOnBoundary(a, v1, v2, vt3, ft) == Err(HalfedgeBetween(a, v1, v2).failure)
    ensures HalfedgeBetween(a, v1, v2) == Ok(None) ==>
      CreateTriangleOnBoundary(a, v1, v2, vt3, ft) == Err(NullReference)
    ensures HalfedgeBetween(a, v1, v2).Ok? && HalfedgeBetween(a, v1, v2).value.Some? ==>
      var e12 := HalfedgeBetween(a, v1, v2).value.value;
      (CreateTriangleOnBoundary(a, v1, v2, vt3, ft) == Err(InvalidOperation(NotBoundary)) <==> a.hes[e12].face.Some?)
  {
    var hb := HalfedgeBetween(a, v1, v2);
    if hb.Ok? && hb.value.Some? {
      var e12 := hb.value.value;
      var r := CreateTriangleOnBoundary(a, v1, v2, vt3, ft);
      if a.hes[e12].face.Some? {
        assert r == Err(InvalidOperation(NotBoundary));
      } else {
        assert r == CreateFace(Adjoin(a, v1, v2, e12, vt3), Some(e12), ft);
        AdjoinedNotRefused(a, v1, v2, e12, vt3, ft);
      }
    }
  }

  /** `CreateFace` does not refuse the boundary halfedge `Adjoin` kept faceless. */
  lemma AdjoinedNotRefused<VT, FT>(a: Arena<VT, FT>, v1: nat, v2: nat, e12: nat, vt3: VT, ft: FT)
    requires Closed(a.hes) && v1 < |a.vs| && e12 < |a.hes| && a.hes[e12].face.None?
    ensures CreateFace(Adjoin(a, v1, v2, e12, vt3), Some(e12), ft) != Err(InvalidOperation(NotBoundary))
  {
    AdjoinKeepsFace(a, v1, v2, e12, vt3);
  }

  /** `Sprout` adds the vertex `v3` (id |vs|), the halfedges e23, e32, e31, e13 (ids |hes| to
      |hes| + 3) on two new edges, and sets `v3.Outgoing` to e32 and `v1.Outgoing` to e13. */
  lemma SproutAdds<VT, FT>(a: Arena<VT, FT>, v1: nat, v2: nat, vt3: VT)
    requires v1 < |a.vs|
    ensures var (b, e23, e31) := Sprout(a, v1, v2, vt3);
      var h, v3, e := |a.hes|, |a.vs|, |a.es|;
      && e23 == h && e31 == h + 2
      && b.hes == a.hes + [Halfedge(v3, None, h + 1, h, h, e), Halfedge(v2, None, h, h + 1, h + 1, e),
                           Halfedge(v1, None, h + 3, h + 2, h + 2, e + 1), Halfedge(v3, None, h + 2, h + 3, h + 3, e + 1)]
      && b.vs == a.vs[v1 := a.vs[v1].(outgoing := Some(h + 3))] + [Vertex(Some(h + 1), vt3)]
      && b.es == a.es + [Edge(h), Edge(h + 2)] && b.fs == a.fs
      && b.halfedges == a.halfedges + [h, h + 1, h + 2, h + 3] && b.vertices == a.vertices + [v3]
      && b.edges == a.edges + [e, e + 1] && b.faces == a.faces
  {
  }

  /** The rewiring of `Adjoin` leaves every face field as `Sprout` made it. */
  lemma AdjoinKeepsFace<VT, FT>(a: Arena<VT, FT>, v1: nat, v2: nat, e12: nat, vt3: VT)
    requires Closed(a.hes) && v1 < |a.vs| && e12 < |a.hes|
    ensures |Adjoin(a, v1, v2, e12, vt3).hes| == |a.hes| + 4
    ensures Adjoin(a, v1, v2, e12, vt3).hes[e12].face == a.hes[e12].face
  {
    var (b0, e23, e31) := Sprout(a, v1, v2, vt3);
    SproutAdds(a, v1, v2, vt3);
    var e32, e13 := b0.hes[e23].opposite, b0.hes[e31].opposite;
    var c := Thread(b0, e12, e32, e13);
    assert |c.hes| == |b0.hes| && c.hes[e12].face == b0.hes[e12].face;
    var d := Turn(c, e12, e23, e32, e31, e13);
    assert |d.hes| == |c.hes| && d.hes[e12].face == c.hes[e12].face;
    var b := Close(d, e12, e23, e31);
    assert |b.hes| == |d.hes| && b.hes[e12].face == d.hes[e12].face;
  }

  /**
   * What Mesh.cs:109-137 leave in `b`, for a boundary halfedge `e12` whose `Next` and
   * `Previous` are other halfedges `n` and `p`: the new vertex `v3` (id |vs|) and the
   * halfedges e23, e32, e31, e13 (ids |hes| to |hes| + 3) on two new edges; the triangle ring
   * e12 -> e23 -> e31 -> e12 with `Previous` the reverse; the outer boundary re-threaded as
   * p -> e13 -> e32 -> n; `v1.Outgoing == e13` and `v3.Outgoing == e32`; every other field
   * as it was.
   */
  ghost predicate Adjoined<VT, FT>(a: Arena<VT, FT>, b: Arena<VT, FT>, v1: nat, v2: nat, e12: nat, vt3: VT)
  {
    && e12 < |a.hes| && v1 < |a.vs| && |b.hes| == |a.hes| + 4
    && var n, p := a.hes[e12].next, a.hes[e12].previous;
       var e23, e32, e31, e13, v3, e := |a.hes|, |a.hes| + 1, |a.hes| + 2, |a.hes| + 3, |a.vs|, |a.es|;
       && b.hes[e23] == Halfedge(v3, None, e32, e31, e12, e)
       && b.hes[e32] == Halfedge(v2, None, e23, n, e13, e)
       && b.hes[e31] == Halfedge(v1, None, e13, e12, e23, e + 1)
       && b.hes[e13] == Halfedge(v3, None, e31, e32, p, e + 1)
       && (forall x | 0 <= x < |a.hes| :: b.hes[x] == a.hes[x].(
             next := if x == e12 then e23 else if x == p then e13 else a.hes[x].next,
             previous := if x == e12 then e31 else if x == n then e32 else a.hes[x].previous))
       && b.vs == a.vs[v1 := a.vs[v1].(outgoing := Some(e13))] + [Vertex(Some(e32), vt3)]
       && b.es == a.es + [Edge(e23), Edge(e31)] && b.fs == a.fs
       && b.halfedges == a.halfedges + [e23, e32, e31, e13] && b.vertices == a.vertices + [v3]
       && b.edges == a.edges + [e, e + 1] && b.faces == a.faces
  }

  /** `Adjoin` does what `Adjoined` describes. */
  lemma AdjoinRewires<VT, FT>(a: Arena<VT, FT>, v1: nat, v2: nat, e12: nat, vt3: VT)
    requires Closed(a.hes) && v1 < |a.vs| && e12 < |a.hes|
    requires a.hes[e12].next != e12 && a.hes[e12].previous != e12
    ensures Adjoined(a, Adjoin(a, v1, v2, e12, vt3), v1, v2, e12, vt3)
  {
    var (b, e23, e31) := Sprout(a, v1, v2, vt3);
    SproutAdds(a, v1, v2, vt3);
    var e32, e13 := b.hes[e23].opposite, b.hes[e31].opposite;
    assert e23 == |a.hes| && e32 == |a.hes| + 1 && e31 == |a.hes| + 2 && e13 == |a.hes| + 3;
    AdjoinedHalfedges(a.hes, b.hes, e12, e23, e32, e31, e13, v1, v2, |a.vs|, |a.es|);
  }

  /** The three rewiring stages of `Adjoin`, on the halfedges with the four new ones appended. */
  lemma AdjoinedHalfedges(hes: seq<Halfedge>, b: seq<Halfedge>, e12: nat, e23: nat, e32: nat, e31: nat, e13: nat,
                          v1: nat, v2: nat, v3: nat, e: nat)
    requires Closed(hes) && e12 < |hes| && hes[e12].next != e12 && hes[e12].previous != e12
    requires e23 == |hes| && e32 == |hes| + 1 && e31 == |hes| + 2 && e13 == |hes| + 3
    requires b == hes + [Halfedge(v3, None, e32, e23, e23, e), Halfedge(v2, None, e23, e32, e32, e),
                         Halfedge(v1, None, e13, e31, e31, e + 1), Halfedge(v3, None, e31, e13, e13, e + 1)]
    requires Closed(b)
    ensures var r := Closing(Turned(Threaded(b, e12, e32, e13), e12, e23, e32, e31, e13), e12, e23, e31);
      var h, n, p := |hes|, hes[e12].next, hes[e12].previous;
      && |r| == h + 4
      && r[h] == Halfedge(v3, None, h + 1, h + 2, e12, e)
      && r[h + 1] == Halfedge(v2, None, h, n, h + 3, e)
      && r[h + 2] == Halfedge(v1, None, h + 3, e12, h, e + 1)
      && r[h + 3] == Halfedge(v3, None, h + 2, h + 1, p, e + 1)
      && (forall x | 0 <= x < h :: r[x] == hes[x].(
            next := if x == e12 then h else if x == p then h + 3 else hes[x].next,
            previous := if x == e12 then h + 2 else if x == n then h + 1 else hes[x].previous))
  {
    var c := Threaded(b, e12, e32, e13);
    var d := Turned(c, e12, e23, e32, e31, e13);
    var r := Closing(d, e12, e23, e31);
    forall x | 0 <= x < |hes| ensures r[x] == hes[x].(
        next := if x == e12 then e23 else if x == hes[e12].previous then e13 else hes[x].next,
        previous := if x == e12 then e31 else if x == hes[e12].next then e32 else hes[x].previous)
    {
      assert b[x] == hes[x];
    }
  }

  /** The arena `Adjoined` describes is fit. */
  lemma AdjoinedFits<VT, FT>(a: Arena<VT, FT>, b: Arena<VT, FT>, v1: nat, v2: nat, e12: nat, vt3: VT)
    requires Fit(a) && v2 < |a.vs| && Adjoined(a, b, v1, v2, e12, vt3)
    ensures Fit(b)
  {
    var h, e := |a.hes|, |a.es|;
    AdjoinedClosed(a, b, v1, v2, e12, vt3);
    DistinctConcat(a.halfedges, [h, h + 1, h + 2, h + 3]);
    DistinctConcat(a.vertices, [|a.vs|]);
    DistinctConcat(a.edges, [e, e + 1]);
  }

  lemma AdjoinedClosed<VT, FT>(a: Arena<VT, FT>, b: Arena<VT, FT>, v1: nat, v2: nat, e12: nat, vt3: VT)
    requires Fit(a) && v2 < |a.vs| && Adjoined(a, b, v1, v2, e12, vt3)
    ensures Closed(b.hes) && EdgesClosed(b.hes, b.es) && FacesClosed(b.hes, b.fs) && VerticesClosed(b.hes, b.vs)
  {
    var h, e := |a.hes|, |a.es|;
    assert Closed(b.hes) by {
      forall x | 0 <= x < |b.hes| ensures b.hes[x].opposite < |b.hes| && b.hes[x].next < |b.hes| && b.hes[x].previous < |b.hes| {
        if x < h { assert b.hes[x].opposite == a.hes[x].opposite; }
      }
    }
    assert EdgesClosed(b.hes, b.es) by {
      forall x | 0 <= x < |b.hes| ensures b.hes[x].edge < |b.es| {
        if x < h { assert b.hes[x].edge == a.hes[x].edge; }
      }
      forall x | 0 <= x < |b.es| ensures b.es[x].half1 < |b.hes| {
        if x < e { assert b.es[x] == a.es[x]; }
      }
    }
    assert FacesClosed(b.hes, b.fs) by {
      forall x | 0 <= x < |b.hes| && b.hes[x].face.Some? ensures b.hes[x].face.value < |b.fs| {
        if x < h { assert b.hes[x].face == a.hes[x].face; }
      }
    }
    assert VerticesClosed(b.hes, b.vs) by {
      forall x | 0 <= x < |b.hes| ensures b.hes[x].target < |b.vs| {
        if x < h { assert b.hes[x].target == a.hes[x].target; }
      }
      forall u | 0 <= u < |b.vs| && b.vs[u].outgoing.Some? ensures b.vs[u].outgoing.value < |b.hes| {
        if u < |a.vs| && u != v1 { assert b.vs[u] == a.vs[u]; }
      }
    }
  }

  /**
   * On a boundary halfedge `e12` from `v1` to `v2` whose ring neighbours are other halfedges,
   * `CreateTriangle(v1, v2, vt3, ft)` succeeds and adds exactly one vertex `v3`, two edges
   * (four halfedges) and one face, bounded by `e12`, whose perimeter is e12 -> e23 -> e31 and
   * whose three halfedges lead from `v1` to `v2`, on to `v3` and back to `v1`. Outside, the
   * boundary now runs old `e12.Previous` -> e13 -> e32 -> old `e12.Next`, with
   * `v1.Outgoing == e13` and `v3.Outgoing == e32`.
   */
  lemma CreateTriangleOnBoundaryAdds<VT, FT>(a: Arena<VT, FT>, v1: nat, v2: nat, vt3: VT, ft: FT, e12: nat)
    requires Fit(a) && v1 < |a.vs| && v2 < |a.vs|
    requires HalfedgeBetween(a, v1, v2) == Ok(Some(e12)) && a.hes[e12].face.None?
    requires a.hes[e12].next != e12 && a.hes[e12].previous != e12
    ensures CreateTriangleOnBoundary(a, v1, v2, vt3, ft).Ok?
    ensures TriangleAdded(a, CreateTriangleOnBoundary(a, v1, v2, vt3, ft).value, v1, e12)
    ensures CreateTriangleOnBoundary(a, v1, v2, vt3, ft).value.0.vs ==
      a.vs[v1 := a.vs[v1].(outgoing := Some(|a.hes| + 3))] + [Vertex(Some(|a.hes| + 1), vt3)]
  {
    var c := Adjoin(a, v1, v2, e12, vt3);
    AdjoinRewires(a, v1, v2, e12, vt3);
    AdjoinedFits(a, c, v1, v2, e12, vt3);
    assert CreateTriangleOnBoundary(a, v1, v2, vt3, ft) == CreateFace(c, Some(e12), ft);
    CreateFaceOnAdjoined(a, c, v1, v2, e12, vt3, ft);
  }

  /** The outcome of `CreateTriangleOnBoundaryAdds`, for the arena `r.0` and face `r.1`; every old
      halfedge but `e12` keeps its face, and its links unless it is next to `e12`. */
  ghost predicate TriangleAdded<VT, FT>(a: Arena<VT, FT>, r: (Arena<VT, FT>, nat), v1: nat, e12: nat)
    requires Fit(a) && e12 < |a.hes|
  {
    var (b, f) := r;
    var e23, e32, e31, e13, v3, e := |a.hes|, |a.hes| + 1, |a.hes| + 2, |a.hes| + 3, |a.vs|, |a.es|;
    && Fit(b) && f == |a.fs| && |b.hes| == |a.hes| + 4 && |b.vs| == |a.vs| + 1 && |b.fs| == |a.fs| + 1
    && b.vertices == a.vertices + [v3] && b.edges == a.edges + [e, e + 1]
    && b.halfedges == a.halfedges + [e23, e32, e31, e13] && b.faces == a.faces + [f]
    && b.fs[f].bounding == e12 && Perimeter(b.hes, b.fs, f) == Some([e12, e23, e31])
    && b.hes[e12].face == Some(f) && b.hes[e23].face == Some(f) && b.hes[e31].face == Some(f)
    && Source(b.hes, e12) == Source(a.hes, e12) && b.hes[e12].target == a.hes[e12].target
    && b.hes[e23].target == v3 && b.hes[e31].target == v1
    && b.hes[e13].next == e32 && b.hes[e32].next == a.hes[e12].next && b.hes[a.hes[e12].previous].next == e13
    && b.vs[v1].outgoing == Some(e13) && b.vs[v3].outgoing == Some(e32)
    && forall x | 0 <= x < |a.hes| && x != e12 ::
         && b.hes[x].face == a.hes[x].face && b.hes[x].target == a.hes[x].target
         && b.hes[x].opposite == a.hes[x].opposite && b.hes[x].edge == a.hes[x].edge
         && (x != a.hes[e12].previous ==> b.hes[x].next == a.hes[x].next)
         && (x != a.hes[e12].next ==> b.hes[x].previous == a.hes[x].previous)
  }

  /** `CreateFace` on the arena `Adjoined` describes fills the triangle. */
  lemma CreateFaceOnAdjoined<VT, FT>(a: Arena<VT, FT>, b: Arena<VT, FT>, v1: nat, v2: nat, e12: nat, vt3: VT, ft: FT)
    requires Fit(a) && v2 < |a.vs| && Adjoined(a, b, v1, v2, e12, vt3) && a.hes[e12].face.None?
    requires a.hes[e12].next != e12 && a.hes[e12].previous != e12
    ensures Fit(b) && e12 < |b.hes| && CreateFace(b, Some(e12), ft).Ok?
    ensures TriangleAdded(a, CreateFace(b, Some(e12), ft).value, v1, e12)
  {
    var h := |a.hes|;
    AdjoinedFits(a, b, v1, v2, e12, vt3);
    TriangleRing(b.hes, e12, h, h + 2);
    CreateFaceFillsRing(b, e12, ft);
    var (c, f) := CreateFace(b, Some(e12), ft).value;
    TriangleFilled(a, b, c, f, v1, v2, e12, vt3, ft);
  }

  /** The triangle filled: what `CreateFaceFillsRing` says of a ring e12 -> e23 -> e31 in the
      arena `Adjoined` describes is what `TriangleAdded` asks. */
  lemma TriangleFilled<VT, FT>(a: Arena<VT, FT>, b: Arena<VT, FT>, c: Arena<VT, FT>, f: nat,
                               v1: nat, v2: nat, e12: nat, vt3: VT, ft: FT)
    requires Fit(a) && v2 < |a.vs| && Adjoined(a, b, v1, v2, e12, vt3) && Fit(b)
    requires a.hes[e12].next != e12 && a.hes[e12].previous != e12
    requires var h := |a.hes|;
      && Fit(c) && |c.hes| == |b.hes| && f == |b.fs| && c.faces == b.faces + [f] && |c.fs| == |b.fs| + 1 && c.fs[f] == Face(e12, ft)
      && Perimeter(c.hes, c.fs, f) == Some([e12, h, h + 2])
      && (forall x | 0 <= x < |b.hes| :: c.hes[x].face == if x in [e12, h, h + 2] then Some(f) else b.hes[x].face)
      && SameLinks(b.hes, c.hes)
      && (forall x | 0 <= x < |b.hes| :: c.hes[x].target == b.hes[x].target && c.hes[x].edge == b.hes[x].edge)
      && c.vs == b.vs && c.halfedges == b.halfedges && c.vertices == b.vertices && c.edges == b.edges
    ensures TriangleAdded(a, (c, f), v1, e12)
  {
    var h, o, p := |a.hes|, a.hes[e12].opposite, a.hes[e12].previous;
    assert c.hes[e12].opposite == o && c.hes[o].target == a.hes[o].target;
    assert b.hes[p].next == h + 3 && c.hes[p].next == h + 3;
  }


  // SplitFace(he1, he2, ft) (Mesh.cs:171-197)

  /** The four assignments of Mesh.cs:183-186, a later one winning where two meet:
      `e21.Next := he1.Next`, `he1.Next.Previous := e21`, `he1.Next := e12`, `e21.Previous := he2`. */
  function AfterFirst(hes: seq<Halfedge>, he1: nat, he2: nat, e12: nat, e21: nat): (r: seq<Halfedge>)
    requires Closed(hes) && he1 < |hes| && he2 < |hes| && e12 < |hes| && e21 < |hes|
    ensures Closed(r) && |r| == |hes|
  {
    var n1 := hes[he1].next;
    seq(|hes|, x requires 0 <= x < |hes| => hes[x].(
      next := if x == he1 then e12 else if x == e21 then n1 else hes[x].next,
      previous := if x == e21 then he2 else if x == n1 then e21 else hes[x].previous))
  }

  /** The four assignments of Mesh.cs:188-191, a later one winning where two meet:
      `e12.Next := he2.Next`, `he2.Next.Previous := e12`, `he2.Next := e21`, `e12.Previous := he1`. */
  function AfterSecond(hes: seq<Halfedge>, he1: nat, he2: nat, e12: nat, e21: nat): (r: seq<Halfedge>)
    requires Closed(hes) && he1 < |hes| && he2 < |hes| && e12 < |hes| && e21 < |hes|
    ensures Closed(r) && |r| == |hes|
  {
    var n2 := hes[he2].next;
    seq(|hes|, x requires 0 <= x < |hes| => hes[x].(
      next := if x == he2 then e21 else if x == e12 then n2 else hes[x].next,
      previous := if x == e12 then he1 else if x == n2 then e12 else hes[x].previous))
  }

  /** Mesh.cs:183-186: `e21` is put after `he1`, before `he1`'s old `Next`. */
  function SpliceAfterFirst<VT, FT>(a: Arena<VT, FT>, he1: nat, he2: nat, e12: nat, e21: nat): (r: Arena<VT, FT>)
    requires Closed(a.hes) && he1 < |a.hes| && he2 < |a.hes| && e12 < |a.hes| && e21 < |a.hes|
    ensures Closed(r.hes) && |r.hes| == |a.hes|
  {
    a.(hes := AfterFirst(a.hes, he1, he2, e12, e21))
  }

  /** Mesh.cs:188-191: `e12` is put after `he2`, before `he2`'s old `Next`. */
  function SpliceAfterSecond<VT, FT>(a: Arena<VT, FT>, he1: nat, he2: nat, e12: nat, e21: nat): (r: Arena<VT, FT>)
    requires Closed(a.hes) && he1 < |a.hes| && he2 < |a.hes| && e12 < |a.hes| && e21 < |a.hes|
    ensures Closed(r.hes) && |r.hes| == |a.hes|
  {
    a.(hes := AfterSecond(a.hes, he1, he2, e12, e21))
  }

  /** Mesh.cs:176-193: the new edge from `he1.Target` to `he2.Target`, spliced in after `he1`
      and after `he2`, with `e21` on `he2`'s face; `e12` is id |hes|. */
  function Divide<VT, FT>(a: Arena<VT, FT>, he1: nat, he2: nat): (r: Arena<VT, FT>)
    requires Closed(a.hes) && he1 < |a.hes| && he2 < |a.hes|
    ensures Closed(r.hes) && |r.hes| == |a.hes| + 2
  {
    var (b, e12) := CreateEdgeInvalid(a, a.hes[he1].target, a.hes[he2].target);
    var e21 := b.hes[e12].opposite;
    var c := SpliceAfterSecond(SpliceAfterFirst(b, he1, he2, e12, e21), he1, he2, e12, e21);
    SetFace(c, e21, c.hes[he2].face)
  }

  /**
   * `SplitFace(he1, he2, ft)` (Mesh.cs:171-197): a new edge from `he1.Target` to `he2.Target`
   * across their common face; the new halfedge `e12` gets a new face and its opposite keeps
   * `he2`'s face. The old face's `Bounding` is left as it was, wherever its ring now runs.
   * Returns the arena and `e12`.
   */
  function SplitFace<VT, FT>(a: Arena<VT, FT>, he1: nat, he2: nat, ft: FT): (r: Result<(Arena<VT, FT>, nat)>)
    requires Fit(a) && he1 < |a.hes| && he2 < |a.hes|
    ensures r.Ok? ==> r.value.1 == |a.hes| && |r.value.0.hes| == |a.hes| + 2 && Closed(r.value.0.hes)
  {
    if a.hes[he1].face != a.hes[he2].face then Err(InvalidOperation(DifferentFaces))
    else
      var v1, v2 := a.hes[he1].target, a.hes[he2].target;
      match HalfedgeBetween(a, v1, v2)
      case Err(x) => Err(x)
      case Ok(Some(_)) => Err(InvalidOperation(AlreadyNeighbors))
      case Ok(None) =>
        var e12 := |a.hes|;
        match CreateFace(Divide(a, he1, he2), Some(e12), ft)
        case Err(x) => Err(x)
        case Ok((g, _)) => Ok((g, e12))
  }

  /**
   * What Mesh.cs:176-193 leave behind, for halfedges `he1 != he2` with successors `n1` and
   * `n2`: the new halfedges e12 and e21 (ids |hes| and |hes| + 1) on a new edge, from
   * `he1.Target` to `he2.Target` and back; the rings re-linked as he1 -> e12 -> n2 and
   * he2 -> e21 -> n1; `e21` on `he2`'s face and `e12` still without one; nothing else changed.
   */
  ghost function Divided<VT, FT>(a: Arena<VT, FT>, he1: nat, he2: nat): Arena<VT, FT>
    requires Closed(a.hes) && he1 < |a.hes| && he2 < |a.hes|
  {
    var n1, n2, v1, v2 := a.hes[he1].next, a.hes[he2].next, a.hes[he1].target, a.hes[he2].target;
    var e12, e21, e := |a.hes|, |a.hes| + 1, |a.es|;
    a.(hes := Relinked(a.hes, he1, he2) + [Halfedge(v2, None, e21, n2, he1, e), Halfedge(v1, a.hes[he2].face, e12, n1, he2, e)],
       es := a.es + [Edge(e12)], halfedges := a.halfedges + [e12, e21], edges := a.edges + [e])
  }

  /** The old halfedges after the split: `he1` and `he2` lead to the new halfedges, which lead to
      their old successors. */
  ghost function Relinked(hes: seq<Halfedge>, he1: nat, he2: nat): (r: seq<Halfedge>)
    requires Closed(hes) && he1 < |hes| && he2 < |hes|
    ensures |r| == |hes|
  {
    var n1, n2, e12, e21 := hes[he1].next, hes[he2].next, |hes|, |hes| + 1;
    seq(|hes|, x requires 0 <= x < |hes| => hes[x].(
      next := if x == he1 then e12 else if x == he2 then e21 else hes[x].next,
      previous := if x == n2 then e12 else if x == n1 then e21 else hes[x].previous))
  }

  /** `Divide` builds `Divided`. */
  lemma DivideRewires<VT, FT>(a: Arena<VT, FT>, he1: nat, he2: nat)
    requires Closed(a.hes) && he1 < |a.hes| && he2 < |a.hes| && he1 != he2
    ensures Divide(a, he1, he2) == Divided(a, he1, he2)
  {
    var v1, v2 := a.hes[he1].target, a.hes[he2].target;
    var (b, e12) := CreateEdgeInvalid(a, v1, v2);
    var e21 := b.hes[e12].opposite;
    assert e12 == |a.hes| && e21 == |a.hes| + 1;
    SplicedHalfedges(a.hes, b.hes, he1, he2, e12, e21, v1, v2, |a.es|);
  }

  /** Both splices and the face of `e21`, on the halfedges with the new pair appended, give the
      old halfedges relinked and the new pair wired between them. */
  lemma SplicedHalfedges(hes: seq<Halfedge>, b: seq<Halfedge>, he1: nat, he2: nat, e12: nat, e21: nat, v1: nat, v2: nat, e: nat)
    requires Closed(hes) && he1 < |hes| && he2 < |hes| && he1 != he2 && e12 == |hes| && e21 == |hes| + 1
    requires b == hes + [Halfedge(v2, None, e21, e12, e12, e), Halfedge(v1, None, e12, e21, e21, e)] && Closed(b)
    ensures var c := AfterSecond(AfterFirst(b, he1, he2, e12, e21), he1, he2, e12, e21);
      c[e21 := c[e21].(face := c[he2].face)]
        == Relinked(hes, he1, he2) + [Halfedge(v2, None, |hes| + 1, hes[he2].next, he1, e), Halfedge(v1, hes[he2].face, |hes|, hes[he1].next, he2, e)]
  {
    var c1 := AfterFirst(b, he1, he2, e12, e21);
    var c := AfterSecond(c1, he1, he2, e12, e21);
    var d := c[e21 := c[e21].(face := c[he2].face)];
    var r := Relinked(hes, he1, he2) + [Halfedge(v2, None, e21, hes[he2].next, he1, e), Halfedge(v1, hes[he2].face, e12, hes[he1].next, he2, e)];
    assert c1[he2].next == hes[he2].next;
    forall x | 0 <= x < |b| ensures d[x] == r[x] {
      if x < |hes| {
        assert b[x] == hes[x];
      }
    }
  }

  lemma DivideStages<VT, FT>(a: Arena<VT, FT>, he1: nat, he2: nat)
    requires Closed(a.hes) && he1 < |a.hes| && he2 < |a.hes|
    ensures var h := |a.hes|;
      var b := CreateEdgeInvalid(a, a.hes[he1].target, a.hes[he2].target).0;
      var c := SpliceAfterSecond(SpliceAfterFirst(b, he1, he2, h, h + 1), he1, he2, h, h + 1);
      Divide(a, he1, he2) == SetFace(c, h + 1, c.hes[he2].face)
  {
  }

  /** The arena `Divided` describes is fit. */
  lemma DividedFits<VT, FT>(a: Arena<VT, FT>, he1: nat, he2: nat)
    requires Fit(a) && he1 < |a.hes| && he2 < |a.hes|
    ensures Fit(Divided(a, he1, he2))
  {
    var h, e := |a.hes|, |a.es|;
    DividedClosed(a, he1, he2);
    DistinctConcat(a.halfedges, [h, h + 1]);
    DistinctConcat(a.edges, [e]);
  }

  lemma DividedClosed<VT, FT>(a: Arena<VT, FT>, he1: nat, he2: nat)
    requires Fit(a) && he1 < |a.hes| && he2 < |a.hes|
    ensures var d := Divided(a, he1, he2);
      Closed(d.hes) && EdgesClosed(d.hes, d.es) && FacesClosed(d.hes, d.fs) && VerticesClosed(d.hes, d.vs)
  {
    var h, e := |a.hes|, |a.es|;
    var d := Divided(a, he1, he2);
    assert Closed(d.hes) by {
      forall x | 0 <= x < |d.hes| ensures d.hes[x].opposite < |d.hes| && d.hes[x].next < |d.hes| && d.hes[x].previous < |d.hes| {
        if x < h { assert d.hes[x].opposite == a.hes[x].opposite; }
      }
    }
    assert EdgesClosed(d.hes, d.es) by {
      forall x | 0 <= x < |d.hes| ensures d.hes[x].edge < |d.es| {
        if x < h { assert d.hes[x].edge == a.hes[x].edge; }
      }
      forall x | 0 <= x < |d.es| ensures d.es[x].half1 < |d.hes| {
        if x < e { assert d.es[x] == a.es[x]; }
      }
    }
    assert FacesClosed(d.hes, d.fs) by {
      forall x | 0 <= x < |d.hes| && d.hes[x].face.Some? ensures d.hes[x].face.value < |d.fs| {
        if x < h { assert d.hes[x].face == a.hes[x].face; }
      }
    }
    assert VerticesClosed(d.hes, d.vs) by {
      forall x | 0 <= x < |d.hes| ensures d.hes[x].target < |d.vs| {
        if x < h { assert d.hes[x].target == a.hes[x].target; }
      }
    }
  }

  /**
   * In a wired mesh a split between two different live halfedges with different targets
   * leaves the mesh wired, the two new halfedges included.
   */
  lemma DividedWired<VT, FT>(a: Arena<VT, FT>, he1: nat, he2: nat)
    requires Fit(a) && Wired(a.hes, a.halfedges) && he1 in a.halfedges && he2 in a.halfedges
    requires he1 != he2 && a.hes[he1].target != a.hes[he2].target
    ensures Wired(Divided(a, he1, he2).hes, a.halfedges + [|a.hes|, |a.hes| + 1])
  {
    var hes := Divided(a, he1, he2).hes;
    DividedClosed(a, he1, he2);
    var live := a.halfedges + [|a.hes|, |a.hes| + 1];
    forall x | x in live ensures x < |hes| && WiredAt(hes, live, x) {
      if x in a.halfedges {
        DividedWiredOld(a, he1, he2, x);
      } else {
        DividedWiredNew(a, he1, he2, x);
      }
    }
  }

  lemma DividedWiredOld<VT, FT>(a: Arena<VT, FT>, he1: nat, he2: nat, x: nat)
    requires Fit(a) && Wired(a.hes, a.halfedges) && he1 in a.halfedges && he2 in a.halfedges
    requires he1 != he2 && x in a.halfedges
    ensures Closed(Divided(a, he1, he2).hes)
    ensures WiredAt(Divided(a, he1, he2).hes, a.halfedges + [|a.hes|, |a.hes| + 1], x)
  {
    var d := Divided(a, he1, he2);
    DividedClosed(a, he1, he2);
    var h, n1, n2 := |a.hes|, a.hes[he1].next, a.hes[he2].next;
    assert WiredAt(a.hes, a.halfedges, he1) && WiredAt(a.hes, a.halfedges, he2);
    assert WiredAt(a.hes, a.halfedges, x);
    var o := a.hes[x].opposite;
    assert d.hes[x].opposite == o && d.hes[o].opposite == x && d.hes[o].target == a.hes[o].target;
    var nx, px := d.hes[x].next, d.hes[x].previous;
    if x == he1 {
      assert nx == h && d.hes[h].previous == x;
    } else if x == he2 {
      assert nx == h + 1 && d.hes[h + 1].previous == x;
    } else {
      assert nx == a.hes[x].next && d.hes[nx].opposite == a.hes[nx].opposite;
      assert d.hes[d.hes[nx].opposite].target == a.hes[a.hes[nx].opposite].target;
    }
    if x == n2 {
      assert px == h && d.hes[h].next == x;
    } else if x == n1 {
      assert px == h + 1 && d.hes[h + 1].next == x;
    } else {
      assert px == a.hes[x].previous;
    }
  }

  lemma DividedWiredNew<VT, FT>(a: Arena<VT, FT>, he1: nat, he2: nat, x: nat)
    requires Fit(a) && Wired(a.hes, a.halfedges) && he1 in a.halfedges && he2 in a.halfedges
    requires he1 != he2 && a.hes[he1].target != a.hes[he2].target && (x == |a.hes| || x == |a.hes| + 1)
    ensures Closed(Divided(a, he1, he2).hes)
    ensures WiredAt(Divided(a, he1, he2).hes, a.halfedges + [|a.hes|, |a.hes| + 1], x)
  {
    var d := Divided(a, he1, he2);
    DividedClosed(a, he1, he2);
    var h, n1, n2 := |a.hes|, a.hes[he1].next, a.hes[he2].next;
    assert WiredAt(a.hes, a.halfedges, he1) && WiredAt(a.hes, a.halfedges, he2);
    if x == h {
      assert d.hes[n2].previous == h && d.hes[he1].next == h;
      assert d.hes[n2].opposite == a.hes[n2].opposite;
    } else {
      assert d.hes[n1].previous == h + 1 && d.hes[he2].next == h + 1;
      assert d.hes[n1].opposite == a.hes[n1].opposite;
    }
  }

  /** `SplitFace` refuses halfedges of different faces, and target vertices that are neighbours
      already, before it changes anything; a failure of `HalfedgeTo` on the way comes through. */
  lemma SplitFaceGuards<VT, FT>(a: Arena<VT, FT>, he1: nat, he2: nat, ft: FT)
    requires Fit(a) && he1 < |a.hes| && he2 < |a.hes|
    ensures a.hes[he1].face != a.hes[he2].face ==>
      SplitFace(a, he1, he2, ft) == Err(InvalidOperation(DifferentFaces))
    ensures var between := HalfedgeBetween(a, a.hes[he1].target, a.hes[he2].target);
      a.hes[he1].face == a.hes[he2].face && between.Err? ==> SplitFace(a, he1, he2, ft) == Err(between.failure)
    ensures var between := HalfedgeBetween(a, a.hes[he1].target, a.hes[he2].target);
      a.hes[he1].face == a.hes[he2].face && between.Ok? && between.value.Some? ==>
        SplitFace(a, he1, he2, ft) == Err(InvalidOperation(AlreadyNeighbors))
  {
  }

  /** Past its guards, `SplitFace` is `CreateFace` on the divided arena. */
  lemma SplitFaceCreates<VT, FT>(a: Arena<VT, FT>, he1: nat, he2: nat, ft: FT)
    requires Fit(a) && he1 < |a.hes| && he2 < |a.hes| && a.hes[he1].face == a.hes[he2].face
    requires HalfedgeBetween(a, a.hes[he1].target, a.hes[he2].target) == Ok(None)
    ensures var made := CreateFace(Divide(a, he1, he2), Some(|a.hes|), ft);
      SplitFace(a, he1, he2, ft) == if made.Ok? then Ok((made.value.0, |a.hes|)) else Err(made.failure)
  {
  }

  /**
   * In a wired mesh, between two different live halfedges of one face whose targets `v1` and
   * `v2` differ and are not neighbours, `SplitFace` succeeds and keeps the mesh wired. It adds
   * one edge, whose halfedge `e12` runs from `v1` to `v2` after `he1` and before `he2`'s old
   * `Next`, while its opposite runs after `he2` and before `he1`'s old `Next`; and one face,
   * bounded by `e12`, on exactly the ring of `e12`. The opposite keeps `he2`'s face unless it
   * lies on that ring, and every old face keeps its `Bounding`.
   */
  lemma SplitFaceSplits<VT, FT>(a: Arena<VT, FT>, he1: nat, he2: nat, ft: FT)
    requires Fit(a) && Wired(a.hes, a.halfedges) && he1 in a.halfedges && he2 in a.halfedges
    requires he1 != he2 && a.hes[he1].target != a.hes[he2].target
    requires a.hes[he1].face == a.hes[he2].face
    requires HalfedgeBetween(a, a.hes[he1].target, a.hes[he2].target) == Ok(None)
    ensures SplitFace(a, he1, he2, ft).Ok?
    ensures FaceSplit(a, SplitFace(a, he1, he2, ft).value, he1, he2, ft)
  {
    DivideRewires(a, he1, he2);
    SplitFaceCreates(a, he1, he2, ft);
    DividedSplits(a, he1, he2, ft);
  }

  /** The outcome of `SplitFaceSplits`, for the arena `r.0` and the new halfedge `r.1`: the new
      edge and face, and every old halfedge off the new ring as it was. */
  ghost predicate FaceSplit<VT, FT>(a: Arena<VT, FT>, r: (Arena<VT, FT>, nat), he1: nat, he2: nat, ft: FT)
    requires Closed(a.hes) && he1 < |a.hes| && he2 < |a.hes|
  {
    && FaceMade(a, r, he1, he2, ft)
    && KeptOffRing(a.hes, r.0.hes, he1, he2, Perimeter(r.0.hes, r.0.fs, |a.fs|).value)
  }

  /** The new edge and face of a split. */
  ghost predicate FaceMade<VT, FT>(a: Arena<VT, FT>, r: (Arena<VT, FT>, nat), he1: nat, he2: nat, ft: FT)
    requires Closed(a.hes) && he1 < |a.hes| && he2 < |a.hes|
  {
    var (g, e12) := r;
    var e21, f, e := |a.hes| + 1, |a.fs|, |a.es|;
    && Fit(g) && e12 == |a.hes| && |g.hes| == |a.hes| + 2 && |g.fs| == |a.fs| + 1
    && Wired(g.hes, g.halfedges)
    && g.halfedges == a.halfedges + [e12, e21] && g.edges == a.edges + [e]
    && g.faces == a.faces + [f] && g.vertices == a.vertices && g.vs == a.vs
    && Source(g.hes, e12) == a.hes[he1].target && g.hes[e12].target == a.hes[he2].target
    && g.hes[e12].opposite == e21 && g.hes[e12].edge == e && g.es[e] == Edge(e12)
    && g.hes[he1].next == e12 && g.hes[e12].next == a.hes[he2].next
    && g.hes[he2].next == e21 && g.hes[e21].next == a.hes[he1].next
    && g.fs[..|a.fs|] == a.fs && g.fs[f] == Face(e12, ft) && g.hes[e12].face == Some(f)
    && Perimeter(g.hes, g.fs, f).Some?
    && (forall x | x in Perimeter(g.hes, g.fs, f).value :: x < |g.hes| && g.hes[x].face == Some(f))
    && g.hes[e21].face == (if e21 in Perimeter(g.hes, g.fs, f).value then Some(f) else a.hes[he2].face)
  }

  /** The old halfedges after a split: targets, opposites and edges as before; `Next` as before
      except at `he1` and `he2`, `Previous` except at their old successors, and the face as
      before off `ring`. */
  ghost predicate KeptOffRing(hes: seq<Halfedge>, hes': seq<Halfedge>, he1: nat, he2: nat, ring: seq<nat>)
    requires he1 < |hes| && he2 < |hes| && |hes| <= |hes'|
  {
    forall x | 0 <= x < |hes| ::
      && hes'[x].target == hes[x].target && hes'[x].opposite == hes[x].opposite && hes'[x].edge == hes[x].edge
      && (x != he1 && x != he2 ==> hes'[x].next == hes[x].next)
      && (x != hes[he1].next && x != hes[he2].next ==> hes'[x].previous == hes[x].previous)
      && (x !in ring ==> hes'[x].face == hes[x].face)
  }

  lemma DividedSplits<VT, FT>(a: Arena<VT, FT>, he1: nat, he2: nat, ft: FT)
    requires Fit(a) && Wired(a.hes, a.halfedges) && he1 in a.halfedges && he2 in a.halfedges
    requires he1 != he2 && a.hes[he1].target != a.hes[he2].target
    ensures Closed(Divided(a, he1, he2).hes) && |Divided(a, he1, he2).hes| == |a.hes| + 2
    ensures CreateFace(Divided(a, he1, he2), Some(|a.hes|), ft).Ok?
    ensures FaceSplit(a, (CreateFace(Divided(a, he1, he2), Some(|a.hes|), ft).value.0, |a.hes|), he1, he2, ft)
  {
    DividedFits(a, he1, he2);
    DividedWired(a, he1, he2);
    DividedShape(a, he1, he2);
    CreateFaceInWiredMesh(Divided(a, he1, he2), |a.hes|, ft);
    SplitOnDivided(a, Divided(a, he1, he2), he1, he2, ft);
    DividedKeeps(a, he1, he2, ft);
  }

  /** Filling the new ring of `Divided` leaves every old halfedge off it as `Relinked` made it. */
  lemma DividedKeeps<VT, FT>(a: Arena<VT, FT>, he1: nat, he2: nat, ft: FT)
    requires Closed(a.hes) && he1 < |a.hes| && he2 < |a.hes|
    requires Fit(Divided(a, he1, he2)) && |Divided(a, he1, he2).hes| == |a.hes| + 2
    requires Divided(a, he1, he2).hes[|a.hes|].face.None? && Orbit(Divided(a, he1, he2).hes, AlongNext, |a.hes|).Some?
    ensures CreateFace(Divided(a, he1, he2), Some(|a.hes|), ft).Ok?
    ensures var g := CreateFace(Divided(a, he1, he2), Some(|a.hes|), ft).value.0;
      FacesClosed(g.hes, g.fs) && |Divided(a, he1, he2).fs| < |g.fs| &&
      Perimeter(g.hes, g.fs, |Divided(a, he1, he2).fs|).Some? &&
      KeptOffRing(a.hes, g.hes, he1, he2, Perimeter(g.hes, g.fs, |Divided(a, he1, he2).fs|).value)
  {
    DividedPrefix(a, he1, he2);
    CreateFaceKeeps(a.hes, Divided(a, he1, he2), he1, he2, |a.hes|, ft);
  }

  /** `CreateFace` on halfedge `h` of an arena whose halfedges start with the relinked old ones
      leaves every old halfedge off the new face's ring as `Relinked` made it. */
  lemma CreateFaceKeeps<VT, FT>(hes: seq<Halfedge>, d: Arena<VT, FT>, he1: nat, he2: nat, h: nat, ft: FT)
    requires Closed(hes) && he1 < |hes| && he2 < |hes| && |hes| <= |d.hes| && d.hes[..|hes|] == Relinked(hes, he1, he2)
    requires Fit(d) && h < |d.hes| && d.hes[h].face.None? && Orbit(d.hes, AlongNext, h).Some?
    ensures CreateFace(d, Some(h), ft).Ok?
    ensures var g := CreateFace(d, Some(h), ft).value.0;
      FacesClosed(g.hes, g.fs) && |d.fs| < |g.fs| && Perimeter(g.hes, g.fs, |d.fs|).Some? &&
      KeptOffRing(hes, g.hes, he1, he2, Perimeter(g.hes, g.fs, |d.fs|).value)
  {
    CreateFaceFillsRing(d, h, ft);
    var g := CreateFace(d, Some(h), ft).value.0;
    var ring := Orbit(d.hes, AlongNext, h).value;
    assert Perimeter(g.hes, g.fs, |d.fs|).value == ring;
    forall x | 0 <= x < |hes|
      ensures && g.hes[x].target == hes[x].target && g.hes[x].opposite == hes[x].opposite && g.hes[x].edge == hes[x].edge
              && (x != he1 && x != he2 ==> g.hes[x].next == hes[x].next)
              && (x != hes[he1].next && x != hes[he2].next ==> g.hes[x].previous == hes[x].previous)
              && (x !in ring ==> g.hes[x].face == hes[x].face)
    {
      assert d.hes[x] == d.hes[..|hes|][x];
      RelinkedAt(hes, he1, he2, x);
    }
  }

  /** One old halfedge after the relinking. */
  lemma RelinkedAt(hes: seq<Halfedge>, he1: nat, he2: nat, x: nat)
    requires Closed(hes) && he1 < |hes| && he2 < |hes| && x < |hes|
    ensures var r := Relinked(hes, he1, he2)[x];
      && r.target == hes[x].target && r.opposite == hes[x].opposite && r.edge == hes[x].edge && r.face == hes[x].face
      && (x != he1 && x != he2 ==> r.next == hes[x].next)
      && (x != hes[he1].next && x != hes[he2].next ==> r.previous == hes[x].previous)
  {
  }

  /** The old halfedges of `Divided` are the relinked ones. */
  lemma DividedPrefix<VT, FT>(a: Arena<VT, FT>, he1: nat, he2: nat)
    requires Closed(a.hes) && he1 < |a.hes| && he2 < |a.hes|
    ensures |a.hes| <= |Divided(a, he1, he2).hes| && Divided(a, he1, he2).hes[..|a.hes|] == Relinked(a.hes, he1, he2)
  {
    var r := Relinked(a.hes, he1, he2);
    var d := Divided(a, he1, he2);
    assert d.hes == r + d.hes[|a.hes|..];
  }

  /** The parts of `Divided` that `CreateFace` and `FaceSplit` look at. */
  lemma DividedShape<VT, FT>(a: Arena<VT, FT>, he1: nat, he2: nat)
    requires Closed(a.hes) && he1 < |a.hes| && he2 < |a.hes| && he1 != he2
    ensures var d, h, e := Divided(a, he1, he2), |a.hes|, |a.es|;
      && |d.hes| == h + 2 && d.halfedges == a.halfedges + [h, h + 1] && d.edges == a.edges + [e]
      && d.faces == a.faces && d.vertices == a.vertices && d.vs == a.vs && d.fs == a.fs && d.es == a.es + [Edge(h)]
      && d.hes[h] == Halfedge(a.hes[he2].target, None, h + 1, a.hes[he2].next, he1, e)
      && d.hes[h + 1] == Halfedge(a.hes[he1].target, a.hes[he2].face, h, a.hes[he1].next, he2, e)
      && d.hes[he1].next == h && d.hes[he2].next == h + 1
  {
  }

  /** `CreateFace` on the new halfedge of a wired arena shaped as `DividedShape` says makes the
      split `FaceSplit` describes. */
  lemma SplitOnDivided<VT, FT>(a: Arena<VT, FT>, d: Arena<VT, FT>, he1: nat, he2: nat, ft: FT)
    requires Closed(a.hes) && he1 < |a.hes| && he2 < |a.hes|
    requires Fit(d) && |d.hes| == |a.hes| + 2 && Orbit(d.hes, AlongNext, |a.hes|).Some?
    requires forall x | x in Orbit(d.hes, AlongNext, |a.hes|).value :: x in d.halfedges
    requires CreateFace(d, Some(|a.hes|), ft).Ok? && Wired(CreateFace(d, Some(|a.hes|), ft).value.0.hes, d.halfedges)
    requires var h, e := |a.hes|, |a.es|;
      && |d.hes| == h + 2 && d.halfedges == a.halfedges + [h, h + 1] && d.edges == a.edges + [e]
      && d.faces == a.faces && d.vertices == a.vertices && d.vs == a.vs && d.fs == a.fs && d.es == a.es + [Edge(h)]
      && d.hes[h] == Halfedge(a.hes[he2].target, None, h + 1, a.hes[he2].next, he1, e)
      && d.hes[h + 1] == Halfedge(a.hes[he1].target, a.hes[he2].face, h, a.hes[he1].next, he2, e)
      && d.hes[he1].next == h && d.hes[he2].next == h + 1
    ensures CreateFace(d, Some(|a.hes|), ft).Ok?
    ensures FaceMade(a, (CreateFace(d, Some(|a.hes|), ft).value.0, |a.hes|), he1, he2, ft)
  {
    var h := |a.hes|;
    assert d.hes[h + 1].target == a.hes[he1].target;
    assert d.halfedges == a.halfedges + [h, h + 1];
    assert Source(d.hes, h) == a.hes[he1].target && d.hes[h + 1].face == a.hes[he2].face;
    CreateFaceFillsRing(d, h, ft);
    var g := CreateFace(d, Some(h), ft).value.0;
    assert g.halfedges == d.halfedges && Wired(g.hes, g.halfedges);
    var ring := Orbit(d.hes, AlongNext, h).value;
    OrbitIsCycle(d.hes, AlongNext, h);
    assert h in ring;
    assert |g.hes| == |d.hes|;
    assert g.hes[h + 1].target == d.hes[h + 1].target;
    assert g.hes[h + 1].face == if h + 1 in ring then Some(|a.fs|) else d.hes[h + 1].face;
    assert g.hes[h].opposite == h + 1;
    assert g.hes[he1].next == h && g.hes[he2].next == h + 1;
    assert g.fs[..|a.fs|] == a.fs;
    forall x | x in ring ensures x < |g.hes| && g.hes[x].face == Some(|a.fs|) {
      assert x in d.halfedges;
    }
    var f, e := |a.fs|, |a.es|;
    assert Fit(g) && |g.fs| == |a.fs| + 1;
    assert g.halfedges == a.halfedges + [h, h + 1] && g.edges == a.edges + [e];
    assert g.faces == a.faces + [f] && g.vertices == a.vertices && g.vs == a.vs;
    assert Source(g.hes, h) == a.hes[he1].target && g.hes[h].target == a.hes[he2].target;
    assert g.hes[h].edge == e && g.es[e] == Edge(h);
    assert g.hes[h].next == a.hes[he2].next && g.hes[h + 1].next == a.hes[he1].next;
    assert g.fs[f] == Face(h, ft) && g.hes[h].face == Some(f);
    assert Perimeter(g.hes, g.fs, f) == Some(ring);
    assert g.hes[h + 1].face == (if h + 1 in ring then Some(f) else a.hes[he2].face);
  }

  /** In a wired mesh no halfedge runs from an anchored vertex to itself, so `HalfedgeTo`
      from a vertex to itself finds none. */
  lemma NoHalfedgeToSelf<VT, FT>(a: Arena<VT, FT>, v: nat)
    requires Fit(a) && Wired(a.hes, a.halfedges) && v < |a.vs| && Anchored(a.hes, a.halfedges, a.vs, v)
    ensures HalfedgeBetween(a, v, v) == Ok(None)
  {
    IncomingsArrive(a.hes, a.halfedges, a.vs, v);
    var ins := Incomings(a.hes, a.vs, v).value;
    forall x | x in ins ensures x < |a.hes| && Source(a.hes, x) != v {
      var i :| 0 <= i < |ins| && ins[i] == x;
      assert WiredAt(a.hes, a.halfedges, x);
    }
  }

  /** `Divide` of a halfedge with itself: `e12` (id |hes|) becomes its own `Next`. */
  lemma DivideSelf<VT, FT>(a: Arena<VT, FT>, he: nat)
    requires Closed(a.hes) && he < |a.hes|
    ensures var d, h := Divide(a, he, he), |a.hes|;
      && d.hes[h].next == h && d.hes[h].face.None?
      && d.hes[h].target == a.hes[he].target && d.hes[h].opposite == h + 1
      && d.hes[h + 1].target == a.hes[he].target
  {
    var h := |a.hes|;
    var b := CreateEdgeInvalid(a, a.hes[he].target, a.hes[he].target).0;
    DivideStages(a, he, he);
    var c1 := SpliceAfterFirst(b, he, he, h, h + 1);
    assert c1.hes[he].next == h && c1.hes[h] == b.hes[h];
    var c := SpliceAfterSecond(c1, he, he, h, h + 1);
    assert c.hes[h].next == h;
  }

  /** A ring of one halfedge that is its own `Next`. */
  lemma LoopRing(hes: seq<Halfedge>, x: nat)
    requires Closed(hes) && x < |hes| && hes[x].next == x
    ensures Orbit(hes, AlongNext, x) == Some([x])
  {
  }

  /**
   * `SplitFace(he, he)` on a live halfedge of a wired mesh passes both guards (one face; no
   * halfedge from `he.Target` to itself) and succeeds, but the halfedge `e12` it adds runs from
   * `he.Target` to `he.Target` and is its own `Next`: a one-halfedge face ring, which
   * `Halfedge.AssertValid` forbids.
   */
  lemma SplitFaceSelfLoop<VT, FT>(a: Arena<VT, FT>, he: nat, ft: FT)
    requires Fit(a) && Wired(a.hes, a.halfedges) && he in a.halfedges
    requires Anchored(a.hes, a.halfedges, a.vs, a.hes[he].target)
    ensures SplitFace(a, he, he, ft).Ok?
    ensures var (g, e12) := SplitFace(a, he, he, ft).value;
      && Closed(g.hes) && e12 < |g.hes|
      && g.hes[e12].next == e12 && Source(g.hes, e12) == g.hes[e12].target
  {
    var h, v := |a.hes|, a.hes[he].target;
    assert v < |a.vs|;
    NoHalfedgeToSelf(a, v);
    SplitFaceCreates(a, he, he, ft);
    var d := Divide(a, he, he);
    DivideSelf(a, he);
    LoopRing(d.hes, h);
    RelabelKeepsLinks(d.hes, [h], Some(|d.fs|));
    var g := CreateFace(d, Some(h), ft).value.0;
    assert g.hes == Relabel(d.hes, [h], Some(|d.fs|));
  }

  /** Whatever the two halfedges, the halfedge `SplitFace` adds runs from `he1.Target` to
      `he2.Target`. */
  lemma SplitFaceRuns<VT, FT>(a: Arena<VT, FT>, he1: nat, he2: nat, ft: FT)
    requires Fit(a) && he1 < |a.hes| && he2 < |a.hes|
    ensures var r := SplitFace(a, he1, he2, ft);
      r.Ok? ==> Source(r.value.0.hes, |a.hes|) == a.hes[he1].target && r.value.0.hes[|a.hes|].target == a.hes[he2].target
  {
    var r := SplitFace(a, he1, he2, ft);
    if r.Ok? {
      var h, v1, v2 := |a.hes|, a.hes[he1].target, a.hes[he2].target;
      SplitFaceCreates(a, he1, he2, ft);
      DivideStages(a, he1, he2);
      var b := CreateEdgeInvalid(a, v1, v2).0;
      assert b.hes[h].target == v2 && b.hes[h].opposite == h + 1 && b.hes[h + 1].target == v1;
      var c1 := SpliceAfterFirst(b, he1, he2, h, h + 1);
      assert c1.hes[h].target == v2 && c1.hes[h].opposite == h + 1 && c1.hes[h + 1].target == v1;
      var c := SpliceAfterSecond(c1, he1, he2, h, h + 1);
      assert c.hes[h].target == v2 && c.hes[h].opposite == h + 1 && c.hes[h + 1].target == v1;
      var d := Divide(a, he1, he2);
      assert d.hes[h].target == v2 && d.hes[h].opposite == h + 1 && d.hes[h + 1].target == v1;
      var ring := Orbit(d.hes, AlongNext, h).value;
      RelabelKeepsLinks(d.hes, ring, Some(|d.fs|));
      assert r.value.0.hes == Relabel(d.hes, ring, Some(|d.fs|));
    }
  }

  /**
   * `SplitFace` as evidently intended: it also refuses two halfedges that end at the same
   * vertex, since the new edge would join that vertex to itself.
   */
  function SplitFaceChecked<VT, FT>(a: Arena<VT, FT>, he1: nat, he2: nat, ft: FT): (r: Result<(Arena<VT, FT>, nat)>)
    requires Fit(a) && he1 < |a.hes| && he2 < |a.hes|
    ensures r.Ok? ==> r.value.1 == |a.hes| && |r.value.0.hes| == |a.hes| + 2 && Closed(r.value.0.hes)
  {
    if a.hes[he1].face != a.hes[he2].face then Err(InvalidOperation(DifferentFaces))
    else if a.hes[he1].target == a.hes[he2].target then Err(InvalidOperation(SameTarget))
    else SplitFace(a, he1, he2, ft)
  }

  /**
   * In a wired mesh `SplitFaceChecked` never adds a self-loop: on two live halfedges of one
   * face it fails exactly when their targets are equal, when `HalfedgeTo` fails, or when they
   * are neighbours already; otherwise it splits the face as `FaceSplit` describes and the mesh
   * stays wired.
   */
  lemma SplitFaceCheckedSplits<VT, FT>(a: Arena<VT, FT>, he1: nat, he2: nat, ft: FT)
    requires Fit(a) && Wired(a.hes, a.halfedges) && he1 in a.halfedges && he2 in a.halfedges
    requires a.hes[he1].face == a.hes[he2].face
    ensures a.hes[he1].target == a.hes[he2].target ==>
      SplitFaceChecked(a, he1, he2, ft) == Err(InvalidOperation(SameTarget))
    ensures a.hes[he1].target != a.hes[he2].target ==>
      (SplitFaceChecked(a, he1, he2, ft).Ok? <==>
         HalfedgeBetween(a, a.hes[he1].target, a.hes[he2].target) == Ok(None))
    ensures SplitFaceChecked(a, he1, he2, ft).Ok? ==>
      FaceSplit(a, SplitFaceChecked(a, he1, he2, ft).value, he1, he2, ft)
  {
    var v1, v2 := a.hes[he1].target, a.hes[he2].target;
    if v1 != v2 {
      SplitFaceGuards(a, he1, he2, ft);
      if HalfedgeBetween(a, v1, v2) == Ok(None) {
        SplitFaceSplits(a, he1, he2, ft);
      }
    }
  }
}
