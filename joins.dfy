/**
 * `JoinFaces(he)` (Mesh.cs:219-255): the faces on the two sides of an edge become one, and the
 * edge goes. The operator as written and a corrected one share every step but two: the guard
 * on the far side and the new `Outgoing` of the target.
 */
module Joins {
  import opened Wrappers
  import opened Halfedges
  import opened Edges
  import opened Faces
  import opened Vertices
  import opened Meshes

  /**
   * Mesh.cs:240-241: the source gives up `he` for `he.NextAtSource`; then, if the target
   * leaves by `he.Opposite`, it takes `w` instead.
   */
  function Reanchor<VT, FT>(a: Arena<VT, FT>, h: nat, w: nat): Arena<VT, FT>
    requires Closed(a.hes) && VerticesClosed(a.hes, a.vs) && h < |a.hes|
  {
    var s, t, o := Source(a.hes, h), a.hes[h].target, a.hes[h].opposite;
    var b := if a.vs[s].outgoing == Some(h) then SetOutgoing(a, s, NextAtSource(a.hes, h)) else a;
    if b.vs[t].outgoing == Some(o) then SetOutgoing(b, t, w) else b
  }

  /** Mesh.cs:244-245: `he.Previous` is followed by `he.NextAtSource`. */
  function UnlinkAtSource<VT, FT>(a: Arena<VT, FT>, h: nat): (r: Arena<VT, FT>)
    requires Closed(a.hes) && h < |a.hes|
    ensures Closed(r.hes) && |r.hes| == |a.hes|
  {
    var c1 := SetNext(a, a.hes[h].previous, NextAtSource(a.hes, h));
    SetPrevious(c1, NextAtSource(c1.hes, h), c1.hes[h].previous)
  }

  /** Mesh.cs:247-248: `he.PreviousAtTarget` is followed by `he.Next`. */
  function UnlinkAtTarget<VT, FT>(a: Arena<VT, FT>, h: nat): (r: Arena<VT, FT>)
    requires Closed(a.hes) && h < |a.hes|
    ensures Closed(r.hes) && |r.hes| == |a.hes|
  {
    var c3 := SetPrevious(a, a.hes[h].next, PreviousAtTarget(a.hes, h));
    SetNext(c3, PreviousAtTarget(c3.hes, h), c3.hes[h].next)
  }

  /** Mesh.cs:244-248: the pair `he`, `he.Opposite` is cut out of its rings, each pointer read
      when its statement runs. */
  function Unlink<VT, FT>(a: Arena<VT, FT>, h: nat): (r: Arena<VT, FT>)
    requires Closed(a.hes) && h < |a.hes|
    ensures Closed(r.hes) && |r.hes| == |a.hes|
  {
    UnlinkAtTarget(UnlinkAtSource(a, h), h)
  }

  /** Mesh.cs:226-231: `Bounding` of the near face `f` moves off `h` to `h.Next`, and the far
      face is deleted. */
  function Retire<VT, FT>(a: Arena<VT, FT>, h: nat, f: nat): (r: Arena<VT, FT>)
    requires Closed(a.hes) && h < |a.hes| && f < |a.fs|
    ensures r.hes == a.hes && r.vs == a.vs && r.es == a.es && |r.fs| == |a.fs|
    ensures r.halfedges == a.halfedges && r.vertices == a.vertices && r.edges == a.edges
    ensures r.fs[f].bounding == if a.fs[f].bounding == h then a.hes[h].next else a.fs[f].bounding
    ensures r.faces == match a.hes[a.hes[h].opposite].face
      case None => a.faces
      case Some(g) => RemoveFirst(a.faces, g)
  {
    var b := if a.fs[f].bounding == h then SetBounding(a, f, a.hes[h].next) else a;
    DeleteFace(b, b.hes[a.hes[h].opposite].face)
  }

  /** Mesh.cs:232-248: the far ring `ring` joins face `f`, the endpoints are re-anchored (the
      target on `w`) and the pair is cut out of its rings. */
  function Rewire<VT, FT>(a: Arena<VT, FT>, h: nat, ring: seq<nat>, f: nat, w: nat): Arena<VT, FT>
    requires Fit(a) && h < |a.hes| && f < |a.fs| && w < |a.hes|
  {
    var b3 := SetFaces(a, ring, Some(f));
    SetFacesFits(a, ring, Some(f));
    var b4 := Reanchor(b3, h, w);
    ReanchorFits(b3, h, w);
    Unlink(b4, h)
  }

  /** Mesh.cs:232-251: `Rewire`, then the edge of the pair is deleted (Mesh.cs:251). */
  function Merge<VT, FT>(a: Arena<VT, FT>, h: nat, ring: seq<nat>, f: nat, w: nat): Arena<VT, FT>
    requires Fit(a) && h < |a.hes| && f < |a.fs| && w < |a.hes|
  {
    var b := Rewire(a, h, ring, f, w);
    RewireFits(a, h, ring, f, w);
    DeleteEdge(b, b.hes[h].edge)
  }

  lemma RewireFits<VT, FT>(a: Arena<VT, FT>, h: nat, ring: seq<nat>, f: nat, w: nat)
    requires Fit(a) && h < |a.hes| && f < |a.fs| && w < |a.hes|
    ensures var b := Rewire(a, h, ring, f, w);
      && Fit(b) && b.es == a.es && b.fs == a.fs
      && b.halfedges == a.halfedges && b.vertices == a.vertices && b.edges == a.edges && b.faces == a.faces
  {
    var b3 := SetFaces(a, ring, Some(f));
    SetFacesFits(a, ring, Some(f));
    ReanchorFits(b3, h, w);
    UnlinkFits(Reanchor(b3, h, w), h);
  }

  /**
   * Mesh.cs:224-251 once the guards have passed, for a halfedge `h` with a face: `Bounding`
   * moves off `h`, the far face is deleted and its ring joins the near face, the endpoints are
   * re-anchored (the target on `w`), the pair is cut out of its rings and the edge deleted.
   * Returns the arena and the face that remains.
   */
  function Join<VT, FT>(a: Arena<VT, FT>, h: nat, w: nat): Result<(Arena<VT, FT>, nat)>
    requires Fit(a) && h < |a.hes| && a.hes[h].face.Some? && w < |a.hes|
  {
    var f := a.hes[h].face.value;
    var b := Retire(a, h, f);
    RetireFits(a, h, f);
    match Orbit(a.hes, AlongNext, a.hes[h].opposite)
    case None => Err(Diverges)
    case Some(ring) => Ok((Merge(b, h, ring, f, w), f))
  }

  lemma RetireFits<VT, FT>(a: Arena<VT, FT>, h: nat, f: nat)
    requires Fit(a) && h < |a.hes| && f < |a.fs|
    ensures Fit(Retire(a, h, f))
  {
    SetBoundingFits(a, f, a.hes[h].next);
    var b := if a.fs[f].bounding == h then SetBounding(a, f, a.hes[h].next) else a;
    DeleteFaceRemoves(b, b.hes[a.hes[h].opposite].face);
  }

  lemma ReanchorFits<VT, FT>(a: Arena<VT, FT>, h: nat, w: nat)
    requires Fit(a) && h < |a.hes| && w < |a.hes|
    ensures Fit(Reanchor(a, h, w)) && Reanchor(a, h, w).hes == a.hes
  {
    var s := Source(a.hes, h);
    SetOutgoingFits(a, s, NextAtSource(a.hes, h));
    var b := if a.vs[s].outgoing == Some(h) then SetOutgoing(a, s, NextAtSource(a.hes, h)) else a;
    SetOutgoingFits(b, a.hes[h].target, w);
  }

  lemma UnlinkFits<VT, FT>(a: Arena<VT, FT>, h: nat)
    requires Fit(a) && h < |a.hes|
    ensures Fit(Unlink(a, h))
  {
    var c1 := SetNext(a, a.hes[h].previous, NextAtSource(a.hes, h));
    SetLinkFits(a, a.hes[h].previous, NextAtSource(a.hes, h));
    SetLinkFits(c1, NextAtSource(c1.hes, h), c1.hes[h].previous);
    var c2 := UnlinkAtSource(a, h);
    var c3 := SetPrevious(c2, c2.hes[h].next, PreviousAtTarget(c2.hes, h));
    SetLinkFits(c2, c2.hes[h].next, PreviousAtTarget(c2.hes, h));
    SetLinkFits(c3, PreviousAtTarget(c3.hes, h), c3.hes[h].next);
  }

  /** `JoinFaces(he)` as written; `None` is a null argument. */
  function JoinFaces<VT, FT>(a: Arena<VT, FT>, he: Option<nat>): Result<(Arena<VT, FT>, nat)>
    requires Fit(a) && (he.Some? ==> he.value < |a.hes|)
  {
    match he
    case None => Err(ArgumentNull)
    case Some(h) =>
      if a.hes[h].face == a.hes[a.hes[h].opposite].face then Err(Argument(SameFace))
      else if IsBoundary(a.hes, h) then Err(Argument(OnBoundary))
      else Join(a, h, NextAtTarget(a.hes, h))
  }

  /**
   * `JoinFaces(he)` as its guard message and `Vertex.AssertValid` intend it: both sides of the
   * edge must have a face, and a target that left by `he.Opposite` leaves by `he.Next`.
   */
  function JoinFacesChecked<VT, FT>(a: Arena<VT, FT>, he: Option<nat>): Result<(Arena<VT, FT>, nat)>
    requires Fit(a) && (he.Some? ==> he.value < |a.hes|)
  {
    match he
    case None => Err(ArgumentNull)
    case Some(h) =>
      var o := a.hes[h].opposite;
      if a.hes[h].face == a.hes[o].face then Err(Argument(SameFace))
      else if IsBoundary(a.hes, h) || IsBoundary(a.hes, o) then Err(Argument(OnBoundary))
      else Join(a, h, a.hes[h].next)
  }

  // The explicit rewiring

  /**
   * The links of `hes` with the pair `h`, `h.opposite` cut out: `h.Previous` is followed by
   * `h.Opposite.Next` and `h.Opposite.Previous` by `h.Next`. Where two writes of Mesh.cs:245-248
   * could meet, the later one is listed first.
   */
  function Spliced(hes: seq<Halfedge>, h: nat): (r: seq<Halfedge>)
    requires Closed(hes) && h < |hes|
    ensures |r| == |hes|
  {
    var o := hes[h].opposite;
    var p, n, po, no := hes[h].previous, hes[h].next, hes[o].previous, hes[o].next;
    seq(|hes|, x requires 0 <= x < |hes| => hes[x].(
      next := if x == po then n else if x == p then no else hes[x].next,
      previous := if x == n then po else if x == no then p else hes[x].previous))
  }

  /** `UnlinkAtSource` when `h.Previous` is neither `h` nor `h.Opposite`. */
  lemma UnlinkAtSourceLinks<VT, FT>(a: Arena<VT, FT>, h: nat)
    requires Closed(a.hes) && h < |a.hes|
    requires a.hes[h].previous != a.hes[h].opposite && a.hes[h].previous != h
    ensures var b, p, no := UnlinkAtSource(a, h), a.hes[h].previous, a.hes[a.hes[h].opposite].next;
      forall x | 0 <= x < |a.hes| :: b.hes[x] == a.hes[x].(
        next := if x == p then no else a.hes[x].next,
        previous := if x == no then p else a.hes[x].previous)
  {
  }

  /** `UnlinkAtTarget` when `h.Next` is not `h.Opposite`. */
  lemma UnlinkAtTargetLinks<VT, FT>(a: Arena<VT, FT>, h: nat)
    requires Closed(a.hes) && h < |a.hes|
    requires a.hes[h].next != a.hes[h].opposite
    ensures var b, n, po := UnlinkAtTarget(a, h), a.hes[h].next, a.hes[a.hes[h].opposite].previous;
      forall x | 0 <= x < |a.hes| :: b.hes[x] == a.hes[x].(
        next := if x == po then n else a.hes[x].next,
        previous := if x == n then po else a.hes[x].previous)
  {
  }

  /** Away from the degenerate links `Unlink` does what `Spliced` says. */
  lemma UnlinkSplices<VT, FT>(a: Arena<VT, FT>, h: nat)
    requires Closed(a.hes) && h < |a.hes|
    requires var o := a.hes[h].opposite;
      && a.hes[h].previous != o && a.hes[h].previous != h
      && a.hes[o].next != o && a.hes[h].next != o
    ensures Unlink(a, h).hes == Spliced(a.hes, h)
  {
    var c := UnlinkAtSource(a, h);
    UnlinkAtSourceLinks(a, h);
    var o := a.hes[h].opposite;
    assert c.hes[h] == a.hes[h] && c.hes[o].previous == a.hes[o].previous;
    UnlinkAtTargetLinks(c, h);
    SplicedStages(a.hes, c.hes, Unlink(a, h).hes, h);
  }

  /** The two stages of `Unlink`, composed, are `Spliced`. */
  lemma SplicedStages(hes: seq<Halfedge>, b: seq<Halfedge>, d: seq<Halfedge>, h: nat)
    requires Closed(hes) && h < |hes| && |b| == |hes| && |d| == |hes|
    requires var p, no := hes[h].previous, hes[hes[h].opposite].next;
      forall x | 0 <= x < |hes| :: b[x] == hes[x].(
        next := if x == p then no else hes[x].next,
        previous := if x == no then p else hes[x].previous)
    requires var n, po := hes[h].next, hes[hes[h].opposite].previous;
      forall x | 0 <= x < |hes| :: d[x] == b[x].(
        next := if x == po then n else b[x].next,
        previous := if x == n then po else b[x].previous)
    ensures d == Spliced(hes, h)
  {
    var s := Spliced(hes, h);
    forall x | 0 <= x < |hes| ensures d[x] == s[x] {
    }
  }

  /** `Spliced` changes links only. */
  lemma SplicedKeeps(hes: seq<Halfedge>, h: nat)
    requires Closed(hes) && h < |hes|
    ensures forall y | 0 <= y < |hes| ::
              && Spliced(hes, h)[y].opposite == hes[y].opposite && Spliced(hes, h)[y].target == hes[y].target
              && Spliced(hes, h)[y].edge == hes[y].edge && Spliced(hes, h)[y].face == hes[y].face
    ensures Closed(Spliced(hes, h))
    ensures forall y | 0 <= y < |hes| :: Source(Spliced(hes, h), y) == Source(hes, y)
  {
  }

  /** Relabelling, then splicing: faces from the relabelling, links from the splice, the
      sources of the original. */
  lemma SplicedRelabel(hes: seq<Halfedge>, ring: seq<nat>, f: Option<nat>, h: nat, s: seq<Halfedge>)
    requires Closed(hes) && h < |hes|
    requires hes[h].previous != hes[hes[h].opposite].previous
    requires Closed(Relabel(hes, ring, f)) && s == Spliced(Relabel(hes, ring, f), h)
    ensures && Closed(s) && |s| == |hes|
      && (forall x | 0 <= x < |hes| :: s[x].face == if x in ring then f else hes[x].face)
      && (forall y | 0 <= y < |hes| :: Source(s, y) == Source(hes, y))
      && s[hes[h].previous].next == hes[hes[h].opposite].next
      && s[hes[hes[h].opposite].previous].next == hes[h].next
  {
    RelabelKeepsLinks(hes, ring, f);
    SplicedKeeps(Relabel(hes, ring, f), h);
  }

  /**
   * Cutting the pair `h`, `h.Opposite` out of a wired mesh leaves the other halfedges wired,
   * when neither end of the edge is a dead end (`h.Next` and `h.Opposite.Next` are not the
   * pair itself).
   */
  lemma SplicedWired(hes: seq<Halfedge>, live: seq<nat>, live': seq<nat>, h: nat)
    requires Wired(hes, live) && h in live
    requires hes[h].next != hes[h].opposite && hes[hes[h].opposite].next != h
    requires forall x :: x in live' <==> x in live && x != h && x != hes[h].opposite
    ensures Wired(Spliced(hes, h), live')
  {
    var o := hes[h].opposite;
    var p, n, po, no := hes[h].previous, hes[h].next, hes[o].previous, hes[o].next;
    assert WiredAt(hes, live, h) && WiredAt(hes, live, o);
    assert WiredAt(hes, live, p) && WiredAt(hes, live, n) && WiredAt(hes, live, po) && WiredAt(hes, live, no);
    var s := Spliced(hes, h);
    SplicedKeeps(hes, h);
    forall x | x in live' ensures WiredAt(s, live', x) {
      assert WiredAt(hes, live, x);
      assert WiredAt(hes, live, hes[x].opposite);
      SplicedWiredAt(hes, live, live', h, x, s);
    }
  }

  /** One halfedge of `SplicedWired`. */
  lemma SplicedWiredAt(hes: seq<Halfedge>, live: seq<nat>, live': seq<nat>, h: nat, x: nat, s: seq<Halfedge>)
    requires Closed(hes) && h < |hes| && x < |hes| && s == Spliced(hes, h) && Closed(s)
    requires forall y | y in live :: y < |hes|
    requires var o := hes[h].opposite;
      && WiredAt(hes, live, h) && WiredAt(hes, live, o)
      && WiredAt(hes, live, hes[h].previous) && WiredAt(hes, live, hes[h].next)
      && WiredAt(hes, live, hes[o].previous) && WiredAt(hes, live, hes[o].next)
      && WiredAt(hes, live, x) && WiredAt(hes, live, hes[x].opposite)
    requires hes[h].next != hes[h].opposite && hes[hes[h].opposite].next != h
    requires forall y :: y in live' <==> y in live && y != h && y != hes[h].opposite
    requires forall y | 0 <= y < |hes| ::
              && s[y].opposite == hes[y].opposite && s[y].target == hes[y].target
              && s[y].edge == hes[y].edge && Source(s, y) == Source(hes, y)
    requires x in live'
    ensures WiredAt(s, live', x)
  {
    var o := hes[h].opposite;
    var p, n, po, no := hes[h].previous, hes[h].next, hes[o].previous, hes[o].next;
    assert s[x].opposite in live' && s[s[x].opposite].opposite == x;
    if x == po {
      assert s[x].next == n && s[n].previous == x;
    } else if x == p {
      assert s[x].next == no && s[no].previous == x;
    } else {
      assert s[x].next == hes[x].next && s[hes[x].next].previous == x;
    }
    if x == n {
      assert s[x].previous == po && s[po].next == x;
    } else if x == no {
      assert s[x].previous == p && s[p].next == x;
    } else {
      assert s[x].previous == hes[x].previous && s[hes[x].previous].next == x;
    }
  }

  /** `Reanchor` reads links and targets only. */
  lemma ReanchorSameLinks<VT, FT>(a: Arena<VT, FT>, b: Arena<VT, FT>, h: nat, w: nat)
    requires Closed(a.hes) && VerticesClosed(a.hes, a.vs) && h < |a.hes|
    requires SameLinks(a.hes, b.hes) && b.vs == a.vs
    requires forall y | 0 <= y < |a.hes| :: b.hes[y].target == a.hes[y].target
    ensures Closed(b.hes) && VerticesClosed(b.hes, b.vs)
    ensures Reanchor(b, h, w).vs == Reanchor(a, h, w).vs
  {
    assert Source(b.hes, h) == Source(a.hes, h);
    assert NextAtSource(b.hes, h) == NextAtSource(a.hes, h);
  }

  /** What `Rewire` does to halfedges and vertices, away from the degenerate links. */
  lemma RewireSplices<VT, FT>(a: Arena<VT, FT>, h: nat, ring: seq<nat>, f: nat, w: nat)
    requires Fit(a) && h < |a.hes| && f < |a.fs| && w < |a.hes|
    requires var o := a.hes[h].opposite;
      && a.hes[h].previous != o && a.hes[h].previous != h && a.hes[o].next != o && a.hes[h].next != o
    ensures var b := Rewire(a, h, ring, f, w);
      && b.hes == Spliced(Relabel(a.hes, ring, Some(f)), h) && b.vs == Reanchor(a, h, w).vs
  {
    var b3 := SetFaces(a, ring, Some(f));
    SetFacesFits(a, ring, Some(f));
    RelabelKeepsLinks(a.hes, ring, Some(f));
    ReanchorSameLinks(a, b3, h, w);
    var b4 := Reanchor(b3, h, w);
    ReanchorFits(b3, h, w);
    UnlinkSplices(b4, h);
  }

  /** When the far ring closes, `Join` retires the far face and merges. */
  lemma JoinStages<VT, FT>(a: Arena<VT, FT>, h: nat, w: nat)
    requires Fit(a) && h < |a.hes| && a.hes[h].face.Some? && w < |a.hes|
    requires Orbit(a.hes, AlongNext, a.hes[h].opposite).Some?
    ensures var f := a.hes[h].face.value;
      && Fit(Retire(a, h, f))
      && Join(a, h, w) == Ok((Merge(Retire(a, h, f), h, Orbit(a.hes, AlongNext, a.hes[h].opposite).value, f, w), f))
  {
    RetireFits(a, h, a.hes[h].face.value);
  }

  /** The outgoing pointers `Reanchor` leaves, for an edge whose ends differ. */
  lemma ReanchorOutgoing<VT, FT>(a: Arena<VT, FT>, h: nat, w: nat)
    requires Closed(a.hes) && VerticesClosed(a.hes, a.vs) && h < |a.hes| && Source(a.hes, h) != a.hes[h].target
    ensures var r, s, t, o := Reanchor(a, h, w), Source(a.hes, h), a.hes[h].target, a.hes[h].opposite;
      && |r.vs| == |a.vs|
      && (forall v | 0 <= v < |a.vs| :: r.vs[v].traits == a.vs[v].traits)
      && r.vs[s].outgoing == (if a.vs[s].outgoing == Some(h) then Some(NextAtSource(a.hes, h)) else a.vs[s].outgoing)
      && r.vs[t].outgoing == (if a.vs[t].outgoing == Some(o) then Some(w) else a.vs[t].outgoing)
      && (forall v | 0 <= v < |a.vs| && v != s && v != t :: r.vs[v] == a.vs[v])
  {
  }

  /** `Merge` deletes the pair and its edge from the lists and keeps the arena fit. */
  lemma MergeDeletes<VT, FT>(a: Arena<VT, FT>, h: nat, ring: seq<nat>, f: nat, w: nat)
    requires Fit(a) && h < |a.hes| && f < |a.fs| && w < |a.hes|
    requires var o := a.hes[h].opposite;
      && a.hes[h].previous != o && a.hes[h].previous != h && a.hes[o].next != o && a.hes[h].next != o
    requires var o, e := a.hes[h].opposite, a.hes[h].edge;
      && h in a.halfedges && o in a.halfedges && o != h && a.hes[o].opposite == h && e in a.edges
      && (a.es[e].half1 == h || a.es[e].half1 == o)
    ensures var g, o, e := Merge(a, h, ring, f, w), a.hes[h].opposite, a.hes[h].edge;
      && Fit(g)
      && |g.halfedges| == |a.halfedges| - 2 && |g.edges| == |a.edges| - 1
      && (forall x :: x in g.halfedges <==> x in a.halfedges && x != h && x != o)
      && (forall x :: x in g.edges <==> x in a.edges && x != e)
      && g.hes == Spliced(Relabel(a.hes, ring, Some(f)), h) && g.vs == Reanchor(a, h, w).vs
      && g.es == a.es && g.fs == a.fs && g.vertices == a.vertices && g.faces == a.faces
  {
    var b := Rewire(a, h, ring, f, w);
    RewireFits(a, h, ring, f, w);
    RewireSplices(a, h, ring, f, w);
    var hs := Relabel(a.hes, ring, Some(f));
    RelabelKeepsLinks(a.hes, ring, Some(f));
    SplicedKeeps(hs, h);
    var e := a.hes[h].edge;
    assert b.hes[h].edge == e && b.hes[a.es[e].half1].opposite == a.hes[a.es[e].half1].opposite;
    DeleteEdgeRemoves(b, e);
  }

  // What a join does to a wired mesh

  /**
   * The outcome of a join on `h`, for the arena `r.0` and face `r.1`: the near face `h.Face`
   * is returned and takes over the far ring; the pair `h`, `h.Opposite` and its edge leave
   * their lists, the far face leaves `Faces`, the vertices stay; `h.Previous` now leads to
   * `h.Opposite.Next` and `h.Opposite.Previous` to `h.Next`; `Bounding` is off `h`; the mesh
   * is still wired; and every vertex but the target keeps a valid `Outgoing`.
   */
  ghost predicate FacesJoined<VT, FT>(a: Arena<VT, FT>, r: (Arena<VT, FT>, nat), h: nat)
    requires Fit(a) && h < |a.hes|
  {
    var (g, f) := r;
    var o, e, ring := a.hes[h].opposite, a.hes[h].edge, Orbit(a.hes, AlongNext, a.hes[h].opposite);
    && Some(f) == a.hes[h].face && f < |a.fs| && ring.Some?
    && Fit(g) && Wired(g.hes, g.halfedges) && |g.hes| == |a.hes| && |g.vs| == |a.vs| && |g.fs| == |a.fs|
    && (forall x :: x in g.halfedges <==> x in a.halfedges && x != h && x != o)
    && (forall x :: x in g.edges <==> x in a.edges && x != e)
    && (forall x :: x in g.faces <==> x in a.faces && Some(x) != a.hes[o].face)
    && |g.halfedges| == |a.halfedges| - 2 && |g.edges| == |a.edges| - 1 && g.vertices == a.vertices
    && (a.hes[o].face.Some? && a.hes[o].face.value in a.faces ==> |g.faces| == |a.faces| - 1)
    && (forall x | 0 <= x < |a.hes| :: g.hes[x].face == if x in ring.value then Some(f) else a.hes[x].face)
    && g.hes[a.hes[h].previous].next == a.hes[o].next && g.hes[a.hes[o].previous].next == a.hes[h].next
    && g.fs[f].bounding == (if a.fs[f].bounding == h then a.hes[h].next else a.fs[f].bounding)
    && (forall v | 0 <= v < |a.vs| && v != a.hes[h].target ::
          Anchored(a.hes, a.halfedges, a.vs, v) ==> Anchored(g.hes, g.halfedges, g.vs, v))
    && (forall v | 0 <= v < |a.vs| :: g.vs[v].traits == a.vs[v].traits)
  }

  /**
   * In a wired mesh, for a live `h` with a face whose edge is recorded by either half and whose
   * ends are no dead ends (`h.Next` and `h.Opposite.Next` are not the pair), a join on `h`
   * succeeds as `FacesJoined` says, and the target leaves by `w` when it left by `h.Opposite`.
   */
  lemma JoinJoins<VT, FT>(a: Arena<VT, FT>, h: nat, w: nat)
    requires Fit(a) && Wired(a.hes, a.halfedges) && h in a.halfedges && a.hes[h].face.Some? && w < |a.hes|
    requires var o, e := a.hes[h].opposite, a.hes[h].edge;
      && a.hes[h].next != o && a.hes[o].next != h
      && e in a.edges && (a.es[e].half1 == h || a.es[e].half1 == o)
    ensures Join(a, h, w).Ok? && FacesJoined(a, Join(a, h, w).value, h)
    ensures forall y | 0 <= y < |a.hes| :: Source(Join(a, h, w).value.0.hes, y) == Source(a.hes, y)
    ensures var g, t := Join(a, h, w).value.0, a.hes[h].target;
      g.vs[t].outgoing == if a.vs[t].outgoing == Some(a.hes[h].opposite) then Some(w) else a.vs[t].outgoing
  {
    var o, f := a.hes[h].opposite, a.hes[h].face.value;
    assert WiredAt(a.hes, a.halfedges, h) && WiredAt(a.hes, a.halfedges, o);
    WalkReturns(a.hes, a.halfedges, AlongNext, o);
    var ring := Orbit(a.hes, AlongNext, o).value;
    JoinStages(a, h, w);
    var b := Retire(a, h, f);
    MergeDeletes(b, h, ring, f, w);
    ReanchorSameLinks(a, b, h, w);
    var g := Merge(b, h, ring, f, w);
    JoinedShape(a, g, h, w, f, ring);
  }

  /** From the fields `Merge` leaves to `FacesJoined`. */
  lemma JoinedShape<VT, FT>(a: Arena<VT, FT>, g: Arena<VT, FT>, h: nat, w: nat, f: nat, ring: seq<nat>)
    requires Fit(a) && Wired(a.hes, a.halfedges) && h in a.halfedges && a.hes[h].face == Some(f) && w < |a.hes|
    requires var o := a.hes[h].opposite;
      && a.hes[h].next != o && a.hes[o].next != h && Orbit(a.hes, AlongNext, o) == Some(ring)
    requires Fit(g) && |g.fs| == |a.fs|
    requires g.hes == Spliced(Relabel(a.hes, ring, Some(f)), h) && g.vs == Reanchor(a, h, w).vs
    requires var o, e := a.hes[h].opposite, a.hes[h].edge;
      && (forall x :: x in g.halfedges <==> x in a.halfedges && x != h && x != o)
      && (forall x :: x in g.edges <==> x in a.edges && x != e)
      && |g.halfedges| == |a.halfedges| - 2 && |g.edges| == |a.edges| - 1 && g.vertices == a.vertices
      && g.faces == (match a.hes[o].face case None => a.faces case Some(k) => RemoveFirst(a.faces, k))
      && g.fs[f].bounding == (if a.fs[f].bounding == h then a.hes[h].next else a.fs[f].bounding)
    ensures FacesJoined(a, (g, f), h)
    ensures forall y | 0 <= y < |a.hes| :: Source(g.hes, y) == Source(a.hes, y)
    ensures var t := a.hes[h].target;
      g.vs[t].outgoing == if a.vs[t].outgoing == Some(a.hes[h].opposite) then Some(w) else a.vs[t].outgoing
  {
    var o := a.hes[h].opposite;
    SplicedRelabelWired(a.hes, a.halfedges, g.halfedges, ring, Some(f), h, g.hes);
    ReanchorOutgoing(a, h, w);
    JoinAnchors(a, g, h, w);
    if a.hes[o].face.Some? {
      RemoveFirstDistinct(a.faces, a.hes[o].face.value);
    }
    JoinedIntro(a, g, h, f, ring);
  }

  /** Relabelling faces and splicing out a halfedge pair keeps the rest wired. */
  lemma SplicedRelabelWired(hes: seq<Halfedge>, live: seq<nat>, live': seq<nat>, ring: seq<nat>, f: Option<nat>,
                            h: nat, s: seq<Halfedge>)
    requires Wired(hes, live) && h in live
    requires hes[h].next != hes[h].opposite && hes[hes[h].opposite].next != h
    requires forall x :: x in live' <==> x in live && x != h && x != hes[h].opposite
    requires s == Spliced(Relabel(hes, ring, f), h)
    ensures Wired(s, live') && |s| == |hes|
    ensures forall x | 0 <= x < |hes| :: s[x].face == if x in ring then f else hes[x].face
    ensures forall y | 0 <= y < |hes| :: Source(s, y) == Source(hes, y)
    ensures s[hes[h].previous].next == hes[hes[h].opposite].next
    ensures s[hes[hes[h].opposite].previous].next == hes[h].next
    ensures Source(hes, h) != hes[h].target
  {
    var hs := Relabel(hes, ring, f);
    RelabelKeepsLinks(hes, ring, f);
    assert WiredAt(hes, live, h) && WiredAt(hes, live, hes[h].opposite);
    SplicedRelabel(hes, ring, f, h, s);
    WiredSameLinks(hes, hs, live);
    SplicedWired(hs, live, live', h);
  }

  /** `FacesJoined` from its parts, in a context that knows nothing else about `g`. */
  lemma JoinedIntro<VT, FT>(a: Arena<VT, FT>, g: Arena<VT, FT>, h: nat, f: nat, ring: seq<nat>)
    requires Fit(a) && h < |a.hes| && Some(f) == a.hes[h].face && f < |a.fs|
    requires var o, e := a.hes[h].opposite, a.hes[h].edge;
      && Orbit(a.hes, AlongNext, o) == Some(ring)
      && Fit(g) && Wired(g.hes, g.halfedges) && |g.hes| == |a.hes| && |g.vs| == |a.vs| && |g.fs| == |a.fs|
      && (forall x :: x in g.halfedges <==> x in a.halfedges && x != h && x != o)
      && (forall x :: x in g.edges <==> x in a.edges && x != e)
      && (forall x :: x in g.faces <==> x in a.faces && Some(x) != a.hes[o].face)
      && |g.halfedges| == |a.halfedges| - 2 && |g.edges| == |a.edges| - 1 && g.vertices == a.vertices
      && (a.hes[o].face.Some? && a.hes[o].face.value in a.faces ==> |g.faces| == |a.faces| - 1)
      && (forall x | 0 <= x < |a.hes| :: g.hes[x].face == if x in ring then Some(f) else a.hes[x].face)
      && g.hes[a.hes[h].previous].next == a.hes[o].next && g.hes[a.hes[o].previous].next == a.hes[h].next
      && g.fs[f].bounding == (if a.fs[f].bounding == h then a.hes[h].next else a.fs[f].bounding)
      && (forall v | 0 <= v < |a.vs| && v != a.hes[h].target ::
            Anchored(a.hes, a.halfedges, a.vs, v) ==> Anchored(g.hes, g.halfedges, g.vs, v))
      && (forall v | 0 <= v < |a.vs| :: g.vs[v].traits == a.vs[v].traits)
    ensures FacesJoined(a, (g, f), h)
  {
  }

  /** Every vertex but the target of `h` that was anchored stays anchored. */
  lemma JoinAnchors<VT, FT>(a: Arena<VT, FT>, g: Arena<VT, FT>, h: nat, w: nat)
    requires Fit(a) && Wired(a.hes, a.halfedges) && h in a.halfedges && a.hes[h].opposite != a.hes[h].next
    requires Closed(g.hes) && VerticesClosed(g.hes, g.vs) && |g.hes| == |a.hes|
    requires forall x :: x in g.halfedges <==> x in a.halfedges && x != h && x != a.hes[h].opposite
    requires forall y | 0 <= y < |a.hes| :: Source(g.hes, y) == Source(a.hes, y)
    requires Source(a.hes, h) != a.hes[h].target
    requires g.vs == Reanchor(a, h, w).vs
    requires a.hes[a.hes[h].opposite].next != h
    ensures forall v | 0 <= v < |a.vs| && v != a.hes[h].target ::
      Anchored(a.hes, a.halfedges, a.vs, v) ==> Anchored(g.hes, g.halfedges, g.vs, v)
  {
    ReanchorOutgoing(a, h, w);
    var o := a.hes[h].opposite;
    assert WiredAt(a.hes, a.halfedges, h) && WiredAt(a.hes, a.halfedges, o);
    forall v | 0 <= v < |a.vs| && v != a.hes[h].target && Anchored(a.hes, a.halfedges, a.vs, v)
      ensures Anchored(g.hes, g.halfedges, g.vs, v) {
    }
  }

  // The operator and its guards

  /** `JoinFaces` throws for null and for a halfedge with the same face on both sides, and
      for a halfedge with no face; the join itself fails only by a ring that never closes. */
  lemma JoinFacesGuards<VT, FT>(a: Arena<VT, FT>, he: Option<nat>)
    requires Fit(a) && (he.Some? ==> he.value < |a.hes|)
    ensures he.None? ==> JoinFaces(a, he) == Err(ArgumentNull)
    ensures he.Some? ==> var h := he.value; var o := a.hes[h].opposite;
      && (JoinFaces(a, he) == Err(Argument(SameFace)) <==> a.hes[h].face == a.hes[o].face)
      && (JoinFaces(a, he) == Err(Argument(OnBoundary)) <==> a.hes[h].face != a.hes[o].face && IsBoundary(a.hes, h))
      && (JoinFaces(a, he).Err? ==> JoinFaces(a, he).failure in {Argument(SameFace), Argument(OnBoundary), Diverges})
  {
  }

  /** The corrected guards: a halfedge whose opposite has no face is refused as well. */
  lemma JoinFacesCheckedGuards<VT, FT>(a: Arena<VT, FT>, he: Option<nat>)
    requires Fit(a) && (he.Some? ==> he.value < |a.hes|)
    ensures he.None? ==> JoinFacesChecked(a, he) == Err(ArgumentNull)
    ensures he.Some? ==> var h := he.value; var o := a.hes[h].opposite;
      && (JoinFacesChecked(a, he) == Err(Argument(SameFace)) <==> a.hes[h].face == a.hes[o].face)
      && (JoinFacesChecked(a, he) == Err(Argument(OnBoundary)) <==>
            a.hes[h].face != a.hes[o].face && (IsBoundary(a.hes, h) || IsBoundary(a.hes, o)))
      && (JoinFacesChecked(a, he).Err? ==>
            JoinFacesChecked(a, he).failure in {Argument(SameFace), Argument(OnBoundary), Diverges})
  {
  }

  /** Past the guards, neither end of the edge is a dead end: `h.Next` and `h.Opposite.Next`
      lie on the rings of the two different faces. */
  lemma NoDeadEnd(hes: seq<Halfedge>, live: seq<nat>, h: nat)
    requires Wired(hes, live) && RingsFaced(hes, live) && h in live
    requires hes[h].face != hes[hes[h].opposite].face
    ensures hes[h].next != hes[h].opposite && hes[hes[h].opposite].next != h
  {
    assert WiredAt(hes, live, h);
  }

  /**
   * The corrected `JoinFaces` on a wired mesh whose rings are faced, for a halfedge with two
   * different faces: it joins them (faces, edges and halfedges as `FacesJoined` states) and
   * the target of `h` is still anchored, now by `h.Next` when it was anchored by
   * `h.Opposite`.
   */
  lemma JoinFacesCheckedJoins<VT, FT>(a: Arena<VT, FT>, h: nat)
    requires Fit(a) && Wired(a.hes, a.halfedges) && RingsFaced(a.hes, a.halfedges) && h in a.halfedges
    requires var o, e := a.hes[h].opposite, a.hes[h].edge;
      && e in a.edges && (a.es[e].half1 == h || a.es[e].half1 == o)
      && a.hes[h].face != a.hes[o].face && !IsBoundary(a.hes, h) && !IsBoundary(a.hes, o)
    ensures JoinFacesChecked(a, Some(h)).Ok? && FacesJoined(a, JoinFacesChecked(a, Some(h)).value, h)
    ensures var g, t := JoinFacesChecked(a, Some(h)).value.0, a.hes[h].target;
      Anchored(a.hes, a.halfedges, a.vs, t) ==> Anchored(g.hes, g.halfedges, g.vs, t)
  {
    var o, n, t := a.hes[h].opposite, a.hes[h].next, a.hes[h].target;
    NoDeadEnd(a.hes, a.halfedges, h);
    assert WiredAt(a.hes, a.halfedges, h) && WiredAt(a.hes, a.halfedges, o);
    JoinJoins(a, h, n);
    var g := Join(a, h, n).value.0;
    if Anchored(a.hes, a.halfedges, a.vs, t) && a.vs[t].outgoing != Some(o) {
      assert a.vs[t].outgoing.value != h;
    }
  }

  /**
   * `JoinFaces` as written anchors the target of `h` by `h.NextAtTarget` (Mesh.cs:241) when
   * it was anchored by `h.Opposite`; that halfedge arrives at the target, so the target's
   * `Outgoing` no longer leaves it and `Vertex.AssertValid` fails on it.
   */
  lemma JoinFacesMisanchors<VT, FT>(a: Arena<VT, FT>, h: nat)
    requires Fit(a) && Wired(a.hes, a.halfedges) && RingsFaced(a.hes, a.halfedges) && h in a.halfedges
    requires var o, e := a.hes[h].opposite, a.hes[h].edge;
      && e in a.edges && (a.es[e].half1 == h || a.es[e].half1 == o)
      && a.hes[h].face != a.hes[o].face && !IsBoundary(a.hes, h)
      && a.vs[a.hes[h].target].outgoing == Some(o)
    ensures JoinFaces(a, Some(h)).Ok? && FacesJoined(a, JoinFaces(a, Some(h)).value, h)
    ensures var g, t := JoinFaces(a, Some(h)).value.0, a.hes[h].target;
      && Anchored(a.hes, a.halfedges, a.vs, t) && !Anchored(g.hes, g.halfedges, g.vs, t)
  {
    var o, n, t := a.hes[h].opposite, a.hes[h].next, a.hes[h].target;
    NoDeadEnd(a.hes, a.halfedges, h);
    assert WiredAt(a.hes, a.halfedges, h) && WiredAt(a.hes, a.halfedges, o) && WiredAt(a.hes, a.halfedges, n);
    var w := NextAtTarget(a.hes, h);
    JoinJoins(a, h, w);
    assert Source(a.hes, w) != t;
  }

  /**
   * `JoinFaces` as written accepts a halfedge whose opposite has no face (Mesh.cs:222 tests
   * `he.IsBoundary` only): no face is deleted and the boundary ring on the other side is
   * given `h.Face`, so the join leaves a face whose ring has no boundary left behind it.
   */
  lemma JoinFacesFillsBoundary<VT, FT>(a: Arena<VT, FT>, h: nat)
    requires Fit(a) && Wired(a.hes, a.halfedges) && RingsFaced(a.hes, a.halfedges) && h in a.halfedges
    requires var o, e := a.hes[h].opposite, a.hes[h].edge;
      && e in a.edges && (a.es[e].half1 == h || a.es[e].half1 == o)
      && !IsBoundary(a.hes, h) && IsBoundary(a.hes, o)
    ensures JoinFaces(a, Some(h)).Ok? && FacesJoined(a, JoinFaces(a, Some(h)).value, h)
    ensures var g, o := JoinFaces(a, Some(h)).value.0, a.hes[h].opposite;
      && (forall x :: x in g.faces <==> x in a.faces)
      && Orbit(a.hes, AlongNext, o).Some?
      && (forall x | x in Orbit(a.hes, AlongNext, o).value :: x < |g.hes| && g.hes[x].face.Some?)
    ensures JoinFacesChecked(a, Some(h)) == Err(Argument(OnBoundary))
  {
    var o := a.hes[h].opposite;
    NoDeadEnd(a.hes, a.halfedges, h);
    JoinJoins(a, h, NextAtTarget(a.hes, h));
    var ring := Orbit(a.hes, AlongNext, o).value;
    OrbitIsCycle(a.hes, AlongNext, o);
    var g := JoinFaces(a, Some(h)).value.0;
    forall x | x in ring ensures x < |g.hes| && g.hes[x].face.Some? {
      var i :| 0 <= i < |ring| && ring[i] == x;
    }
  }
}
