/** Edge records (Edge.cs): an undirected edge keeps one of its two halfedges. */
module Edges {
  import opened Wrappers
  import opened Halfedges

  datatype Edge = Edge(half1: nat)

  /** Edge and halfedge arenas point into each other. */
  ghost predicate EdgesClosed(hes: seq<Halfedge>, es: seq<Edge>)
  {
    && (forall h | 0 <= h < |hes| :: hes[h].edge < |es|)
    && (forall e | 0 <= e < |es| :: es[e].half1 < |hes|)
  }

  function Half2(hes: seq<Halfedge>, es: seq<Edge>, e: nat): nat
    requires Closed(hes) && EdgesClosed(hes, es) && e < |es|
  {
    hes[es[e].half1].opposite
  }

  /** An edge is a boundary edge when either of its halfedges has no face (Edge.cs:17-23). */
  predicate EdgeIsBoundary(hes: seq<Halfedge>, es: seq<Edge>, e: nat)
    requires Closed(hes) && EdgesClosed(hes, es) && e < |es|
  {
    IsBoundary(hes, es[e].half1) || IsBoundary(hes, Half2(hes, es, e))
  }

  /** `TriangleMesh.CanFlipEdge`: only an edge with a face on both sides may be flipped. */
  predicate CanFlipEdge(hes: seq<Halfedge>, es: seq<Edge>, e: nat)
    requires Closed(hes) && EdgesClosed(hes, es) && e < |es|
  {
    !EdgeIsBoundary(hes, es, e)
  }

  /** `Edge.CheckValid` (Edge.cs:25-29): `Half1` is set and points back at the edge. */
  ghost predicate EdgeValid(hes: seq<Halfedge>, es: seq<Edge>, e: nat)
    requires EdgesClosed(hes, es) && e < |es|
  {
    hes[es[e].half1].edge == e
  }

  /**
   * For a halfedge of a valid edge, the edge is a boundary edge exactly when the halfedge or
   * its opposite has no face, and `Half2` of the edge is one of the pair.
   */
  lemma BoundaryFromEitherHalf(hes: seq<Halfedge>, live: seq<nat>, es: seq<Edge>, h: nat)
    requires Wired(hes, live) && EdgesClosed(hes, es) && h in live
    requires es[hes[h].edge].half1 == h || es[hes[h].edge].half1 == hes[h].opposite
    ensures var e := hes[h].edge;
      && (EdgeIsBoundary(hes, es, e) <==> IsBoundary(hes, h) || IsBoundary(hes, hes[h].opposite))
      && {es[e].half1, Half2(hes, es, e)} == {h, hes[h].opposite}
      && hes[Half2(hes, es, e)].edge == e
  {
    assert WiredAt(hes, live, h);
  }

  /** `CanFlipEdge` (TriangleMesh.cs:16-20) allows the edge of a live halfedge exactly when the
      halfedge and its opposite both have a face. */
  lemma CanFlipBetweenFaces(hes: seq<Halfedge>, live: seq<nat>, es: seq<Edge>, h: nat)
    requires Wired(hes, live) && EdgesClosed(hes, es) && h in live
    requires es[hes[h].edge].half1 == h || es[hes[h].edge].half1 == hes[h].opposite
    ensures CanFlipEdge(hes, es, hes[h].edge) <==> hes[h].face.Some? && hes[hes[h].opposite].face.Some?
  {
    BoundaryFromEitherHalf(hes, live, es, h);
  }
}
