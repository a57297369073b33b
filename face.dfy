/** Face records (Face.cs): a face keeps one halfedge of the ring around it. */
module Faces {
  import opened Wrappers
  import opened Halfedges

  datatype Face<FT> = Face(bounding: nat, traits: FT)

  ghost predicate FacesClosed<FT>(hes: seq<Halfedge>, fs: seq<Face<FT>>)
  {
    && (forall h | 0 <= h < |hes| :: hes[h].face.Some? ==> hes[h].face.value < |fs|)
    && (forall f | 0 <= f < |fs| :: fs[f].bounding < |hes|)
  }

  /** `Face.Perimeter` (Face.cs:28-40): the ring from `Bounding` on. */
  function Perimeter<FT>(hes: seq<Halfedge>, fs: seq<Face<FT>>, f: nat): Option<seq<nat>>
    requires Closed(hes) && FacesClosed(hes, fs) && f < |fs|
  {
    Orbit(hes, AlongNext, fs[f].bounding)
  }

  /** The target of each halfedge of `s`. */
  function Targets(hes: seq<Halfedge>, s: seq<nat>): (r: seq<nat>)
    requires forall i | 0 <= i < |s| :: s[i] < |hes|
    ensures |r| == |s|
  {
    if s == [] then [] else [hes[s[0]].target] + Targets(hes, s[1..])
  }

  /** `Face.Vertices` (Face.cs:42-51): the targets of the perimeter, in order. */
  function FaceVertices<FT>(hes: seq<Halfedge>, fs: seq<Face<FT>>, f: nat): Option<seq<nat>>
    requires Closed(hes) && FacesClosed(hes, fs) && f < |fs|
  {
    match Perimeter(hes, fs, f)
    case None => None
    case Some(p) =>
      OrbitIsCycle(hes, AlongNext, fs[f].bounding);
      Some(Targets(hes, p))
  }

  lemma {:induction false} TargetsAt(hes: seq<Halfedge>, s: seq<nat>, i: nat)
    requires forall k | 0 <= k < |s| :: s[k] < |hes|
    requires i < |s|
    ensures |Targets(hes, s)| == |s| && Targets(hes, s)[i] == hes[s[i]].target
  {
    if i > 0 {
      TargetsAt(hes, s[1..], i - 1);
    } else if |s| > 1 {
      TargetsAt(hes, s[1..], 0);
    }
  }

  /** One side of a ring: it ends where the following side starts. */
  lemma SideMeetsNext(hes: seq<Halfedge>, live: seq<nat>, b: nat, p: seq<nat>, i: nat, j: nat)
    requires Wired(hes, live) && b in live && Orbit(hes, AlongNext, b) == Some(p)
    requires i < |p| && j == if i < |p| - 1 then i + 1 else 0
    requires forall k | 0 <= k < |p| :: p[k] in live
    ensures p[j] < |hes| && hes[p[i]].target == Source(hes, p[j])
  {
    OrbitIsCycle(hes, AlongNext, b);
    CycleSteps(hes, AlongNext, b, p);
    assert WiredAt(hes, live, p[i]);
    assert hes[p[i]].next == p[j];
  }

  /**
   * In a wired mesh a face from a live halfedge has a perimeter, and its vertices are the
   * perimeter's targets in the same order and number; each is also where the next side starts.
   */
  lemma VerticesFollowPerimeter<FT>(hes: seq<Halfedge>, live: seq<nat>, fs: seq<Face<FT>>, f: nat)
    requires Wired(hes, live) && FacesClosed(hes, fs) && f < |fs| && fs[f].bounding in live
    ensures Perimeter(hes, fs, f).Some? && FaceVertices(hes, fs, f).Some?
    ensures var p, vs := Perimeter(hes, fs, f).value, FaceVertices(hes, fs, f).value;
      && |vs| == |p| && p[0] == fs[f].bounding
      && (forall i | 0 <= i < |p| :: p[i] in live && p[i] < |hes|)
      && (forall i | 0 <= i < |p| :: vs[i] == hes[p[i]].target)
      && (forall i | 0 <= i < |p| - 1 :: vs[i] == Source(hes, p[i + 1]))
      && vs[|p| - 1] == Source(hes, p[0])
  {
    var b := fs[f].bounding;
    WalkReturns(hes, live, AlongNext, b);
    OrbitIsCycle(hes, AlongNext, b);
    var p := Perimeter(hes, fs, f).value;
    var vs := FaceVertices(hes, fs, f).value;
    assert vs == Targets(hes, p);
    assert forall i | 0 <= i < |p| :: p[i] in live;
    forall i | 0 <= i < |p| ensures vs[i] == hes[p[i]].target && vs[i] == Source(hes, p[if i < |p| - 1 then i + 1 else 0]) {
      TargetsAt(hes, p, i);
      SideMeetsNext(hes, live, b, p, i, if i < |p| - 1 then i + 1 else 0);
    }
  }
}
