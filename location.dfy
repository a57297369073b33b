/**
 * `PointTriangleMesh.LocatePoint(point)` (PointTriangleMesh.cs:28-62): the walk that finds the
 * halfedge, vertex or face a point lies on, or `null` when it lies outside the mesh, for a
 * mesh whose vertex traits are positions.
 */
module Locations {
  import opened Wrappers
  import opened Halfedges
  import opened Meshes
  import opened PointClassification

  /** What `LocatePoint(point)` returns: a halfedge, a vertex, a face, or `null` (`Outside`). */
  datatype Location = AtHalfedge(halfedge: nat) | AtVertex(vertex: nat) | InFace(face: nat) | Outside

  /** How a walk around one face ends: with an answer, at a halfedge whose far side is another
      face (`Cross`), or without coming back to its start (`Lost`). */
  datatype Step = Done(at: Location) | Cross(halfedge: nat) | Lost

  /** `LocatePoint(halfedge, point)` on the positions of the halfedge's source and target. */
  function Classify<FT>(a: Arena<Point, FT>, h: nat, p: Point): HalfedgePointLocation
    requires Fit(a) && h < |a.hes|
  {
    LocateOnHalfedge(a.vs[Halfedges.Source(a.hes, h)].traits, a.vs[a.hes[h].target].traits, p)
  }

  /** The cases in which the loop moves on to `Next` (PointTriangleMesh.cs:46-50). */
  predicate Passes<FT>(a: Arena<Point, FT>, h: nat, p: Point)
    requires Fit(a) && h < |a.hes|
  {
    Classify(a, h, p) == Left || Classify(a, h, p) == Behind
  }

  /** The cases of the switch that do not move on (PointTriangleMesh.cs:40-45 and 51-58). */
  function Verdict<FT>(a: Arena<Point, FT>, p: Point, h: nat): (s: Step)
    requires Fit(a) && h < |a.hes| && !Passes(a, h, p)
    ensures s.Done? && s.at.AtHalfedge? <==> Classify(a, h, p) == Inside
    ensures s.Done? && s.at.AtHalfedge? ==> s.at.halfedge == h
    ensures s.Done? && s.at.AtVertex? ==> s.at.vertex < |a.vs| && a.vs[s.at.vertex].traits == p
    ensures s == Done(Outside) <==>
      (Classify(a, h, p) == Right || Classify(a, h, p) == Infront) && IsBoundary(a.hes, a.hes[h].opposite)
    ensures s.Cross? <==>
      (Classify(a, h, p) == Right || Classify(a, h, p) == Infront) && !IsBoundary(a.hes, a.hes[h].opposite)
    ensures s.Cross? ==> s.halfedge == h
    ensures !s.Lost? && !(s.Done? && s.at.InFace?)
  {
    match Classify(a, h, p)
    case Inside => Done(AtHalfedge(h))
    case Source => Done(AtVertex(Halfedges.Source(a.hes, h)))
    case Target => Done(AtVertex(a.hes[h].target))
    case Right | Infront => if IsBoundary(a.hes, a.hes[h].opposite) then Done(Outside) else Cross(h)
  }

  /**
   * The do-while loop of `LocatePoint(point)` around the face `f` from `cur` on, for a loop
   * started at `start`: it stops at the first halfedge the point does not pass, and answers
   * `f` once `Next` brings it back to `start`. `fuel` bounds the steps, as in `Trace`.
   */
  function FaceWalk<FT>(a: Arena<Point, FT>, p: Point, f: nat, start: nat, cur: nat, fuel: nat): (s: Step)
    requires Fit(a) && start < |a.hes| && cur < |a.hes|
    ensures s.Cross? ==> (s.halfedge < |a.hes| && !IsBoundary(a.hes, a.hes[s.halfedge].opposite)
      && (Classify(a, s.halfedge, p) == Right || Classify(a, s.halfedge, p) == Infront))
    ensures s.Done? && s.at.AtHalfedge? ==> s.at.halfedge < |a.hes| && Classify(a, s.at.halfedge, p) == Inside
    ensures s.Done? && s.at.AtVertex? ==> s.at.vertex < |a.vs| && a.vs[s.at.vertex].traits == p
    ensures s.Done? && s.at.InFace? ==> s.at.face == f
    decreases fuel
  {
    if !Passes(a, cur, p) then Verdict(a, p, cur)
    else
      var nxt := a.hes[cur].next;
      if nxt == start then Done(InFace(f))
      else if fuel == 0 then Lost
      else FaceWalk(a, p, f, start, nxt, fuel - 1)
  }

  /** The answer a walk around one face gives, as the source's loop does: the loop never
      leaves a halfedge whose far side is a face, so `Cross` does not end it. */
  function Answer(s: Step): Result<Location>
  {
    match s
    case Done(x) => Ok(x)
    case _ => Err(Diverges)
  }

  /** `Faces[0].Bounding`, where the walk starts. */
  function FirstBounding<FT>(a: Arena<Point, FT>): (h: nat)
    requires Fit(a) && |a.faces| > 0
    ensures h < |a.hes|
  {
    assert a.faces[0] in a.faces;
    a.fs[a.faces[0]].bounding
  }

  /** `LocatePoint(point)` (PointTriangleMesh.cs:28-62) as written: `Faces[0]` throws on a mesh
      with vertices and no faces. */
  function PointLocation<FT>(a: Arena<Point, FT>, p: Point): (r: Result<Location>)
    requires Fit(a)
    ensures IsEmpty(a) ==> r == Ok(Outside)
    ensures r == Err(OutOfRange) <==> !IsEmpty(a) && |a.faces| == 0
    ensures r.Ok? && r.value.AtVertex? ==> r.value.vertex < |a.vs| && a.vs[r.value.vertex].traits == p
    ensures r.Ok? && r.value.AtHalfedge? ==> r.value.halfedge < |a.hes| && Classify(a, r.value.halfedge, p) == Inside
    ensures r.Ok? && r.value.InFace? ==> |a.faces| > 0 && r.value.face == a.faces[0]
  {
    if IsEmpty(a) then Ok(Outside)
    else if |a.faces| == 0 then Err(OutOfRange)
    else
      Answer(FaceWalk(a, p, a.faces[0], FirstBounding(a), FirstBounding(a), |a.hes|))
  }

  /** The loop of `LocatePoint(point)`, with the cursor `cur` and the steps left in `fuel`. */
  method LocatePoint<FT>(a: Arena<Point, FT>, p: Point) returns (r: Result<Location>)
    requires Fit(a)
    ensures r == PointLocation(a, p)
  {
    if |a.vertices| == 0 {
      return Ok(Outside);
    }
    if |a.faces| == 0 {
      return Err(OutOfRange);
    }
    var f := a.faces[0];
    var start := FirstBounding(a);
    var cur: nat := start;
    var fuel: nat := |a.hes|;
    while true
      invariant cur < |a.hes|
      invariant FaceWalk(a, p, f, start, cur, fuel) == FaceWalk(a, p, f, start, start, |a.hes|)
      decreases fuel
    {
      var loc := Classify(a, cur, p);
      match loc {
        case Inside =>
          return Ok(AtHalfedge(cur));
        case Source =>
          return Ok(AtVertex(Halfedges.Source(a.hes, cur)));
        case Target =>
          return Ok(AtVertex(a.hes[cur].target));
        case Left =>
          cur := a.hes[cur].next;
          if cur == start {
            return Ok(InFace(f));
          }
        case Behind =>
          cur := a.hes[cur].next;
          if cur == start {
            return Ok(InFace(f));
          }
        case Right =>
          if IsBoundary(a.hes, a.hes[cur].opposite) {
            return Ok(Outside);
          }
          return Err(Diverges);
        case Infront =>
          if IsBoundary(a.hes, a.hes[cur].opposite) {
            return Ok(Outside);
          }
          return Err(Diverges);
      }
      if fuel == 0 {
        return Err(Diverges);
      }
      fuel := fuel - 1;
    }
  }

  /** The index of the first halfedge of `ring` the point does not pass; `|ring|` when it
      passes them all. */
  function FirstStop<FT>(a: Arena<Point, FT>, p: Point, ring: seq<nat>): (k: nat)
    requires Fit(a) && forall i | 0 <= i < |ring| :: ring[i] < |a.hes|
    ensures k <= |ring|
    ensures forall j | 0 <= j < k :: Passes(a, ring[j], p)
    ensures k < |ring| ==> ring[k] < |a.hes| && !Passes(a, ring[k], p)
  {
    if |ring| == 0 || !Passes(a, ring[0], p) then 0
    else
      1 + FirstStop(a, p, ring[1..])
  }

  /** A walk around one face that comes back to its start gives the verdict of the first
      halfedge of the ring the point does not pass, or the face when it passes them all. */
  lemma {:induction false} FaceWalkStops<FT>(a: Arena<Point, FT>, p: Point, f: nat, start: nat, cur: nat, fuel: nat, ring: seq<nat>)
    requires Fit(a) && start < |a.hes| && cur < |a.hes|
    requires Trace(a.hes, AlongNext, start, cur, fuel) == Some(ring)
    ensures forall i | 0 <= i < |ring| :: ring[i] < |a.hes|
    ensures FirstStop(a, p, ring) == |ring| ==> FaceWalk(a, p, f, start, cur, fuel) == Done(InFace(f))
    ensures FirstStop(a, p, ring) < |ring| ==>
      FaceWalk(a, p, f, start, cur, fuel) == Verdict(a, p, ring[FirstStop(a, p, ring)])
    decreases fuel
  {
    TraceReturns(a.hes, AlongNext, start, cur, fuel);
    var nxt := a.hes[cur].next;
    if !Passes(a, cur, p) {
      assert FirstStop(a, p, ring) == 0;
    } else if nxt == start {
      assert ring == [cur];
      assert FirstStop(a, p, ring) == 1;
    } else {
      var rest := Trace(a.hes, AlongNext, start, nxt, fuel - 1).value;
      FaceWalkStops(a, p, f, start, nxt, fuel - 1, rest);
      assert ring == [cur] + rest;
      assert ring[1..] == rest;
      assert FirstStop(a, p, ring) == 1 + FirstStop(a, p, rest);
      assert FaceWalk(a, p, f, start, cur, fuel) == FaceWalk(a, p, f, start, nxt, fuel - 1);
    }
  }

  /** A walk around one face that answers the face has come back to its start, and the point
      passes every halfedge of the ring. */
  lemma {:induction false} FaceWalkEncloses<FT>(a: Arena<Point, FT>, p: Point, f: nat, start: nat, cur: nat, fuel: nat)
    requires Fit(a) && start < |a.hes| && cur < |a.hes|
    requires FaceWalk(a, p, f, start, cur, fuel).Done? && FaceWalk(a, p, f, start, cur, fuel).at.InFace?
    ensures Trace(a.hes, AlongNext, start, cur, fuel).Some?
    ensures forall x | x in Trace(a.hes, AlongNext, start, cur, fuel).value :: x < |a.hes| && Passes(a, x, p)
    decreases fuel
  {
    var nxt := a.hes[cur].next;
    if nxt != start {
      FaceWalkEncloses(a, p, f, start, nxt, fuel - 1);
      var rest := Trace(a.hes, AlongNext, start, nxt, fuel - 1).value;
      assert Trace(a.hes, AlongNext, start, cur, fuel).value == [cur] + rest;
    }
  }

  /** A walk that runs out of steps has a ring that does not come back within them. */
  lemma {:induction false} FaceWalkLost<FT>(a: Arena<Point, FT>, p: Point, f: nat, start: nat, cur: nat, fuel: nat)
    requires Fit(a) && start < |a.hes| && cur < |a.hes|
    requires FaceWalk(a, p, f, start, cur, fuel).Lost?
    ensures Trace(a.hes, AlongNext, start, cur, fuel).None?
    decreases fuel
  {
    var nxt := a.hes[cur].next;
    if nxt != start && fuel > 0 {
      FaceWalkLost(a, p, f, start, nxt, fuel - 1);
    }
  }

  /**
   * `LocatePoint(point)` as written, on a mesh whose first face has a ring: the face when the
   * point passes every halfedge of the ring (is to the left of, or behind, each), and
   * otherwise the verdict of the first halfedge it does not pass.
   */
  lemma PointLocationByRing<FT>(a: Arena<Point, FT>, p: Point, ring: seq<nat>)
    requires Fit(a) && !IsEmpty(a) && |a.faces| > 0
    requires Orbit(a.hes, AlongNext, FirstBounding(a)) == Some(ring)
    ensures forall i | 0 <= i < |ring| :: ring[i] < |a.hes|
    ensures PointLocation(a, p) == Ok(InFace(a.faces[0])) <==> forall i | 0 <= i < |ring| :: Passes(a, ring[i], p)
    ensures FirstStop(a, p, ring) < |ring| ==> PointLocation(a, p) == Answer(Verdict(a, p, ring[FirstStop(a, p, ring)]))
  {
    var start := FirstBounding(a);
    FaceWalkStops(a, p, a.faces[0], start, start, |a.hes|, ring);
    var k := FirstStop(a, p, ring);
    if k < |ring| {
      assert ring[k] in ring;
    }
  }

  /** In a wired mesh whose first face is bounded by a halfedge it holds, the ring of that face
      always comes back, and the loop fails to end exactly when the first halfedge the point
      does not pass has a face across. */
  lemma PointLocationEnds<FT>(a: Arena<Point, FT>, p: Point)
    requires Fit(a) && Wired(a.hes, a.halfedges) && !IsEmpty(a) && |a.faces| > 0
    requires FirstBounding(a) in a.halfedges
    ensures Orbit(a.hes, AlongNext, FirstBounding(a)).Some?
    ensures var ring := Orbit(a.hes, AlongNext, FirstBounding(a)).value;
      forall i | 0 <= i < |ring| :: ring[i] < |a.hes|
    ensures var ring := Orbit(a.hes, AlongNext, FirstBounding(a)).value;
      PointLocation(a, p) == Err(Diverges) <==>
        FirstStop(a, p, ring) < |ring| && Verdict(a, p, ring[FirstStop(a, p, ring)]).Cross?
  {
    var start := FirstBounding(a);
    WalkReturns(a.hes, a.halfedges, AlongNext, start);
    var ring := Orbit(a.hes, AlongNext, start).value;
    PointLocationByRing(a, p, ring);
  }

  // The walk as intended: crossing into the neighbouring face

  /** The point passes every halfedge of the ring from `st`, which bounds or borders `g`: for a
      convex face whose ring turns counter-clockwise, the point lies inside it. */
  ghost predicate Encloses<FT>(a: Arena<Point, FT>, p: Point, g: nat, st: nat)
    requires Fit(a)
  {
    && st < |a.hes| && g < |a.fs| && (a.fs[g].bounding == st || a.hes[st].face == Some(g))
    && Orbit(a.hes, AlongNext, st).Some?
    && forall x | x in Orbit(a.hes, AlongNext, st).value :: x < |a.hes| && Passes(a, x, p)
  }

  /**
   * The walk the comment at PointTriangleMesh.cs:55 assumes: at a halfedge the point lies to
   * the right of, or in front of, with a face across, go over into that face and walk its
   * ring from the opposite halfedge. `steps` bounds the number of crossings.
   */
  function CrossWalk<FT>(a: Arena<Point, FT>, p: Point, f: nat, start: nat, steps: nat): (r: Result<Location>)
    requires Fit(a) && start < |a.hes|
    ensures r.Ok? && r.value.AtVertex? ==> r.value.vertex < |a.vs| && a.vs[r.value.vertex].traits == p
    ensures r.Ok? && r.value.AtHalfedge? ==> r.value.halfedge < |a.hes| && Classify(a, r.value.halfedge, p) == Inside
    ensures r.Ok? && r.value.InFace? && steps == 0 ==> r.value.face == f
    ensures r.Err? ==> r.failure == Diverges
    decreases steps
  {
    match FaceWalk(a, p, f, start, start, |a.hes|)
    case Done(x) => Ok(x)
    case Lost => Err(Diverges)
    case Cross(h) =>
      var o := a.hes[h].opposite;
      if steps == 0 then Err(Diverges) else CrossWalk(a, p, a.hes[o].face.value, o, steps - 1)
  }

  /** `LocatePoint(point)` with the crossing, after at most `steps` crossings. */
  function PointLocationCorrected<FT>(a: Arena<Point, FT>, p: Point, steps: nat): (r: Result<Location>)
    requires Fit(a)
    ensures IsEmpty(a) ==> r == Ok(Outside)
    ensures r == Err(OutOfRange) <==> !IsEmpty(a) && |a.faces| == 0
    ensures r.Ok? && r.value.AtVertex? ==> r.value.vertex < |a.vs| && a.vs[r.value.vertex].traits == p
  {
    if IsEmpty(a) then Ok(Outside)
    else if |a.faces| == 0 then Err(OutOfRange)
    else CrossWalk(a, p, a.faces[0], FirstBounding(a), steps)
  }

  /** Wherever the loop as written gives an answer, the corrected walk gives the same one. */
  lemma CorrectedAgrees<FT>(a: Arena<Point, FT>, p: Point, steps: nat)
    requires Fit(a) && (PointLocation(a, p).Ok? || PointLocation(a, p) == Err(OutOfRange))
    ensures PointLocationCorrected(a, p, steps) == PointLocation(a, p)
  {
  }

  /** Having crossed a halfedge the point lies to the right of, or in front of, the walk passes
      its opposite at once: the point lies to the left of it, or behind it. */
  lemma CrossingPassesOpposite<FT>(a: Arena<Point, FT>, p: Point, h: nat)
    requires Fit(a) && h < |a.hes| && a.hes[a.hes[h].opposite].opposite == h
    requires a.vs[Halfedges.Source(a.hes, h)].traits != a.vs[a.hes[h].target].traits
    requires Classify(a, h, p) == Right || Classify(a, h, p) == Infront
    ensures Passes(a, a.hes[h].opposite, p)
    ensures Classify(a, h, p) == Right ==> Classify(a, a.hes[h].opposite, p) == Left
    ensures Classify(a, h, p) == Infront ==> Classify(a, a.hes[h].opposite, p) == Behind
  {
    var s, t := a.vs[Halfedges.Source(a.hes, h)].traits, a.vs[a.hes[h].target].traits;
    var o := a.hes[h].opposite;
    assert Halfedges.Source(a.hes, o) == a.hes[h].target;
    assert Classify(a, o, p) == LocateOnHalfedge(t, s, p);
    LocateIsPosition(s, t, p);
    LocateIsPosition(t, s, p);
    AlongReversed(s, t, p);
  }

  /** Each step of the corrected walk: an answer from the ring of `f`, or a crossing into the
      face across the halfedge it stops at. */
  lemma CrossWalkSteps<FT>(a: Arena<Point, FT>, p: Point, f: nat, start: nat, steps: nat)
    requires Fit(a) && start < |a.hes| && steps > 0
    requires FaceWalk(a, p, f, start, start, |a.hes|).Cross?
    ensures var h := FaceWalk(a, p, f, start, start, |a.hes|).halfedge;
      var o := a.hes[h].opposite;
      && a.hes[o].face.Some?
      && CrossWalk(a, p, f, start, steps) == CrossWalk(a, p, a.hes[o].face.value, o, steps - 1)
  {
  }

  /** A face the corrected walk answers encloses the point. */
  lemma {:induction false} CrossWalkSound<FT>(a: Arena<Point, FT>, p: Point, f: nat, start: nat, steps: nat)
    requires Fit(a) && start < |a.hes| && f < |a.fs| && (a.fs[f].bounding == start || a.hes[start].face == Some(f))
    requires CrossWalk(a, p, f, start, steps).Ok? && CrossWalk(a, p, f, start, steps).value.InFace?
    ensures exists st :: Encloses(a, p, CrossWalk(a, p, f, start, steps).value.face, st)
    decreases steps
  {
    var s := FaceWalk(a, p, f, start, start, |a.hes|);
    if s.Done? {
      FaceWalkEncloses(a, p, f, start, start, |a.hes|);
      assert Encloses(a, p, f, start);
    } else {
      var o := a.hes[s.halfedge].opposite;
      assert a.hes[o].face.value < |a.fs|;
      CrossWalkSound(a, p, a.hes[o].face.value, o, steps - 1);
    }
  }

  /** The corrected walk from the first face, answering a face, answers one that encloses the
      point. */
  lemma PointLocationCorrectedSound<FT>(a: Arena<Point, FT>, p: Point, steps: nat)
    requires Fit(a) && PointLocationCorrected(a, p, steps).Ok? && PointLocationCorrected(a, p, steps).value.InFace?
    ensures exists st :: Encloses(a, p, PointLocationCorrected(a, p, steps).value.face, st)
  {
    assert a.faces[0] in a.faces;
    CrossWalkSound(a, p, a.faces[0], FirstBounding(a), steps);
  }
}
