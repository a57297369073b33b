/**
 * The point location walk on a mesh of two triangles that share an edge: the unit square
 * (0,0), (1,0), (1,1), (0,1) cut along its diagonal from (1,0) to (0,1).
 */
module LocationExample {
  import opened Wrappers
  import opened Halfedges
  import opened Edges
  import opened Faces
  import opened Vertices
  import opened Meshes
  import opened PointClassification
  import opened Locations

  /**
   * Face 0 is the ring 0 → 1 → 2 (halfedges 0, 1, 2) and face 1 the ring 1 → 3 → 2
   * (halfedges 3, 4, 5); halfedges 1 and 5 are the shared diagonal, and 6 to 9 the boundary
   * ring 1 → 0 → 2 → 3 → 1.
   */
  function Square(): Arena<Point, int>
  {
    Arena(
      [ Halfedge(1, Some(0), 6, 1, 2, 0), Halfedge(2, Some(0), 5, 2, 0, 1), Halfedge(0, Some(0), 7, 0, 1, 2),
        Halfedge(3, Some(1), 8, 4, 5, 3), Halfedge(2, Some(1), 9, 5, 3, 4), Halfedge(1, Some(1), 1, 3, 4, 1),
        Halfedge(0, None, 0, 7, 8, 0), Halfedge(2, None, 2, 9, 6, 2),
        Halfedge(1, None, 3, 6, 9, 3), Halfedge(3, None, 4, 8, 7, 4) ],
      [ Vertex(Some(0), Point(0.0, 0.0)), Vertex(Some(1), Point(1.0, 0.0)),
        Vertex(Some(2), Point(0.0, 1.0)), Vertex(Some(4), Point(1.0, 1.0)) ],
      [ Edge(0), Edge(1), Edge(2), Edge(3), Edge(4) ],
      [ Face(0, 0), Face(3, 1) ],
      [0, 1, 2, 3, 4, 5, 6, 7, 8, 9], [0, 1, 2, 3], [0, 1, 2, 3, 4], [0, 1])
  }

  lemma SquareClosed()
    ensures Closed(Square().hes)
    ensures forall h | 0 <= h < |Square().hes| :: Square().hes[h].edge < |Square().es| && Square().hes[h].target < |Square().vs|
  {
    var hes := Square().hes;
    forall h | 0 <= h < |hes|
      ensures hes[h].opposite < |hes| && hes[h].next < |hes| && hes[h].previous < |hes|
      ensures hes[h].edge < 5 && hes[h].target < 4
    {
      assert h in {0, 1, 2, 3, 4, 5, 6, 7, 8, 9};
    }
  }

  lemma SquareFacesClosed()
    ensures FacesClosed(Square().hes, Square().fs)
  {
    var a := Square();
    forall h | 0 <= h < |a.hes| ensures a.hes[h].face.Some? ==> a.hes[h].face.value < 2 {
      assert h in {0, 1, 2, 3, 4, 5, 6, 7, 8, 9};
    }
  }

  lemma SquareRecordsClosed()
    ensures forall e | 0 <= e < |Square().es| :: Square().es[e].half1 < |Square().hes|
    ensures forall v | 0 <= v < |Square().vs| :: Square().vs[v].outgoing.Some? ==> Square().vs[v].outgoing.value < |Square().hes|
  {
    var a := Square();
    forall e | 0 <= e < |a.es| ensures a.es[e].half1 < 10 {
      assert e in {0, 1, 2, 3, 4};
    }
    forall v | 0 <= v < |a.vs| ensures a.vs[v].outgoing.Some? && a.vs[v].outgoing.value < 10 {
      assert v in {0, 1, 2, 3};
    }
  }

  /** A list `[0, 1, .., n - 1]` holds each id once, and only ids below `n`. */
  lemma CountingDistinct(s: seq<nat>)
    requires forall i | 0 <= i < |s| :: s[i] == i
    ensures Distinct(s) && forall x | x in s :: x < |s|
  {
  }

  lemma SquareFit()
    ensures Fit(Square())
  {
    var a := Square();
    SquareClosed();
    SquareFacesClosed();
    SquareRecordsClosed();
    CountingDistinct(a.halfedges);
    CountingDistinct(a.vertices);
    CountingDistinct(a.edges);
    CountingDistinct(a.faces);
  }

  /** Every halfedge of the two-triangle mesh is live. */
  lemma SquareLive(h: nat)
    requires h < 10
    ensures h in Square().halfedges
  {
    assert Square().halfedges[h] == h;
  }

  /** The records of the two-triangle mesh, one by one. */
  lemma SquareRecords()
    ensures Closed(Square().hes)
    ensures forall i | 0 <= i < 10 :: Square().halfedges[i] == i
    ensures var hes := Square().hes;
      && hes[0] == Halfedge(1, Some(0), 6, 1, 2, 0) && hes[1] == Halfedge(2, Some(0), 5, 2, 0, 1)
      && hes[2] == Halfedge(0, Some(0), 7, 0, 1, 2) && hes[3] == Halfedge(3, Some(1), 8, 4, 5, 3)
      && hes[4] == Halfedge(2, Some(1), 9, 5, 3, 4) && hes[5] == Halfedge(1, Some(1), 1, 3, 4, 1)
      && hes[6] == Halfedge(0, None, 0, 7, 8, 0) && hes[7] == Halfedge(2, None, 2, 9, 6, 2)
      && hes[8] == Halfedge(1, None, 3, 6, 9, 3) && hes[9] == Halfedge(3, None, 4, 8, 7, 4)
  {
    SquareClosed();
  }

  lemma SquareWiredFaces(h: nat)
    requires h < 6
    ensures Closed(Square().hes) && WiredAt(Square().hes, Square().halfedges, h)
  {
    SquareRecords();
    var live := Square().halfedges;
    assert live[h] == h;
    if h == 0 {
      assert live[6] == 6 && live[1] == 1 && live[2] == 2;
    } else if h == 1 {
      assert live[5] == 5 && live[2] == 2 && live[0] == 0;
    } else if h == 2 {
      assert live[7] == 7 && live[0] == 0 && live[1] == 1;
    } else if h == 3 {
      assert live[8] == 8 && live[4] == 4 && live[5] == 5;
    } else if h == 4 {
      assert live[9] == 9 && live[5] == 5 && live[3] == 3;
    } else {
      assert live[1] == 1 && live[3] == 3 && live[4] == 4;
    }
  }

  lemma SquareWiredBoundary(h: nat)
    requires 6 <= h < 10
    ensures Closed(Square().hes) && WiredAt(Square().hes, Square().halfedges, h)
  {
    SquareRecords();
    var live := Square().halfedges;
    assert live[h] == h;
    if h == 6 {
      assert live[0] == 0 && live[7] == 7 && live[8] == 8;
    } else if h == 7 {
      assert live[2] == 2 && live[9] == 9 && live[6] == 6;
    } else if h == 8 {
      assert live[3] == 3 && live[6] == 6 && live[9] == 9;
    } else {
      assert live[4] == 4 && live[8] == 8 && live[7] == 7;
    }
  }

  lemma SquareWired()
    ensures Fit(Square()) && Wired(Square().hes, Square().halfedges)
  {
    SquareFit();
    var a := Square();
    forall h | h in a.halfedges ensures WiredAt(a.hes, a.halfedges, h) {
      if h < 6 { SquareWiredFaces(h); } else { SquareWiredBoundary(h); }
    }
  }

  /** Each ring of the two-triangle mesh is one face or the boundary. */
  lemma SquareRingsFaced()
    ensures Closed(Square().hes) && RingsFaced(Square().hes, Square().halfedges)
  {
    SquareRecords();
    var hes := Square().hes;
    forall x | x in Square().halfedges && x < |hes| ensures hes[hes[x].next].face == hes[x].face {
      assert x in {0, 1, 2, 3, 4, 5, 6, 7, 8, 9};
    }
  }

  /** As written, the walk for a point inside face 1 starts in face 0, meets the shared
      diagonal with the point to its right, and stays there: the loop never ends. */
  lemma SquareWalkDiverges()
    ensures Fit(Square())
    ensures PointLocation(Square(), Point(0.9, 0.9)) == Err(Diverges)
  {
    SquareFit();
    SquareRecords();
    var a, p := Square(), Point(0.9, 0.9);
    assert FirstBounding(a) == 0;
    assert Classify(a, 0, p) == Left;
    assert Classify(a, 1, p) == Right;
    assert FaceWalk(a, p, 0, 0, 1, |a.hes| - 1) == Cross(1);
    assert FaceWalk(a, p, 0, 0, 0, |a.hes|) == Cross(1);
  }

  /** The corrected walk crosses the diagonal once and answers face 1. */
  lemma SquareWalkCorrected()
    ensures Fit(Square())
    ensures PointLocationCorrected(Square(), Point(0.9, 0.9), 1) == Ok(InFace(1))
  {
    SquareFit();
    SquareRecords();
    var a, p := Square(), Point(0.9, 0.9);
    assert FirstBounding(a) == 0;
    assert Classify(a, 1, p) == Right;
    assert FaceWalk(a, p, 0, 0, 1, |a.hes| - 1) == Cross(1);
    assert FaceWalk(a, p, 0, 0, 0, |a.hes|) == Cross(1);
    assert Classify(a, 5, p) == Left;
    assert Classify(a, 3, p) == Left;
    assert Classify(a, 4, p) == Left;
    assert FaceWalk(a, p, 1, 5, 4, |a.hes| - 2) == Done(InFace(1));
    assert FaceWalk(a, p, 1, 5, 3, |a.hes| - 1) == Done(InFace(1));
    assert FaceWalk(a, p, 1, 5, 5, |a.hes|) == Done(InFace(1));
  }
}
