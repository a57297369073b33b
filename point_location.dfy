/** The seven-way classification of a point against a halfedge (PointTriangleMesh.cs:89-145). */
module PointClassification {

  /** A vertex position (`IPoint`), with exact coordinates. */
  datatype Point = Point(x: real, y: real)

  /** The exact orientation determinant of `GP.Orient2D`: positive when `a`, `b`, `c` turn
      counter-clockwise, negative when clockwise, zero when collinear. */
  function Orient2D(a: Point, b: Point, c: Point): real
  {
    (b.x - a.x) * (c.y - a.y) - (b.y - a.y) * (c.x - a.x)
  }

  /** Rotating the arguments keeps the orientation; swapping two negates it. */
  lemma OrientSymmetries(a: Point, b: Point, c: Point)
    ensures Orient2D(a, b, c) == Orient2D(b, c, a) == Orient2D(c, a, b)
    ensures Orient2D(b, a, c) == -Orient2D(a, b, c)
  {
  }

  /** `HalfedgePointLocation` (PointTriangleMesh.cs:89-99). */
  datatype HalfedgePointLocation = Source | Target | Inside | Left | Behind | Right | Infront

  /** `LocatePoint(halfedge, point)` (PointTriangleMesh.cs:101-145) on the positions of the
      halfedge's source `s` and target `t`. The debug assertion at lines 106-107 asks for
      `s != t`; a release build classifies regardless, so the function is total and the
      lemmas below take `s != t` as their hypothesis. */
  function LocateOnHalfedge(s: Point, t: Point, p: Point): HalfedgePointLocation
  {
    var orient := Orient2D(s, t, p);
    if orient > 0.0 then Left
    else if orient < 0.0 then Right
    else if p.x == s.x && p.y == s.y then Source
    else if p.x == t.x && p.y == t.y then Target
    else if t.x > s.x then
      if p.x > t.x then Infront else if p.x < s.x then Behind else Inside
    else if t.x < s.x then
      if p.x < t.x then Infront else if p.x > s.x then Behind else Inside
    else if t.y > s.y then
      if p.y > t.y then Infront else if p.y < s.y then Behind else Inside
    else
      if p.y < t.y then Infront else if p.y > s.y then Behind else Inside
  }

  /** `(t - s) · (p - s)`: the parameter of `p` along the halfedge, scaled by `|t - s|²`. */
  function Along(s: Point, t: Point, p: Point): real
  {
    (t.x - s.x) * (p.x - s.x) + (t.y - s.y) * (p.y - s.y)
  }

  /** `|t - s|²`. */
  function Len2(s: Point, t: Point): real
  {
    (t.x - s.x) * (t.x - s.x) + (t.y - s.y) * (t.y - s.y)
  }

  /**
   * Where `p` lies relative to the directed line from `s` to `t`, stated without coordinates:
   * by the side it lies on, and, on the line, by its parameter `λ = Along / Len2`
   * (`λ < 0` behind, `0` at the source, between `0` and `1` inside, `1` at the target, beyond
   * `1` in front).
   */
  function Position(s: Point, t: Point, p: Point): HalfedgePointLocation
  {
    var orient := Orient2D(s, t, p);
    var a := Along(s, t, p);
    if orient > 0.0 then Left
    else if orient < 0.0 then Right
    else if a < 0.0 then Behind
    else if a == 0.0 then Source
    else if a < Len2(s, t) then Inside
    else if a == Len2(s, t) then Target
    else Infront
  }

  lemma SameSign(a: real, b: real, c: real, d: real)
    requires a * b == c * d && b > 0.0 && c > 0.0
    ensures a > 0.0 <==> d > 0.0
    ensures a == 0.0 <==> d == 0.0
  {
    if a > 0.0 { assert a * b > 0.0; }
    if d > 0.0 { assert c * d > 0.0; }
    if a < 0.0 { assert a * b < 0.0; }
    if d < 0.0 { assert c * d < 0.0; }
  }

  /** For a direction `(dx, dy)` and an offset `(u, w)` parallel to it, the dot product scaled
      by `dx` is the squared length scaled by `u`. */
  lemma ParallelDot(dx: real, dy: real, u: real, w: real)
    requires dx * w == dy * u
    ensures (dx * u + dy * w) * dx == (dx * dx + dy * dy) * u
  {
    calc {
      (dx * u + dy * w) * dx;
      dx * dx * u + dy * (dx * w);
      dx * dx * u + dy * (dy * u);
      (dx * dx + dy * dy) * u;
    }
  }

  /** `SameSign` for a positive `dx` and the squared length `dx² + dy²`. */
  lemma SameSignScaled(a: real, dx: real, dy: real, d: real)
    requires a * dx == (dx * dx + dy * dy) * d && dx > 0.0
    ensures a > 0.0 <==> d > 0.0
    ensures a == 0.0 <==> d == 0.0
  {
    PositiveSquares(dx, dy);
    if a > 0.0 { assert a * dx > 0.0; }
    if a < 0.0 { assert a * dx < 0.0; }
    if d > 0.0 { assert (dx * dx + dy * dy) * d > 0.0; }
    if d < 0.0 { assert (dx * dx + dy * dy) * d < 0.0; }
  }

  lemma PositiveSquares(dx: real, dy: real)
    requires dx != 0.0
    ensures dx * dx + dy * dy > 0.0
  {
    if dx > 0.0 { assert dx * dx > 0.0; } else { assert (-dx) * (-dx) > 0.0; }
    if dy >= 0.0 { assert dy * dy >= 0.0; } else { assert (-dy) * (-dy) > 0.0; }
  }

  lemma ZeroFactor(a: real, b: real)
    requires a != 0.0 && a * b == 0.0
    ensures b == 0.0
  {
  }

  /** On the line through `s` and `t` the parameter grows with `x` when `t.x > s.x`. */
  lemma CollinearByX(s: Point, t: Point, p: Point)
    requires Orient2D(s, t, p) == 0.0 && t.x - s.x > 0.0
    ensures Along(s, t, p) > 0.0 <==> p.x > s.x
    ensures Along(s, t, p) == 0.0 <==> p.x == s.x
    ensures Along(s, t, p) - Len2(s, t) > 0.0 <==> p.x > t.x
    ensures Along(s, t, p) - Len2(s, t) == 0.0 <==> p.x == t.x
    ensures p.x == s.x ==> p.y == s.y
    ensures p.x == t.x ==> p.y == t.y
  {
    var dx, dy, u, w := t.x - s.x, t.y - s.y, p.x - s.x, p.y - s.y;
    var a, l := Along(s, t, p), Len2(s, t);
    assert Orient2D(s, t, p) == dx * w - dy * u;
    assert a == dx * u + dy * w;
    assert l == dx * dx + dy * dy;
    ParallelDot(dx, dy, u, w);
    SameSignScaled(a, dx, dy, u);
    assert dx * (w - dy) == dy * (u - dx);
    ParallelDot(dx, dy, u - dx, w - dy);
    assert a - l == dx * (u - dx) + dy * (w - dy);
    SameSignScaled(a - l, dx, dy, u - dx);
    if u == 0.0 { ZeroFactor(dx, w); }
    if u - dx == 0.0 { ZeroFactor(dx, w - dy); }
  }

  /** The same along `y`, for a halfedge with `t.y > s.y` and `t.x == s.x`. */
  lemma CollinearByY(s: Point, t: Point, p: Point)
    requires Orient2D(s, t, p) == 0.0 && t.x == s.x && t.y - s.y > 0.0
    ensures Along(s, t, p) > 0.0 <==> p.y > s.y
    ensures Along(s, t, p) == 0.0 <==> p.y == s.y
    ensures Along(s, t, p) - Len2(s, t) > 0.0 <==> p.y > t.y
    ensures Along(s, t, p) - Len2(s, t) == 0.0 <==> p.y == t.y
    ensures p.x == s.x
  {
    var dy, u, w := t.y - s.y, p.x - s.x, p.y - s.y;
    var a, l := Along(s, t, p), Len2(s, t);
    assert Orient2D(s, t, p) == -(dy * u);
    assert a == dy * w;
    assert l == dy * dy;
    SameSign(w, dy, 1.0, a);
    assert a - l == dy * (w - dy);
    SameSign(w - dy, dy, 1.0, a - l);
    ZeroFactor(dy, u);
  }

  /** Reversing the halfedge mirrors the parameter: `λ` becomes `1 - λ`. */
  lemma AlongReversed(s: Point, t: Point, p: Point)
    ensures Along(t, s, p) == Len2(s, t) - Along(s, t, p)
    ensures Len2(t, s) == Len2(s, t)
    ensures Orient2D(t, s, p) == -Orient2D(s, t, p)
  {
  }

  /**
   * The coordinate tests of `LocatePoint(halfedge, point)` classify exactly by position: the
   * result is determined by the orientation sign and the parameter along the halfedge, in all
   * four directions of the halfedge.
   */
  lemma LocateIsPosition(s: Point, t: Point, p: Point)
    requires s != t
    ensures LocateOnHalfedge(s, t, p) == Position(s, t, p)
  {
    if Orient2D(s, t, p) == 0.0 {
      if t.x > s.x {
        CollinearByX(s, t, p);
      } else if t.x < s.x {
        MirrorX(s, t, p);
        CollinearByX(Point(-s.x, s.y), Point(-t.x, t.y), Point(-p.x, p.y));
      } else if t.y > s.y {
        CollinearByY(s, t, p);
      } else {
        assert t.y < s.y;
        MirrorY(s, t, p);
        CollinearByY(Point(s.x, -s.y), Point(t.x, -t.y), Point(p.x, -p.y));
      }
    }
  }

  /** Mirroring in the y axis negates the orientation and keeps the parameter along the halfedge
      and its length. */
  lemma MirrorX(s: Point, t: Point, p: Point)
    ensures var s', t', p' := Point(-s.x, s.y), Point(-t.x, t.y), Point(-p.x, p.y);
      && Orient2D(s', t', p') == -Orient2D(s, t, p)
      && Along(s', t', p') == Along(s, t, p) && Len2(s', t') == Len2(s, t)
  {
    var dx, qx := t.x - s.x, p.x - s.x;
    assert (-dx) * (-dx) == dx * dx && (-dx) * (-qx) == dx * qx;
    assert (-dx) * (p.y - s.y) == -(dx * (p.y - s.y)) && (t.y - s.y) * (-qx) == -((t.y - s.y) * qx);
  }

  /** Mirroring in the x axis, likewise. */
  lemma MirrorY(s: Point, t: Point, p: Point)
    ensures var s', t', p' := Point(s.x, -s.y), Point(t.x, -t.y), Point(p.x, -p.y);
      && Orient2D(s', t', p') == -Orient2D(s, t, p)
      && Along(s', t', p') == Along(s, t, p) && Len2(s', t') == Len2(s, t)
  {
    var dy, qy := t.y - s.y, p.y - s.y;
    assert (-dy) * (-dy) == dy * dy && (-dy) * (-qy) == dy * qy;
    assert (-dy) * (p.x - s.x) == -(dy * (p.x - s.x)) && (t.x - s.x) * (-qy) == -((t.x - s.x) * qy);
  }

  /** A positive orientation is `Left` and a negative one `Right`, whatever the coordinates;
      `Source` and `Target` are the collinear points equal to the endpoints. */
  lemma LocateBySide(s: Point, t: Point, p: Point)
    requires s != t
    ensures LocateOnHalfedge(s, t, p) == Left <==> Orient2D(s, t, p) > 0.0
    ensures LocateOnHalfedge(s, t, p) == Right <==> Orient2D(s, t, p) < 0.0
    ensures LocateOnHalfedge(s, t, p) == Source <==> p == s
    ensures LocateOnHalfedge(s, t, p) == Target <==> p == t
  {
    if p == s { assert Orient2D(s, t, p) == 0.0; }
    if p == t { assert Orient2D(s, t, p) == 0.0; }
  }

  /** The cases of the unit test on the halfedge from (0,0) to (1,0). */
  lemma UnitHalfedgeInside()
    ensures LocateOnHalfedge(Point(0.0, 0.0), Point(1.0, 0.0), Point(0.99999, 0.0)) == Inside
  {
    assert Orient2D(Point(0.0, 0.0), Point(1.0, 0.0), Point(0.99999, 0.0)) == 0.0;
  }

  lemma UnitHalfedgeInfront()
    ensures LocateOnHalfedge(Point(0.0, 0.0), Point(1.0, 0.0), Point(1.0000000000001, 0.0)) == Infront
  {
    assert Orient2D(Point(0.0, 0.0), Point(1.0, 0.0), Point(1.0000000000001, 0.0)) == 0.0;
  }

  lemma UnitHalfedgeBehind()
    ensures LocateOnHalfedge(Point(0.0, 0.0), Point(1.0, 0.0), Point(-1.0, 0.0)) == Behind
  {
    assert Orient2D(Point(0.0, 0.0), Point(1.0, 0.0), Point(-1.0, 0.0)) == 0.0;
  }

  lemma UnitHalfedgeSides()
    ensures LocateOnHalfedge(Point(0.0, 0.0), Point(1.0, 0.0), Point(0.5, 0.0001)) == Left
    ensures LocateOnHalfedge(Point(0.0, 0.0), Point(1.0, 0.0), Point(0.5, -0.0001)) == Right
  {
    assert Orient2D(Point(0.0, 0.0), Point(1.0, 0.0), Point(0.5, 0.0001)) == 0.0001;
    assert Orient2D(Point(0.0, 0.0), Point(1.0, 0.0), Point(0.5, -0.0001)) == -0.0001;
  }

  /** The robustness test: far along a long horizontal halfedge, a point just past its target
      is `Infront`. */
  lemma LongHalfedgeInfront()
    ensures LocateOnHalfedge(Point(-10000000000.0, 0.0), Point(0.00000000001, 0.0), Point(0.00000000002, 0.0)) == Infront
  {
    assert Orient2D(Point(-10000000000.0, 0.0), Point(0.00000000001, 0.0), Point(0.00000000002, 0.0)) == 0.0;
  }
}
