/**
 * The Euler operator `SplitVertex(he1, he2)` (Mesh.cs:301-335): a new vertex `v1` is pulled out
 * of `v2 = he1.Target` along a new edge from `v1` to `v2`, and the incoming halfedges of `v2`
 * between `he1` and `he2` move over to `v1`.
 */
module VertexSplits {
  import opened Wrappers
  import opened Halfedges
  import opened Edges
  import opened Faces
  import opened Vertices
  import opened Meshes
  import Circulation

  /** One batch of Mesh.cs:315-323: `e` is linked in after `he`, each assignment reading what
      the ones before it left; where two assignments write one field, the later one wins. */
  function LinkedAfter(hes: seq<Halfedge>, he: nat, e: nat): (r: seq<Halfedge>)
    requires Closed(hes) && he < |hes| && e < |hes|
    ensures Closed(r) && |r| == |hes|
  {
    var n := hes[he].next;
    seq(|hes|, x requires 0 <= x < |hes| => hes[x].(
      next := if x == he then e else if x == e then n else hes[x].next,
      previous := if x == e then he else if x == n then e else hes[x].previous))
  }

  /** Mesh.cs:306-323: the new vertex `v1`, the new edge from `v1` to `v2` (its halves are `e12`
      and `e21`), `v1.Outgoing := e12`, then `e12` linked in after `he1` and `e21` after `he2`. */
  function Sprung<VT, FT>(a: Arena<VT, FT>, he1: nat, he2: nat, vt: VT): (r: Arena<VT, FT>)
    requires Closed(a.hes) && he1 < |a.hes| && he2 < |a.hes|
    ensures Closed(r.hes) && |r.hes| == |a.hes| + 2
  {
    var v2 := a.hes[he1].target;
    var (b0, v1) := CreateVertex(a, vt);
    var (b1, e12) := CreateEdgeInvalid(b0, v1, v2);
    var e21 := b1.hes[e12].opposite;
    var b2 := SetOutgoing(b1, v1, e12);
    var hes := LinkedAfter(b2.hes, he1, e12);
    b2.(hes := LinkedAfter(hes, he2, e21))
  }

  /** The `foreach` of Mesh.cs:328-331: every halfedge of `moved` now ends at `v`. */
  function Retargeted(hes: seq<Halfedge>, moved: seq<nat>, v: nat): (r: seq<Halfedge>)
    ensures |r| == |hes| && SameLinks(hes, r)
    ensures forall x | 0 <= x < |hes| :: r[x].target == (if x in moved then v else hes[x].target)
    ensures forall x | 0 <= x < |hes| :: r[x].face == hes[x].face && r[x].edge == hes[x].edge
  {
    seq(|hes|, x requires 0 <= x < |hes| => if x in moved then hes[x].(target := v) else hes[x])
  }

  /**
   * `v2.Incomings.Circulate(he1, he2)` (Mesh.cs:327, 633-638), enumerated lazily, with `start`
   * the `Outgoing.Opposite` the enumeration starts from. When the walk around the target comes
   * back to `start`, `Incomings` is that finite orbit and `Circulate` repeats it: the slice ends
   * exactly when both halfedges lie on the orbit. When the walk never comes back, `Incomings`
   * runs forever and `Circulate` reads one pass of it; its first 2 |hes| steps decide whether
   * `SkipWhile` finds `he1` and `TakeWhile` then meets `he2` (`MovedIncomingsEnds`). `None` when
   * the enumeration does not end.
   */
  function MovedIncomings(hes: seq<Halfedge>, start: nat, he1: nat, he2: nat): (r: Option<seq<nat>>)
    requires Closed(hes) && start < |hes|
    ensures r.Some? ==> forall k | 0 <= k < |r.value| :: r.value[k] < |hes|
  {
    match Orbit(hes, AroundTarget, start)
    case Some(items) =>
      if he1 in items && he2 in items then
        OrbitIsCycle(hes, AroundTarget, start);
        Some(Circulation.Circulate(items, he1, he2))
      else None
    case None => Circulation.SkipTake(Walked(hes, AroundTarget, start, 2 * |hes|), he1, he2)
  }

  /**
   * What `MovedIncomings` yields is the walk around the target from `he1`, stopped just before
   * its first return to `he2`; and the walk from `start` does reach `he1`, at step `i`.
   */
  lemma MovedIncomingsWalk(hes: seq<Halfedge>, start: nat, he1: nat, he2: nat) returns (i: nat)
    requires Closed(hes) && start < |hes| && he1 < |hes| && he2 < |hes|
    ensures var r := MovedIncomings(hes, start, he1, he2);
      r.Some? ==>
        && Iterate(hes, AroundTarget, start, i) == he1
        && Iterate(hes, AroundTarget, he1, |r.value|) == he2
        && forall k | 0 <= k < |r.value| :: r.value[k] == Iterate(hes, AroundTarget, he1, k) && r.value[k] != he2
  {
    i := 0;
    var r := MovedIncomings(hes, start, he1, he2);
    if r.Some? {
      if Orbit(hes, AroundTarget, start).Some? {
        i := OrbitSliceWalks(hes, start, he1, he2);
      } else {
        i := PrefixSliceWalks(hes, start, he1, he2);
      }
    }
  }

  /** `MovedIncomingsWalk` when the walk never comes back to `start`. */
  lemma PrefixSliceWalks(hes: seq<Halfedge>, start: nat, he1: nat, he2: nat) returns (i: nat)
    requires Closed(hes) && start < |hes| && he1 < |hes| && he2 < |hes|
    requires Circulation.SkipTake(Walked(hes, AroundTarget, start, 2 * |hes|), he1, he2).Some?
    ensures var moved := Circulation.SkipTake(Walked(hes, AroundTarget, start, 2 * |hes|), he1, he2).value;
      && Iterate(hes, AroundTarget, start, i) == he1
      && Iterate(hes, AroundTarget, he1, |moved|) == he2
      && forall k | 0 <= k < |moved| :: moved[k] == Iterate(hes, AroundTarget, he1, k) && moved[k] != he2
  {
    i := SkipTakeWalks(hes, start, Walked(hes, AroundTarget, start, 2 * |hes|), he1, he2);
  }

  /** A slice of a recorded walk around the target, from `he1` up to `he2`, is the walk from `he1`. */
  lemma SkipTakeWalks(hes: seq<Halfedge>, start: nat, s: seq<nat>, he1: nat, he2: nat) returns (i: nat)
    requires Closed(hes) && start < |hes|
    requires forall k | 0 <= k < |s| :: s[k] == Iterate(hes, AroundTarget, start, k)
    requires Circulation.SkipTake(s, he1, he2).Some?
    ensures var moved := Circulation.SkipTake(s, he1, he2).value;
      && Iterate(hes, AroundTarget, start, i) == he1
      && Iterate(hes, AroundTarget, he1, |moved|) == he2
      && forall k | 0 <= k < |moved| :: moved[k] == Iterate(hes, AroundTarget, he1, k) && moved[k] != he2
  {
    var moved := Circulation.SkipTake(s, he1, he2).value;
    i := Circulation.IndexOf(s, he1);
    var n := |moved|;
    assert i + n < |s| && s[i] == he1 && s[i + n] == he2;
    forall k | 0 <= k <= n ensures s[i + k] == Iterate(hes, AroundTarget, he1, k) {
      assert s[i + k] == Iterate(hes, AroundTarget, start, i + k);
      IterateAdd(hes, AroundTarget, start, i, k);
    }
    forall k | 0 <= k < n ensures moved[k] == Iterate(hes, AroundTarget, he1, k) && moved[k] != he2 {
      assert moved[k] == s[i + k];
    }
  }

  /** `MovedIncomingsWalk` when the walk comes back to `start`. */
  lemma OrbitSliceWalks(hes: seq<Halfedge>, start: nat, he1: nat, he2: nat) returns (i: nat)
    requires Closed(hes) && start < |hes| && he1 < |hes| && he2 < |hes|
    requires Orbit(hes, AroundTarget, start).Some?
    requires he1 in Orbit(hes, AroundTarget, start).value && he2 in Orbit(hes, AroundTarget, start).value
    ensures var moved := Circulation.Circulate(Orbit(hes, AroundTarget, start).value, he1, he2);
      && Iterate(hes, AroundTarget, start, i) == he1
      && Iterate(hes, AroundTarget, he1, |moved|) == he2
      && forall k | 0 <= k < |moved| :: moved[k] == Iterate(hes, AroundTarget, he1, k) && moved[k] != he2
  {
    var items := Orbit(hes, AroundTarget, start).value;
    OrbitIsCycle(hes, AroundTarget, start);
    i := Circulation.IndexOf(items, he1);
    var moved := Circulation.Circulate(items, he1, he2);
    forall k | 0 <= k <= |moved|
      ensures items[Circulation.Cyc(|items|, i, k)] == Iterate(hes, AroundTarget, he1, k)
    {
      CycleIterate(hes, AroundTarget, start, items, i, k);
    }
  }

  /** Along a cycle of the walk, `k` steps from entry `i` lead to the entry `k` places on. */
  lemma CycleIterate(hes: seq<Halfedge>, w: Walk, start: nat, items: seq<nat>, i: nat, k: nat)
    requires Closed(hes) && start < |hes| && IsCycle(hes, w, start, items) && i < |items| && k <= |items|
    ensures items[Circulation.Cyc(|items|, i, k)] == Iterate(hes, w, items[i], k)
  {
    var n := |items|;
    IterateAdd(hes, w, start, i, k);
    if i + k >= n {
      assert Iterate(hes, w, start, n) == start by {
        assert items[n - 1] == Iterate(hes, w, start, n - 1);
      }
      IterateAdd(hes, w, start, n, i + k - n);
    }
  }

  /**
   * The enumeration `MovedIncomings` models ends exactly when the walk from `start` reaches
   * `he1` and the walk from `he1` reaches `he2`. So `None`, and with it `Diverges`, is what the
   * source does too: `SkipWhile` or `TakeWhile` runs forever.
   */
  lemma MovedIncomingsEnds(hes: seq<Halfedge>, start: nat, he1: nat, he2: nat)
    requires Closed(hes) && start < |hes| && he1 < |hes| && he2 < |hes|
    ensures MovedIncomings(hes, start, he1, he2).None? <==>
      (forall k: nat :: Iterate(hes, AroundTarget, start, k) != he1) ||
      (forall k: nat :: Iterate(hes, AroundTarget, he1, k) != he2)
  {
    var r := MovedIncomings(hes, start, he1, he2);
    if r.Some? {
      var i := MovedIncomingsWalk(hes, start, he1, he2);
    } else {
      match Orbit(hes, AroundTarget, start)
      case Some(items) =>
        OrbitIsCycle(hes, AroundTarget, start);
        CycleAdvances(hes, AroundTarget, start, items);
        if he1 in items {
          forall k: nat ensures Iterate(hes, AroundTarget, he1, k) != he2 {
            IterateStays(hes, AroundTarget, he1, items, k);
          }
        } else {
          forall k: nat ensures Iterate(hes, AroundTarget, start, k) != he1 {
            IterateStays(hes, AroundTarget, start, items, k);
          }
        }
      case None =>
        SkipTakeNone(hes, start, he1, he2);
    }
  }

  /** When the walk never returns, a prefix of 2 |hes| steps that does not show `he1` followed
      by `he2` means the whole walk does not. */
  lemma SkipTakeNone(hes: seq<Halfedge>, start: nat, he1: nat, he2: nat)
    requires Closed(hes) && start < |hes| && he1 < |hes| && he2 < |hes|
    requires Circulation.SkipTake(Walked(hes, AroundTarget, start, 2 * |hes|), he1, he2).None?
    ensures (forall k: nat :: Iterate(hes, AroundTarget, start, k) != he1) ||
            (forall k: nat :: Iterate(hes, AroundTarget, he1, k) != he2)
  {
    var n, s := |hes|, Walked(hes, AroundTarget, start, 2 * |hes|);
    if he1 !in s {
      forall k: nat ensures Iterate(hes, AroundTarget, start, k) != he1 {
        var r := WalkRevisits(hes, AroundTarget, start, k);
        assert s[r] == Iterate(hes, AroundTarget, start, r);
      }
    } else {
      var i := Circulation.IndexOf(s, he1);
      var r := WalkRevisits(hes, AroundTarget, start, i);
      assert s[r] == he1;
      assert i < n;
      forall k: nat ensures Iterate(hes, AroundTarget, he1, k) != he2 {
        var r' := WalkRevisits(hes, AroundTarget, he1, k);
        IterateAdd(hes, AroundTarget, start, i, r');
        assert s[i..][r'] == s[i + r'];
      }
    }
  }

  /** When the walk from `he1` keeps inside a set of halfedges that `he2` lies outside, the
      enumeration from `he1` to `he2` never ends. */
  lemma MovedIncomingsStuck(hes: seq<Halfedge>, start: nat, he1: nat, he2: nat, inside: seq<nat>)
    requires Closed(hes) && start < |hes| && he1 < |hes| && he2 < |hes|
    requires he1 in inside && he2 !in inside
    requires forall y | y in inside :: y < |hes| && Advance(hes, AroundTarget, y) in inside
    ensures MovedIncomings(hes, start, he1, he2).None?
  {
    forall k: nat ensures Iterate(hes, AroundTarget, he1, k) != he2 {
      IterateStays(hes, AroundTarget, he1, inside, k);
    }
    MovedIncomingsEnds(hes, start, he1, he2);
  }

  /**
   * `SplitVertex(he1, he2)` as written (Mesh.cs:301-335). The halfedges that move to `v1` are
   * `v2.Incomings.Circulate(he1, he2)`, enumerated after the re-linking; when that enumeration
   * never ends, the split is `Diverges`. Returns `e12`.
   */
  function SplitVertex<VT, FT>(a: Arena<VT, FT>, he1: nat, he2: nat, vt: VT): (r: Result<(Arena<VT, FT>, nat)>)
    requires Fit(a) && he1 < |a.hes| && he2 < |a.hes|
    ensures r.Ok? ==> r.value.1 == |a.hes| && |r.value.0.hes| == |a.hes| + 2
    ensures r == Err(Argument(DifferentTargets)) <==> a.hes[he1].target != a.hes[he2].target
    ensures r == Err(Argument(OnBoundary)) <==>
      a.hes[he1].target == a.hes[he2].target && he1 == he2 && a.hes[he1].face.None?
  {
    if a.hes[he1].target != a.hes[he2].target then Err(Argument(DifferentTargets))
    else if he1 == he2 && IsBoundary(a.hes, he1) then Err(Argument(OnBoundary))
    else
      var c := Sprung(a, he1, he2, vt);
      var v2 := a.hes[he1].target;
      assert c.vs[v2] == a.vs[v2];
      match c.vs[v2].outgoing
      case None => Err(NullReference)
      case Some(out) =>
        match MovedIncomings(c.hes, c.hes[out].opposite, he1, he2)
        case None => Err(Diverges)
        case Some(moved) => Ok((c.(hes := Retargeted(c.hes, moved, |a.vs|)), |a.hes|))
  }

  /**
   * The split as evidently intended. The halfedges that move are fixed before anything is
   * re-linked: from `he2`, walking around `v2`, the ones after `he2` up to and including `he1`
   * (none when `he1 == he2`). The new halves take the faces they border, `e12` that of `he1` and
   * `e21` that of `he2`, and `v2.Outgoing` becomes `e21` when it left `v2` through a halfedge
   * whose opposite moved.
   */
  function SplitVertexChecked<VT, FT>(a: Arena<VT, FT>, he1: nat, he2: nat, vt: VT): (r: Result<(Arena<VT, FT>, nat)>)
    requires Fit(a) && he1 < |a.hes| && he2 < |a.hes|
    ensures r.Ok? ==> r.value.1 == |a.hes| && |r.value.0.hes| == |a.hes| + 2
    ensures r == Err(Argument(DifferentTargets)) <==> a.hes[he1].target != a.hes[he2].target
    ensures r == Err(Argument(OnBoundary)) <==>
      a.hes[he1].target == a.hes[he2].target && he1 == he2 && a.hes[he1].face.None?
    ensures r.Ok? <==>
      && a.hes[he1].target == a.hes[he2].target && (he1 != he2 || a.hes[he1].face.Some?)
      && Orbit(a.hes, AroundTarget, he2).Some? && he1 in Orbit(a.hes, AroundTarget, he2).value
  {
    if a.hes[he1].target != a.hes[he2].target then Err(Argument(DifferentTargets))
    else if he1 == he2 && IsBoundary(a.hes, he1) then Err(Argument(OnBoundary))
    else
      match Orbit(a.hes, AroundTarget, he2)
      case None => Err(Diverges)
      case Some(fan) =>
        if he1 !in fan then Err(Argument(NotAround))
        else Ok((Split(a, he1, he2, vt, fan[1..Circulation.IndexOf(fan, he1) + 1]), |a.hes|))
  }

  /** The corrected split once `moved` is known. */
  function Split<VT, FT>(a: Arena<VT, FT>, he1: nat, he2: nat, vt: VT, moved: seq<nat>): (r: Arena<VT, FT>)
    requires Fit(a) && he1 < |a.hes| && he2 < |a.hes|
    ensures |r.hes| == |a.hes| + 2
  {
    var c := Sprung(a, he1, he2, vt);
    var v2 := a.hes[he1].target;
    c.(hes := Retargeted(Faced(c.hes, |a.hes|, a.hes[he1].face, a.hes[he2].face), moved, |a.vs|),
       vs := Rerooted(a.hes, c.vs, v2, moved, |a.hes| + 1))
  }

  /** `e12.Face := he1.Face` and `e21.Face := he2.Face`, with `e12 = h` and `e21 = h + 1`. */
  function Faced(hes: seq<Halfedge>, h: nat, f1: Option<nat>, f2: Option<nat>): (r: seq<Halfedge>)
    requires h + 1 < |hes|
    ensures |r| == |hes|
  {
    hes[h := hes[h].(face := f1)][h + 1 := hes[h + 1].(face := f2)]
  }

  /** `v2.Outgoing := e21` when `v2.Outgoing.Opposite` is one of the halfedges that moved. */
  function Rerooted<VT>(hes: seq<Halfedge>, vs: seq<Vertex<VT>>, v2: nat, moved: seq<nat>, e21: nat): (r: seq<Vertex<VT>>)
    requires v2 < |vs| && (vs[v2].outgoing.Some? ==> vs[v2].outgoing.value < |hes|)
    ensures |r| == |vs|
  {
    var out := vs[v2].outgoing;
    if out.Some? && hes[out.value].opposite in moved then vs[v2 := vs[v2].(outgoing := Some(e21))] else vs
  }

  // The halfedges a split leaves, written out record by record.

  /** When `he1 != he2`: `he1 -> e12 -> he1.Next` and `he2 -> e21 -> he2.Next`, with `e12 = h` ending
      at `v2` with face `f1`, `e21 = h + 1` ending at `v1` with face `f2`, and `moved` ending at `v1`. */
  ghost predicate IsApart(hes: seq<Halfedge>, r: seq<Halfedge>, he1: nat, he2: nat, moved: seq<nat>, v1: nat, e: nat, f1: Option<nat>, f2: Option<nat>)
    requires he1 < |hes| && he2 < |hes|
  {
    var h, n1, n2 := |hes|, hes[he1].next, hes[he2].next;
    && |r| == h + 2
    && r[h] == Halfedge(hes[he1].target, f1, h + 1, n1, he1, e)
    && r[h + 1] == Halfedge(v1, f2, h, n2, he2, e)
    && forall x | 0 <= x < h :: r[x] == hes[x].(
         target := if x in moved then v1 else hes[x].target,
         next := if x == he2 then h + 1 else if x == he1 then h else hes[x].next,
         previous := if x == n2 then h + 1 else if x == n1 then h else hes[x].previous)
  }

  /** When `he1 == he2 == he`: the spike `he -> e21 -> e12 -> he.Next` into the face `f`. */
  ghost predicate IsInFace(hes: seq<Halfedge>, r: seq<Halfedge>, he: nat, v1: nat, e: nat, f: Option<nat>)
    requires he < |hes|
  {
    var h, n := |hes|, hes[he].next;
    && |r| == h + 2
    && r[h] == Halfedge(hes[he].target, f, h + 1, n, h + 1, e)
    && r[h + 1] == Halfedge(v1, f, h, h, he, e)
    && forall x | 0 <= x < h :: r[x] == hes[x].(
         next := if x == he then h + 1 else hes[x].next,
         previous := if x == n then h else hes[x].previous)
  }

  /** The two batches of Mesh.cs:315-323 on the arena with the new edge appended. */
  lemma LinkedApart(hes: seq<Halfedge>, b: seq<Halfedge>, he1: nat, he2: nat, v1: nat, e: nat)
    requires Closed(hes) && he1 < |hes| && he2 < |hes| && he1 != he2
    requires var h := |hes|;
      b == hes + [Halfedge(hes[he1].target, None, h + 1, h, h, e), Halfedge(v1, None, h, h + 1, h + 1, e)]
    requires Closed(b)
    ensures IsApart(hes, LinkedAfter(LinkedAfter(b, he1, |hes|), he2, |hes| + 1), he1, he2, [], v1, e, None, None)
  {
    var c := LinkedAfter(b, he1, |hes|);
    var r := LinkedAfter(c, he2, |hes| + 1);
    forall x | 0 <= x < |hes| ensures r[x] == hes[x].(
         next := if x == he2 then |hes| + 1 else if x == he1 then |hes| else hes[x].next,
         previous := if x == hes[he2].next then |hes| + 1 else if x == hes[he1].next then |hes| else hes[x].previous) {
      LinkedApartAt(hes, b, c, r, he1, he2, v1, e, x);
    }
    LinkedApartAt(hes, b, c, r, he1, he2, v1, e, |hes|);
    LinkedApartAt(hes, b, c, r, he1, he2, v1, e, |hes| + 1);
  }

  lemma LinkedApartAt(hes: seq<Halfedge>, b: seq<Halfedge>, c: seq<Halfedge>, r: seq<Halfedge>, he1: nat, he2: nat, v1: nat, e: nat, x: nat)
    requires Closed(hes) && he1 < |hes| && he2 < |hes| && he1 != he2
    requires var h := |hes|;
      b == hes + [Halfedge(hes[he1].target, None, h + 1, h, h, e), Halfedge(v1, None, h, h + 1, h + 1, e)]
    requires Closed(b) && c == LinkedAfter(b, he1, |hes|) && r == LinkedAfter(c, he2, |hes| + 1)
    requires x < |hes| + 2
    ensures var h, n1, n2 := |hes|, hes[he1].next, hes[he2].next;
      r[x] == if x == h then Halfedge(hes[he1].target, None, h + 1, n1, he1, e)
        else if x == h + 1 then Halfedge(v1, None, h, n2, he2, e)
        else hes[x].(next := if x == he2 then h + 1 else if x == he1 then h else hes[x].next,
                     previous := if x == n2 then h + 1 else if x == n1 then h else hes[x].previous)
  {
    var h := |hes|;
    assert c[he2].next == hes[he2].next;
    if x < h {
      assert b[x] == hes[x];
    }
  }

  lemma LinkedInFace(hes: seq<Halfedge>, b: seq<Halfedge>, he: nat, v1: nat, e: nat)
    requires Closed(hes) && he < |hes|
    requires var h := |hes|;
      b == hes + [Halfedge(hes[he].target, None, h + 1, h, h, e), Halfedge(v1, None, h, h + 1, h + 1, e)]
    requires Closed(b)
    ensures IsInFace(hes, LinkedAfter(LinkedAfter(b, he, |hes|), he, |hes| + 1), he, v1, e, None)
  {
  }

  /** What `Sprung` leaves besides the halfedges: one vertex, one edge and two halfedges more. */
  ghost predicate SprungRest<VT, FT>(a: Arena<VT, FT>, c: Arena<VT, FT>, vt: VT)
  {
    var h := |a.hes|;
    && c.vs == a.vs + [Vertex(Some(h), vt)] && c.es == a.es + [Edge(h)] && c.fs == a.fs
    && c.halfedges == a.halfedges + [h, h + 1] && c.vertices == a.vertices + [|a.vs|]
    && c.edges == a.edges + [|a.es|] && c.faces == a.faces
  }

  /** `Sprung` written out. */
  lemma SprungShape<VT, FT>(a: Arena<VT, FT>, he1: nat, he2: nat, vt: VT)
    requires Closed(a.hes) && he1 < |a.hes| && he2 < |a.hes|
    ensures var c := Sprung(a, he1, he2, vt);
      && SprungRest(a, c, vt)
      && (he1 == he2 ==> IsInFace(a.hes, c.hes, he1, |a.vs|, |a.es|, None))
      && (he1 != he2 ==> IsApart(a.hes, c.hes, he1, he2, [], |a.vs|, |a.es|, None, None))
  {
    var h, v2 := |a.hes|, a.hes[he1].target;
    var (b0, v1) := CreateVertex(a, vt);
    var (b1, e12) := CreateEdgeInvalid(b0, v1, v2);
    assert b1 == EdgeAdded(b0, v1, v2).0 && e12 == h && b1.hes[e12].opposite == h + 1;
    var b2 := SetOutgoing(b1, v1, e12);
    var b := b2.hes;
    assert b == a.hes + [Halfedge(v2, None, h + 1, h, h, |a.es|), Halfedge(|a.vs|, None, h, h + 1, h + 1, |a.es|)];
    assert SprungRest(a, b2, vt);
    assert Sprung(a, he1, he2, vt) == b2.(hes := LinkedAfter(LinkedAfter(b, he1, h), he2, h + 1));
    if he1 == he2 {
      LinkedInFace(a.hes, b, he1, |a.vs|, |a.es|);
    } else {
      LinkedApart(a.hes, b, he1, he2, |a.vs|, |a.es|);
    }
  }

  // The halfedges that move: an arc of the fan around the split vertex.

  /**
   * `moved` is the arc of the fan around the target of `he2` that starts right after `he2` and
   * ends at `he1`: it holds `he1` but not `he2`, its halfedges are live and end at that target,
   * `NextAtTarget` stays inside it except from `he1`, enters it only from `he2`, and leads from
   * `he2` into it.
   */
  ghost predicate Fan(hes: seq<Halfedge>, live: seq<nat>, he1: nat, he2: nat, moved: seq<nat>)
    requires Closed(hes) && he1 < |hes| && he2 < |hes|
  {
    && he1 in moved && he2 !in moved
    && (forall y | y in moved :: y in live && y < |hes| && hes[y].target == hes[he2].target)
    && (forall y | y in moved && y < |hes| && y != he1 :: NextAtTarget(hes, y) in moved)
    && (forall y | y in live && y < |hes| && NextAtTarget(hes, y) in moved :: y in moved || y == he2)
    && NextAtTarget(hes, he1) !in moved
    && NextAtTarget(hes, he2) in moved
  }

  /** In a wired mesh, the halfedges after `he2` up to `he1` on the walk around the target from
      `he2` form such an arc. */
  lemma FanOfOrbit(hes: seq<Halfedge>, live: seq<nat>, he1: nat, he2: nat)
    requires Wired(hes, live) && he1 in live && he2 in live && he1 != he2
    requires Orbit(hes, AroundTarget, he2).Some? && he1 in Orbit(hes, AroundTarget, he2).value
    ensures var fan := Orbit(hes, AroundTarget, he2).value;
      Fan(hes, live, he1, he2, fan[1..Circulation.IndexOf(fan, he1) + 1])
  {
    var fan := Orbit(hes, AroundTarget, he2).value;
    var q := Circulation.IndexOf(fan, he1);
    WalkReturns(hes, live, AroundTarget, he2);
    OrbitSteps(hes, AroundTarget, he2);
    assert forall i | 0 <= i < |fan| :: fan[i] in live;
    ArcTargets(hes, live, he2, fan, q);
    ArcFacts(hes, live, he1, he2, fan, q);
  }

  /** `Fan` from the steps of the orbit `fan` and the first position `q` of `he1` in it. */
  lemma ArcFacts(hes: seq<Halfedge>, live: seq<nat>, he1: nat, he2: nat, fan: seq<nat>, q: nat)
    requires Wired(hes, live) && he1 in live && he2 in live && he1 != he2
    requires 0 < |fan| && fan[0] == he2 && he2 !in fan[1..]
    requires forall i | 0 <= i < |fan| :: fan[i] in live && fan[i] < |hes|
    requires forall i | 0 <= i < |fan| - 1 :: NextAtTarget(hes, fan[i]) == fan[i + 1]
    requires q < |fan| && fan[q] == he1 && forall j | 0 <= j < q :: fan[j] != he1
    requires forall y | y in fan[1..q + 1] :: y in live && y < |hes| && hes[y].target == hes[he2].target
    ensures Fan(hes, live, he1, he2, fan[1..q + 1])
  {
    var moved := fan[1..q + 1];
    assert q >= 1 && moved[q - 1] == he1 && NextAtTarget(hes, he2) == moved[0];
    assert he2 !in moved by {
      forall t | 0 <= t < |moved| ensures moved[t] != he2 { assert moved[t] == fan[1..][t]; }
    }
    ArcStaysInside(hes, he1, fan, q);
    ArcEntered(hes, live, he1, he2, fan, q);
  }

  lemma ArcTargets(hes: seq<Halfedge>, live: seq<nat>, he2: nat, fan: seq<nat>, q: nat)
    requires Wired(hes, live) && he2 in live && q < |fan|
    requires Orbit(hes, AroundTarget, he2) == Some(fan)
    ensures forall y | y in fan[1..q + 1] :: y in live && y < |hes| && hes[y].target == hes[he2].target
  {
    OrbitIsCycle(hes, AroundTarget, he2);
    var moved := fan[1..q + 1];
    forall y | y in moved ensures y in live && y < |hes| && hes[y].target == hes[he2].target {
      var t :| 0 <= t < |moved| && moved[t] == y;
      assert y == fan[t + 1];
      AroundTargetKeepsTarget(hes, live, he2, t + 1);
    }
  }

  lemma ArcStaysInside(hes: seq<Halfedge>, he1: nat, fan: seq<nat>, q: nat)
    requires Closed(hes) && q < |fan| && fan[q] == he1
    requires forall i | 0 <= i < |fan| :: fan[i] < |hes|
    requires forall i | 0 <= i < |fan| - 1 :: NextAtTarget(hes, fan[i]) == fan[i + 1]
    ensures forall y | y in fan[1..q + 1] && y < |hes| && y != he1 :: NextAtTarget(hes, y) in fan[1..q + 1]
  {
    var moved := fan[1..q + 1];
    forall y | y in moved && y < |hes| && y != he1 ensures NextAtTarget(hes, y) in moved {
      var t :| 0 <= t < |moved| && moved[t] == y;
      assert y == fan[t + 1] && t + 1 < q;
      assert NextAtTarget(hes, fan[t + 1]) == fan[t + 2] == moved[t + 1];
    }
  }

  lemma ArcEntered(hes: seq<Halfedge>, live: seq<nat>, he1: nat, he2: nat, fan: seq<nat>, q: nat)
    requires Wired(hes, live) && he1 in live && 0 < |fan| && fan[0] == he2
    requires forall i | 0 <= i < |fan| :: fan[i] in live && fan[i] < |hes|
    requires forall i | 0 <= i < |fan| - 1 :: NextAtTarget(hes, fan[i]) == fan[i + 1]
    requires q < |fan| && forall j | 0 <= j < q :: fan[j] != he1
    ensures forall y | y in live && y < |hes| && NextAtTarget(hes, y) in fan[1..q + 1] :: y in fan[1..q + 1] || y == he2
    ensures NextAtTarget(hes, he1) !in fan[1..q + 1]
  {
    var moved := fan[1..q + 1];
    forall y | y in live && y < |hes| && NextAtTarget(hes, y) in moved ensures y in moved || y == he2 {
      var t :| 0 <= t < |moved| && moved[t] == NextAtTarget(hes, y);
      assert moved[t] == fan[t + 1] == NextAtTarget(hes, fan[t]);
      AdvanceInjective(hes, live, AroundTarget, y, fan[t]);
      if t > 0 { assert fan[t] == moved[t - 1]; }
    }
    if NextAtTarget(hes, he1) in moved {
      var t :| 0 <= t < |moved| && moved[t] == NextAtTarget(hes, he1);
      assert moved[t] == fan[t + 1] == NextAtTarget(hes, fan[t]);
      AdvanceInjective(hes, live, AroundTarget, he1, fan[t]);
    }
  }

  // The corrected split with he1 != he2 keeps the pointer invariant.

  /** The hypotheses shared by the lemmas below: a wired mesh, `he1 != he2` arriving at one
      vertex, `moved` the arc between them, and `v1` a vertex no halfedge ends at yet. */
  ghost predicate ApartReady(hes: seq<Halfedge>, live: seq<nat>, he1: nat, he2: nat, moved: seq<nat>, v1: nat)
  {
    && Wired(hes, live) && he1 in live && he2 in live && he1 != he2
    && hes[he1].target == hes[he2].target && Fan(hes, live, he1, he2, moved)
    && (forall x | 0 <= x < |hes| :: hes[x].target < v1)
  }

  lemma ApartClosed(hes: seq<Halfedge>, r: seq<Halfedge>, he1: nat, he2: nat, moved: seq<nat>, v1: nat, e: nat, f1: Option<nat>, f2: Option<nat>)
    requires Closed(hes) && he1 < |hes| && he2 < |hes| && IsApart(hes, r, he1, he2, moved, v1, e, f1, f2)
    ensures Closed(r)
  {
    forall x | 0 <= x < |r| ensures r[x].opposite < |r| && r[x].next < |r| && r[x].previous < |r| {
      if x < |hes| { assert r[x].opposite == hes[x].opposite; }
    }
  }

  /** The links of an old live halfedge (opposite, next, previous, edge) after the split. */
  lemma ApartLinksOld(hes: seq<Halfedge>, r: seq<Halfedge>, live: seq<nat>, he1: nat, he2: nat, moved: seq<nat>, v1: nat, e: nat, f1: Option<nat>, f2: Option<nat>, x: nat)
    requires Closed(hes) && x < |hes| && he1 < |hes| && he2 < |hes| && he1 != he2
    requires WiredAt(hes, live, x) && WiredAt(hes, live, he1) && WiredAt(hes, live, he2)
    requires forall y | y in live :: y < |hes|
    requires IsApart(hes, r, he1, he2, moved, v1, e, f1, f2)
    ensures var live' := live + [|hes|, |hes| + 1];
      && r[x].opposite in live' && r[x].opposite != x && r[r[x].opposite].opposite == x
      && r[x].next in live' && r[r[x].next].previous == x
      && r[x].previous in live' && r[r[x].previous].next == x
      && r[r[x].opposite].edge == r[x].edge
  {
    var h := |hes|;
    var o, n, p := hes[x].opposite, hes[x].next, hes[x].previous;
    var n1, n2 := hes[he1].next, hes[he2].next;
    assert o < h && r[x].opposite == o && r[o].opposite == hes[o].opposite;
    assert r[x].edge == hes[x].edge && r[o].edge == hes[o].edge;
    if x == he2 {
      assert r[x].next == h + 1 && r[h + 1].previous == he2;
    } else if x == he1 {
      assert r[x].next == h && r[h].previous == he1;
    } else {
      assert hes[n].previous == x && hes[n2].previous == he2 && hes[n1].previous == he1;
      assert n != n2 && n != n1 && n < h;
      assert r[x].next == n && r[n].previous == x;
    }
    if x == n2 {
      assert r[x].previous == h + 1 && r[h + 1].next == n2;
    } else if x == n1 {
      assert r[x].previous == h && r[h].next == n1;
    } else {
      assert hes[p].next == x && p < h && p != he2 && p != he1;
      assert r[x].previous == p && r[p].next == x;
    }
  }

  /** The two geometric conditions of an old live halfedge after the split. */
  lemma ApartGeometryOld(hes: seq<Halfedge>, r: seq<Halfedge>, live: seq<nat>, he1: nat, he2: nat, moved: seq<nat>, v1: nat, e: nat, f1: Option<nat>, f2: Option<nat>, x: nat)
    requires ApartReady(hes, live, he1, he2, moved, v1) && x in live
    requires IsApart(hes, r, he1, he2, moved, v1, e, f1, f2) && Closed(r)
    ensures Source(r, x) != r[x].target
    ensures Source(r, r[x].next) == r[x].target
  {
    assert WiredAt(hes, live, x);
    var o, n := hes[x].opposite, hes[x].next;
    assert WiredAt(hes, live, o);
    if x != he1 && x != he2 {
      assert r[x].next == n && r[n].opposite == hes[n].opposite == NextAtTarget(hes, x);
    }
  }

  lemma ApartWiredNew(hes: seq<Halfedge>, r: seq<Halfedge>, live: seq<nat>, he1: nat, he2: nat, moved: seq<nat>, v1: nat, e: nat, f1: Option<nat>, f2: Option<nat>)
    requires ApartReady(hes, live, he1, he2, moved, v1)
    requires IsApart(hes, r, he1, he2, moved, v1, e, f1, f2) && Closed(r)
    ensures var live' := live + [|hes|, |hes| + 1];
      WiredAt(r, live', |hes|) && WiredAt(r, live', |hes| + 1)
  {
    var h := |hes|;
    assert WiredAt(hes, live, he1) && WiredAt(hes, live, he2);
    var n1, n2 := hes[he1].next, hes[he2].next;
    assert WiredAt(hes, live, n1) && WiredAt(hes, live, n2);
    assert r[n1].opposite == NextAtTarget(hes, he1) && r[n2].opposite == NextAtTarget(hes, he2);
  }

  /** The corrected split with `he1 != he2` keeps every live halfedge wired, the two new ones
      included. */
  lemma ApartWired(hes: seq<Halfedge>, r: seq<Halfedge>, live: seq<nat>, he1: nat, he2: nat, moved: seq<nat>, v1: nat, e: nat, f1: Option<nat>, f2: Option<nat>)
    requires ApartReady(hes, live, he1, he2, moved, v1)
    requires IsApart(hes, r, he1, he2, moved, v1, e, f1, f2)
    ensures Wired(r, live + [|hes|, |hes| + 1])
  {
    var h, live' := |hes|, live + [|hes|, |hes| + 1];
    ApartClosed(hes, r, he1, he2, moved, v1, e, f1, f2);
    ApartWiredNew(hes, r, live, he1, he2, moved, v1, e, f1, f2);
    forall x {:trigger WiredAt(r, live', x)} | x in live' ensures x < |r| && WiredAt(r, live', x) {
      if x < h {
        assert x in live;
        ApartWiredOld(hes, r, live, he1, he2, moved, v1, e, f1, f2, x);
      }
    }
  }

  lemma ApartWiredOld(hes: seq<Halfedge>, r: seq<Halfedge>, live: seq<nat>, he1: nat, he2: nat, moved: seq<nat>, v1: nat, e: nat, f1: Option<nat>, f2: Option<nat>, x: nat)
    requires ApartReady(hes, live, he1, he2, moved, v1) && x in live
    requires IsApart(hes, r, he1, he2, moved, v1, e, f1, f2) && Closed(r)
    ensures WiredAt(r, live + [|hes|, |hes| + 1], x)
  {
    assert WiredAt(hes, live, x) && WiredAt(hes, live, he1) && WiredAt(hes, live, he2);
    ApartLinksOld(hes, r, live, he1, he2, moved, v1, e, f1, f2, x);
    ApartGeometryOld(hes, r, live, he1, he2, moved, v1, e, f1, f2, x);
  }

  // The split with he1 == he2 (a spike into the face) keeps the pointer invariant.

  ghost predicate InFaceReady(hes: seq<Halfedge>, live: seq<nat>, he: nat, v1: nat)
  {
    && Wired(hes, live) && he in live
    && (forall x | 0 <= x < |hes| :: hes[x].target < v1)
  }

  lemma InFaceClosed(hes: seq<Halfedge>, r: seq<Halfedge>, he: nat, v1: nat, e: nat, f: Option<nat>)
    requires Closed(hes) && he < |hes| && IsInFace(hes, r, he, v1, e, f)
    ensures Closed(r)
  {
    forall x | 0 <= x < |r| ensures r[x].opposite < |r| && r[x].next < |r| && r[x].previous < |r| {
      if x < |hes| { assert r[x].opposite == hes[x].opposite; }
    }
  }

  lemma InFaceWiredOld(hes: seq<Halfedge>, r: seq<Halfedge>, live: seq<nat>, he: nat, v1: nat, e: nat, f: Option<nat>, x: nat)
    requires InFaceReady(hes, live, he, v1) && x in live
    requires IsInFace(hes, r, he, v1, e, f) && Closed(r)
    ensures WiredAt(r, live + [|hes|, |hes| + 1], x)
  {
    var h := |hes|;
    assert WiredAt(hes, live, x) && WiredAt(hes, live, he);
    var o, nx, p, n := hes[x].opposite, hes[x].next, hes[x].previous, hes[he].next;
    assert WiredAt(hes, live, o);
    assert r[x].opposite == o && r[o] == hes[o].(next := r[o].next, previous := r[o].previous);
    if x == he {
      assert r[x].next == h + 1 && r[h + 1].previous == he && r[h + 1].opposite == h;
    } else {
      assert WiredAt(hes, live, nx);
      assert nx != n && nx < h;
      assert r[x].next == nx && r[nx].previous == x && r[nx].opposite == hes[nx].opposite;
    }
    if x == n {
      assert r[x].previous == h && r[h].next == n;
    } else {
      assert hes[p].next == x && p < h && p != he;
      assert r[x].previous == p && r[p].next == x;
    }
  }

  lemma InFaceWiredNew(hes: seq<Halfedge>, r: seq<Halfedge>, live: seq<nat>, he: nat, v1: nat, e: nat, f: Option<nat>)
    requires InFaceReady(hes, live, he, v1)
    requires IsInFace(hes, r, he, v1, e, f) && Closed(r)
    ensures var live' := live + [|hes|, |hes| + 1];
      WiredAt(r, live', |hes|) && WiredAt(r, live', |hes| + 1)
  {
    var h := |hes|;
    assert WiredAt(hes, live, he);
    var n := hes[he].next;
    assert WiredAt(hes, live, n);
    assert r[n].opposite == NextAtTarget(hes, he) && r[n].previous == h;
  }

  /** The spike keeps every live halfedge wired, the two new ones included. */
  lemma InFaceWired(hes: seq<Halfedge>, r: seq<Halfedge>, live: seq<nat>, he: nat, v1: nat, e: nat, f: Option<nat>)
    requires InFaceReady(hes, live, he, v1)
    requires IsInFace(hes, r, he, v1, e, f)
    ensures Wired(r, live + [|hes|, |hes| + 1])
  {
    var h, live' := |hes|, live + [|hes|, |hes| + 1];
    InFaceClosed(hes, r, he, v1, e, f);
    InFaceWiredNew(hes, r, live, he, v1, e, f);
    forall x {:trigger WiredAt(r, live', x)} | x in live' ensures x < |r| && WiredAt(r, live', x) {
      if x < h {
        assert x in live;
        InFaceWiredOld(hes, r, live, he, v1, e, f, x);
      }
    }
  }

  // The corrected split written out.

  /** The new halves take their faces and the arc `moved` its new target. */
  lemma FacedApart(hes: seq<Halfedge>, c: seq<Halfedge>, he1: nat, he2: nat, moved: seq<nat>, v1: nat, e: nat, f1: Option<nat>, f2: Option<nat>)
    requires he1 < |hes| && he2 < |hes| && IsApart(hes, c, he1, he2, [], v1, e, None, None)
    requires forall y | y in moved :: y < |hes|
    ensures var h := |hes|;
      IsApart(hes, Retargeted(Faced(c, h, f1, f2), moved, v1), he1, he2, moved, v1, e, f1, f2)
  {
    var h := |hes|;
    var d := Faced(c, h, f1, f2);
    var r := Retargeted(d, moved, v1);
    assert h !in moved && h + 1 !in moved;
    assert r[h] == d[h] && r[h + 1] == d[h + 1];
    forall x | 0 <= x < h ensures r[x].target == if x in moved then v1 else hes[x].target {
      assert d[x] == c[x];
    }
  }

  lemma FacedInFace(hes: seq<Halfedge>, c: seq<Halfedge>, he: nat, v1: nat, e: nat, f: Option<nat>)
    requires he < |hes| && IsInFace(hes, c, he, v1, e, None)
    ensures var h := |hes|;
      IsInFace(hes, Retargeted(Faced(c, h, f, f), [], v1), he, v1, e, f)
  {
    var h := |hes|;
    var d := Faced(c, h, f, f);
    var r := Retargeted(d, [], v1);
    assert r == d;
  }

  /** What the corrected split leaves besides the halfedges. */
  ghost predicate SplitRest<VT, FT>(a: Arena<VT, FT>, b: Arena<VT, FT>, he1: nat, vt: VT, moved: seq<nat>)
    requires VerticesClosed(a.hes, a.vs) && he1 < |a.hes|
  {
    var h, v2 := |a.hes|, a.hes[he1].target;
    var out := a.vs[v2].outgoing;
    var rerooted := out.Some? && a.hes[out.value].opposite in moved;
    && b.vs == (if rerooted then a.vs[v2 := a.vs[v2].(outgoing := Some(h + 1))] else a.vs) + [Vertex(Some(h), vt)]
    && b.es == a.es + [Edge(h)] && b.fs == a.fs
    && b.halfedges == a.halfedges + [h, h + 1] && b.vertices == a.vertices + [|a.vs|]
    && b.edges == a.edges + [|a.es|] && b.faces == a.faces
  }

  /** The corrected split, record by record. */
  lemma SplitShape<VT, FT>(a: Arena<VT, FT>, he1: nat, he2: nat, vt: VT, moved: seq<nat>)
    requires Fit(a) && he1 < |a.hes| && he2 < |a.hes|
    requires forall y | y in moved :: y < |a.hes|
    requires he1 == he2 ==> moved == []
    ensures SplitDone(a, Split(a, he1, he2, vt, moved), he1, he2, vt, moved)
  {
    var h, v2 := |a.hes|, a.hes[he1].target;
    var c := Sprung(a, he1, he2, vt);
    SprungShape(a, he1, he2, vt);
    var f1, f2 := a.hes[he1].face, a.hes[he2].face;
    var b := Split(a, he1, he2, vt, moved);
    SplitRestHolds(a, c, b, he1, vt, moved);
    if he1 == he2 {
      FacedInFace(a.hes, c.hes, he1, |a.vs|, |a.es|, f1);
    } else {
      FacedApart(a.hes, c.hes, he1, he2, moved, |a.vs|, |a.es|, f1, f2);
    }
  }

  lemma SplitRestHolds<VT, FT>(a: Arena<VT, FT>, c: Arena<VT, FT>, b: Arena<VT, FT>, he1: nat, vt: VT, moved: seq<nat>)
    requires Fit(a) && he1 < |a.hes| && SprungRest(a, c, vt)
    requires b == c.(hes := b.hes, vs := Rerooted(a.hes, c.vs, a.hes[he1].target, moved, |a.hes| + 1))
    ensures SplitRest(a, b, he1, vt, moved)
  {
    var v2 := a.hes[he1].target;
    UpdateBeforeAppend(a.vs, v2, a.vs[v2].(outgoing := Some(|a.hes| + 1)), Vertex(Some(|a.hes|), vt));
  }

  lemma UpdateBeforeAppend<T>(s: seq<T>, i: nat, x: T, w: T)
    requires i < |s|
    ensures (s + [w])[i := x] == s[i := x] + [w]
  {
  }

  // The corrected operator on a wired mesh.

  /** How the split re-links: `he1` and `he2` now lead into the new pair, which leads on to their old
      successors (or, when they are one halfedge, into each other), and no opposite changes. */
  ghost predicate Relinked(hes: seq<Halfedge>, r: seq<Halfedge>, he1: nat, he2: nat)
    requires Closed(hes) && he1 < |hes| && he2 < |hes|
  {
    var h := |hes|;
    && |r| == h + 2
    && (forall x | 0 <= x < h :: r[x].opposite == hes[x].opposite)
    && (forall x | 0 <= x < h :: r[x].next == (if x == he1 && he1 != he2 then h else if x == he2 then h + 1 else hes[x].next))
    && r[h].opposite == h + 1 && r[h + 1].opposite == h
    && r[h].next == hes[he1].next && r[h + 1].next == (if he1 == he2 then h else hes[he2].next)
  }

  /** What the rest of the model needs to know about a finished split: the lists, the fields of every
      halfedge, and the re-linking. */
  ghost predicate SplitFacts<VT, FT>(a: Arena<VT, FT>, b: Arena<VT, FT>, he1: nat, he2: nat, vt: VT, moved: seq<nat>)
    requires Fit(a) && he1 < |a.hes| && he2 < |a.hes|
  {
    && SplitRest(a, b, he1, vt, moved) && (he1 == he2 ==> moved == [])
    && Closed(b.hes) && |b.hes| == |a.hes| + 2
    && (forall x | 0 <= x < |a.hes| :: b.hes[x].edge == a.hes[x].edge && b.hes[x].face == a.hes[x].face)
    && (forall x | 0 <= x < |a.hes| :: b.hes[x].target == (if x in moved then |a.vs| else a.hes[x].target))
    && b.hes[|a.hes|].edge == |a.es| && b.hes[|a.hes| + 1].edge == |a.es|
    && b.hes[|a.hes|].face == a.hes[he1].face && b.hes[|a.hes| + 1].face == a.hes[he2].face
    && b.hes[|a.hes|].target == a.hes[he1].target && b.hes[|a.hes| + 1].target == |a.vs|
    && Relinked(a.hes, b.hes, he1, he2)
  }

  /** The result of the corrected split, written out. */
  ghost predicate SplitDone<VT, FT>(a: Arena<VT, FT>, b: Arena<VT, FT>, he1: nat, he2: nat, vt: VT, moved: seq<nat>)
    requires Fit(a) && he1 < |a.hes| && he2 < |a.hes|
  {
    && SplitRest(a, b, he1, vt, moved)
    && (he1 == he2 ==> moved == [] && IsInFace(a.hes, b.hes, he1, |a.vs|, |a.es|, a.hes[he1].face))
    && (he1 != he2 ==> IsApart(a.hes, b.hes, he1, he2, moved, |a.vs|, |a.es|, a.hes[he1].face, a.hes[he2].face))
  }

  lemma SplitDoneClosed<VT, FT>(a: Arena<VT, FT>, b: Arena<VT, FT>, he1: nat, he2: nat, vt: VT, moved: seq<nat>)
    requires Fit(a) && he1 < |a.hes| && he2 < |a.hes| && SplitDone(a, b, he1, he2, vt, moved)
    ensures SplitFacts(a, b, he1, he2, vt, moved)
  {
    if he1 == he2 {
      InFaceClosed(a.hes, b.hes, he1, |a.vs|, |a.es|, a.hes[he1].face);
    } else {
      ApartClosed(a.hes, b.hes, he1, he2, moved, |a.vs|, |a.es|, a.hes[he1].face, a.hes[he2].face);
    }
  }

  lemma SplitFits<VT, FT>(a: Arena<VT, FT>, b: Arena<VT, FT>, he1: nat, he2: nat, vt: VT, moved: seq<nat>)
    requires Fit(a) && he1 < |a.hes| && he2 < |a.hes| && SplitFacts(a, b, he1, he2, vt, moved)
    ensures Fit(b)
  {
    var h, e, v2 := |a.hes|, |a.es|, a.hes[he1].target;
    assert EdgesClosed(b.hes, b.es) by {
      forall x | 0 <= x < |b.es| ensures b.es[x].half1 < |b.hes| {
        if x < e { assert b.es[x] == a.es[x]; }
      }
    }
    assert FacesClosed(b.hes, b.fs);
    assert VerticesClosed(b.hes, b.vs) by {
      forall v | 0 <= v < |b.vs| && b.vs[v].outgoing.Some? ensures b.vs[v].outgoing.value < |b.hes| {
        if v < |a.vs| && v != v2 { assert b.vs[v] == a.vs[v]; }
      }
    }
    DistinctConcat(a.halfedges, [h, h + 1]);
    DistinctConcat(a.vertices, [|a.vs|]);
    DistinctConcat(a.edges, [e]);
  }

  /** The corrected split keeps a wired mesh wired. */
  lemma SplitDoneWired<VT, FT>(a: Arena<VT, FT>, b: Arena<VT, FT>, he1: nat, he2: nat, vt: VT, moved: seq<nat>)
    requires Fit(a) && Wired(a.hes, a.halfedges) && he1 in a.halfedges && he2 in a.halfedges
    requires a.hes[he1].target == a.hes[he2].target && (he1 != he2 ==> Fan(a.hes, a.halfedges, he1, he2, moved))
    requires SplitDone(a, b, he1, he2, vt, moved)
    ensures Wired(b.hes, b.halfedges)
  {
    assert b.halfedges == a.halfedges + [|a.hes|, |a.hes| + 1];
    if he1 == he2 {
      InFaceWired(a.hes, b.hes, a.halfedges, he1, |a.vs|, |a.es|, a.hes[he1].face);
    } else {
      ApartWired(a.hes, b.hes, a.halfedges, he1, he2, moved, |a.vs|, |a.es|, a.hes[he1].face, a.hes[he2].face);
    }
  }

  /** The new halves border the faces of `he1` and `he2`, so every ring still has one face. */
  lemma SplitFaced<VT, FT>(a: Arena<VT, FT>, b: Arena<VT, FT>, he1: nat, he2: nat, vt: VT, moved: seq<nat>)
    requires Fit(a) && he1 < |a.hes| && he2 < |a.hes| && he1 in a.halfedges && he2 in a.halfedges
    requires SplitFacts(a, b, he1, he2, vt, moved) && RingsFaced(a.hes, a.halfedges)
    ensures Closed(b.hes) && RingsFaced(b.hes, b.halfedges)
  {
    SplitCarries(a, b, he1, he2, vt, moved);
    RelinkedFaced(a.hes, b.hes, a.halfedges, b.halfedges, he1, he2);
  }

  /** What `RelinkedFaced` needs of the corrected split. */
  lemma SplitCarries<VT, FT>(a: Arena<VT, FT>, b: Arena<VT, FT>, he1: nat, he2: nat, vt: VT, moved: seq<nat>)
    requires Fit(a) && he1 < |a.hes| && he2 < |a.hes| && SplitFacts(a, b, he1, he2, vt, moved)
    ensures Closed(b.hes) && Relinked(a.hes, b.hes, he1, he2)
    ensures forall x | 0 <= x < |a.hes| :: b.hes[x].face == a.hes[x].face
    ensures b.hes[|a.hes|].face == a.hes[he1].face && b.hes[|a.hes| + 1].face == a.hes[he2].face
    ensures b.halfedges == a.halfedges + [|a.hes|, |a.hes| + 1]
  {
  }

  lemma RelinkedFaced(hes: seq<Halfedge>, r: seq<Halfedge>, live: seq<nat>, live': seq<nat>, he1: nat, he2: nat)
    requires Closed(hes) && Closed(r) && he1 < |hes| && he2 < |hes| && he1 in live && he2 in live
    requires Relinked(hes, r, he1, he2)
    requires forall x | 0 <= x < |hes| :: r[x].face == hes[x].face
    requires r[|hes|].face == hes[he1].face && r[|hes| + 1].face == hes[he2].face
    requires RingsFaced(hes, live) && live' == live + [|hes|, |hes| + 1]
    ensures RingsFaced(r, live')
  {
    var h := |hes|;
    forall x | x in live' && x < |r| ensures r[r[x].next].face == r[x].face {
      if x < h {
        assert x in live && hes[hes[x].next].face == hes[x].face;
        assert r[x].next == (if x == he1 && he1 != he2 then h else if x == he2 then h + 1 else hes[x].next);
      } else if x == h {
        assert hes[hes[he1].next].face == hes[he1].face;
      } else {
        assert hes[hes[he2].next].face == hes[he2].face;
      }
    }
  }

  /** Every vertex whose `Outgoing` left it still has one that does, and so has the new vertex. */
  lemma SplitAnchors<VT, FT>(a: Arena<VT, FT>, b: Arena<VT, FT>, he1: nat, he2: nat, vt: VT, moved: seq<nat>)
    requires Fit(a) && Wired(a.hes, a.halfedges) && he1 in a.halfedges && he2 in a.halfedges
    requires a.hes[he1].target == a.hes[he2].target && (he1 != he2 ==> Fan(a.hes, a.halfedges, he1, he2, moved))
    requires SplitFacts(a, b, he1, he2, vt, moved)
    ensures Fit(b)
    ensures Anchored(b.hes, b.halfedges, b.vs, |a.vs|) && b.vs[|a.vs|].outgoing == Some(|a.hes|)
    ensures forall w | 0 <= w < |a.vs| && Anchored(a.hes, a.halfedges, a.vs, w) :: Anchored(b.hes, b.halfedges, b.vs, w)
  {
    var h, v2 := |a.hes|, a.hes[he1].target;
    var out := a.vs[v2].outgoing;
    var rerooted := out.Some? && a.hes[out.value].opposite in moved;
    assert b.vs == (if rerooted then a.vs[v2 := a.vs[v2].(outgoing := Some(h + 1))] else a.vs) + [Vertex(Some(h), vt)];
    assert b.halfedges == a.halfedges + [h, h + 1];
    SplitFits(a, b, he1, he2, vt, moved);
    AnchorsKept(a.hes, b.hes, a.halfedges, a.vs, b.vs, moved, v2, |a.vs|, rerooted, vt);
  }

  lemma AnchorsKept<VT>(hes: seq<Halfedge>, r: seq<Halfedge>, live: seq<nat>, vs: seq<Vertex<VT>>, ws: seq<Vertex<VT>>,
                        moved: seq<nat>, v2: nat, v1: nat, rerooted: bool, vt: VT)
    requires Closed(hes) && Closed(r) && VerticesClosed(hes, vs) && VerticesClosed(r, ws) && Wired(hes, live)
    requires |r| == |hes| + 2 && v1 == |vs| && v2 < |vs|
    requires forall x | 0 <= x < |hes| :: r[x].opposite == hes[x].opposite
    requires forall x | 0 <= x < |hes| :: r[x].target == (if x in moved then v1 else hes[x].target)
    requires forall x | x in moved :: x < |hes| && hes[x].target == v2
    requires r[|hes|].target == v2 && r[|hes|].opposite == |hes| + 1
    requires r[|hes| + 1].target == v1 && r[|hes| + 1].opposite == |hes|
    requires rerooted == (vs[v2].outgoing.Some? && hes[vs[v2].outgoing.value].opposite in moved)
    requires ws == (if rerooted then vs[v2 := vs[v2].(outgoing := Some(|hes| + 1))] else vs) + [Vertex(Some(|hes|), vt)]
    ensures Anchored(r, live + [|hes|, |hes| + 1], ws, v1) && ws[v1].outgoing == Some(|hes|)
    ensures forall w | 0 <= w < |vs| && Anchored(hes, live, vs, w) :: Anchored(r, live + [|hes|, |hes| + 1], ws, w)
  {
    forall w | 0 <= w < |vs| && Anchored(hes, live, vs, w) ensures Anchored(r, live + [|hes|, |hes| + 1], ws, w) {
      AnchorKept(hes, r, live, vs, ws, moved, v2, v1, w, rerooted);
    }
  }

  lemma AnchorKept<VT>(hes: seq<Halfedge>, r: seq<Halfedge>, live: seq<nat>, vs: seq<Vertex<VT>>, ws: seq<Vertex<VT>>,
                       moved: seq<nat>, v2: nat, v1: nat, w: nat, rerooted: bool)
    requires Closed(hes) && Closed(r) && VerticesClosed(hes, vs) && VerticesClosed(r, ws) && Wired(hes, live)
    requires |r| == |hes| + 2 && v1 == |vs| && v2 < |vs| && w < |vs| && |ws| == |vs| + 1
    requires forall x | 0 <= x < |hes| :: r[x].opposite == hes[x].opposite
    requires forall x | 0 <= x < |hes| :: r[x].target == (if x in moved then v1 else hes[x].target)
    requires forall x | x in moved :: x < |hes| && hes[x].target == v2
    requires r[|hes|].target == v2 && r[|hes| + 1].opposite == |hes|
    requires rerooted == (vs[v2].outgoing.Some? && hes[vs[v2].outgoing.value].opposite in moved)
    requires ws == (if rerooted then vs[v2 := vs[v2].(outgoing := Some(|hes| + 1))] else vs) + [ws[|vs|]]
    requires Anchored(hes, live, vs, w)
    ensures Anchored(r, live + [|hes|, |hes| + 1], ws, w)
  {
    var o := vs[w].outgoing.value;
    assert WiredAt(hes, live, o);
    var p := hes[o].opposite;
    if p in moved {
      assert w == v2;
      assert ws[w].outgoing == Some(|hes| + 1);
    } else {
      assert ws[w] == vs[w];
    }
  }

  /** Where the corrected split applies, it applies `Split` to the arc after `he2` up to `he1`. */
  lemma SplitVertexCheckedSplits<VT, FT>(a: Arena<VT, FT>, he1: nat, he2: nat, vt: VT, fan: seq<nat>)
    requires Fit(a) && he1 < |a.hes| && he2 < |a.hes| && a.hes[he1].target == a.hes[he2].target
    requires he1 != he2 || a.hes[he1].face.Some?
    requires Orbit(a.hes, AroundTarget, he2) == Some(fan) && he1 in fan
    ensures SplitVertexChecked(a, he1, he2, vt) == Ok((Split(a, he1, he2, vt, fan[1..Circulation.IndexOf(fan, he1) + 1]), |a.hes|))
  {
  }

  /** The arc the corrected split moves: empty when `he1` is `he2`, otherwise a `Fan`. */
  lemma CheckedArc(hes: seq<Halfedge>, live: seq<nat>, he1: nat, he2: nat, fan: seq<nat>)
    requires Wired(hes, live) && he1 in live && he2 in live
    requires Orbit(hes, AroundTarget, he2) == Some(fan) && he1 in fan
    ensures var moved := fan[1..Circulation.IndexOf(fan, he1) + 1];
      && (he1 == he2 ==> moved == []) && (he1 != he2 ==> Fan(hes, live, he1, he2, moved))
      && (forall y | y in moved :: y < |hes|)
  {
    if he1 == he2 {
      OrbitSteps(hes, AroundTarget, he2);
    } else {
      FanOfOrbit(hes, live, he1, he2);
    }
  }

  /** What the corrected split promises about its result `b`: the facts of `SplitFacts`, a wired mesh,
      an anchored new vertex, every anchored vertex still anchored, and faces consistent around each
      ring whenever they were before. */
  ghost predicate SplitSound<VT, FT>(a: Arena<VT, FT>, b: Arena<VT, FT>, he1: nat, he2: nat, vt: VT, moved: seq<nat>)
    requires Fit(a) && he1 < |a.hes| && he2 < |a.hes|
  {
    && SplitFacts(a, b, he1, he2, vt, moved) && Fit(b) && Wired(b.hes, b.halfedges)
    && Anchored(b.hes, b.halfedges, b.vs, |a.vs|)
    && (forall w | 0 <= w < |a.vs| && Anchored(a.hes, a.halfedges, a.vs, w) :: Anchored(b.hes, b.halfedges, b.vs, w))
    && (RingsFaced(a.hes, a.halfedges) ==> RingsFaced(b.hes, b.halfedges))
  }

  /** `Split` of a wired mesh along an arc of the fan leaves a wired mesh: the arc arrives at the new
      vertex, everything else keeps its target, every vertex that reached its `Outgoing` still does,
      the new vertex does too, and faces stay consistent around each ring. */
  lemma SplitWired<VT, FT>(a: Arena<VT, FT>, he1: nat, he2: nat, vt: VT, moved: seq<nat>)
    requires Fit(a) && Wired(a.hes, a.halfedges) && he1 in a.halfedges && he2 in a.halfedges
    requires he1 < |a.hes| && he2 < |a.hes| && a.hes[he1].target == a.hes[he2].target
    requires he1 == he2 ==> moved == []
    requires he1 != he2 ==> Fan(a.hes, a.halfedges, he1, he2, moved)
    ensures SplitSound(a, Split(a, he1, he2, vt, moved), he1, he2, vt, moved)
  {
    var b := Split(a, he1, he2, vt, moved);
    SplitShape(a, he1, he2, vt, moved);
    SplitDoneClosed(a, b, he1, he2, vt, moved);
    SplitDoneWired(a, b, he1, he2, vt, moved);
    SplitAnchors(a, b, he1, he2, vt, moved);
    if RingsFaced(a.hes, a.halfedges) {
      SplitFaced(a, b, he1, he2, vt, moved);
    }
  }

  // The as-written split: the moved range is read after re-linking

  /** Once `he1` and `he2` are re-linked, the walk around the target from `he1` stays in the arc after
      `he2` up to `he1` and the new halfedge into `v1`: it never comes to `he2`. */
  lemma SprungArcClosed(hes: seq<Halfedge>, r: seq<Halfedge>, live: seq<nat>, he1: nat, he2: nat, moved: seq<nat>, v1: nat, e: nat)
    requires Wired(hes, live) && he1 < |hes| && he2 < |hes| && he1 != he2 && Closed(r)
    requires Fan(hes, live, he1, he2, moved)
    requires IsApart(hes, r, he1, he2, [], v1, e, None, None)
    ensures forall y | y in moved + [|hes| + 1] :: y < |r| && Advance(r, AroundTarget, y) in moved + [|hes| + 1]
    ensures he2 !in moved + [|hes| + 1]
  {
    var h := |hes|;
    forall y | y in moved + [h + 1] ensures y < |r| && Advance(r, AroundTarget, y) in moved + [h + 1] {
      if y == h + 1 {
        var n2 := hes[he2].next;
        assert r[n2].opposite == hes[n2].opposite;
        assert NextAtTarget(hes, he2) in moved;
      } else if y == he1 {
        assert r[he1].next == h;
      } else {
        assert y in moved && y < h;
        var n := hes[y].next;
        assert r[y].next == n;
        assert r[n].opposite == hes[n].opposite;
        assert NextAtTarget(hes, y) in moved;
      }
    }
  }

  /** After the re-linking, no walk around the target reaches both `he1` and `he2`. */
  lemma ApartWalkMissesOne(hes: seq<Halfedge>, r: seq<Halfedge>, live: seq<nat>, he1: nat, he2: nat, fan: seq<nat>,
                           v1: nat, e: nat, start: nat)
    requires Wired(hes, live) && he1 in live && he2 in live && he1 != he2 && Closed(r) && start < |r|
    requires Orbit(hes, AroundTarget, he2) == Some(fan) && he1 in fan
    requires IsApart(hes, r, he1, he2, [], v1, e, None, None)
    requires Orbit(r, AroundTarget, start).Some?
    ensures !(he1 in Orbit(r, AroundTarget, start).value && he2 in Orbit(r, AroundTarget, start).value)
  {
    var items := Orbit(r, AroundTarget, start).value;
    if he1 in items {
      var moved := fan[1..Circulation.IndexOf(fan, he1) + 1];
      CheckedArc(hes, live, he1, he2, fan);
      SprungArcClosed(hes, r, live, he1, he2, moved, v1, e);
      OrbitIsCycle(r, AroundTarget, start);
      CycleStays(r, AroundTarget, start, items, he1, moved + [|hes| + 1]);
    }
  }

  /** The as-written split of two distinct halfedges of one fan never returns: the walk it reads the
      range from reaches only one of `he1` and `he2`, so the enumeration from `he1` to `he2` does not end. */
  lemma SplitVertexDiverges<VT, FT>(a: Arena<VT, FT>, he1: nat, he2: nat, vt: VT, fan: seq<nat>)
    requires Fit(a) && Wired(a.hes, a.halfedges) && he1 in a.halfedges && he2 in a.halfedges && he1 != he2
    requires he1 < |a.hes| && he2 < |a.hes| && a.hes[he1].target == a.hes[he2].target
    requires Orbit(a.hes, AroundTarget, he2) == Some(fan) && he1 in fan
    ensures SplitVertex(a, he1, he2, vt) == Err(if a.vs[a.hes[he1].target].outgoing.None? then NullReference else Diverges)
  {
    var c := Sprung(a, he1, he2, vt);
    var v2 := a.hes[he1].target;
    SprungShape(a, he1, he2, vt);
    assert c.vs[v2] == a.vs[v2];
    if a.vs[v2].outgoing.Some? {
      var start := c.hes[a.vs[v2].outgoing.value].opposite;
      SprungStuck(a.hes, c.hes, a.halfedges, he1, he2, fan, |a.vs|, |a.es|, start);
    }
  }

  /** After the as-written re-linking of two distinct halfedges of one fan, the walk around the
      target from `he1` stays among the halfedges the fan led to before and never reaches `he2`. */
  lemma SprungStuck(hes: seq<Halfedge>, r: seq<Halfedge>, live: seq<nat>, he1: nat, he2: nat, fan: seq<nat>,
                    v1: nat, e: nat, start: nat)
    requires Wired(hes, live) && he1 in live && he2 in live && he1 != he2 && Closed(r)
    requires he1 < |hes| && he2 < |hes| && start < |r| && |hes| <= |r|
    requires Orbit(hes, AroundTarget, he2) == Some(fan) && he1 in fan
    requires IsApart(hes, r, he1, he2, [], v1, e, None, None)
    ensures MovedIncomings(r, start, he1, he2).None?
  {
    var moved := fan[1..Circulation.IndexOf(fan, he1) + 1];
    CheckedArc(hes, live, he1, he2, fan);
    SprungArcClosed(hes, r, live, he1, he2, moved, v1, e);
    assert he1 in moved + [|hes| + 1];
    MovedIncomingsStuck(r, start, he1, he2, moved + [|hes| + 1]);
  }

  /** Away from `he`, the walk around the target steps as it did before the split inside a face. */
  lemma InFaceAdvance(hes: seq<Halfedge>, r: seq<Halfedge>, he: nat, v1: nat, e: nat, f: Option<nat>)
    requires Closed(hes) && Closed(r) && he < |hes| && IsInFace(hes, r, he, v1, e, f)
    ensures forall y | 0 <= y < |hes| && y != he :: Advance(r, AroundTarget, y) == Advance(hes, AroundTarget, y)
  {
    forall y | 0 <= y < |hes| && y != he ensures Advance(r, AroundTarget, y) == Advance(hes, AroundTarget, y) {
      var n := hes[y].next;
      assert r[y].next == n && r[n].opposite == hes[n].opposite;
    }
  }

  /** After the split inside a face, the walk around the target from any incoming halfedge of the fan
      of `he` still comes to `he`. */
  lemma InFaceWalkReaches(hes: seq<Halfedge>, r: seq<Halfedge>, live: seq<nat>, he: nat, ins: seq<nat>,
                          v1: nat, e: nat, start: nat)
    requires InFaceReady(hes, live, he, v1) && IsInFace(hes, r, he, v1, e, None) && Closed(r)
    requires start in live && Orbit(hes, AroundTarget, start) == Some(ins) && he in ins
    ensures Orbit(r, AroundTarget, start).Some? && he in Orbit(r, AroundTarget, start).value
  {
    InFaceWired(hes, r, live, he, v1, e, None);
    WalkReturns(r, live + [|hes|, |hes| + 1], AroundTarget, start);
    OrbitIsCycle(hes, AroundTarget, start);
    var i := Circulation.IndexOf(ins, he);
    InFaceAdvance(hes, r, he, v1, e, None);
    assert forall j | 0 <= j < i :: Iterate(hes, AroundTarget, start, j) != he by {
      forall j | 0 <= j < i ensures Iterate(hes, AroundTarget, start, j) != he {
        assert ins[j] == Iterate(hes, AroundTarget, start, j);
      }
    }
    IterateAgrees(hes, r, AroundTarget, start, he, i);
    var items := Orbit(r, AroundTarget, start).value;
    OrbitIsCycle(r, AroundTarget, start);
    CycleAdvances(r, AroundTarget, start, items);
    IterateStays(r, AroundTarget, start, items, i);
  }

  /** The as-written split of one halfedge inside a face returns, but leaves the two new halfedges
      without a face although they lie inside the face of `he`. */
  lemma SplitVertexFaceless<VT, FT>(a: Arena<VT, FT>, he: nat, vt: VT, ins: seq<nat>)
    requires Fit(a) && Wired(a.hes, a.halfedges) && he in a.halfedges && he < |a.hes| && a.hes[he].face.Some?
    requires Anchored(a.hes, a.halfedges, a.vs, a.hes[he].target)
    requires Incomings(a.hes, a.vs, a.hes[he].target) == Some(ins) && he in ins
    ensures var r := SplitVertex(a, he, he, vt);
      && r.Ok? && r.value.1 == |a.hes| && Closed(r.value.0.hes)
      && r.value.0.hes[|a.hes|].face.None? && r.value.0.hes[|a.hes| + 1].face.None?
      && !RingsFaced(r.value.0.hes, r.value.0.halfedges)
  {
    var c := Sprung(a, he, he, vt);
    var h, v2 := |a.hes|, a.hes[he].target;
    SprungShape(a, he, he, vt);
    assert c.vs[v2] == a.vs[v2];
    var out := a.vs[v2].outgoing.value;
    assert WiredAt(a.hes, a.halfedges, out);
    var start := c.hes[out].opposite;
    assert start == a.hes[out].opposite;
    InFaceClosed(a.hes, c.hes, he, |a.vs|, |a.es|, None);
    InFaceWalkReaches(a.hes, c.hes, a.halfedges, he, ins, |a.vs|, |a.es|, start);
    var items := Orbit(c.hes, AroundTarget, start).value;
    var b := c.(hes := Retargeted(c.hes, Circulation.Circulate(items, he, he), |a.vs|));
    assert SplitVertex(a, he, he, vt) == Ok((b, h));
    assert b.hes[he].next == h + 1 && b.hes[h + 1].face.None?;
    assert he in b.halfedges;
  }
}
