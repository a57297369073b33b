/** Vertex records (Vertex.cs) and the walks around a vertex. */
module Vertices {
  import opened Wrappers
  import opened Halfedges
  import opened Edges
  import opened Faces

  /** `outgoing` is `None` only for a vertex under construction. */
  datatype Vertex<VT> = Vertex(outgoing: Option<nat>, traits: VT)

  ghost predicate VerticesClosed<VT>(hes: seq<Halfedge>, vs: seq<Vertex<VT>>)
  {
    && (forall h | 0 <= h < |hes| :: hes[h].target < |vs|)
    && (forall v | 0 <= v < |vs| :: vs[v].outgoing.Some? ==> vs[v].outgoing.value < |hes|)
  }

  /** `Vertex.Incomings` (Vertex.cs:39-51): from `Outgoing.Opposite`, step by `NextAtTarget`. */
  function Incomings<VT>(hes: seq<Halfedge>, vs: seq<Vertex<VT>>, v: nat): Option<seq<nat>>
    requires Closed(hes) && VerticesClosed(hes, vs) && v < |vs| && vs[v].outgoing.Some?
  {
    Orbit(hes, AroundTarget, hes[vs[v].outgoing.value].opposite)
  }

  /** `Vertex.Neighbors` (Vertex.cs:26-37): targets of the walk from `Outgoing` by `NextAtSource`. */
  function Neighbors<VT>(hes: seq<Halfedge>, vs: seq<Vertex<VT>>, v: nat): Option<seq<nat>>
    requires Closed(hes) && VerticesClosed(hes, vs) && v < |vs| && vs[v].outgoing.Some?
  {
    var out := vs[v].outgoing.value;
    match Orbit(hes, AroundSource, out)
    case None => None
    case Some(o) =>
      OrbitIsCycle(hes, AroundSource, out);
      Some(Targets(hes, o))
  }

  lemma {:induction false} TargetsAppend(hes: seq<Halfedge>, s: seq<nat>, h: nat)
    requires (forall i | 0 <= i < |s| :: s[i] < |hes|) && h < |hes|
    ensures Targets(hes, s + [h]) == Targets(hes, s) + [hes[h].target]
  {
    if s != [] {
      assert (s + [h])[1..] == s[1..] + [h];
      TargetsAppend(hes, s[1..], h);
    }
  }

  /** The do-while loop of `Vertex.Neighbors`. */
  method NeighborsOf<VT>(hes: seq<Halfedge>, vs: seq<Vertex<VT>>, v: nat) returns (r: seq<nat>)
    requires Closed(hes) && VerticesClosed(hes, vs) && v < |vs| && vs[v].outgoing.Some?
    requires Orbit(hes, AroundSource, vs[v].outgoing.value).Some?
    ensures Neighbors(hes, vs, v) == Some(r)
  {
    var out := vs[v].outgoing.value;
    r := [];
    var current: nat := out;
    ghost var walked: seq<nat> := [];
    ghost var fuel: nat := |hes|;
    ghost var rest := Orbit(hes, AroundSource, out).value;
    assert walked + rest == rest;
    while true
      invariant current < |hes|
      invariant Trace(hes, AroundSource, out, current, fuel) == Some(rest)
      invariant Orbit(hes, AroundSource, out) == Some(walked + rest)
      invariant forall i | 0 <= i < |walked| :: walked[i] < |hes|
      invariant r == Targets(hes, walked)
      decreases fuel
    {
      var nxt := NextAtSource(hes, current);
      TargetsAppend(hes, walked, current);
      if nxt == out {
        assert rest == [current];
        r := r + [hes[current].target];
        walked := walked + [current];
        break;
      }
      ghost var tail := Trace(hes, AroundSource, out, nxt, fuel - 1).value;
      assert rest == [current] + tail;
      assert walked + rest == (walked + [current]) + tail;
      r := r + [hes[current].target];
      walked := walked + [current];
      current := nxt;
      fuel := fuel - 1;
      rest := tail;
    }
  }

  /** Walking around the target keeps the target. */
  lemma {:induction false} AroundTargetKeepsTarget(hes: seq<Halfedge>, live: seq<nat>, h: nat, k: nat)
    requires Wired(hes, live) && h in live
    ensures Iterate(hes, AroundTarget, h, k) in live
    ensures hes[Iterate(hes, AroundTarget, h, k)].target == hes[h].target
  {
    if k > 0 {
      AroundTargetKeepsTarget(hes, live, h, k - 1);
      AtTarget(hes, live, Iterate(hes, AroundTarget, h, k - 1));
    }
  }

  /** Walking around the source keeps the source. */
  lemma {:induction false} AroundSourceKeepsSource(hes: seq<Halfedge>, live: seq<nat>, h: nat, k: nat)
    requires Wired(hes, live) && h in live
    ensures Iterate(hes, AroundSource, h, k) in live
    ensures Source(hes, Iterate(hes, AroundSource, h, k)) == Source(hes, h)
  {
    if k > 0 {
      AroundSourceKeepsSource(hes, live, h, k - 1);
      AtSource(hes, live, Iterate(hes, AroundSource, h, k - 1));
    }
  }

  /** The outgoing pointer of a vertex leaves it from a live halfedge. */
  ghost predicate Anchored<VT>(hes: seq<Halfedge>, live: seq<nat>, vs: seq<Vertex<VT>>, v: nat)
    requires Closed(hes) && VerticesClosed(hes, vs) && v < |vs|
  {
    vs[v].outgoing.Some? && vs[v].outgoing.value in live && Source(hes, vs[v].outgoing.value) == v
  }

  /** In a wired mesh `Incomings` of an anchored vertex ends, starts at `Outgoing.Opposite`
      and yields only live halfedges arriving at the vertex. */
  lemma IncomingsArrive<VT>(hes: seq<Halfedge>, live: seq<nat>, vs: seq<Vertex<VT>>, v: nat)
    requires Wired(hes, live) && VerticesClosed(hes, vs) && v < |vs| && Anchored(hes, live, vs, v)
    ensures Incomings(hes, vs, v).Some?
    ensures var ins := Incomings(hes, vs, v).value;
      && ins[0] == hes[vs[v].outgoing.value].opposite
      && (forall i | 0 <= i < |ins| :: ins[i] in live && ins[i] < |hes| && hes[ins[i]].target == v)
  {
    var out := vs[v].outgoing.value;
    assert WiredAt(hes, live, out);
    var start := hes[out].opposite;
    WalkReturns(hes, live, AroundTarget, start);
    OrbitIsCycle(hes, AroundTarget, start);
    var ins := Incomings(hes, vs, v).value;
    forall i | 0 <= i < |ins| ensures ins[i] in live && hes[ins[i]].target == v {
      AroundTargetKeepsTarget(hes, live, start, i);
    }
  }

  /** In a wired mesh every neighbour of an anchored vertex is the target of a live halfedge
      leaving the vertex; the first is the target of `Outgoing`. */
  lemma NeighborsAreAdjacent<VT>(hes: seq<Halfedge>, live: seq<nat>, vs: seq<Vertex<VT>>, v: nat)
    requires Wired(hes, live) && VerticesClosed(hes, vs) && v < |vs| && Anchored(hes, live, vs, v)
    ensures Neighbors(hes, vs, v).Some?
    ensures var ns := Neighbors(hes, vs, v).value;
      && ns[0] == hes[vs[v].outgoing.value].target
      && forall i | 0 <= i < |ns| :: exists h | h in live :: Source(hes, h) == v && hes[h].target == ns[i]
  {
    var out := vs[v].outgoing.value;
    WalkReturns(hes, live, AroundSource, out);
    OrbitIsCycle(hes, AroundSource, out);
    var o := Orbit(hes, AroundSource, out).value;
    var ns := Neighbors(hes, vs, v).value;
    assert ns == Targets(hes, o);
    TargetsAt(hes, o, 0);
    forall i | 0 <= i < |ns| ensures exists h | h in live :: Source(hes, h) == v && hes[h].target == ns[i] {
      TargetsAt(hes, o, i);
      AroundSourceKeepsSource(hes, live, out, i);
      assert o[i] in live && Source(hes, o[i]) == v && hes[o[i]].target == ns[i];
    }
  }

  /** `Vertex.IsBoundary` (Vertex.cs:53-59): some incoming halfedge lies on a boundary edge. */
  predicate VertexIsBoundary(hes: seq<Halfedge>, es: seq<Edge>, ins: seq<nat>)
    requires Closed(hes) && EdgesClosed(hes, es) && forall i | i in ins :: i < |hes|
  {
    exists i | i in ins :: EdgeIsBoundary(hes, es, hes[i].edge)
  }

  /** How many of `ins` lie on boundary edges (`Incomings.Count(he => he.Edge.IsBoundary)`). */
  function CountOnBoundary(hes: seq<Halfedge>, es: seq<Edge>, ins: seq<nat>): (n: nat)
    requires Closed(hes) && EdgesClosed(hes, es) && forall i | i in ins :: i < |hes|
    ensures n <= |ins|
    ensures n == 0 <==> !VertexIsBoundary(hes, es, ins)
  {
    if ins == [] then 0
    else
      assert ins[0] in ins;
      assert forall i | i in ins[1..] :: i in ins;
      assert forall i | i in ins :: i == ins[0] || i in ins[1..];
      (if EdgeIsBoundary(hes, es, hes[ins[0]].edge) then 1 else 0) + CountOnBoundary(hes, es, ins[1..])
  }

  /** `Enumerable.FirstOrDefault(inHe => inHe.Source == v)`. */
  function FirstFrom(hes: seq<Halfedge>, ins: seq<nat>, v: nat): (r: Option<nat>)
    requires Closed(hes) && forall i | 0 <= i < |ins| :: ins[i] < |hes|
    ensures r.None? <==> forall i | 0 <= i < |ins| :: Source(hes, ins[i]) != v
    ensures r.Some? ==> exists k | 0 <= k < |ins| ::
      (ins[k] == r.value && Source(hes, r.value) == v && forall j | 0 <= j < k :: Source(hes, ins[j]) != v)
  {
    if ins == [] then None
    else if Source(hes, ins[0]) == v then Some(ins[0])
    else
      var r := FirstFrom(hes, ins[1..], v);
      assert r.Some? ==> exists k | 0 <= k < |ins[1..]| ::
        (ins[1..][k] == r.value && forall j | 0 <= j < k :: Source(hes, ins[1..][j]) != v);
      assert forall i | 1 <= i < |ins| :: ins[i] == ins[1..][i - 1];
      r
  }

  /** `Vertex.HalfedgeTo(w)` (Vertex.cs:62-69) called on vertex `v`: the first incoming halfedge
      of `w` that starts at `v`. */
  function HalfedgeTo<VT>(hes: seq<Halfedge>, vs: seq<Vertex<VT>>, v: nat, w: nat): (r: Option<nat>)
    requires Closed(hes) && VerticesClosed(hes, vs) && w < |vs| && vs[w].outgoing.Some?
    requires Incomings(hes, vs, w).Some?
    ensures r.Some? ==> r.value in Incomings(hes, vs, w).value && r.value < |hes| && Source(hes, r.value) == v
    ensures r.Some? ==> exists k | 0 <= k < |Incomings(hes, vs, w).value| ::
      (Incomings(hes, vs, w).value[k] == r.value &&
       forall j | 0 <= j < k ::
         Incomings(hes, vs, w).value[j] < |hes| && Source(hes, Incomings(hes, vs, w).value[j]) != v)
    ensures r.None? <==> forall h | h in Incomings(hes, vs, w).value :: h < |hes| && Source(hes, h) != v
  {
    var ins := Incomings(hes, vs, w).value;
    OrbitIsCycle(hes, AroundTarget, hes[vs[w].outgoing.value].opposite);
    FirstFrom(hes, ins, v)
  }

  /** In a wired mesh `HalfedgeTo` finds a live halfedge running from `v` to `w`, and `None`
      exactly when no incoming halfedge of `w` starts at `v`. */
  lemma HalfedgeToRunsBetween<VT>(hes: seq<Halfedge>, live: seq<nat>, vs: seq<Vertex<VT>>, v: nat, w: nat)
    requires Wired(hes, live) && VerticesClosed(hes, vs) && w < |vs| && Anchored(hes, live, vs, w)
    ensures Incomings(hes, vs, w).Some?
    ensures forall h | h in Incomings(hes, vs, w).value :: h < |hes|
    ensures var r := HalfedgeTo(hes, vs, v, w);
      && (r.Some? ==> r.value in live && Source(hes, r.value) == v && hes[r.value].target == w)
      && (r.None? <==> forall h | h in Incomings(hes, vs, w).value :: Source(hes, h) != v)
  {
    IncomingsArrive(hes, live, vs, w);
    var ins := Incomings(hes, vs, w).value;
    OrbitIsCycle(hes, AroundTarget, hes[vs[w].outgoing.value].opposite);
    var r := HalfedgeTo(hes, vs, v, w);
    assert forall h | h in ins :: exists i | 0 <= i < |ins| :: ins[i] == h;
  }

  /**
   * `Vertex.AssertValid` (Vertex.cs:72-84): `Outgoing` is set and leaves the vertex; the walk
   * of `Incomings` ends; and on a boundary vertex `Outgoing` is a boundary halfedge and at most
   * two incoming halfedges lie on boundary edges.
   */
  ghost predicate VertexValid<VT>(hes: seq<Halfedge>, es: seq<Edge>, vs: seq<Vertex<VT>>, v: nat)
    requires Closed(hes) && EdgesClosed(hes, es) && VerticesClosed(hes, vs) && v < |vs|
  {
    && vs[v].outgoing.Some?
    && Source(hes, vs[v].outgoing.value) == v
    && Incomings(hes, vs, v).Some?
    && var ins := Incomings(hes, vs, v).value;
       OrbitIsCycle(hes, AroundTarget, hes[vs[v].outgoing.value].opposite);
       VertexIsBoundary(hes, es, ins) ==>
         IsBoundary(hes, vs[v].outgoing.value) && CountOnBoundary(hes, es, ins) <= 2
  }
}
