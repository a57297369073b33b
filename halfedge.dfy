/**
 * Halfedge records (Halfedge.cs) and the cursor walks the other records are built on.
 * A mesh keeps its halfedges in an arena `hes`: the id of a halfedge is its index there,
 * and every pointer field holds such an id.
 */
module Halfedges {
  import opened Wrappers

  /** One directed arc. `face` is `None` on a boundary (no face to the left). */
  datatype Halfedge = Halfedge(target: nat, face: Option<nat>, opposite: nat, next: nat, previous: nat, edge: nat)

  /** The halfedge-to-halfedge pointers of the arena stay inside it. */
  ghost predicate Closed(hes: seq<Halfedge>)
  {
    forall h | 0 <= h < |hes| :: hes[h].opposite < |hes| && hes[h].next < |hes| && hes[h].previous < |hes|
  }

  // Derived relations (Halfedge.cs:44-52)

  function Source(hes: seq<Halfedge>, h: nat): nat
    requires Closed(hes) && h < |hes|
  {
    hes[hes[h].opposite].target
  }

  function PreviousAtSource(hes: seq<Halfedge>, h: nat): (r: nat)
    requires Closed(hes) && h < |hes|
    ensures r < |hes|
  {
    hes[hes[h].previous].opposite
  }

  function NextAtSource(hes: seq<Halfedge>, h: nat): (r: nat)
    requires Closed(hes) && h < |hes|
    ensures r < |hes|
  {
    hes[hes[h].opposite].next
  }

  function PreviousAtTarget(hes: seq<Halfedge>, h: nat): (r: nat)
    requires Closed(hes) && h < |hes|
    ensures r < |hes|
  {
    hes[hes[h].opposite].previous
  }

  function NextAtTarget(hes: seq<Halfedge>, h: nat): (r: nat)
    requires Closed(hes) && h < |hes|
    ensures r < |hes|
  {
    hes[hes[h].next].opposite
  }

  /** No face on the left. */
  predicate IsBoundary(hes: seq<Halfedge>, h: nat)
    requires h < |hes|
  {
    hes[h].face.None?
  }

  /**
   * The pointer invariant of one live halfedge: its opposite is a different live halfedge
   * pointing back, `next` and `previous` are live and inverse to each other, the pair
   * shares one edge, the arc is not a self-loop, and the next arc starts where this one ends.
   */
  ghost predicate WiredAt(hes: seq<Halfedge>, live: seq<nat>, h: nat)
    requires Closed(hes) && h < |hes|
  {
    var he := hes[h];
    && he.opposite in live && he.opposite != h && hes[he.opposite].opposite == h
    && he.next in live && hes[he.next].previous == h
    && he.previous in live && hes[he.previous].next == h
    && hes[he.opposite].edge == he.edge
    && Source(hes, h) != he.target
    && Source(hes, he.next) == he.target
  }

  /** Every live halfedge is in the arena and wired. */
  ghost predicate Wired(hes: seq<Halfedge>, live: seq<nat>)
  {
    && Closed(hes)
    && (forall h | h in live :: h < |hes|)
    && (forall h {:trigger WiredAt(hes, live, h)} | h in live :: WiredAt(hes, live, h))
  }

  /** Every live halfedge has the face of the halfedge before it: a ring is one face, or
      one boundary. */
  ghost predicate RingsFaced(hes: seq<Halfedge>, live: seq<nat>)
    requires Closed(hes)
  {
    forall x {:trigger x in live} | x in live && x < |hes| :: hes[hes[x].next].face == hes[x].face
  }

  /** In a wired mesh the derived pointers around the source stay at the source. */
  lemma AtSource(hes: seq<Halfedge>, live: seq<nat>, h: nat)
    requires Wired(hes, live) && h in live
    ensures NextAtSource(hes, h) in live && Source(hes, NextAtSource(hes, h)) == Source(hes, h)
    ensures PreviousAtSource(hes, h) in live && Source(hes, PreviousAtSource(hes, h)) == Source(hes, h)
    ensures NextAtSource(hes, PreviousAtSource(hes, h)) == h
  {
    assert WiredAt(hes, live, h);
    var o := hes[h].opposite;
    assert WiredAt(hes, live, o);
    var p := hes[h].previous;
    assert WiredAt(hes, live, p);
    assert WiredAt(hes, live, hes[p].opposite);
  }

  /** In a wired mesh the derived pointers around the target stay at the target. */
  lemma AtTarget(hes: seq<Halfedge>, live: seq<nat>, h: nat)
    requires Wired(hes, live) && h in live
    ensures NextAtTarget(hes, h) in live && hes[NextAtTarget(hes, h)].target == hes[h].target
    ensures PreviousAtTarget(hes, h) in live && hes[PreviousAtTarget(hes, h)].target == hes[h].target
    ensures NextAtTarget(hes, PreviousAtTarget(hes, h)) == h
  {
    assert WiredAt(hes, live, h);
    var n := hes[h].next;
    assert WiredAt(hes, live, n);
    var o := hes[h].opposite;
    assert WiredAt(hes, live, o);
    var p := hes[o].previous;
    assert WiredAt(hes, live, p);
  }

  /** A valid halfedge is not a self-loop (Halfedge.cs:61-71). */
  lemma NoSelfLoop(hes: seq<Halfedge>, live: seq<nat>, h: nat)
    requires Wired(hes, live) && h in live
    ensures Source(hes, h) != hes[h].target
    ensures Source(hes, hes[h].opposite) == hes[h].target
  {
    assert WiredAt(hes, live, h);
  }

  // Cursor walks: Ring (Halfedge.cs:77-89), Incomings and Neighbors (Vertex.cs), Perimeter (Face.cs)

  /** The step a do-while cursor loop takes. */
  datatype Walk = AlongNext | AroundTarget | AroundSource

  function Advance(hes: seq<Halfedge>, w: Walk, h: nat): (r: nat)
    requires Closed(hes) && h < |hes|
    ensures r < |hes|
  {
    match w
    case AlongNext => hes[h].next
    case AroundTarget => NextAtTarget(hes, h)
    case AroundSource => NextAtSource(hes, h)
  }

  /** `k` steps of the walk. */
  function Iterate(hes: seq<Halfedge>, w: Walk, h: nat, k: nat): (r: nat)
    requires Closed(hes) && h < |hes|
    ensures r < |hes|
  {
    if k == 0 then h else Advance(hes, w, Iterate(hes, w, h, k - 1))
  }

  /**
   * What a do-while loop started at `start` yields from cursor `cur` on: `cur`, then the
   * following ids, up to (not including) the return to `start`. `None` when `fuel` more
   * steps do not bring it back.
   */
  function Trace(hes: seq<Halfedge>, w: Walk, start: nat, cur: nat, fuel: nat): Option<seq<nat>>
    requires Closed(hes) && start < |hes| && cur < |hes|
    decreases fuel
  {
    var nxt := Advance(hes, w, cur);
    if nxt == start then Some([cur])
    else if fuel == 0 then None
    else match Trace(hes, w, start, nxt, fuel - 1)
      case None => None
      case Some(rest) => Some([cur] + rest)
  }

  /** The sequence the walk from `start` yields, if it comes back within |hes| steps. */
  function Orbit(hes: seq<Halfedge>, w: Walk, start: nat): Option<seq<nat>>
    requires Closed(hes) && start < |hes|
  {
    Trace(hes, w, start, start, |hes|)
  }

  /** A ring of three distinct halfedges linked by `next`. */
  lemma TriangleRing(hes: seq<Halfedge>, x: nat, y: nat, z: nat)
    requires Closed(hes) && x < |hes| && y < |hes| && z < |hes| && x != y && y != z && x != z
    requires hes[x].next == y && hes[y].next == z && hes[z].next == x
    ensures Orbit(hes, AlongNext, x) == Some([x, y, z])
  {
    var n := |hes|;
    assert n >= 3;
    assert Advance(hes, AlongNext, z) == x;
    assert Trace(hes, AlongNext, x, z, n - 2) == Some([z]);
    assert Advance(hes, AlongNext, y) == z;
    assert [y] + [z] == [y, z];
    assert Trace(hes, AlongNext, x, y, n - 1) == Some([y, z]);
    assert Advance(hes, AlongNext, x) == y;
    assert [x] + [y, z] == [x, y, z];
  }

  /** Two distinct halfedges that the walk takes to each other form a ring of exactly those two. */
  lemma PairRing(hes: seq<Halfedge>, w: Walk, x: nat, y: nat)
    requires Closed(hes) && x < |hes| && y < |hes| && x != y
    requires Advance(hes, w, x) == y && Advance(hes, w, y) == x
    ensures Orbit(hes, w, x) == Some([x, y])
  {
    var n := |hes|;
    assert n >= 2;
    assert Trace(hes, w, x, y, n - 1) == Some([y]);
    assert [x] + [y] == [x, y];
  }

  /** `r` starts at `start`, each entry steps to the next, and the last steps back to `start`,
      which does not occur again in between. */
  ghost predicate IsCycle(hes: seq<Halfedge>, w: Walk, start: nat, r: seq<nat>)
    requires Closed(hes) && start < |hes|
  {
    && |r| > 0 && r[0] == start
    && (forall i | 0 <= i < |r| :: r[i] < |hes| && r[i] == Iterate(hes, w, start, i))
    && Advance(hes, w, r[|r| - 1]) == start
    && start !in r[1..]
  }

  /** A trace that ends is nonempty, at most `fuel + 1` long, meets `start` nowhere after its
      first entry and steps from its last entry back to `start`. */
  lemma {:induction false} TraceReturns(hes: seq<Halfedge>, w: Walk, start: nat, cur: nat, fuel: nat)
    requires Closed(hes) && start < |hes| && cur < |hes|
    requires Trace(hes, w, start, cur, fuel).Some?
    ensures var r := Trace(hes, w, start, cur, fuel).value;
      && 0 < |r| <= fuel + 1 && r[0] == cur && (forall i | 0 <= i < |r| :: r[i] < |hes|)
      && Advance(hes, w, r[|r| - 1]) == start
      && (forall i | 0 < i < |r| :: r[i] != start)
    decreases fuel
  {
    var nxt := Advance(hes, w, cur);
    if nxt != start {
      TraceReturns(hes, w, start, nxt, fuel - 1);
      var rest := Trace(hes, w, start, nxt, fuel - 1).value;
      var r := [cur] + rest;
      assert Trace(hes, w, start, cur, fuel).value == r;
      forall i | 0 < i < |r| ensures r[i] < |hes| && r[i] != start {
        assert r[i] == rest[i - 1];
      }
    }
  }

  /** Entry `i` of a trace from the `j`-th step of the walk is its `j + i`-th step. */
  lemma {:induction false} TraceIterates(hes: seq<Halfedge>, w: Walk, start: nat, j: nat, cur: nat, fuel: nat)
    requires Closed(hes) && start < |hes| && cur == Iterate(hes, w, start, j)
    requires Trace(hes, w, start, cur, fuel).Some?
    ensures var r := Trace(hes, w, start, cur, fuel).value;
      forall i | 0 <= i < |r| :: r[i] == Iterate(hes, w, start, j + i)
    decreases fuel
  {
    var nxt := Advance(hes, w, cur);
    if nxt != start {
      assert nxt == Iterate(hes, w, start, j + 1);
      TraceIterates(hes, w, start, j + 1, nxt, fuel - 1);
      var rest := Trace(hes, w, start, nxt, fuel - 1).value;
      var r := [cur] + rest;
      assert Trace(hes, w, start, cur, fuel).value == r;
      forall i | 0 < i < |r| ensures r[i] == Iterate(hes, w, start, j + i) {
        assert r[i] == rest[i - 1];
      }
    }
  }

  /** Whatever a walk yields is the cycle through `start`. */
  lemma OrbitIsCycle(hes: seq<Halfedge>, w: Walk, start: nat)
    requires Closed(hes) && start < |hes|
    requires Orbit(hes, w, start).Some?
    ensures IsCycle(hes, w, start, Orbit(hes, w, start).value)
    ensures |Orbit(hes, w, start).value| <= |hes| + 1
  {
    TraceReturns(hes, w, start, start, |hes|);
    TraceIterates(hes, w, start, 0, start, |hes|);
    CycleIntro(hes, w, start, Orbit(hes, w, start).value);
  }

  /** `IsCycle` from its parts, with the return to `start` stated entry by entry. */
  lemma CycleIntro(hes: seq<Halfedge>, w: Walk, start: nat, r: seq<nat>)
    requires Closed(hes) && start < |hes|
    requires 0 < |r| && r[0] == start && (forall i | 0 <= i < |r| :: r[i] < |hes|)
    requires Advance(hes, w, r[|r| - 1]) == start
    requires forall i | 0 < i < |r| :: r[i] != start
    requires forall i | 0 <= i < |r| :: r[i] == Iterate(hes, w, start, 0 + i)
    ensures IsCycle(hes, w, start, r)
  {
    forall k | 0 <= k < |r[1..]| ensures r[1..][k] != start {
      assert r[1..][k] == r[k + 1];
    }
  }

  /** The entries of a cycle step one to the next. */
  lemma CycleSteps(hes: seq<Halfedge>, w: Walk, start: nat, r: seq<nat>)
    requires Closed(hes) && start < |hes| && IsCycle(hes, w, start, r)
    ensures forall i | 0 <= i < |r| - 1 :: Advance(hes, w, r[i]) == r[i + 1]
  {
    forall i | 0 <= i < |r| - 1 ensures Advance(hes, w, r[i]) == r[i + 1] {
      assert r[i + 1] == Iterate(hes, w, start, i + 1);
    }
  }

  /** `walked` in front of what a trace yields. */
  function Prefixed(walked: seq<nat>, o: Option<seq<nat>>): Option<seq<nat>>
  {
    match o
    case None => None
    case Some(rest) => Some(walked + rest)
  }

  /** One turn of the cursor loop keeps what is walked in front of what is left to walk. */
  lemma TraceStep(hes: seq<Halfedge>, w: Walk, start: nat, walked: seq<nat>, current: nat, fuel: nat)
    requires Closed(hes) && start < |hes| && current < |hes|
    requires Advance(hes, w, current) != start && fuel > 0
    ensures Prefixed(walked + [current], Trace(hes, w, start, Advance(hes, w, current), fuel - 1))
         == Prefixed(walked, Trace(hes, w, start, current, fuel))
  {
    match Trace(hes, w, start, Advance(hes, w, current), fuel - 1) {
      case None =>
      case Some(tail) =>
        assert walked + ([current] + tail) == (walked + [current]) + tail;
    }
  }

  /** The orbit a walk yields starts at `start`, steps one entry to the next and comes back. */
  lemma OrbitSteps(hes: seq<Halfedge>, w: Walk, start: nat)
    requires Closed(hes) && start < |hes| && Orbit(hes, w, start).Some?
    ensures var s := Orbit(hes, w, start).value;
      && (forall i | 0 <= i < |s| :: s[i] < |hes|)
      && s[0] == start && Advance(hes, w, s[|s| - 1]) == start
      && (forall i | 0 <= i < |s| - 1 :: Advance(hes, w, s[i]) == s[i + 1])
      && start !in s[1..]
  {
    OrbitIsCycle(hes, w, start);
    CycleSteps(hes, w, start, Orbit(hes, w, start).value);
  }

  /**
   * The do-while cursor loop of `Ring`, `Incomings` and `Perimeter`: yield the cursor, step,
   * stop once back at `start`. The source loops forever when the walk never returns; this
   * loop gives up after |hes| + 1 steps and answers `None` for that case.
   */
  method Circulate(hes: seq<Halfedge>, w: Walk, start: nat) returns (r: Option<seq<nat>>)
    requires Closed(hes) && start < |hes|
    ensures r == Orbit(hes, w, start)
    ensures r.Some? ==> var s := r.value;
      && (forall i | 0 <= i < |s| :: s[i] < |hes|)
      && s[0] == start && Advance(hes, w, s[|s| - 1]) == start
      && (forall i | 0 <= i < |s| - 1 :: Advance(hes, w, s[i]) == s[i + 1])
      && start !in s[1..]
  {
    var walked: seq<nat> := [];
    var current: nat := start;
    var fuel: nat := |hes|;
    assert Prefixed(walked, Trace(hes, w, start, current, fuel)) == Orbit(hes, w, start) by {
      assert Orbit(hes, w, start).Some? ==> walked + Orbit(hes, w, start).value == Orbit(hes, w, start).value;
    }
    while true
      invariant current < |hes|
      invariant Prefixed(walked, Trace(hes, w, start, current, fuel)) == Orbit(hes, w, start)
      decreases fuel
    {
      var nxt := Advance(hes, w, current);
      if nxt == start {
        r := Some(walked + [current]);
        break;
      }
      if fuel == 0 {
        r := None;
        break;
      }
      TraceStep(hes, w, start, walked, current, fuel);
      walked := walked + [current];
      current := nxt;
      fuel := fuel - 1;
    }
    if r.Some? {
      OrbitSteps(hes, w, start);
    }
  }

  // Every walk of a wired mesh comes back: the source's do-while loops terminate.

  lemma AdvanceLive(hes: seq<Halfedge>, live: seq<nat>, w: Walk, h: nat)
    requires Wired(hes, live) && h in live
    ensures Advance(hes, w, h) in live
  {
    assert WiredAt(hes, live, h);
    assert WiredAt(hes, live, hes[h].next);
    assert WiredAt(hes, live, hes[h].opposite);
  }

  lemma AdvanceInjective(hes: seq<Halfedge>, live: seq<nat>, w: Walk, x: nat, y: nat)
    requires Wired(hes, live) && x in live && y in live
    requires Advance(hes, w, x) == Advance(hes, w, y)
    ensures x == y
  {
    assert WiredAt(hes, live, x) && WiredAt(hes, live, y);
    match w
    case AlongNext =>
    case AroundTarget =>
      assert WiredAt(hes, live, hes[x].next) && WiredAt(hes, live, hes[y].next);
    case AroundSource =>
      assert WiredAt(hes, live, hes[x].opposite) && WiredAt(hes, live, hes[y].opposite);
  }

  lemma {:induction false} IterateLive(hes: seq<Halfedge>, live: seq<nat>, w: Walk, h: nat, k: nat)
    requires Wired(hes, live) && h in live
    ensures Iterate(hes, w, h, k) in live
  {
    if k > 0 {
      IterateLive(hes, live, w, h, k - 1);
      AdvanceLive(hes, live, w, Iterate(hes, w, h, k - 1));
    }
  }

  lemma {:induction false} TraceNone(hes: seq<Halfedge>, w: Walk, start: nat, j: nat, fuel: nat)
    requires Closed(hes) && start < |hes|
    requires Trace(hes, w, start, Iterate(hes, w, start, j), fuel).None?
    ensures forall k | j < k <= j + fuel + 1 :: Iterate(hes, w, start, k) != start
    decreases fuel
  {
    assert Iterate(hes, w, start, j + 1) == Advance(hes, w, Iterate(hes, w, start, j));
    if fuel > 0 {
      TraceNone(hes, w, start, j + 1, fuel - 1);
    }
  }

  lemma {:induction false} BackOff(hes: seq<Halfedge>, live: seq<nat>, w: Walk, start: nat, i: nat, j: nat)
    requires Wired(hes, live) && start in live && i <= j
    requires Iterate(hes, w, start, i) == Iterate(hes, w, start, j)
    ensures Iterate(hes, w, start, j - i) == start
    decreases i
  {
    if i > 0 {
      IterateLive(hes, live, w, start, i - 1);
      IterateLive(hes, live, w, start, j - 1);
      AdvanceInjective(hes, live, w, Iterate(hes, w, start, i - 1), Iterate(hes, w, start, j - 1));
      BackOff(hes, live, w, start, i - 1, j - 1);
    }
  }

  /** From a live halfedge of a wired mesh each walk returns, through live halfedges only. */
  lemma WalkReturns(hes: seq<Halfedge>, live: seq<nat>, w: Walk, start: nat)
    requires Wired(hes, live) && start in live
    ensures Orbit(hes, w, start).Some?
    ensures forall x | x in Orbit(hes, w, start).value :: x in live
  {
    if Orbit(hes, w, start).None? {
      TraceNone(hes, w, start, 0, |hes|);
      var s := seq(|hes| + 1, k requires 0 <= k <= |hes| => Iterate(hes, w, start, k));
      Pigeonhole(s, |hes|);
      var i, j :| 0 <= i < j < |s| && s[i] == s[j];
      BackOff(hes, live, w, start, i, j);
    }
    OrbitIsCycle(hes, w, start);
    var r := Orbit(hes, w, start).value;
    forall x | x in r ensures x in live {
      var i :| 0 <= i < |r| && r[i] == x;
      IterateLive(hes, live, w, start, i);
    }
  }

  // Walks depend on the links only: changing faces or targets leaves them as they were.

  /** Same arena size and the same `opposite`, `next` and `previous` everywhere. */
  ghost predicate SameLinks(hes: seq<Halfedge>, hes': seq<Halfedge>)
  {
    && |hes'| == |hes|
    && forall h | 0 <= h < |hes| ::
         hes'[h].opposite == hes[h].opposite && hes'[h].next == hes[h].next && hes'[h].previous == hes[h].previous
  }

  lemma {:induction false} TraceSameLinks(hes: seq<Halfedge>, hes': seq<Halfedge>, w: Walk, start: nat, cur: nat, fuel: nat)
    requires Closed(hes) && SameLinks(hes, hes') && start < |hes| && cur < |hes|
    ensures Closed(hes') && Trace(hes', w, start, cur, fuel) == Trace(hes, w, start, cur, fuel)
    decreases fuel
  {
    assert Advance(hes', w, cur) == Advance(hes, w, cur);
    if fuel > 0 {
      TraceSameLinks(hes, hes', w, start, Advance(hes, w, cur), fuel - 1);
    }
  }

  /** A walk yields the same halfedges in two arenas with the same links. */
  lemma OrbitSameLinks(hes: seq<Halfedge>, hes': seq<Halfedge>, w: Walk, start: nat)
    requires Closed(hes) && SameLinks(hes, hes') && start < |hes|
    ensures Closed(hes') && Orbit(hes', w, start) == Orbit(hes, w, start)
  {
    TraceSameLinks(hes, hes', w, start, start, |hes|);
  }

  /** The pointer invariant does not look at faces: with the same links, targets and edges
      the same halfedges are wired. */
  lemma WiredSameLinks(hes: seq<Halfedge>, hes': seq<Halfedge>, live: seq<nat>)
    requires Wired(hes, live) && SameLinks(hes, hes')
    requires forall h | 0 <= h < |hes| :: hes'[h].target == hes[h].target && hes'[h].edge == hes[h].edge
    ensures Wired(hes', live)
  {
    forall h | h in live ensures WiredAt(hes', live, h) {
      assert WiredAt(hes, live, h);
    }
  }

  /** Walking `i + t` steps is walking `i` steps and then `t` more. */
  lemma {:induction false} IterateAdd(hes: seq<Halfedge>, w: Walk, x: nat, i: nat, t: nat)
    requires Closed(hes) && x < |hes|
    ensures Iterate(hes, w, x, i + t) == Iterate(hes, w, Iterate(hes, w, x, i), t)
    decreases t
  {
    if t > 0 {
      IterateAdd(hes, w, x, i, t - 1);
    }
  }

  /** The first `n` halfedges a walk from `start` meets: the finite window on which the lazy
      readers of a walk that may never return are decided (`MeshOperations.WindowDecides`,
      `VertexSplits.MovedIncomingsEnds`). */
  function Walked(hes: seq<Halfedge>, w: Walk, start: nat, n: nat): (r: seq<nat>)
    requires Closed(hes) && start < |hes|
    ensures |r| == n && forall k | 0 <= k < n :: r[k] == Iterate(hes, w, start, k) && r[k] < |hes|
  {
    seq(n, k requires 0 <= k < n => Iterate(hes, w, start, k))
  }

  /** Whatever the arena, a walk meets nothing after |hes| steps that it had not met before:
      what it reaches in `k` steps, it reaches in `r < |hes|` steps too. */
  lemma {:induction false} WalkRevisits(hes: seq<Halfedge>, w: Walk, x: nat, k: nat) returns (r: nat)
    requires Closed(hes) && x < |hes|
    ensures r < |hes| && r <= k && Iterate(hes, w, x, r) == Iterate(hes, w, x, k)
    decreases k
  {
    var n := |hes|;
    if k < n {
      r := k;
    } else {
      var base: nat := k - n;
      var s := seq(n + 1, t requires 0 <= t <= n => Iterate(hes, w, x, base + t));
      assert forall t | 0 <= t < |s| :: s[t] == Iterate(hes, w, x, base + t) && s[t] < n;
      Pigeonhole(s, n);
      var t1, t2 :| 0 <= t1 < t2 < |s| && s[t1] == s[t2];
      IterateAdd(hes, w, x, base + t2, n - t2);
      IterateAdd(hes, w, x, base + t1, n - t2);
      r := WalkRevisits(hes, w, x, k - (t2 - t1));
    }
  }

  /** A walk that does not come back to its start within |hes| steps never comes back: a
      do-while loop over it runs forever. */
  lemma OrbitNoneNeverReturns(hes: seq<Halfedge>, w: Walk, start: nat)
    requires Closed(hes) && start < |hes| && Orbit(hes, w, start).None?
    ensures forall k | k > 0 :: Iterate(hes, w, start, k) != start
  {
    TraceNone(hes, w, start, 0, |hes|);
    var y := Iterate(hes, w, start, 1);
    forall k | k > 0 ensures Iterate(hes, w, start, k) != start {
      IterateAdd(hes, w, start, 1, k - 1);
      var r := WalkRevisits(hes, w, y, k - 1);
      IterateAdd(hes, w, start, 1, r);
    }
  }

  /** A walk never leaves a set of halfedges that its step maps into itself. */
  lemma {:induction false} IterateStays(hes: seq<Halfedge>, w: Walk, x: nat, s: seq<nat>, k: nat)
    requires Closed(hes) && x < |hes| && x in s
    requires forall y | y in s :: y < |hes| && Advance(hes, w, y) in s
    ensures Iterate(hes, w, x, k) in s
    decreases k
  {
    if k > 0 {
      IterateStays(hes, w, x, s, k - 1);
    }
  }

  /** A cycle of the walk that meets a set closed under the step lies inside it. */
  lemma CycleStays(hes: seq<Halfedge>, w: Walk, start: nat, r: seq<nat>, x: nat, s: seq<nat>)
    requires Closed(hes) && start < |hes| && IsCycle(hes, w, start, r) && x in r && x in s
    requires forall y | y in s :: y < |hes| && Advance(hes, w, y) in s
    ensures forall y | y in r :: y in s
  {
    var n := |r|;
    var i :| 0 <= i < n && r[i] == x;
    assert Iterate(hes, w, start, n) == start by {
      assert r[n - 1] == Iterate(hes, w, start, n - 1);
    }
    forall j | 0 <= j < n ensures r[j] in s {
      if j >= i {
        IterateAdd(hes, w, start, i, j - i);
        IterateStays(hes, w, x, s, j - i);
      } else {
        IterateAdd(hes, w, start, n, j);
        IterateAdd(hes, w, start, i, n + j - i);
        IterateStays(hes, w, x, s, n + j - i);
      }
    }
  }

  /** A cycle is closed under the step of its walk. */
  lemma CycleAdvances(hes: seq<Halfedge>, w: Walk, start: nat, r: seq<nat>)
    requires Closed(hes) && start < |hes| && IsCycle(hes, w, start, r)
    ensures forall y | y in r :: y < |hes| && Advance(hes, w, y) in r
  {
    forall y | y in r ensures y < |hes| && Advance(hes, w, y) in r {
      var j :| 0 <= j < |r| && r[j] == y;
      if j + 1 < |r| {
        assert r[j + 1] == Iterate(hes, w, start, j + 1);
      }
    }
  }

  /** Two meshes whose walks step alike everywhere except at `x` walk alike until the walk reaches `x`. */
  lemma {:induction false} IterateAgrees(hes: seq<Halfedge>, r: seq<Halfedge>, w: Walk, start: nat, x: nat, k: nat)
    requires Closed(hes) && Closed(r) && |hes| <= |r| && start < |hes|
    requires forall y | 0 <= y < |hes| && y != x :: Advance(r, w, y) == Advance(hes, w, y)
    requires forall j | 0 <= j < k :: Iterate(hes, w, start, j) != x
    ensures Iterate(r, w, start, k) == Iterate(hes, w, start, k)
    decreases k
  {
    if k > 0 {
      IterateAgrees(hes, r, w, start, x, k - 1);
    }
  }
}
