/** `CirculatorExtensions.Circulate` (Mesh.cs:620-638): a cyclic slice of a finite sequence. */
module Circulation {
  import opened Wrappers

  /** Position of the first occurrence of `x` (what `SkipWhile` stops at). */
  function IndexOf<T(==)>(s: seq<T>, x: T): (i: nat)
    requires x in s
    ensures i < |s| && s[i] == x
    ensures forall j | 0 <= j < i :: s[j] != x
  {
    if s[0] == x then 0 else 1 + IndexOf(s[1..], x)
  }

  /** Position `k` steps after `i` in a cycle of length `n`. */
  function Cyc(n: nat, i: nat, k: nat): (r: nat)
    requires i < n && k <= n
    ensures r < n
  {
    if i + k < n then i + k else i + k - n
  }

  /** Items of the endless repetition of `items` from position `i` on, taken while they differ
      from `end`, for at most `fuel` items. */
  function TakeUntil<T(==)>(items: seq<T>, i: nat, end: T, fuel: nat): (r: seq<T>)
    requires i < |items| && fuel <= |items|
    ensures |r| <= fuel
    decreases fuel
  {
    if fuel == 0 || items[i] == end then []
    else [items[i]] + TakeUntil(items, if i + 1 == |items| then 0 else i + 1, end, fuel - 1)
  }

  /** Each item taken is the cyclically next one and differs from `end`; when fewer than `fuel`
      are taken, the next item is `end`. */
  lemma {:induction false} TakeUntilCycles<T>(items: seq<T>, i: nat, end: T, fuel: nat)
    requires i < |items| && fuel <= |items|
    ensures var r := TakeUntil(items, i, end, fuel);
      && (forall k | 0 <= k < |r| :: r[k] == items[Cyc(|items|, i, k)] && r[k] != end)
      && (|r| < fuel ==> items[Cyc(|items|, i, |r|)] == end)
    decreases fuel
  {
    if fuel > 0 && items[i] != end {
      var i' := if i + 1 == |items| then 0 else i + 1;
      TakeUntilCycles(items, i', end, fuel - 1);
      var rest := TakeUntil(items, i', end, fuel - 1);
      assert TakeUntil(items, i, end, fuel) == [items[i]] + rest;
      CycledStep(items, i, end, fuel, rest);
    }
  }

  /** The inductive step of `TakeUntilCycles`: prepending the item at `i` to what is taken from
      the position after it. */
  lemma CycledStep<T>(items: seq<T>, i: nat, end: T, fuel: nat, rest: seq<T>)
    requires i < |items| && 0 < fuel <= |items| && items[i] != end && |rest| <= fuel - 1
    requires var i' := if i + 1 == |items| then 0 else i + 1;
      && (forall k | 0 <= k < |rest| :: rest[k] == items[Cyc(|items|, i', k)] && rest[k] != end)
      && (|rest| < fuel - 1 ==> items[Cyc(|items|, i', |rest|)] == end)
    ensures var r := [items[i]] + rest;
      && (forall k | 0 <= k < |r| :: r[k] == items[Cyc(|items|, i, k)] && r[k] != end)
      && (|r| < fuel ==> items[Cyc(|items|, i, |r|)] == end)
  {
    var n := |items|;
    var i' := if i + 1 == n then 0 else i + 1;
    var r := [items[i]] + rest;
    forall k | 0 < k < |r| ensures r[k] == items[Cyc(n, i, k)] && r[k] != end {
      assert r[k] == rest[k - 1];
      assert Cyc(n, i', k - 1) == Cyc(n, i, k);
    }
    if |r| < fuel {
      assert Cyc(n, i', |rest|) == Cyc(n, i, |r|);
    }
  }

  /** Within one lap of the repetition the end item is met. */
  lemma TakeUntilStops<T>(items: seq<T>, i: nat, end: T)
    requires end in items && i < |items|
    ensures |TakeUntil(items, i, end, |items|)| < |items|
  {
    var n := |items|;
    var r := TakeUntil(items, i, end, n);
    TakeUntilCycles(items, i, end, n);
    var j :| 0 <= j < n && items[j] == end;
    var k := if j >= i then j - i else j + n - i;
    assert Cyc(n, i, k) == j;
  }

  /**
   * `items.Circulate(startInclusive, endExclusive)`: repeat `items` forever, skip to the first
   * `startInclusive`, then take until `endExclusive`. The enumeration is finite exactly when both
   * items occur in `items` (otherwise `SkipWhile` or `TakeWhile` never stops), which is what the
   * precondition demands. The result is the cyclic segment of `items` that starts at the first
   * occurrence of the start item and stops just before the next occurrence of the end item.
   */
  function Circulate<T(==)>(items: seq<T>, startInclusive: T, endExclusive: T): (r: seq<T>)
    requires startInclusive in items && endExclusive in items
    ensures startInclusive == endExclusive ==> r == []
    ensures startInclusive != endExclusive ==> |r| > 0 && r[0] == startInclusive
    ensures |r| < |items|
    ensures forall k | 0 <= k < |r| ::
      r[k] == items[Cyc(|items|, IndexOf(items, startInclusive), k)] && r[k] != endExclusive
    ensures items[Cyc(|items|, IndexOf(items, startInclusive), |r|)] == endExclusive
  {
    var i := IndexOf(items, startInclusive);
    TakeUntilStops(items, i, endExclusive);
    TakeUntilCycles(items, i, endExclusive, |items|);
    TakeUntil(items, i, endExclusive, |items|)
  }

  /** On a sequence without repeats the slice is `items[i..j)` read cyclically, where `i` and
      `j` are the positions of the two items. */
  lemma CirculateDistinct<T>(items: seq<T>, startInclusive: T, endExclusive: T)
    requires startInclusive in items && endExclusive in items
    requires forall a, b | 0 <= a < b < |items| :: items[a] != items[b]
    ensures var i := IndexOf(items, startInclusive);
      var j := IndexOf(items, endExclusive);
      Circulate(items, startInclusive, endExclusive) ==
        if i <= j then items[i..j] else items[i..] + items[..j]
  {
    var n := |items|;
    var i := IndexOf(items, startInclusive);
    var j := IndexOf(items, endExclusive);
    var r := Circulate(items, startInclusive, endExclusive);
    var m := Cyc(n, i, |r|);
    assert items[m] == endExclusive;
    assert m == j;
    var expected := if i <= j then items[i..j] else items[i..] + items[..j];
    if i <= j {
      assert |r| == j - i;
    } else {
      assert |r| == j + n - i;
    }
    assert |r| == |expected|;
    forall k | 0 <= k < |r| ensures r[k] == expected[k] {
      assert r[k] == items[Cyc(n, i, k)];
    }
  }

  /**
   * `SkipWhile(item != startInclusive).TakeWhile(item != endExclusive)` read over the prefix `s`
   * of an enumeration: the items from the first `startInclusive` up to the next `endExclusive`.
   * `None` when the prefix does not show both.
   */
  function SkipTake<T(==)>(s: seq<T>, startInclusive: T, endExclusive: T): (r: Option<seq<T>>)
    ensures r.None? <==> startInclusive !in s || endExclusive !in s[IndexOf(s, startInclusive)..]
    ensures r.Some? ==> startInclusive in s && var i := IndexOf(s, startInclusive);
      && i + |r.value| < |s| && s[i + |r.value|] == endExclusive
      && forall k | 0 <= k < |r.value| :: r.value[k] == s[i + k] && r.value[k] != endExclusive
  {
    if startInclusive !in s then None
    else
      var i := IndexOf(s, startInclusive);
      if endExclusive !in s[i..] then None
      else
        var j := IndexOf(s[i..], endExclusive);
        assert forall k | 0 <= k < j :: s[i..][k] == s[i + k];
        Some(s[i..i + j])
  }
}
