/** Layout compaction along one axis: the extents of everything drawn are merged into disjoint intervals, and a map
    of the coordinates squeezes the corridors between them. Coordinates are exact reals. */
module Compact {
  datatype Interval = Interval(lo: real, hi: real) {
    predicate Holds(v: real) {
      lo <= v <= hi
    }
  }

  /** Corridors up to this wide are not corridors. */
  const TOUCH: real := 0.000001
  /** Slack of the position test in the map. */
  const SLACK: real := 0.000000001

  ghost predicate Proper(iv: seq<Interval>) {
    forall k | 0 <= k < |iv| :: iv[k].lo <= iv[k].hi
  }

  // ----- sorting -----

  /** Python's order on pairs. */
  predicate Before(a: Interval, b: Interval) {
    a.lo < b.lo || (a.lo == b.lo && a.hi <= b.hi)
  }

  ghost predicate Sorted(iv: seq<Interval>) {
    forall j, k | 0 <= j < k < |iv| :: Before(iv[j], iv[k])
  }

  function Insert(x: Interval, s: seq<Interval>): seq<Interval> {
    if s == [] || Before(x, s[0]) then [x] + s else [s[0]] + Insert(x, s[1..])
  }

  /** iv.sort() */
  function Sort(iv: seq<Interval>): seq<Interval> {
    if iv == [] then [] else Insert(iv[0], Sort(iv[1..]))
  }

  lemma {:induction false} InsertSorted(x: Interval, s: seq<Interval>)
    requires Sorted(s)
    ensures Sorted(Insert(x, s)) && multiset(Insert(x, s)) == multiset(s) + multiset{x}
  {
    if s != [] && !Before(x, s[0]) {
      InsertSorted(x, s[1..]);
      var t := Insert(x, s[1..]);
      assert s == [s[0]] + s[1..];
      forall k | 0 <= k < |t|
        ensures Before(s[0], t[k])
      {
        assert t[k] in multiset(t);
      }
    }
  }

  lemma {:induction false} SortCorrect(iv: seq<Interval>)
    ensures Sorted(Sort(iv)) && multiset(Sort(iv)) == multiset(iv)
  {
    if iv != [] {
      SortCorrect(iv[1..]);
      InsertSorted(iv[0], Sort(iv[1..]));
      assert iv == [iv[0]] + iv[1..];
    }
  }

  // ----- merging -----

  /** In order, and more than a millionth apart. */
  ghost predicate Separated(m: seq<Interval>) {
    Proper(m) && forall i, j | 0 <= i < j < |m| :: m[i].hi + 0.000001 < m[j].lo
  }

  /** x lies within one of m. */
  ghost predicate Covered(m: seq<Interval>, x: Interval) {
    exists j :: 0 <= j < |m| && m[j].lo <= x.lo && x.hi <= m[j].hi
  }

  ghost predicate Near(iv: seq<Interval>, v: real) {
    exists k :: 0 <= k < |iv| && iv[k].lo - 0.000001 <= v <= iv[k].hi + 0.000001
  }

  /** The merged list covers every interval, and nothing that is not within a millionth of one. */
  ghost predicate IsMerge(iv: seq<Interval>, m: seq<Interval>) {
    Separated(m) && CoversAll(iv, m) && NoMore(iv, m) && Endpoints(iv, m)
  }

  ghost predicate CoversAll(iv: seq<Interval>, m: seq<Interval>) {
    forall k | 0 <= k < |iv| :: Covered(m, iv[k])
  }

  ghost predicate NoMore(iv: seq<Interval>, m: seq<Interval>) {
    forall j, v | 0 <= j < |m| && m[j].Holds(v) :: Near(iv, v)
  }

  ghost predicate Endpoints(iv: seq<Interval>, m: seq<Interval>) {
    forall j | 0 <= j < |m| :: StartsAt(iv, m[j].lo) && EndsAt(iv, m[j].hi)
  }

  ghost predicate StartsAt(iv: seq<Interval>, v: real) {
    exists k :: 0 <= k < |iv| && iv[k].lo == v
  }

  ghost predicate EndsAt(iv: seq<Interval>, v: real) {
    exists k :: 0 <= k < |iv| && iv[k].hi == v
  }

  /** The merge loop's step on one more interval x. */
  function MergeInto(m: seq<Interval>, x: Interval): seq<Interval> {
    var n := |m| - 1;
    if m != [] && x.lo <= m[n].hi + TOUCH then
      m[n := Interval(m[n].lo, if x.hi > m[n].hi then x.hi else m[n].hi)]
    else m + [x]
  }

  lemma NearMore(iv: seq<Interval>, x: Interval, v: real)
    requires Near(iv, v)
    ensures Near(iv + [x], v)
  {
    var k :| 0 <= k < |iv| && iv[k].lo - TOUCH <= v <= iv[k].hi + TOUCH;
    assert (iv + [x])[k] == iv[k];
  }

  lemma NearNew(iv: seq<Interval>, x: Interval, v: real)
    requires x.lo - TOUCH <= v <= x.hi + TOUCH
    ensures Near(iv + [x], v)
  {
    assert (iv + [x])[|iv|] == x;
  }

  lemma EndpointsMore(iv: seq<Interval>, x: Interval, v: real)
    ensures StartsAt(iv, v) ==> StartsAt(iv + [x], v)
    ensures EndsAt(iv, v) ==> EndsAt(iv + [x], v)
    ensures StartsAt(iv + [x], x.lo) && EndsAt(iv + [x], x.hi)
  {
    var more := iv + [x];
    assert more[|iv|] == x;
    if StartsAt(iv, v) {
      var k :| 0 <= k < |iv| && iv[k].lo == v;
      assert more[k].lo == v;
    }
    if EndsAt(iv, v) {
      var k :| 0 <= k < |iv| && iv[k].hi == v;
      assert more[k].hi == v;
    }
  }

  /** Every merged interval starts where some interval starts. */
  lemma StartOrder(iv: seq<Interval>, m: seq<Interval>, lo: real)
    requires Endpoints(iv, m) && forall k | 0 <= k < |iv| :: iv[k].lo <= lo
    ensures forall j | 0 <= j < |m| :: m[j].lo <= lo
  {
  }

  lemma CoverStep(iv: seq<Interval>, m: seq<Interval>, x: Interval)
    requires CoversAll(iv, m) && x.lo <= x.hi && forall j | 0 <= j < |m| :: m[j].lo <= x.lo
    ensures CoversAll(iv + [x], MergeInto(m, x))
  {
    var r, more := MergeInto(m, x), iv + [x];
    forall k | 0 <= k < |more|
      ensures Covered(r, more[k])
    {
      if k < |iv| {
        assert Covered(m, iv[k]);
        var j :| 0 <= j < |m| && m[j].lo <= iv[k].lo && iv[k].hi <= m[j].hi;
        assert r[j].lo == m[j].lo && m[j].hi <= r[j].hi;
      } else {
        assert r[|r| - 1].lo <= x.lo && x.hi <= r[|r| - 1].hi;
      }
    }
  }

  lemma NoMoreStep(iv: seq<Interval>, m: seq<Interval>, x: Interval)
    requires NoMore(iv, m) && x.lo <= x.hi
    ensures NoMore(iv + [x], MergeInto(m, x))
  {
    hide Near;
    var r := MergeInto(m, x);
    forall j, v | 0 <= j < |r| && r[j].Holds(v)
      ensures Near(iv + [x], v)
    {
      if j < |m| && m[j].Holds(v) {
        NearMore(iv, x, v);
      } else {
        NearNew(iv, x, v);
      }
    }
  }

  lemma EndpointsStep(iv: seq<Interval>, m: seq<Interval>, x: Interval)
    requires Endpoints(iv, m)
    ensures Endpoints(iv + [x], MergeInto(m, x))
  {
    hide StartsAt, EndsAt;
    var r := MergeInto(m, x);
    forall j | 0 <= j < |r|
      ensures StartsAt(iv + [x], r[j].lo) && EndsAt(iv + [x], r[j].hi)
    {
      EndpointsMore(iv, x, r[j].lo);
      EndpointsMore(iv, x, r[j].hi);
    }
  }

  /** Merging one more interval, which starts no earlier than the ones before, keeps everything. */
  lemma MergeStep(iv: seq<Interval>, m: seq<Interval>, x: Interval)
    requires IsMerge(iv, m) && x.lo <= x.hi && forall k | 0 <= k < |iv| :: iv[k].lo <= x.lo
    ensures IsMerge(iv + [x], MergeInto(m, x))
  {
    hide CoversAll, NoMore, Endpoints, Covered, Near, StartsAt, EndsAt;
    StartOrder(iv, m, x.lo);
    CoverStep(iv, m, x);
    NoMoreStep(iv, m, x);
    EndpointsStep(iv, m, x);
  }

  lemma MergeNone()
    ensures IsMerge([], [])
  {
  }

  /** The merge loop, on the sorted list. */
  method Merge(iv: seq<Interval>) returns (merged: seq<Interval>)
    requires Proper(iv) && Sorted(iv)
    ensures IsMerge(iv, merged)
  {
    hide IsMerge;
    merged := [];
    MergeNone();
    for k := 0 to |iv|
      invariant IsMerge(iv[..k], merged)
    {
      assert iv[..k + 1] == iv[..k] + [iv[k]];
      assert forall j | 0 <= j < k :: Before(iv[j], iv[k]);
      MergeStep(iv[..k], merged, iv[k]);
      var n := |merged| - 1;
      if merged != [] && iv[k].lo <= merged[n].hi + TOUCH {
        merged := merged[n := Interval(merged[n].lo, if iv[k].hi > merged[n].hi then iv[k].hi else merged[n].hi)];
      } else {
        merged := merged + [iv[k]];
      }
    }
    assert iv[..|iv|] == iv;
  }

  // ----- the map -----

  /** The merged intervals, the target gap, and the coordinate ranges whose corridors stay. */
  datatype Axis = Axis(m: seq<Interval>, gap: real, keep: seq<Interval>) {
    ghost predicate Valid() {
      Separated(m) && gap >= 0.0
    }
  }

  predicate Kept(keep: seq<Interval>, b: real, c: real) {
    exists k :: 0 <= k < |keep| && keep[k].lo <= b && c <= keep[k].hi
  }

  /** Corridor i, between intervals i and i + 1, is squeezed. */
  predicate IsCut(a: Axis, i: nat)
    requires i + 1 < |a.m|
  {
    Width(a, i) > a.gap && !Kept(a.keep, a.m[i].hi, a.m[i + 1].lo)
  }

  function Width(a: Axis, i: nat): real
    requires i + 1 < |a.m|
  {
    a.m[i + 1].lo - a.m[i].hi
  }

  function CutAt(a: Axis, i: nat): real
    requires i + 1 < |a.m|
  {
    a.m[i].hi + a.gap
  }

  function Amount(a: Axis, i: nat): real
    requires i + 1 < |a.m|
  {
    if IsCut(a, i) then Width(a, i) - a.gap else 0.0
  }

  /** What corridor i takes off coordinate v. */
  function TakenBy(a: Axis, i: nat, v: real): real
    requires i + 1 < |a.m|
  {
    if v >= CutAt(a, i) + SLACK then Amount(a, i) else 0.0
  }

  /** What the first n corridors take off v. */
  function Taken(a: Axis, n: nat, v: real): real
    requires n == 0 || n < |a.m|
  {
    if n == 0 then 0.0 else Taken(a, n - 1, v) + TakenBy(a, n - 1, v)
  }

  function Corridors(a: Axis): (n: nat)
    ensures n == 0 || n < |a.m|
  {
    if a.m == [] then 0 else |a.m| - 1
  }

  /** m(v) */
  function Map(a: Axis, v: real): real {
    v - Taken(a, Corridors(a), v)
  }

  function Amounts(a: Axis, n: nat): real
    requires n == 0 || n < |a.m|
  {
    if n == 0 then 0.0 else Amounts(a, n - 1) + Amount(a, n - 1)
  }

  datatype Cut = Cut(pos: real, amount: real)

  /** sum(amt for pos, amt in cuts if v >= pos + 1e-9) */
  function SumCuts(cuts: seq<Cut>, v: real): real {
    if cuts == [] then 0.0
    else
      var c := cuts[|cuts| - 1];
      SumCuts(cuts[..|cuts| - 1], v) + if v >= c.pos + SLACK then c.amount else 0.0
  }

  function SumAmounts(cuts: seq<Cut>): real {
    if cuts == [] then 0.0 else SumAmounts(cuts[..|cuts| - 1]) + cuts[|cuts| - 1].amount
  }

  /** The list stands for the first n corridors. */
  ghost predicate CutList(a: Axis, n: nat, cuts: seq<Cut>)
    requires n == 0 || n < |a.m|
  {
    (forall v :: SumCuts(cuts, v) == Taken(a, n, v)) && SumAmounts(cuts) == Amounts(a, n)
  }

  lemma CutListStep(a: Axis, n: nat, cuts: seq<Cut>)
    requires n + 1 < |a.m| && CutList(a, n, cuts)
    ensures CutList(a, n + 1, if IsCut(a, n) then cuts + [Cut(CutAt(a, n), Amount(a, n))] else cuts)
  {
    var more := if IsCut(a, n) then cuts + [Cut(CutAt(a, n), Amount(a, n))] else cuts;
    forall v
      ensures SumCuts(more, v) == Taken(a, n + 1, v)
    {
      assert SumCuts(cuts, v) == Taken(a, n, v);
      assert IsCut(a, n) ==> more[..|more| - 1] == cuts;
    }
    assert IsCut(a, n) ==> more[..|more| - 1] == cuts;
  }

  /** The cut list determines the map, and its total is what compact returns. */
  method FindCuts(a: Axis) returns (cuts: seq<Cut>)
    ensures forall v :: v - SumCuts(cuts, v) == Map(a, v)
    ensures SumAmounts(cuts) == Amounts(a, Corridors(a))
  {
    hide CutList, SumCuts, SumAmounts, Taken, Amounts;
    cuts := [];
    CutListStart(a);
    for i := 0 to Corridors(a)
      invariant CutList(a, i, cuts)
    {
      CutListStep(a, i, cuts);
      var b, c := a.m[i].hi, a.m[i + 1].lo;
      var g := c - b;
      if g > a.gap && !Kept(a.keep, b, c) {
        cuts := cuts + [Cut(b + a.gap, g - a.gap)];
      }
    }
    CutListSums(a, Corridors(a), cuts);
  }

  lemma CutListStart(a: Axis)
    ensures CutList(a, 0, [])
  {
  }

  lemma CutListSums(a: Axis, n: nat, cuts: seq<Cut>)
    requires (n == 0 || n < |a.m|) && CutList(a, n, cuts)
    ensures (forall v :: SumCuts(cuts, v) == Taken(a, n, v)) && SumAmounts(cuts) == Amounts(a, n)
  {
  }

  /** compact: the merged axis and the amount removed. */
  method CompactAxis(iv: seq<Interval>, gap: real, keep: seq<Interval>) returns (a: Axis, cuts: seq<Cut>)
    requires Proper(iv)
    ensures IsMerge(Sort(iv), a.m) && a.gap == gap && a.keep == keep
    ensures forall v :: v - SumCuts(cuts, v) == Map(a, v)
    ensures SumAmounts(cuts) == Amounts(a, Corridors(a))
  {
    SortKeeps(iv);
    SortCorrect(iv);
    var merged := Merge(Sort(iv));
    a := Axis(merged, gap, keep);
    cuts := FindCuts(a);
  }

  lemma SortKeeps(iv: seq<Interval>)
    ensures forall x :: x in Sort(iv) <==> x in iv
    ensures Proper(iv) ==> Proper(Sort(iv))
  {
    SortCorrect(iv);
    forall x
      ensures x in Sort(iv) <==> x in iv
    {
      assert x in multiset(iv) <==> x in iv;
      assert x in multiset(Sort(iv)) <==> x in Sort(iv);
    }
    if Proper(iv) {
      forall k | 0 <= k < |Sort(iv)|
        ensures Sort(iv)[k].lo <= Sort(iv)[k].hi
      {
        var x := Sort(iv)[k];
        assert x in iv;
      }
    }
  }

  // ----- what the map preserves -----

  /** Coordinates in interval j are past every corridor before it and before every corridor after it. */
  lemma OrderOfCorridors(a: Axis, i: nat, j: nat, v: real)
    requires a.Valid() && i + 1 < |a.m| && j < |a.m| && a.m[j].Holds(v)
    ensures j <= i ==> v < CutAt(a, i) + SLACK
    ensures i + 1 < j && IsCut(a, i) ==> v >= CutAt(a, i) + SLACK
    ensures i + 1 == j && Amount(a, i) >= SLACK ==> v >= CutAt(a, i) + SLACK
  {
  }

  /** A corridor cut by less than the slack is harmless only if the next interval ends before the slack does. */
  predicate Clean(a: Axis, i: nat)
    requires i + 1 < |a.m|
  {
    IsCut(a, i) ==> Amount(a, i) >= SLACK || a.m[i + 1].hi < CutAt(a, i) + SLACK
  }

  lemma {:induction false} SameTaken(a: Axis, n: nat, j: nat, v: real, w: real)
    requires a.Valid() && j < |a.m| && a.m[j].Holds(v) && a.m[j].Holds(w) && (n == 0 || n < |a.m|)
    requires forall i | 0 <= i < n && i + 1 == j :: Clean(a, i)
    ensures Taken(a, n, v) == Taken(a, n, w)
  {
    if n > 0 {
      SameTaken(a, n - 1, j, v, w);
      OrderOfCorridors(a, n - 1, j, v);
      OrderOfCorridors(a, n - 1, j, w);
      assert n == j ==> Clean(a, n - 1);
    }
  }

  /** Every merged interval moves as a whole. */
  ghost predicate Rigid(a: Axis) {
    forall j, v, w | 0 <= j < |a.m| && a.m[j].Holds(v) && a.m[j].Holds(w) :: Map(a, v) - Map(a, w) == v - w
  }

  lemma {:induction false} TakenSplit(a: Axis, n: nat, j: nat)
    requires a.Valid() && 0 < j < |a.m| && j <= n < |a.m| && IsCut(a, j - 1) && !Clean(a, j - 1)
    ensures Taken(a, n, a.m[j].hi) - Taken(a, n, a.m[j].lo) == Amount(a, j - 1)
    decreases n
  {
    var v, w := a.m[j].lo, a.m[j].hi;
    if n == j {
      SameTaken(a, j - 1, j, v, w);
    } else {
      TakenSplit(a, n - 1, j);
      OrderOfCorridors(a, n - 1, j, v);
      OrderOfCorridors(a, n - 1, j, w);
    }
  }

  /** Distances inside every merged interval are preserved exactly when every cut corridor is clean. */
  lemma RigidIffClean(a: Axis)
    requires a.Valid()
    ensures Rigid(a) <==> forall i | 0 <= i < Corridors(a) :: Clean(a, i)
  {
    if forall i | 0 <= i < Corridors(a) :: Clean(a, i) {
      forall j, v, w | 0 <= j < |a.m| && a.m[j].Holds(v) && a.m[j].Holds(w)
        ensures Map(a, v) - Map(a, w) == v - w
      {
        SameTaken(a, Corridors(a), j, v, w);
      }
    } else {
      var i :| 0 <= i < Corridors(a) && !Clean(a, i);
      TakenSplit(a, Corridors(a), i + 1);
      var v, w := a.m[i + 1].lo, a.m[i + 1].hi;
      assert a.m[i + 1].Holds(v) && a.m[i + 1].Holds(w);
      assert Map(a, w) - Map(a, v) != w - v;
    }
  }

  // ----- where each interval goes -----

  lemma {:induction false} TakenInside(a: Axis, n: nat, j: nat, v: real)
    requires a.Valid() && j < |a.m| && a.m[j].Holds(v) && (n == 0 || n < |a.m|)
    ensures Taken(a, n, v) == if n < j then Amounts(a, n) else Offset(a, j, v)
    decreases n
  {
    if n > 0 {
      TakenInside(a, n - 1, j, v);
      OrderOfCorridors(a, n - 1, j, v);
    }
  }

  /** What a point v of interval j loses: all corridors before it, but for the last one only if v is past its
      threshold. */
  function Offset(a: Axis, j: nat, v: real): real
    requires j < |a.m|
  {
    if j == 0 then 0.0 else Amounts(a, j - 1) + TakenBy(a, j - 1, v)
  }

  /** Where the points of interval j go, on every axis. */
  lemma MapInside(a: Axis, j: nat, v: real)
    requires a.Valid() && j < |a.m| && a.m[j].Holds(v)
    ensures Map(a, v) == v - Offset(a, j, v)
  {
    TakenInside(a, Corridors(a), j, v);
  }

  /** What the corridor before interval j should have taken off the interval's right end, and has not. */
  function Pending(a: Axis, j: nat): (r: real)
    requires j < |a.m|
    ensures r >= 0.0
  {
    if j == 0 then 0.0 else Amount(a, j - 1) - TakenBy(a, j - 1, a.m[j].hi)
  }

  /** It is nothing exactly when that corridor is not cut or the right end is past its threshold. */
  lemma PendingIff(a: Axis, j: nat)
    requires j < |a.m|
    ensures Pending(a, j) == 0.0 <==> (j == 0 || !IsCut(a, j - 1) || a.m[j].hi >= CutAt(a, j - 1) + SLACK)
  {
  }

  /** The width of corridor i after the map, whatever the rest of the axis looks like. */
  function Remaining(a: Axis, i: nat): real
    requires i + 1 < |a.m|
  {
    Width(a, i) - TakenBy(a, i, a.m[i + 1].lo) - Pending(a, i)
  }

  /** A corridor wider than the gap that no range to keep contains, and that loses at least the slack, becomes exactly
      the gap precisely when nothing is pending on its left; any other corridor keeps its width precisely then. */
  lemma CorridorWidth(a: Axis, i: nat)
    requires a.Valid() && i + 1 < |a.m|
    ensures Map(a, a.m[i + 1].lo) - Map(a, a.m[i].hi) == Remaining(a, i)
    ensures var b, c := a.m[i].hi, a.m[i + 1].lo;
            if c - b > a.gap && !(exists k :: 0 <= k < |a.keep| && a.keep[k].lo <= b && c <= a.keep[k].hi) then
              c - b - a.gap >= 0.000000001 ==> (Map(a, c) - Map(a, b) == a.gap <==> Pending(a, i) == 0.0)
            else Map(a, c) - Map(a, b) == c - b <==> Pending(a, i) == 0.0
  {
    MapInside(a, i, a.m[i].hi);
    MapInside(a, i + 1, a.m[i + 1].lo);
    OrderOfCorridors(a, i, i + 1, a.m[i + 1].lo);
  }

  /** The whole extent shrinks by exactly the amount compact returns, precisely when nothing is pending at the end. */
  lemma ExtentShrinks(a: Axis)
    requires a.Valid() && a.m != []
    ensures var first, last := a.m[0].lo, a.m[|a.m| - 1].hi;
            Map(a, last) - Map(a, first) == last - first - Amounts(a, Corridors(a))
            <==> Pending(a, |a.m| - 1) == 0.0
  {
    MapInside(a, 0, a.m[0].lo);
    MapInside(a, |a.m| - 1, a.m[|a.m| - 1].hi);
  }

  // ----- what is drawn -----

  ghost predicate AllClean(a: Axis) {
    forall i | 0 <= i < Corridors(a) :: Clean(a, i)
  }

  /** No cut corridor's threshold lies inside x, past its left end. */
  predicate Whole(a: Axis, x: Interval) {
    forall i | 0 <= i < Corridors(a) && IsCut(a, i) :: !(x.lo < CutAt(a, i) + SLACK <= x.hi)
  }

  /** The map preserves all distances inside x. */
  ghost predicate MovesRigidly(a: Axis, x: Interval) {
    forall v, w | x.Holds(v) && x.Holds(w) :: Map(a, v) - Map(a, w) == v - w
  }

  /** An input extent moves as a whole exactly when no threshold splits it; all of them do when the axis is
      clean. */
  lemma DrawingMovesRigidly(iv: seq<Interval>, a: Axis, x: Interval)
    requires IsMerge(Sort(iv), a.m) && a.Valid() && x in iv && x.lo <= x.hi
    ensures MovesRigidly(a, x) <==> Whole(a, x)
    ensures AllClean(a) ==> MovesRigidly(a, x)
  {
    hide NoMore, Endpoints, Map, Sort, IsCut;
    SortKeeps(iv);
    assert x in Sort(iv);
    var k :| 0 <= k < |Sort(iv)| && Sort(iv)[k] == x;
    assert Covered(a.m, Sort(iv)[k]);
    var j :| 0 <= j < |a.m| && a.m[j].lo <= x.lo && x.hi <= a.m[j].hi;
    WholeIff(a, j, x);
    if AllClean(a) {
      RigidIffClean(a);
      forall v, w | x.Holds(v) && x.Holds(w)
        ensures Map(a, v) - Map(a, w) == v - w
      {
        assert a.m[j].Holds(v) && a.m[j].Holds(w);
      }
    }
  }

  lemma WholeIff(a: Axis, j: nat, x: Interval)
    requires a.Valid() && j < |a.m| && a.m[j].lo <= x.lo <= x.hi <= a.m[j].hi
    ensures MovesRigidly(a, x) <==> Whole(a, x)
  {
    hide Map, Separated;
    if Whole(a, x) {
      forall v, w | x.Holds(v) && x.Holds(w)
        ensures Map(a, v) - Map(a, w) == v - w
      {
        MapInside(a, j, v);
        MapInside(a, j, w);
      }
    } else {
      var i :| 0 <= i < Corridors(a) && IsCut(a, i) && x.lo < CutAt(a, i) + SLACK <= x.hi;
      OrderOfCorridors(a, i, j, x.lo);
      OrderOfCorridors(a, i, j, x.hi);
      MapInside(a, j, x.lo);
      MapInside(a, j, x.hi);
      assert x.Holds(x.lo) && x.Holds(x.hi);
    }
  }

  /** Points of merged intervals keep their strict order. */
  ghost predicate KeepsOrder(a: Axis) {
    forall j, v, k, w | 0 <= j < |a.m| && 0 <= k < |a.m| && a.m[j].Holds(v) && a.m[k].Holds(w) && v < w ::
      Map(a, v) < Map(a, w)
  }

  /** Inside one interval a clean axis keeps distances, hence the order. */
  lemma OrderInside(a: Axis, j: nat, v: real, w: real)
    requires a.Valid() && AllClean(a) && j < |a.m| && a.m[j].Holds(v) && a.m[j].Holds(w)
    ensures Map(a, v) - Map(a, w) == v - w
  {
    RigidIffClean(a);
  }

  /** From one interval to a later one the order is kept if every corridor on the way stays open. */
  lemma {:induction false} OrderAcross(a: Axis, j: nat, v: real, k: nat, w: real)
    requires a.Valid() && AllClean(a) && j < k < |a.m| && a.m[j].Holds(v) && a.m[k].Holds(w)
    requires forall i | j <= i < k :: Remaining(a, i) > 0.0
    ensures Map(a, v) < Map(a, w)
    decreases k
  {
    hide Map, Remaining;
    var b, c := a.m[k - 1].hi, a.m[k].lo;
    CorridorWidth(a, k - 1);
    OrderInside(a, k, c, w);
    if j < k - 1 {
      OrderAcross(a, j, v, k - 1, b);
    } else {
      OrderInside(a, j, v, b);
    }
  }

  /** An unclean corridor reverses two points of the interval behind it. */
  lemma UncleanSwaps(a: Axis, i: nat) returns (v: real, w: real)
    requires a.Valid() && i + 1 < |a.m| && !Clean(a, i)
    ensures a.m[i + 1].Holds(v) && a.m[i + 1].Holds(w) && v < w && Map(a, v) > Map(a, w)
  {
    w := CutAt(a, i) + SLACK;
    var room := w - a.m[i + 1].lo;
    v := w - (if Amount(a, i) < room then Amount(a, i) else room) / 2.0;
    MapInside(a, i + 1, v);
    MapInside(a, i + 1, w);
  }

  /** Order on what is drawn, for any gap: kept exactly when the axis is clean and no corridor closes. */
  lemma OrderIff(a: Axis)
    requires a.Valid()
    ensures KeepsOrder(a) <==> AllClean(a) && forall i | 0 <= i < Corridors(a) :: Remaining(a, i) > 0.0
  {
    hide Map, Remaining;
    if KeepsOrder(a) {
      forall i | 0 <= i < Corridors(a)
        ensures Clean(a, i) && Remaining(a, i) > 0.0
      {
        if !Clean(a, i) {
          var v, w := UncleanSwaps(a, i);
          assert false;
        }
        CorridorWidth(a, i);
        assert a.m[i].Holds(a.m[i].hi) && a.m[i + 1].Holds(a.m[i + 1].lo) && a.m[i].hi < a.m[i + 1].lo;
      }
    }
    if AllClean(a) && forall i | 0 <= i < Corridors(a) :: Remaining(a, i) > 0.0 {
      forall j, v, k, w | 0 <= j < |a.m| && 0 <= k < |a.m| && a.m[j].Holds(v) && a.m[k].Holds(w) && v < w
        ensures Map(a, v) < Map(a, w)
      {
        if j < k {
          OrderAcross(a, j, v, k, w);
        } else {
          OrderInside(a, j, v, w);
        }
      }
    }
  }

  /** With a gap of at least the slack, cleanness alone decides. */
  lemma OrderPreserved(a: Axis)
    requires a.Valid() && a.gap >= SLACK
    ensures KeepsOrder(a) <==> AllClean(a)
  {
    hide Map, Remaining;
    OrderIff(a);
    if AllClean(a) {
      forall i | 0 <= i < Corridors(a)
        ensures Remaining(a, i) > 0.0
      {
        StaysOpen(a, i);
      }
    }
  }

  lemma StaysOpen(a: Axis, i: nat)
    requires a.Valid() && AllClean(a) && a.gap >= SLACK && i + 1 < |a.m|
    ensures Remaining(a, i) > 0.0
  {
    assert a.m[i].hi + TOUCH < a.m[i + 1].lo;
    assert i > 0 ==> Clean(a, i - 1);
  }

  /** A drawing on which the order fails: two extents, and a gap narrower than the corridor by half the slack. Two
      points of the second extent change places. */
  lemma DrawingSwaps()
    ensures var iv := [Interval(0.0, 1.0), Interval(3.0000000005, 4.0)];
            var a := Axis(iv, 2.0, []);
            && IsMerge(Sort(iv), a.m) && a.Valid() && !AllClean(a)
            && iv[1].Holds(3.0000000009) && iv[1].Holds(3.000000001)
            && Map(a, 3.0000000009) > Map(a, 3.000000001)
  {
    hide IsMerge, Sort;
    var iv := [Interval(0.0, 1.0), Interval(3.0000000005, 4.0)];
    var a := Axis(iv, 2.0, []);
    TwoExtents(iv[0], iv[1]);
    assert a.Valid();
    SliverFacts(a);
    MapInside(a, 1, 3.0000000009);
    MapInside(a, 1, 3.000000001);
  }

  lemma SliverFacts(a: Axis)
    requires a == Axis([Interval(0.0, 1.0), Interval(3.0000000005, 4.0)], 2.0, [])
    ensures !AllClean(a)
    ensures Offset(a, 1, 3.0000000009) == 0.0 && Offset(a, 1, 3.000000001) == 0.0000000005
  {
    assert !Clean(a, 0);
  }

  lemma SortOne(y: Interval)
    ensures Sort([y]) == [y]
  {
    assert [y][1..] == [];
  }

  /** Two extents more than the tolerance apart are their own merge. */
  lemma TwoExtents(x: Interval, y: Interval)
    requires x.lo <= x.hi && x.hi + TOUCH < y.lo && y.lo <= y.hi
    ensures IsMerge(Sort([x, y]), [x, y])
  {
    hide IsMerge;
    SortOne(y);
    assert [x, y][1..] == [y] && Before(x, y);
    assert Sort([x, y]) == Insert(x, Sort([y])) == [x] + [y] == [x, y];
    MergeNone();
    MergeStep([], [], x);
    var none: seq<Interval> := [];
    assert none + [x] == [x] && MergeInto(none, x) == none + [x];
    MergeStep([x], [x], y);
    var one := [x];
    assert one[|one| - 1] == x && MergeInto(one, y) == one + [y] == [x, y];
  }

  // ----- points inside corridors -----

  ghost predicate Monotone(a: Axis) {
    forall v, w | v <= w :: Map(a, v) <= Map(a, w)
  }

  lemma {:induction false} NothingTaken(a: Axis, n: nat, v: real)
    requires (n == 0 || n < |a.m|) && forall i | 0 <= i < n :: !IsCut(a, i)
    ensures Taken(a, n, v) == 0.0
  {
    if n > 0 {
      NothingTaken(a, n - 1, v);
    }
  }

  /** Only corridor i's threshold lies between v and w. */
  lemma {:induction false} OneThreshold(a: Axis, n: nat, i: nat, v: real, w: real)
    requires a.Valid() && i + 1 < |a.m| && (n == 0 || n < |a.m|)
    requires w == CutAt(a, i) + SLACK && w - TOUCH < v < w
    ensures Taken(a, n, w) - Taken(a, n, v) == if i < n then Amount(a, i) else 0.0
  {
    if n > 0 {
      OneThreshold(a, n - 1, i, v, w);
      if n - 1 < i {
        assert a.m[n - 1].hi + TOUCH < a.m[i].lo;
      } else if i < n - 1 {
        assert a.m[i].hi + TOUCH < a.m[n - 1].lo;
      }
    }
  }

  /** The test of the loop, in full. */
  lemma CutWritten(a: Axis)
    ensures (forall i | 0 <= i < Corridors(a) :: !IsCut(a, i)) <==>
            forall i, j | 0 <= i < |a.m| && 0 <= j < |a.m| && j == i + 1 ::
              || a.m[j].lo - a.m[i].hi <= a.gap
              || exists k :: 0 <= k < |a.keep| && a.keep[k].lo <= a.m[i].hi && a.m[j].lo <= a.keep[k].hi
  {
    if forall i | 0 <= i < Corridors(a) :: !IsCut(a, i) {
      forall i, j | 0 <= i < |a.m| && 0 <= j < |a.m| && j == i + 1
        ensures a.m[j].lo - a.m[i].hi <= a.gap
                || exists k :: 0 <= k < |a.keep| && a.keep[k].lo <= a.m[i].hi && a.m[j].lo <= a.keep[k].hi
      {
        assert !IsCut(a, i);
      }
    } else {
      var i :| 0 <= i < Corridors(a) && IsCut(a, i);
      assert !Kept(a.keep, a.m[i].hi, a.m[i + 1].lo);
    }
  }

  /** The map is not monotone on all coordinates unless it is the identity: just before the threshold of a cut
      corridor a point is left behind, and the points after it jump over it. */
  lemma MonotoneIffNoCut(a: Axis)
    requires a.Valid()
    ensures Monotone(a) <==>
            forall i, j | 0 <= i < |a.m| && 0 <= j < |a.m| && j == i + 1 ::
              || a.m[j].lo - a.m[i].hi <= a.gap
              || exists k :: 0 <= k < |a.keep| && a.keep[k].lo <= a.m[i].hi && a.m[j].lo <= a.keep[k].hi
  {
    CutWritten(a);
    if forall i | 0 <= i < Corridors(a) :: !IsCut(a, i) {
      forall v, w | v <= w
        ensures Map(a, v) <= Map(a, w)
      {
        NothingTaken(a, Corridors(a), v);
        NothingTaken(a, Corridors(a), w);
      }
    } else {
      var i :| 0 <= i < Corridors(a) && IsCut(a, i);
      var w := CutAt(a, i) + SLACK;
      var v := w - (if Amount(a, i) < TOUCH then Amount(a, i) else TOUCH) / 2.0;
      OneThreshold(a, Corridors(a), i, v, w);
      assert v <= w && Map(a, v) > Map(a, w);
    }
  }
}
