/** One k-means step: nearest centroid per point, then cluster sums and counts. The kernel adds to the sums with
    atomics from concurrent threads, the host with a sequential loop, the golden model with index(min(...)). */
module Kmeans {
  import opened Words
  import opened Sums

  /** Coordinates below this keep every squared distance inside int32_t; the generators draw below 2^14. */
  const LIMIT: int := 0x8000
  /** The `best` both loops start from. */
  const FAR: word := 0x7fff_ffff

  datatype Points = Points(px: seq<word>, py: seq<word>, cx: seq<word>, cy: seq<word>) {
    ghost predicate Valid() {
      && |px| == |py| && 0 < |cx| == |cy| < MOD32
      && (forall i | 0 <= i < |px| :: px[i] < LIMIT && py[i] < LIMIT)
      && (forall j | 0 <= j < |cx| :: cx[j] < LIMIT && cy[j] < LIMIT)
    }
  }

  // ----- distances -----

  function Square(x: int): int {
    x * x
  }

  /** The exact squared distance from point t to centroid k. */
  function Distance(p: Points, t: nat, k: nat): int
    requires t < |p.px| == |p.py| && k < |p.cx| == |p.cy|
  {
    Square(p.px[t] as int - p.cx[k]) + Square(p.py[t] as int - p.cy[k])
  }

  /** What the kernel computes: unsigned subtraction read back as int32_t, then the sum stored as u32. */
  function KernelDistance(p: Points, t: nat, k: nat): word
    requires t < |p.px| == |p.py| && k < |p.cx| == |p.cy|
  {
    var dx := Signed(Wrap(p.px[t] as int - p.cx[k]));
    var dy := Signed(Wrap(p.py[t] as int - p.cy[k]));
    Wrap(Square(dx) + Square(dy))
  }

  lemma SquareBound(d: int, m: nat)
    requires -(m as int) <= d <= m
    ensures 0 <= Square(d) <= m * m
  {
  }

  /** No 32-bit distance overflows, and every one of them beats the initial `best`: the wrapped computation is the
      squared Euclidean distance. */
  lemma DistanceExact(p: Points, t: nat, k: nat)
    requires p.Valid() && t < |p.px| && k < |p.cx|
    ensures KernelDistance(p, t, k) == Distance(p, t, k) < FAR
    ensures var x: int, y: int, a: int, b: int := p.px[t], p.py[t], p.cx[k], p.cy[k];
            KernelDistance(p, t, k) == (x - a) * (x - a) + (y - b) * (y - b)
  {
    var dx: int, dy: int := p.px[t] as int - p.cx[k], p.py[t] as int - p.cy[k];
    assert Signed(Wrap(dx)) == dx && Signed(Wrap(dy)) == dy;
    SquareBound(dx, 0x7fff);
    SquareBound(dy, 0x7fff);
  }

  /** One more bit of coordinate is too much: the distance reaches 2^31, which is no int32_t, and as an unsigned
      word it exceeds the initial `best`. */
  lemma LimitIsTight()
    ensures var p := Points([LIMIT], [LIMIT], [0], [0]);
            KernelDistance(p, 0, 0) == Distance(p, 0, 0) == 0x8000_0000 > FAR
  {
  }

  /** It is zero only for a centroid at the point itself, and the same with point and centroid exchanged. */
  lemma DistanceLaws(p: Points, t: nat, k: nat)
    requires p.Valid() && t < |p.px| && k < |p.cx|
    ensures KernelDistance(p, t, k) == 0 <==> p.px[t] == p.cx[k] && p.py[t] == p.cy[k]
    ensures KernelDistance(p, t, k) == KernelDistance(Points([p.cx[k]], [p.cy[k]], [p.px[t]], [p.py[t]]), 0, 0)
  {
    DistanceExact(p, t, k);
    DistanceExact(Points([p.cx[k]], [p.cy[k]], [p.px[t]], [p.py[t]]), 0, 0);
    var x: int, y: int, a: int, b: int := p.px[t], p.py[t], p.cx[k], p.cy[k];
    SquareZero(x - a);
    SquareZero(y - b);
    assert (a - x) * (a - x) == (x - a) * (x - a) && (b - y) * (b - y) == (y - b) * (y - b);
  }

  lemma SquareZero(d: int)
    ensures d * d >= 0 && (d * d == 0 <==> d == 0)
  {
  }

  // ----- the assignment -----

  /** b is the lowest index of a centroid nearest to point t, written out over the coordinates. */
  ghost predicate IsNearest(p: Points, t: nat, b: nat)
    requires t < |p.px| == |p.py| && |p.cx| == |p.cy|
  {
    var x: int, y: int := p.px[t], p.py[t];
    && b < |p.cx|
    && forall j: nat | j < |p.cx| ::
         var best := (x - p.cx[b]) * (x - p.cx[b]) + (y - p.cy[b]) * (y - p.cy[b]);
         var other := (x - p.cx[j]) * (x - p.cx[j]) + (y - p.cy[j]) * (y - p.cy[j]);
         best <= other && (j < b ==> best < other)
  }

  function Distances(p: Points, t: nat): seq<int>
    requires t < |p.px| == |p.py| && |p.cx| == |p.cy|
  {
    seq(|p.cx|, k requires 0 <= k < |p.cx| => Distance(p, t, k))
  }

  function Min(d: seq<int>): int
    requires d != []
  {
    if |d| == 1 then d[0] else var m := Min(d[..|d| - 1]); if d[|d| - 1] < m then d[|d| - 1] else m
  }

  /** Python's list.index: the first position of a value that occurs. */
  function IndexOf(d: seq<int>, x: int): nat {
    if d == [] || d[0] == x then 0 else 1 + IndexOf(d[1..], x)
  }

  /** The golden assignment. */
  function Nearest(p: Points, t: nat): nat
    requires t < |p.px| == |p.py| && 0 < |p.cx| == |p.cy|
  {
    var d := Distances(p, t);
    IndexOf(d, Min(d))
  }

  /** b is the lowest index of the minimum of d[..k]. */
  ghost predicate IsFirstMin(d: seq<int>, k: nat, b: nat) {
    && b < k <= |d|
    && (forall j | 0 <= j < k :: d[b] <= d[j])
    && (forall j | 0 <= j < b :: d[b] < d[j])
  }

  lemma {:induction false} MinIsMin(d: seq<int>)
    requires d != []
    ensures Min(d) in d && forall j | 0 <= j < |d| :: Min(d) <= d[j]
  {
    if |d| > 1 {
      MinIsMin(d[..|d| - 1]);
    }
  }

  lemma {:induction false} IndexOfIsFirst(d: seq<int>, x: int)
    requires x in d
    ensures IndexOf(d, x) < |d| && d[IndexOf(d, x)] == x && forall j | 0 <= j < IndexOf(d, x) :: d[j] != x
  {
    if d[0] != x {
      IndexOfIsFirst(d[1..], x);
    }
  }

  /** The golden assignment is the only lowest index of minimum distance. */
  lemma NearestIsFirstMin(p: Points, t: nat)
    requires p.Valid() && t < |p.px|
    ensures IsNearest(p, t, Nearest(p, t)) && forall b: nat | IsNearest(p, t, b) :: b == Nearest(p, t)
    ensures IsFirstMin(Distances(p, t), |p.cx|, Nearest(p, t))
    ensures forall b: nat | IsFirstMin(Distances(p, t), |p.cx|, b) :: b == Nearest(p, t)
  {
    var d := Distances(p, t);
    MinIsMin(d);
    IndexOfIsFirst(d, Min(d));
    NearestMeans(p, t, Nearest(p, t));
    forall b: nat | IsNearest(p, t, b)
      ensures b == Nearest(p, t)
    {
      NearestMeans(p, t, b);
    }
  }

  lemma NearestMeans(p: Points, t: nat, b: nat)
    requires p.Valid() && t < |p.px|
    ensures IsNearest(p, t, b) <==> IsFirstMin(Distances(p, t), |p.cx|, b)
  {
    forall j: nat | j < |p.cx|
      ensures var x: int, y: int := p.px[t], p.py[t];
              Distances(p, t)[j] == (x - p.cx[j]) * (x - p.cx[j]) + (y - p.cy[j]) * (y - p.cy[j])
    {
      DistanceExact(p, t, j);
    }
  }

  /** The comparison loop of the kernel and of the host. */
  method FindNearest(p: Points, t: nat) returns (bk: nat)
    requires p.Valid() && t < |p.px|
    ensures bk == Nearest(p, t) < |p.cx| && IsNearest(p, t, bk)
  {
    var best: word := FAR;
    bk := 0;
    for k := 0 to |p.cx|
      invariant k == 0 ==> best == FAR && bk == 0
      invariant k > 0 ==> IsFirstMin(Distances(p, t), k, bk) && best == Distances(p, t)[bk]
    {
      var d := KernelDistance(p, t, k);
      DistanceExact(p, t, k);
      if d < best {
        best, bk := d, k;
      }
    }
    NearestIsFirstMin(p, t);
  }

  // ----- what a cluster accumulates -----

  /** The total of w over the counted points assigned to cluster j. */
  function Tally(w: seq<word>, near: seq<nat>, counted: seq<bool>, j: nat): int
    requires |w| == |near| == |counted|
  {
    if w == [] then 0
    else
      var n := |w| - 1;
      Tally(w[..n], near[..n], counted[..n], j) + if counted[n] && near[n] == j then w[n] else 0
  }

  lemma {:induction false} TallyNone(w: seq<word>, near: seq<nat>, counted: seq<bool>, j: nat)
    requires |w| == |near| == |counted| && forall i | 0 <= i < |w| :: !counted[i]
    ensures Tally(w, near, counted, j) == 0
  {
    if w != [] {
      TallyNone(w[..|w| - 1], near[..|w| - 1], counted[..|w| - 1], j);
    }
  }

  /** Counting point t, whenever that happens, adds exactly its weight to exactly its own cluster. */
  lemma {:induction false} TallyCount(w: seq<word>, near: seq<nat>, counted: seq<bool>, t: nat, j: nat)
    requires |w| == |near| == |counted| && t < |w| && !counted[t]
    ensures Tally(w, near, counted[t := true], j) == Tally(w, near, counted, j) + if near[t] == j then w[t] else 0
  {
    var n := |w| - 1;
    if t < n {
      TallyCount(w[..n], near[..n], counted[..n], t, j);
      assert counted[t := true][..n] == counted[..n][t := true];
    } else {
      assert counted[t := true][..n] == counted[..n];
    }
  }

  function Ones(n: nat): seq<word> {
    seq(n, _ => 1)
  }

  function All(n: nat): seq<bool> {
    seq(n, _ => true)
  }

  function Assignment(p: Points): seq<nat>
    requires |p.px| == |p.py| && 0 < |p.cx| == |p.cy|
  {
    seq(|p.px|, t requires 0 <= t < |p.px| => Nearest(p, t))
  }

  /** acc holds, modulo 2^32, every cluster's tally of w over the counted points. */
  ghost predicate Accumulated(p: Points, w: seq<word>, counted: seq<bool>, acc: seq<word>)
    requires p.Valid() && |w| == |p.px| == |counted|
  {
    |acc| == |p.cx| && forall j | 0 <= j < |acc| :: acc[j] == Wrap(Tally(w, Assignment(p), counted, j))
  }

  /** The result all three versions must leave: assignments, sums and counts. */
  ghost predicate Clustered(p: Points, assign: seq<word>, sx: seq<word>, sy: seq<word>, cn: seq<word>)
    requires p.Valid()
  {
    var n := |p.px|;
    && assign == Assignment(p) && (forall t: nat | t < n :: IsNearest(p, t, assign[t]))
    && Accumulated(p, p.px, All(n), sx)
    && Accumulated(p, p.py, All(n), sy)
    && Accumulated(p, Ones(n), All(n), cn)
  }

  // ----- one launch, thread by thread -----

  /** A thread performs one compare, one store or one atomic add at a time. px, py, cx and cy are never written. */
  datatype Thread =
    | Compare(k: nat, best: word, bk: nat)
    | Store(bk: nat)
    | AddX(bk: nat)
    | AddY(bk: nat)
    | AddN(bk: nat)
    | Done

  datatype Grid = Grid(assign: seq<word>, sx: seq<word>, sy: seq<word>, cn: seq<word>, threads: seq<Thread>)

  ghost predicate ThreadOk(p: Points, t: nat, th: Thread)
    requires p.Valid() && t < |p.px|
  {
    var d := Distances(p, t);
    match th
    case Compare(k, best, bk) =>
      && k < |p.cx|
      && (k == 0 ==> best == FAR && bk == 0)
      && (k > 0 ==> IsFirstMin(d, k, bk) && best == d[bk])
    case Store(bk) => bk == Nearest(p, t)
    case AddX(bk) => bk == Nearest(p, t)
    case AddY(bk) => bk == Nearest(p, t)
    case AddN(bk) => bk == Nearest(p, t)
    case Done => true
  }

  predicate Stored(th: Thread) {
    !th.Compare? && !th.Store?
  }

  predicate AddedX(th: Thread) {
    Stored(th) && !th.AddX?
  }

  predicate AddedY(th: Thread) {
    AddedX(th) && !th.AddY?
  }

  function CountedX(ts: seq<Thread>): seq<bool> {
    seq(|ts|, t requires 0 <= t < |ts| => AddedX(ts[t]))
  }

  function CountedY(ts: seq<Thread>): seq<bool> {
    seq(|ts|, t requires 0 <= t < |ts| => AddedY(ts[t]))
  }

  function CountedN(ts: seq<Thread>): seq<bool> {
    seq(|ts|, t requires 0 <= t < |ts| => ts[t].Done?)
  }

  ghost predicate Shape(p: Points, s: Grid) {
    && p.Valid()
    && |s.assign| == |s.threads| == |p.px|
    && |s.sx| == |s.sy| == |s.cn| == |p.cx|
    && forall t: nat | t < |p.px| :: ThreadOk(p, t, s.threads[t])
  }

  ghost predicate Inv(p: Points, s: Grid) {
    && Shape(p, s)
    && (forall t: nat | t < |p.px| :: Stored(s.threads[t]) ==> s.assign[t] == Nearest(p, t))
    && Accumulated(p, p.px, CountedX(s.threads), s.sx)
    && Accumulated(p, p.py, CountedY(s.threads), s.sy)
    && Accumulated(p, Ones(|p.px|), CountedN(s.threads), s.cn)
  }

  /** An atomic fetch-and-add on one word. */
  function AmoAdd(acc: seq<word>, j: nat, x: word): (r: seq<word>)
    requires j < |acc|
    ensures |r| == |acc|
  {
    acc[j := AddW(acc[j], x)]
  }

  lemma NearestInRange(p: Points, t: nat)
    requires p.Valid() && t < |p.px|
    ensures Nearest(p, t) < |p.cx|
  {
    NearestIsFirstMin(p, t);
  }

  /** Where a thread goes after comparing centroid k. */
  function AfterCompare(p: Points, t: nat, k: nat, best: word, bk: nat): Thread
    requires t < |p.px| == |p.py| && k < |p.cx| == |p.cy|
  {
    var d := KernelDistance(p, t, k);
    var best', bk' := if d < best then d else best, if d < best then k else bk;
    if k + 1 < |p.cx| then Compare(k + 1, best', bk') else Store(bk')
  }

  ghost function Step(p: Points, s: Grid, t: nat): (r: Grid)
    requires Shape(p, s) && t < |p.px|
  {
    NearestInRange(p, t);
    assert ThreadOk(p, t, s.threads[t]);
    match s.threads[t]
    case Compare(k, best, bk) => s.(threads := s.threads[t := AfterCompare(p, t, k, best, bk)])
    case Store(bk) => s.(threads := s.threads[t := AddX(bk)], assign := s.assign[t := bk])
    case AddX(bk) => s.(threads := s.threads[t := AddY(bk)], sx := AmoAdd(s.sx, bk, p.px[t]))
    case AddY(bk) => s.(threads := s.threads[t := AddN(bk)], sy := AmoAdd(s.sy, bk, p.py[t]))
    case AddN(bk) => s.(threads := s.threads[t := Done], cn := AmoAdd(s.cn, bk, 1))
    case Done => s
  }

  /** One atomic add keeps the running sums exact modulo 2^32. */
  lemma AmoKeepsTally(p: Points, w: seq<word>, counted: seq<bool>, acc: seq<word>, t: nat)
    requires p.Valid() && |w| == |p.px| == |counted| && t < |w| && !counted[t]
    requires Accumulated(p, w, counted, acc) && Nearest(p, t) < |acc|
    ensures Accumulated(p, w, counted[t := true], AmoAdd(acc, Nearest(p, t), w[t]))
  {
    var near, b := Assignment(p), Nearest(p, t);
    forall j | 0 <= j < |acc|
      ensures AmoAdd(acc, b, w[t])[j] == Wrap(Tally(w, near, counted[t := true], j))
    {
      TallyCount(w, near, counted, t, j);
      WrapSum(Tally(w, near, counted, j), w[t]);
      WrapWord(w[t]);
    }
  }

  /** Comparing one more centroid keeps the candidate the lowest index of the minimum so far. */
  lemma CompareStep(p: Points, t: nat, k: nat, best: word, bk: nat)
    requires p.Valid() && t < |p.px| && ThreadOk(p, t, Compare(k, best, bk))
    ensures ThreadOk(p, t, AfterCompare(p, t, k, best, bk))
  {
    DistanceExact(p, t, k);
    NearestIsFirstMin(p, t);
    var d := Distances(p, t);
    var bk' := if KernelDistance(p, t, k) < best then k else bk;
    assert IsFirstMin(d, k + 1, bk');
  }

  /** Every step of every thread keeps the launch invariant. */
  lemma StepInv(p: Points, s: Grid, t: nat)
    requires Inv(p, s) && t < |p.px|
    ensures Inv(p, Step(p, s, t))
  {
    hide Nearest, Tally, Distances, IsFirstMin;
    NearestInRange(p, t);
    var r := Step(p, s, t);
    var ts, ts' := s.threads, r.threads;
    assert ThreadOk(p, t, ts[t]);
    match ts[t] {
      case Compare(k, best, bk) =>
        CompareStep(p, t, k, best, bk);
        assert CountedX(ts') == CountedX(ts) && CountedY(ts') == CountedY(ts) && CountedN(ts') == CountedN(ts);
      case Store(bk) =>
        assert CountedX(ts') == CountedX(ts) && CountedY(ts') == CountedY(ts) && CountedN(ts') == CountedN(ts);
      case AddX(bk) =>
        AmoKeepsTally(p, p.px, CountedX(ts), s.sx, t);
        assert CountedX(ts') == CountedX(ts)[t := true];
        assert CountedY(ts') == CountedY(ts) && CountedN(ts') == CountedN(ts);
      case AddY(bk) =>
        AmoKeepsTally(p, p.py, CountedY(ts), s.sy, t);
        assert CountedY(ts') == CountedY(ts)[t := true];
        assert CountedX(ts') == CountedX(ts) && CountedN(ts') == CountedN(ts);
      case AddN(bk) =>
        AmoKeepsTally(p, Ones(|p.px|), CountedN(ts), s.cn, t);
        assert CountedN(ts') == CountedN(ts)[t := true];
        assert CountedX(ts') == CountedX(ts) && CountedY(ts') == CountedY(ts);
      case Done =>
        assert ts' == ts;
    }
  }

  lemma StartInv(p: Points, s: Grid)
    requires p.Valid() && |s.assign| == |s.threads| == |p.px| && |s.sx| == |s.sy| == |s.cn| == |p.cx|
    requires forall j | 0 <= j < |p.cx| :: s.sx[j] == s.sy[j] == s.cn[j] == 0
    requires forall t | 0 <= t < |p.px| :: s.threads[t] == Compare(0, FAR, 0)
    ensures Inv(p, s)
  {
    forall j: nat
      ensures Tally(p.px, Assignment(p), CountedX(s.threads), j) == 0
      ensures Tally(p.py, Assignment(p), CountedY(s.threads), j) == 0
      ensures Tally(Ones(|p.px|), Assignment(p), CountedN(s.threads), j) == 0
    {
      TallyNone(p.px, Assignment(p), CountedX(s.threads), j);
      TallyNone(p.py, Assignment(p), CountedY(s.threads), j);
      TallyNone(Ones(|p.px|), Assignment(p), CountedN(s.threads), j);
    }
  }

  /** The launch state: cleared sums, arbitrary old assignments. */
  ghost function Start(p: Points, assign: seq<word>): (s: Grid)
    requires p.Valid() && |assign| == |p.px|
    ensures Inv(p, s)
  {
    var zero: seq<word> := seq(|p.cx|, _ => 0);
    var s := Grid(assign, zero, zero, zero, seq(|p.px|, _ => Compare(0, FAR, 0)));
    StartInv(p, s);
    s
  }

  predicate Finished(ts: seq<Thread>) {
    forall t | 0 <= t < |ts| :: ts[t].Done?
  }

  lemma FinishedEffect(p: Points, s: Grid)
    requires Inv(p, s) && Finished(s.threads)
    ensures Clustered(p, s.assign, s.sx, s.sy, s.cn)
  {
    assert CountedX(s.threads) == CountedY(s.threads) == CountedN(s.threads) == All(|p.px|);
    assert s.assign == Assignment(p);
    AssignmentNearest(p);
  }

  lemma AssignmentNearest(p: Points)
    requires p.Valid()
    ensures forall t: nat | t < |p.px| :: IsNearest(p, t, Assignment(p)[t])
  {
    hide IsNearest, Nearest;
    forall t: nat | t < |p.px|
      ensures IsNearest(p, t, Assignment(p)[t])
    {
      NearestIsFirstMin(p, t);
    }
  }

  // ----- runs -----

  ghost function Run(p: Points, s: Grid, sched: seq<nat>): (r: Grid)
    requires Inv(p, s) && forall i | 0 <= i < |sched| :: sched[i] < |p.px|
    ensures Inv(p, r)
  {
    if sched == [] then s
    else
      var m := Run(p, s, sched[..|sched| - 1]);
      StepInv(p, m, sched[|sched| - 1]);
      Step(p, m, sched[|sched| - 1])
  }

  /** Every interleaving of the threads' steps that lets all threads finish leaves the golden result. */
  lemma LaunchTheorem(p: Points, assign: seq<word>, sched: seq<nat>)
    requires p.Valid() && |assign| == |p.px| && forall i | 0 <= i < |sched| :: sched[i] < |p.px|
    requires Finished(Run(p, Start(p, assign), sched).threads)
    ensures var r := Run(p, Start(p, assign), sched); Clustered(p, r.assign, r.sx, r.sy, r.cn)
  {
    FinishedEffect(p, Run(p, Start(p, assign), sched));
  }

  /** Steps a thread still has to make. */
  function Left(p: Points, th: Thread): nat {
    match th
    case Compare(k, _, _) => if k < |p.cx| then |p.cx| - k + 4 else 0
    case Store(_) => 4
    case AddX(_) => 3
    case AddY(_) => 2
    case AddN(_) => 1
    case Done => 0
  }

  function TotalLeft(p: Points, ts: seq<Thread>): nat {
    if ts == [] then 0 else TotalLeft(p, ts[..|ts| - 1]) + Left(p, ts[|ts| - 1])
  }

  lemma {:induction false} TotalLeftUpdate(p: Points, ts: seq<Thread>, t: nat, th: Thread)
    requires t < |ts|
    ensures TotalLeft(p, ts[t := th]) == TotalLeft(p, ts) - Left(p, ts[t]) + Left(p, th)
  {
    var n := |ts| - 1;
    if t < n {
      TotalLeftUpdate(p, ts[..n], t, th);
      assert ts[t := th][..n] == ts[..n][t := th];
    } else {
      assert ts[t := th][..n] == ts[..n];
    }
  }

  /** A step of a thread that is not done uses up exactly one of the steps left. */
  lemma StepProgress(p: Points, s: Grid, t: nat)
    requires Shape(p, s) && t < |p.px| && !s.threads[t].Done?
    ensures TotalLeft(p, Step(p, s, t).threads) == TotalLeft(p, s.threads) - 1
  {
    hide TotalLeft, Distances, Nearest, IsFirstMin;
    assert ThreadOk(p, t, s.threads[t]);
    TotalLeftUpdate(p, s.threads, t, Step(p, s, t).threads[t]);
  }

  lemma {:induction false} TotalLeftSame(p: Points, ts: seq<Thread>, k: nat)
    requires forall t | 0 <= t < |ts| :: Left(p, ts[t]) == k
    ensures TotalLeft(p, ts) == |ts| * k
  {
    if ts != [] {
      TotalLeftSame(p, ts[..|ts| - 1], k);
      assert |ts| * k == (|ts| - 1) * k + k;
    }
  }

  /** Every turn of the schedule is taken by a thread that is not done. */
  ghost predicate Busy(p: Points, s: Grid, sched: seq<nat>)
    requires Inv(p, s) && forall i | 0 <= i < |sched| :: sched[i] < |p.px|
  {
    sched != [] ==>
      var before := sched[..|sched| - 1];
      Busy(p, s, before) && !Run(p, s, before).threads[sched[|sched| - 1]].Done?
  }

  lemma {:induction false} BusyLeft(p: Points, s: Grid, sched: seq<nat>)
    requires Inv(p, s) && (forall i | 0 <= i < |sched| :: sched[i] < |p.px|) && Busy(p, s, sched)
    ensures TotalLeft(p, Run(p, s, sched).threads) == TotalLeft(p, s.threads) - |sched|
  {
    hide TotalLeft, Step;
    if sched != [] {
      var before := sched[..|sched| - 1];
      BusyLeft(p, s, before);
      InvShape(p, Run(p, s, before));
      StepProgress(p, Run(p, s, before), sched[|sched| - 1]);
    }
  }

  /** A complete launch takes exactly n * (K + 4) steps, in whatever order the threads take them. */
  lemma LaunchLength(p: Points, assign: seq<word>, sched: seq<nat>)
    requires p.Valid() && |assign| == |p.px| && forall i | 0 <= i < |sched| :: sched[i] < |p.px|
    requires Busy(p, Start(p, assign), sched)
    ensures Finished(Run(p, Start(p, assign), sched).threads) ==> |sched| == |p.px| * (|p.cx| + 4)
    ensures |sched| <= |p.px| * (|p.cx| + 4)
  {
    hide Busy, Run, TotalLeft, Inv;
    var s := Start(p, assign);
    var r := Run(p, s, sched);
    TotalLeftSame(p, s.threads, |p.cx| + 4);
    BusyLeft(p, s, sched);
    InvShape(p, r);
    if Finished(r.threads) {
      TotalLeftSame(p, r.threads, 0);
    }
  }

  /** One launch with an adversarial scheduler, writing the result buffers in place. */
  method RunLaunch(p: Points, assign: array<word>, sx: array<word>, sy: array<word>, cn: array<word>)
    requires p.Valid() && assign.Length == |p.px| && sx.Length == sy.Length == cn.Length == |p.cx|
    requires assign != sx && assign != sy && assign != cn && sx != sy && sx != cn && sy != cn
    requires forall j | 0 <= j < |p.cx| :: sx[j] == sy[j] == cn[j] == 0
    modifies assign, sx, sy, cn
    ensures Clustered(p, assign[..], sx[..], sy[..], cn[..])
  {
    hide Inv, Step, Clustered, Shape;
    var threads: seq<Thread> := seq(|p.px|, _ => Compare(0, FAR, 0));
    ghost var s := Start(p, assign[..]);
    assert s == Grid(assign[..], sx[..], sy[..], cn[..], threads);
    while exists t :: 0 <= t < |p.px| && !threads[t].Done?
      invariant |threads| == |p.px| && Inv(p, s)
      invariant s == Grid(assign[..], sx[..], sy[..], cn[..], threads)
      decreases TotalLeft(p, threads)
    {
      var t: nat :| t < |p.px| && !threads[t].Done?;
      InvShape(p, s);
      StepInv(p, s, t);
      StepProgress(p, s, t);
      threads := StepInPlace(p, assign, sx, sy, cn, threads, t);
      s := Step(p, s, t);
      InvShape(p, s);
    }
    FinishedEffect(p, s);
  }

  lemma InvShape(p: Points, s: Grid)
    requires Inv(p, s)
    ensures Shape(p, s) && |s.threads| == |p.px|
  {
  }

  /** Thread t's next access. */
  method StepInPlace(p: Points, assign: array<word>, sx: array<word>, sy: array<word>, cn: array<word>,
                     threads: seq<Thread>, t: nat)
    returns (threads': seq<Thread>)
    requires assign != sx && assign != sy && assign != cn && sx != sy && sx != cn && sy != cn
    requires t < |p.px| && Shape(p, Grid(assign[..], sx[..], sy[..], cn[..], threads))
    modifies assign, sx, sy, cn
    ensures Grid(assign[..], sx[..], sy[..], cn[..], threads')
         == Step(p, old(Grid(assign[..], sx[..], sy[..], cn[..], threads)), t)
  {
    hide Distances, Nearest, IsFirstMin;
    NearestInRange(p, t);
    assert ThreadOk(p, t, threads[t]);
    match threads[t] {
      case Compare(k, best, bk) => threads' := threads[t := AfterCompare(p, t, k, best, bk)];
      case Store(bk) =>
        assign[t] := bk;
        threads' := threads[t := AddX(bk)];
      case AddX(bk) =>
        sx[bk] := AddW(sx[bk], p.px[t]);
        threads' := threads[t := AddY(bk)];
      case AddY(bk) =>
        sy[bk] := AddW(sy[bk], p.py[t]);
        threads' := threads[t := AddN(bk)];
      case AddN(bk) =>
        cn[bk] := AddW(cn[bk], 1);
        threads' := threads[t := Done];
      case Done => threads' := threads;
    }
  }

  // ----- the host loop -----

  /** Points below i. */
  function Prefix(n: nat, i: nat): (c: seq<bool>)
    ensures |c| == n
  {
    seq(n, t => t < i)
  }

  /** The sequential reference of the board host. */
  method HostKmeans(p: Points, assign: array<word>, sx: array<word>, sy: array<word>, cn: array<word>)
    requires p.Valid() && assign.Length == |p.px| && sx.Length == sy.Length == cn.Length == |p.cx|
    requires assign != sx && assign != sy && assign != cn && sx != sy && sx != cn && sy != cn
    modifies assign, sx, sy, cn
    ensures Clustered(p, assign[..], sx[..], sy[..], cn[..])
  {
    hide Accumulated, Nearest;
    var n := |p.px|;
    for j := 0 to sx.Length
      invariant forall i | 0 <= i < j :: sx[i] == sy[i] == cn[i] == 0
    {
      sx[j], sy[j], cn[j] := 0, 0, 0;
    }
    ZeroAccumulated(p, p.px, sx[..]);
    ZeroAccumulated(p, p.py, sy[..]);
    ZeroAccumulated(p, Ones(n), cn[..]);
    for i := 0 to n
      invariant forall t: nat | t < i :: assign[t] == Nearest(p, t)
      invariant Accumulated(p, p.px, Prefix(n, i), sx[..])
      invariant Accumulated(p, p.py, Prefix(n, i), sy[..])
      invariant Accumulated(p, Ones(n), Prefix(n, i), cn[..])
    {
      var bk := FindNearest(p, i);
      assert Prefix(n, i + 1) == Prefix(n, i)[i := true];
      AmoKeepsTally(p, p.px, Prefix(n, i), sx[..], i);
      AmoKeepsTally(p, p.py, Prefix(n, i), sy[..], i);
      AmoKeepsTally(p, Ones(n), Prefix(n, i), cn[..], i);
      ghost var sx0, sy0, cn0 := sx[..], sy[..], cn[..];
      assign[i] := bk;
      sx[bk] := AddW(sx[bk], p.px[i]);
      sy[bk] := AddW(sy[bk], p.py[i]);
      cn[bk] := AddW(cn[bk], 1);
      assert sx[..] == AmoAdd(sx0, bk, p.px[i]) && sy[..] == AmoAdd(sy0, bk, p.py[i]);
      assert cn[..] == AmoAdd(cn0, bk, Ones(n)[i]);
    }
    assert Prefix(n, n) == All(n);
    assert assign[..] == Assignment(p);
    AssignmentNearest(p);
  }

  lemma ZeroAccumulated(p: Points, w: seq<word>, acc: seq<word>)
    requires p.Valid() && |w| == |p.px| && |acc| == |p.cx| && forall j | 0 <= j < |acc| :: acc[j] == 0
    ensures Accumulated(p, w, Prefix(|w|, 0), acc)
  {
    forall j | 0 <= j < |acc|
      ensures Tally(w, Assignment(p), Prefix(|w|, 0), j) == 0
    {
      TallyNone(w, Assignment(p), Prefix(|w|, 0), j);
    }
  }

  // ----- conservation -----

  /** The tallies of the first k clusters together. */
  function Tallies(w: seq<word>, near: seq<nat>, k: nat): int
    requires |w| == |near|
  {
    if k == 0 then 0 else Tallies(w, near, k - 1) + Tally(w, near, All(|w|), k - 1)
  }

  lemma TallyLast(w: seq<word>, near: seq<nat>, j: nat)
    requires |w| == |near| > 0
    ensures var n := |w| - 1;
            Tally(w, near, All(|w|), j) == Tally(w[..n], near[..n], All(n), j) + if near[n] == j then w[n] else 0
  {
    assert All(|w|)[..|w| - 1] == All(|w| - 1);
  }

  lemma {:induction false} TalliesLast(w: seq<word>, near: seq<nat>, k: nat)
    requires |w| == |near| > 0
    ensures var n := |w| - 1;
            Tallies(w, near, k) == Tallies(w[..n], near[..n], k) + if near[n] < k then w[n] else 0
  {
    if k > 0 {
      TalliesLast(w, near, k - 1);
      TallyLast(w, near, k - 1);
    }
  }

  lemma {:induction false} TalliesEmpty(k: nat)
    ensures Tallies([], [], k) == 0
  {
    if k > 0 {
      TalliesEmpty(k - 1);
    }
  }

  /** Every point is counted in exactly one cluster. */
  lemma {:induction false} TalliesTotal(w: seq<word>, near: seq<nat>, k: nat)
    requires |w| == |near| && forall i | 0 <= i < |w| :: near[i] < k
    ensures Tallies(w, near, k) == Sum(w)
  {
    if w == [] {
      TalliesEmpty(k);
    } else {
      TalliesLast(w, near, k);
      TalliesTotal(w[..|w| - 1], near[..|w| - 1], k);
    }
  }

  lemma {:induction false} AccumulatedTotal(p: Points, w: seq<word>, acc: seq<word>, k: nat)
    requires p.Valid() && |w| == |p.px| && Accumulated(p, w, All(|w|), acc) && k <= |acc|
    ensures Wrap(Sum(acc[..k])) == Wrap(Tallies(w, Assignment(p), k))
  {
    if k > 0 {
      AccumulatedTotal(p, w, acc, k - 1);
      assert acc[..k][..k - 1] == acc[..k - 1];
      WrapSum(Sum(acc[..k - 1]), acc[k - 1]);
      WrapWord(acc[k - 1]);
      WrapSum(Tallies(w, Assignment(p), k - 1), Tally(w, Assignment(p), All(|w|), k - 1));
    }
  }

  lemma {:induction false} SumOnes(n: nat)
    ensures Sum(Ones(n)) == n
  {
    if n > 0 {
      SumOnes(n - 1);
      assert Ones(n)[..n - 1] == Ones(n - 1);
    }
  }

  /** The cluster sums total the coordinate sums and the counts total the number of points, modulo 2^32. */
  lemma Conservation(p: Points, assign: seq<word>, sx: seq<word>, sy: seq<word>, cn: seq<word>)
    requires p.Valid() && Clustered(p, assign, sx, sy, cn)
    ensures Wrap(Sum(sx)) == Wrap(Sum(p.px)) && Wrap(Sum(sy)) == Wrap(Sum(p.py))
    ensures Wrap(Sum(cn)) == Wrap(|p.px|)
  {
    forall t: nat | t < |p.px|
      ensures Nearest(p, t) < |p.cx|
    {
      NearestInRange(p, t);
    }
    TotalOf(p, p.px, sx);
    TotalOf(p, p.py, sy);
    TotalOf(p, Ones(|p.px|), cn);
    SumOnes(|p.px|);
  }

  lemma TotalOf(p: Points, w: seq<word>, acc: seq<word>)
    requires p.Valid() && |w| == |p.px| && Accumulated(p, w, All(|w|), acc)
    requires forall t: nat | t < |p.px| :: Nearest(p, t) < |p.cx|
    ensures Wrap(Sum(acc)) == Wrap(Sum(w))
  {
    AccumulatedTotal(p, w, acc, |acc|);
    assert acc[..|acc|] == acc;
    TalliesTotal(w, Assignment(p), |acc|);
  }

  // ----- what a count is -----

  ghost function Members(near: seq<nat>, j: nat): set<nat> {
    set t: nat | t < |near| && near[t] == j
  }

  lemma {:induction false} CountIsSize(near: seq<nat>, j: nat)
    ensures Tally(Ones(|near|), near, All(|near|), j) == |Members(near, j)|
  {
    if near != [] {
      var n := |near| - 1;
      CountIsSize(near[..n], j);
      TallyLast(Ones(|near|), near, j);
      assert Ones(|near|)[..n] == Ones(n);
      assert Members(near, j) == Members(near[..n], j) + if near[n] == j then {n} else {};
    }
  }

  /** With fewer than 2^32 points, cn[j] is the number of points nearest to centroid j. */
  lemma CountsAreSizes(p: Points, assign: seq<word>, sx: seq<word>, sy: seq<word>, cn: seq<word>, j: nat)
    requires p.Valid() && Clustered(p, assign, sx, sy, cn) && j < |p.cx| && |p.px| < MOD32
    ensures cn[j] == |Members(Assignment(p), j)|
  {
    CountIsSize(Assignment(p), j);
    MembersBound(Assignment(p), j);
  }

  lemma {:induction false} MembersBound(near: seq<nat>, j: nat)
    ensures |Members(near, j)| <= |near|
  {
    if near != [] {
      var n := |near| - 1;
      MembersBound(near[..n], j);
      assert Members(near, j) == Members(near[..n], j) + if near[n] == j then {n} else {};
    }
  }
}
