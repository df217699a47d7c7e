/** The three breadth-first searches that must agree bit for bit: the board's level loop over kernel
    launches, the A53's queue search, and the golden frontier search of the case generator. */
module BfsHost {
  import opened Words
  import opened Finite
  import opened Graphs
  import opened BfsKernel

  /** The launches the board host prepares parameter blocks for. */
  const MAX_LAUNCHES: nat := 64

  // ----- the accelerator side -----

  /** Thread v's next access, performed on the level array in place. */
  method StepInPlace(g: Csr, lvl: word, level: array<word>, flag: word, threads: seq<Thread>, v: nat)
    returns (flag': word, threads': seq<Thread>)
    requires v < g.nv && Shape(g, Grid(level[..], flag, threads))
    modifies level
    ensures Grid(level[..], flag', threads') == Step(g, lvl, old(Grid(level[..], flag, threads)), v)
  {
    flag', threads' := flag, threads;
    assert InRange(g, threads[v]);
    match threads[v] {
      case Begin => threads' := threads[v := if level[v] == lvl then Row else Done];
      case Row => threads' := threads[v := RowEnd(g.rowptr[v])];
      case RowEnd(j) => threads' := threads[v := AtTest(j, g.rowptr[v + 1], false)];
      case ReadCol(j, e, f) => threads' := threads[v := ReadLevel(j, e, f, g.col[j])];
      case ReadLevel(j, e, f, u) =>
        threads' := threads[v := if level[u] == UNSEEN then Write(j, e, f, u) else AtTest(j + 1, e, f)];
      case Write(j, e, f, u) =>
        level[u] := AddW(lvl, 1);
        threads' := threads[v := AtTest(j + 1, e, true)];
      case SetFlag =>
        flag' := OrOne(flag);
        threads' := threads[v := Done];
      case Done =>
    }
  }

  /** One launch with an adversarial scheduler: any unfinished thread may perform its next access. */
  method RunLaunch(g: Csr, lvl: word, level: array<word>) returns (flag: word)
    requires g.Valid() && lvl + 1 < UNSEEN && level[..] == g.Labels(lvl)
    modifies level
    ensures level[..] == g.Labels(lvl + 1)
    ensures flag == if LevelNonEmpty(g, lvl + 1) then 1 else 0
  {
    flag := 0;
    var threads: seq<Thread> := seq(g.nv, _ => Begin);
    LaunchInv(g, lvl);
    assert Grid(level[..], flag, threads) == Launch(g, lvl);
    while exists v :: 0 <= v < g.nv && !threads[v].Done?
      invariant |threads| == g.nv
      invariant Inv(g, lvl, Grid(level[..], flag, threads))
      decreases TotalLeft(g, threads)
    {
      var v: nat :| v < g.nv && !threads[v].Done?;
      ghost var s := Grid(level[..], flag, threads);
      StepInv(g, lvl, s, v);
      StepProgress(g, lvl, s, v);
      flag, threads := StepInPlace(g, lvl, level, flag, threads, v);
    }
    FinishedEffect(g, lvl, Grid(level[..], flag, threads));
  }

  /** There is a vertex at every distance up to the eccentricity and none beyond. */
  lemma LevelNonEmptyIff(g: Csr, e: nat, d: nat)
    requires g.Valid() && g.IsEccentricity(e)
    ensures LevelNonEmpty(g, d) <==> d <= e
  {
    if d <= e {
      var v: nat :| v < g.nv && g.IsDist(e, v);
      var w := NoGaps(g, e, v, d);
    }
  }

  /** The board's loop: launch L = 0, 1, ... until the flag stays clear, at most 64 times. It makes
      eccentricity + 1 launches unless the cap cuts it off, and the level array is the whole answer exactly
      when the eccentricity is at most 64. */
  method AcceleratorBfs(g: Csr, level: array<word>, ghost ecc: nat) returns (launches: nat)
    requires g.Valid() && level.Length == g.nv && g.IsEccentricity(ecc)
    modifies level
    ensures launches == if ecc < 64 then ecc + 1 else 64
    ensures level[..] == g.Labels(launches)
    ensures g.AreDistances(level[..]) <==> ecc <= 64
  {
    for v := 0 to level.Length
      invariant forall i | 0 <= i < v :: level[i] == UNSEEN
    {
      level[v] := UNSEEN;
    }
    level[0] := 0;
    LabelStart(g);
    assert level[..] == g.Labels(0);
    launches := 0;
    while launches < MAX_LAUNCHES
      invariant launches <= MAX_LAUNCHES && launches <= ecc
      invariant level[..] == g.Labels(launches)
      decreases MAX_LAUNCHES - launches
    {
      LevelNonEmptyIff(g, ecc, launches + 1);
      var flag := RunLaunch(g, launches, level);
      launches := launches + 1;
      if flag == 0 {
        break;
      }
    }
    LabelsComplete(g, launches, ecc);
  }

  // ----- the queue search -----

  ghost predicate Distinct(q: seq<nat>) {
    forall i, j | 0 <= i < j < |q| :: q[i] != q[j]
  }

  ghost function Elements(q: seq<nat>): set<nat> {
    set i | 0 <= i < |q| :: q[i]
  }

  lemma {:induction false} DistinctSize(q: seq<nat>)
    requires Distinct(q)
    ensures |Elements(q)| == |q|
  {
    if q != [] {
      var p := q[..|q| - 1];
      DistinctSize(p);
      assert Elements(q) == Elements(p) + {q[|q| - 1]};
    }
  }

  /** A queue of distinct vertices that misses one of them has room left. */
  lemma QueueHasRoom(q: seq<nat>, n: nat, u: nat)
    requires Distinct(q) && (forall i | 0 <= i < |q| :: q[i] < n) && u < n && u !in q
    ensures |q| < n
  {
    DistinctSize(q + [u]);
    SubsetSize(Elements(q + [u]), Below(n));
  }

  /** The search state: labelled vertices are exactly the queued ones, each with its distance. */
  ghost predicate QueueOk(g: Csr, lev: seq<word>, q: seq<nat>) {
    && g.Valid() && |lev| == g.nv && Distinct(q)
    && (forall i | 0 <= i < |q| :: q[i] < g.nv)
    && (forall v: nat | v < g.nv :: lev[v] != UNSEEN <==> v in q)
    && (forall v: nat | v < g.nv && lev[v] != UNSEEN :: g.IsDist(lev[v], v))
  }

  /** Levels along the queue never fall. */
  ghost predicate Monotone(lev: seq<word>, q: seq<nat>)
    requires forall i | 0 <= i < |q| :: q[i] < |lev|
  {
    forall i, j | 0 <= i <= j < |q| :: lev[q[i]] <= lev[q[j]]
  }

  /** Positions rowptr[v]..j of v's row are labelled. */
  ghost predicate RowSeen(g: Csr, lev: seq<word>, v: nat, j: nat)
    requires g.Valid() && |lev| == g.nv && v < g.nv
  {
    Seen(g, lev, g.rowptr[v], j)
  }

  ghost predicate Processed(g: Csr, lev: seq<word>, q: seq<nat>, head: nat)
    requires QueueOk(g, lev, q) && head <= |q|
  {
    forall i | 0 <= i < head :: RowSeen(g, lev, q[i], g.rowptr[q[i] + 1])
  }

  /** Every vertex within d edges of vertex 0 is labelled. */
  ghost predicate Covered(g: Csr, lev: seq<word>, d: nat)
    requires g.Valid() && |lev| == g.nv
  {
    forall v: nat, k: nat | k <= d && v < g.nv && g.IsDist(k, v) :: lev[v] != UNSEEN
  }

  /** What holds between two dequeues. */
  ghost predicate SearchInv(g: Csr, lev: seq<word>, q: seq<nat>, head: nat) {
    && QueueOk(g, lev, q) && head <= |q| && Monotone(lev, q) && Processed(g, lev, q, head)
    && (head < |q| ==> lev[q[|q| - 1]] <= lev[q[head]] + 1 && Covered(g, lev, lev[q[head]]))
    && 0 < |q| && q[0] == 0
  }

  /** If everything up to distance d is labelled, and all labelled vertices at distance d are processed,
      then everything up to distance d + 1 is labelled. */
  lemma CoverNext(g: Csr, lev: seq<word>, q: seq<nat>, head: nat, d: nat)
    requires QueueOk(g, lev, q) && head <= |q| && Processed(g, lev, q, head) && Covered(g, lev, d)
    requires forall i | head <= i < |q| :: lev[q[i]] > d
    ensures Covered(g, lev, d + 1)
  {
    forall v: nat, k: nat | k <= d + 1 && v < g.nv && g.IsDist(k, v)
      ensures lev[v] != UNSEEN
    {
      if k == d + 1 {
        var u := DistPred(g, k, v);
        DistBound(g, d, u);
        var i :| 0 <= i < |q| && q[i] == u;
        assert i < head;
        var j :| g.rowptr[u] <= j < g.rowptr[u + 1] && g.col[j] == v;
        assert RowSeen(g, lev, u, g.rowptr[u + 1]);
        assert lev[g.col[j]] != UNSEEN;
      }
    }
  }

  /** An unlabelled target of the vertex being processed is exactly one edge farther away. */
  lemma DiscoverDist(g: Csr, lev: seq<word>, v: nat, u: nat)
    requires g.Valid() && |lev| == g.nv && v < g.nv && u < g.nv
    requires lev[v] != UNSEEN && g.IsDist(lev[v], v) && lev[u] == UNSEEN && g.Edge(v, u)
    requires Covered(g, lev, lev[v])
    ensures g.IsDist(lev[v] + 1, u) && lev[v] + 1 < UNSEEN
  {
    var e := DistSucc(g, lev[v], v, u);
    DistBound(g, e, u);
  }

  /** What holds inside the row of the dequeued vertex v == q[head - 1], before position j. */
  ghost predicate RowInv(g: Csr, lev: seq<word>, q: seq<nat>, head: nat, j: nat) {
    && QueueOk(g, lev, q) && 0 < head <= |q| && Monotone(lev, q)
    && Processed(g, lev, q, head - 1)
    && RowSeen(g, lev, q[head - 1], j)
    && lev[q[|q| - 1]] <= lev[q[head - 1]] + 1
    && Covered(g, lev, lev[q[head - 1]])
    && q[0] == 0
  }

  lemma EnqueueOk(g: Csr, lev: seq<word>, q: seq<nat>, u: nat, d: word)
    requires QueueOk(g, lev, q) && u < g.nv && lev[u] == UNSEEN && d < UNSEEN && g.IsDist(d, u)
    ensures QueueOk(g, lev[u := d], q + [u])
  {
  }

  lemma EnqueueMonotone(g: Csr, lev: seq<word>, q: seq<nat>, u: nat, d: word)
    requires QueueOk(g, lev, q) && Monotone(lev, q) && u < g.nv && lev[u] == UNSEEN
    requires q != [] && lev[q[|q| - 1]] <= d
    ensures QueueOk(g, lev[u := d], q + [u]) ==> Monotone(lev[u := d], q + [u])
  {
    assert u !in q;
  }

  lemma RowSeenKept(g: Csr, lev: seq<word>, v: nat, j: nat, u: nat, d: word)
    requires g.Valid() && |lev| == g.nv && v < g.nv && u < g.nv && d < UNSEEN && RowSeen(g, lev, v, j)
    ensures RowSeen(g, lev[u := d], v, j)
  {
  }

  lemma EnqueueProcessed(g: Csr, lev: seq<word>, q: seq<nat>, head: nat, u: nat, d: word)
    requires QueueOk(g, lev, q) && head <= |q| && Processed(g, lev, q, head) && u < g.nv && d < UNSEEN
    requires QueueOk(g, lev[u := d], q + [u])
    ensures Processed(g, lev[u := d], q + [u], head)
  {
  }

  lemma CoveredKept(g: Csr, lev: seq<word>, u: nat, d: word, k: nat)
    requires g.Valid() && |lev| == g.nv && u < g.nv && d < UNSEEN && Covered(g, lev, k)
    ensures Covered(g, lev[u := d], k)
  {
  }

  lemma QueueMember(g: Csr, lev: seq<word>, q: seq<nat>, i: nat)
    requires QueueOk(g, lev, q) && i < |q|
    ensures g.Valid() && |lev| == g.nv && Distinct(q) && (forall k | 0 <= k < |q| :: q[k] < g.nv)
    ensures q[i] < g.nv && lev[q[i]] != UNSEEN && g.IsDist(lev[q[i]], q[i])
    ensures forall u: nat | u < g.nv && lev[u] == UNSEEN :: u !in q
  {
  }

  lemma RowEnqueue(g: Csr, lev: seq<word>, q: seq<nat>, head: nat, j: nat)
    requires RowInv(g, lev, q, head, j) && g.rowptr[q[head - 1]] <= j < g.rowptr[q[head - 1] + 1]
    requires lev[g.col[j]] == UNSEEN
    ensures lev[q[head - 1]] + 1 < UNSEEN && |q| < g.nv
    ensures RowInv(g, lev[g.col[j] := lev[q[head - 1]] + 1], q + [g.col[j]], head, j + 1)
  {
    hide QueueOk, Monotone, Processed, Covered, RowSeen, Csr.IsDist, Distinct;
    QueueMember(g, lev, q, head - 1);
    QueueMember(g, lev, q, |q| - 1);
    var v, u := q[head - 1], g.col[j];
    assert g.Edge(v, u);
    DiscoverDist(g, lev, v, u);
    QueueHasRoom(q, g.nv, u);
    EnqueueOk(g, lev, q, u, lev[v] + 1);
    EnqueueMonotone(g, lev, q, u, lev[v] + 1);
    EnqueueProcessed(g, lev, q, head - 1, u, lev[v] + 1);
    VisitSeen(g, lev, v, j, lev[v] + 1);
    CoveredKept(g, lev, u, lev[v] + 1, lev[v]);
  }

  /** Labelling the target at position j extends the seen part of the row. */
  lemma VisitSeen(g: Csr, lev: seq<word>, v: nat, j: nat, d: word)
    requires g.Valid() && |lev| == g.nv && v < g.nv && d < UNSEEN && j < |g.col| && RowSeen(g, lev, v, j)
    ensures RowSeen(g, lev[g.col[j] := d], v, j + 1)
    ensures lev[g.col[j]] != UNSEEN ==> RowSeen(g, lev, v, j + 1)
  {
  }

  lemma RowSkip(g: Csr, lev: seq<word>, q: seq<nat>, head: nat, j: nat)
    requires RowInv(g, lev, q, head, j) && g.rowptr[q[head - 1]] <= j < g.rowptr[q[head - 1] + 1]
    ensures lev[g.col[j]] != UNSEEN ==> RowInv(g, lev, q, head, j + 1)
  {
  }

  /** Storing in the arrays is updating the sequences. */
  method Enqueue(rlev: array<word>, queue: array<nat>, u: nat, d: word, tail: nat)
    requires u < rlev.Length && tail < queue.Length
    modifies rlev, queue
    ensures rlev[..] == old(rlev[..])[u := d]
    ensures queue[..tail + 1] == old(queue[..tail]) + [u]
  {
    rlev[u] := d;
    queue[tail] := u;
  }

  /** The end of a row: the next dequeue starts from a covered level. */
  lemma RowDone(g: Csr, lev: seq<word>, q: seq<nat>, head: nat, j: nat)
    requires RowInv(g, lev, q, head, j) && j >= g.rowptr[q[head - 1] + 1]
    ensures SearchInv(g, lev, q, head)
  {
    var d := lev[q[head - 1]];
    assert Processed(g, lev, q, head);
    if head < |q| && lev[q[head]] > d {
      assert q[head] in q && q[|q| - 1] in q;
      assert forall i | head <= i < |q| :: lev[q[i]] > d;
      CoverNext(g, lev, q, head, d);
    }
  }

  /** An exhausted queue: everything reachable is labelled. */
  lemma SearchDone(g: Csr, lev: seq<word>, q: seq<nat>)
    requires SearchInv(g, lev, q, |q|)
    ensures g.AreDistances(lev)
  {
    forall v: nat | v < g.nv
      ensures if exists d: nat :: g.IsDist(d, v) then g.IsDist(lev[v], v) else lev[v] == UNSEEN
    {
      if d: nat :| g.IsDist(d, v) {
        AllLabelled(g, lev, q, d, v);
      }
    }
  }

  lemma {:induction false} AllLabelled(g: Csr, lev: seq<word>, q: seq<nat>, d: nat, v: nat)
    requires SearchInv(g, lev, q, |q|) && g.IsDist(d, v) && v < g.nv
    ensures lev[v] != UNSEEN
  {
    if d == 0 {
      assert q[0] in q;
    } else {
      var u := DistPred(g, d, v);
      AllLabelled(g, lev, q, d - 1, u);
      var i :| 0 <= i < |q| && q[i] == u;
      var j :| g.rowptr[u] <= j < g.rowptr[u + 1] && g.col[j] == v;
      assert RowSeen(g, lev, q[i], g.rowptr[q[i] + 1]);
      assert lev[g.col[j]] != UNSEEN;
    }
  }

  /** The inner loop of the queue search: label and enqueue the unseen targets of v == queue[head - 1]. */
  method VisitRow(g: Csr, rlev: array<word>, queue: array<nat>, head: nat, tail0: nat) returns (tail: nat)
    requires g.Valid() && rlev.Length == queue.Length == g.nv && 0 < head <= tail0 <= g.nv
    requires queue[head - 1] < g.nv
    requires RowInv(g, rlev[..], queue[..tail0], head, g.rowptr[queue[head - 1]])
    modifies rlev, queue
    ensures head <= tail <= g.nv
    ensures SearchInv(g, rlev[..], queue[..tail], head)
  {
    hide QueueOk, Monotone, Processed, Covered, RowSeen, Seen;
    tail := tail0;
    var v := queue[head - 1];
    var j := g.rowptr[v];
    ghost var lev, q := rlev[..], queue[..tail];
    while j < g.rowptr[v + 1]
      invariant head <= tail <= g.nv && g.rowptr[v] <= j
      invariant rlev[..] == lev && queue[..tail] == q && q[head - 1] == v
      invariant RowInv(g, lev, q, head, j)
    {
      var u := g.col[j];
      RowSkip(g, lev, q, head, j);
      assert rlev[u] == lev[u] && rlev[v] == lev[v];
      if rlev[u] == UNSEEN {
        RowEnqueue(g, lev, q, head, j);
        Enqueue(rlev, queue, u, rlev[v] + 1, tail);
        lev, q, tail := lev[u := lev[v] + 1], q + [u], tail + 1;
      }
      j := j + 1;
    }
    RowDone(g, lev, q, head, j);
  }

  /** The A53's queue search: the shortest-path distance of every vertex, in arrays of nv words. */
  method QueueBfs(g: Csr, rlev: array<word>, queue: array<nat>)
    requires g.Valid() && rlev.Length == queue.Length == g.nv
    modifies rlev, queue
    ensures g.AreDistances(rlev[..])
  {
    for v := 0 to g.nv
      invariant forall i | 0 <= i < v :: rlev[i] == UNSEEN
    {
      rlev[v] := UNSEEN;
    }
    var head, tail := 0, 1;
    rlev[0] := 0;
    queue[0] := 0;
    assert queue[..1] == [0];
    while head < tail
      invariant 0 <= head <= tail <= g.nv
      invariant SearchInv(g, rlev[..], queue[..tail], head)
      decreases g.nv - head
    {
      head := head + 1;
      assert queue[..tail][head - 1] == queue[head - 1];
      tail := VisitRow(g, rlev, queue, head, tail);
    }
    SearchDone(g, rlev[..], queue[..tail]);
  }

  // ----- the golden frontier search -----

  ghost predicate IsFrontier(g: Csr, lev: seq<word>, frontier: seq<nat>, lvl: word)
    requires g.Valid()
  {
    && |lev| == g.nv
    && (forall i | 0 <= i < |frontier| :: frontier[i] < g.nv)
    && forall v: nat | v < g.nv :: v in frontier <==> lev[v] == lvl
  }

  /** Part of a level has been discovered: rows of the first i frontier vertices, and the last row up to j. */
  ghost predicate Growing(g: Csr, lvl: word, lev: seq<word>, next: seq<nat>) {
    && g.Valid() && lvl + 1 < UNSEEN && |lev| == g.nv
    && (forall u: nat | u < g.nv :: LevelOk(g, lvl, u, lev[u]))
    && IsFrontier(g, lev, next, lvl + 1)
  }

  /** The generator's expectation: final levels, and for every launch the flag it must leave. */
  method GoldenBfs(g: Csr, ghost ecc: nat) returns (lev: seq<word>, flags: seq<word>)
    requires g.Valid() && g.IsEccentricity(ecc)
    ensures g.AreDistances(lev)
    ensures |flags| == ecc + 1
    ensures forall l | 0 <= l < |flags| :: flags[l] == if LevelNonEmpty(g, l + 1) then 1 else 0
  {
    lev := seq(g.nv, v requires 0 <= v < g.nv => if v == 0 then 0 else UNSEEN);
    LabelStart(g);
    assert lev == g.Labels(0);
    var frontier, lvl := [0], 0;
    flags := [];
    EccentricityBound(g, ecc);
    while true
      invariant lvl == |flags| <= ecc < g.nv
      invariant lev == g.Labels(lvl) && IsFrontier(g, lev, frontier, lvl)
      invariant forall l | 0 <= l < |flags| :: flags[l] == if LevelNonEmpty(g, l + 1) then 1 else 0
      decreases ecc - lvl
    {
      var next;
      lev, next := GoldenLevel(g, lvl, lev, frontier);
      LevelNonEmptyIff(g, ecc, lvl + 1);
      NextIsLevel(g, lvl, lev, next);
      flags := flags + [if next != [] then 1 else 0];
      if next == [] {
        break;
      }
      frontier, lvl := next, lvl + 1;
    }
    LabelsComplete(g, lvl + 1, ecc);
  }

  lemma EccentricityBound(g: Csr, ecc: nat)
    requires g.Valid() && g.IsEccentricity(ecc)
    ensures ecc < g.nv
  {
    var v: nat :| v < g.nv && g.IsDist(ecc, v);
    DistBound(g, ecc, v);
  }

  lemma NextIsLevel(g: Csr, lvl: word, lev: seq<word>, next: seq<nat>)
    requires g.Valid() && lvl + 1 < UNSEEN && lev == g.Labels(lvl + 1) && IsFrontier(g, lev, next, lvl + 1)
    ensures next != [] <==> LevelNonEmpty(g, lvl + 1)
  {
    if next != [] {
      assert next[0] in next;
      LabelIsDist(g, lvl + 1, next[0]);
    }
    if LevelNonEmpty(g, lvl + 1) {
      var v: nat :| v < g.nv && g.IsDist(lvl + 1, v);
      DistBound(g, lvl + 1, v);
      LabelIsDist(g, lvl + 1, v);
    }
  }

  /** One level of the golden search: all rows of the frontier, in order. */
  method GoldenLevel(g: Csr, lvl: word, lev0: seq<word>, frontier: seq<nat>) returns (lev: seq<word>, next: seq<nat>)
    requires g.Valid() && lvl + 1 < UNSEEN && lev0 == g.Labels(lvl) && IsFrontier(g, lev0, frontier, lvl)
    ensures lev == g.Labels(lvl + 1) && IsFrontier(g, lev, next, lvl + 1)
  {
    lev, next := lev0, [];
    for i := 0 to |frontier|
      invariant Growing(g, lvl, lev, next) && RowsSeen(g, lev, frontier, i)
    {
      var v := frontier[i];
      assert v in frontier && v < g.nv && g.Label(lvl, v) == lvl;
      var j := g.rowptr[v];
      while j < g.rowptr[v + 1]
        invariant g.rowptr[v] <= j && Growing(g, lvl, lev, next)
        invariant RowSeen(g, lev, v, j) && RowsSeen(g, lev, frontier, i)
      {
        hide IsFrontier, LevelOk, NextLevel, RowSeen;
        GoldenVisit(g, lvl, lev, next, frontier, i, v, j);
        var u := g.col[j];
        if lev[u] == UNSEEN {
          lev := lev[u := lvl + 1];
          next := next + [u];
        }
        j := j + 1;
      }
    }
    GoldenLevelDone(g, lvl, lev0, frontier, lev);
  }

  /** Rows of the first i frontier vertices only name labelled vertices. */
  ghost predicate RowsSeen(g: Csr, lev: seq<word>, frontier: seq<nat>, i: nat)
    requires g.Valid() && |lev| == g.nv && i <= |frontier|
  {
    forall k | 0 <= k < i :: frontier[k] < g.nv && RowSeen(g, lev, frontier[k], g.rowptr[frontier[k] + 1])
  }

  /** Visiting one target of a frontier vertex. */
  lemma GoldenVisit(g: Csr, lvl: word, lev: seq<word>, next: seq<nat>, frontier: seq<nat>, i: nat, v: nat, j: nat)
    requires Growing(g, lvl, lev, next) && v < g.nv && g.Label(lvl, v) == lvl && i <= |frontier|
    requires g.rowptr[v] <= j < g.rowptr[v + 1] && RowSeen(g, lev, v, j) && RowsSeen(g, lev, frontier, i)
    ensures var u := g.col[j];
            var lev' := if lev[u] == UNSEEN then lev[u := lvl + 1] else lev;
            var next' := if lev[u] == UNSEEN then next + [u] else next;
            Growing(g, lvl, lev', next') && RowSeen(g, lev', v, j + 1) && RowsSeen(g, lev', frontier, i)
  {
    hide RowSeen, LevelOk, IsFrontier;
    var u := g.col[j];
    VisitSeen(g, lev, v, j, lvl + 1);
    if lev[u] == UNSEEN {
      GoldenLabel(g, lvl, lev, next, v, j);
      forall k | 0 <= k < i
        ensures RowSeen(g, lev[u := lvl + 1], frontier[k], g.rowptr[frontier[k] + 1])
      {
        RowSeenKept(g, lev, frontier[k], g.rowptr[frontier[k] + 1], u, lvl + 1);
      }
    }
  }

  lemma GoldenLabel(g: Csr, lvl: word, lev: seq<word>, next: seq<nat>, v: nat, j: nat)
    requires Growing(g, lvl, lev, next) && v < g.nv && g.Label(lvl, v) == lvl
    requires g.rowptr[v] <= j < g.rowptr[v + 1] && lev[g.col[j]] == UNSEEN
    ensures Growing(g, lvl, lev[g.col[j] := lvl + 1], next + [g.col[j]])
  {
  }

  lemma GoldenLevelDone(g: Csr, lvl: word, lev0: seq<word>, frontier: seq<nat>, lev: seq<word>)
    requires g.Valid() && lvl + 1 < UNSEEN && lev0 == g.Labels(lvl) && IsFrontier(g, lev0, frontier, lvl)
    requires |lev| == g.nv && forall u: nat | u < g.nv :: LevelOk(g, lvl, u, lev[u])
    requires RowsSeen(g, lev, frontier, |frontier|)
    ensures lev == g.Labels(lvl + 1)
  {
    forall u: nat | u < g.nv
      ensures lev[u] == g.Label(lvl + 1, u)
    {
      LabelStep(g, lvl, u);
      LabelIsDist(g, lvl, u);
      assert LevelOk(g, lvl, u, lev[u]);
      if NextLevel(g, lvl, u) {
        var v: nat :| g.Label(lvl, v) == lvl && g.Edge(v, u);
        var k :| 0 <= k < |frontier| && frontier[k] == v;
        var j :| g.rowptr[v] <= j < g.rowptr[v + 1] && g.col[j] == u;
        assert RowSeen(g, lev, frontier[k], g.rowptr[frontier[k] + 1]);
        assert lev[g.col[j]] != UNSEEN;
      }
    }
  }

  /** The board check: on graphs of eccentricity at most 64 the accelerator, under any interleaving, and the
      A53's queue leave the same array; on every other graph they differ. Up to 65 vertices they always agree. */
  method CompareOnBoard(g: Csr, lev: array<word>, rlev: array<word>, queue: array<nat>, ghost ecc: nat) returns (same: bool)
    requires g.Valid() && lev.Length == rlev.Length == queue.Length == g.nv && g.IsEccentricity(ecc)
    requires lev != rlev
    modifies lev, rlev, queue
    ensures same <==> ecc <= 64
    ensures g.nv <= 65 ==> same
  {
    EccentricityBound(g, ecc);
    var launches := AcceleratorBfs(g, lev, ecc);
    QueueBfs(g, rlev, queue);
    if g.AreDistances(lev[..]) {
      DistancesUnique(g, lev[..], rlev[..]);
    }
    same := lev[..] == rlev[..];
  }
}
