/** One launch of the data-parallel BFS kernel, as interleaved single memory accesses.
    Every thread is a small program counter; a step performs exactly one shared access (a plain read or
    write of level[], a read of the graph, or the atomic OR on the flag) and the local work up to the next. */
module BfsKernel {
  import opened Words
  import opened Graphs

  datatype Thread =
    | Begin                                                  // about to read level[v]
    | Row                                                    // about to read rowptr[v]
    | RowEnd(j: nat)                                         // about to read rowptr[v + 1]
    | ReadCol(j: nat, e: nat, found: bool)                   // about to read col[j]
    | ReadLevel(j: nat, e: nat, found: bool, u: nat)         // about to read level[u]
    | Write(j: nat, e: nat, found: bool, u: nat)             // saw UNSEEN: about to write level[u]
    | SetFlag                                                // about to OR 1 into the flag
    | Done

  /** The memory all threads share, and where each thread is. */
  datatype Grid = Grid(level: seq<word>, flag: word, threads: seq<Thread>)

  /** The local loop test and what follows the loop. */
  function AtTest(j: nat, e: nat, found: bool): Thread {
    if j < e then ReadCol(j, e, found) else if found then SetFlag else Done
  }

  /** Bitwise OR of 1 into a word. */
  function OrOne(w: word): word {
    if w % 2 == 0 then w + 1 else w
  }

  ghost predicate InRange(g: Csr, t: Thread)
    requires g.Valid()
  {
    match t
    case ReadCol(j, e, _) => j < e <= |g.col|
    case ReadLevel(j, e, _, u) => j < e <= |g.col| && g.col[j] == u
    case Write(j, e, _, u) => j < e <= |g.col| && g.col[j] == u
    case _ => true
  }

  ghost predicate Shape(g: Csr, s: Grid) {
    && g.Valid()
    && |s.level| == |s.threads| == g.nv
    && forall v: nat | v < g.nv :: InRange(g, s.threads[v])
  }

  function Goto(s: Grid, v: nat, t: Thread): Grid
    requires v < |s.threads|
  {
    s.(threads := s.threads[v := t])
  }

  /** Thread v's next access in the launch of level `lvl`. */
  ghost function Step(g: Csr, lvl: word, s: Grid, v: nat): (r: Grid)
    requires Shape(g, s) && v < g.nv
    ensures Shape(g, r)
  {
    match s.threads[v]
    case Begin => Goto(s, v, if s.level[v] == lvl then Row else Done)
    case Row => Goto(s, v, RowEnd(g.rowptr[v]))
    case RowEnd(j) => Goto(s, v, AtTest(j, g.rowptr[v + 1], false))
    case ReadCol(j, e, f) => Goto(s, v, ReadLevel(j, e, f, g.col[j]))
    case ReadLevel(j, e, f, u) => Goto(s, v, if s.level[u] == UNSEEN then Write(j, e, f, u) else AtTest(j + 1, e, f))
    case Write(j, e, f, u) => Goto(s, v, AtTest(j + 1, e, true)).(level := s.level[u := AddW(lvl, 1)])
    case SetFlag => Goto(s, v, Done).(flag := OrOne(s.flag))
    case Done => s
  }

  /** An interleaving: the thread ids in the order in which they perform their accesses. */
  ghost predicate Schedule(g: Csr, sched: seq<nat>) {
    forall i | 0 <= i < |sched| :: sched[i] < g.nv
  }

  ghost function Run(g: Csr, lvl: word, s: Grid, sched: seq<nat>): (r: Grid)
    requires Shape(g, s) && Schedule(g, sched)
    ensures Shape(g, r)
    decreases |sched|
  {
    if sched == [] then s else Run(g, lvl, Step(g, lvl, s, sched[0]), sched[1..])
  }

  ghost predicate Finished(s: Grid) {
    forall v | 0 <= v < |s.threads| :: s.threads[v].Done?
  }

  /** The grid at launch: every vertex within lvl edges labelled, the flag clear. */
  ghost function Launch(g: Csr, lvl: word): (s: Grid)
    requires g.Valid()
    ensures Shape(g, s)
  {
    Grid(g.Labels(lvl), 0, seq(g.nv, _ => Begin))
  }

  // ----- the launch invariant -----

  /** Vertex u is what this launch has to discover. */
  ghost predicate NextLevel(g: Csr, lvl: word, u: nat)
    requires g.Valid()
  {
    g.Label(lvl, u) == UNSEEN && exists v: nat :: g.Label(lvl, v) == lvl && g.Edge(v, u)
  }

  ghost predicate LevelOk(g: Csr, lvl: word, u: nat, x: word)
    requires g.Valid() && lvl < UNSEEN
  {
    x == g.Label(lvl, u) || (x == lvl + 1 && NextLevel(g, lvl, u))
  }

  /** Positions from..to of v's row only name vertices that are no longer UNSEEN. */
  ghost predicate Seen(g: Csr, level: seq<word>, from: nat, to: nat)
    requires g.Valid() && |level| == g.nv
  {
    forall k | from <= k < to && k < |g.col| :: level[g.col[k]] != UNSEEN
  }

  ghost predicate ThreadOk(g: Csr, lvl: word, level: seq<word>, v: nat, t: Thread)
    requires g.Valid() && |level| == g.nv && v < g.nv && lvl < UNSEEN
  {
    var frontier := g.Label(lvl, v) == lvl;
    match t
    case Begin => true
    case Row => frontier
    case RowEnd(j) => frontier && j == g.rowptr[v]
    case ReadCol(j, e, _) => frontier && g.rowptr[v] <= j < e == g.rowptr[v + 1] && Seen(g, level, g.rowptr[v], j)
    case ReadLevel(j, e, _, u) =>
      frontier && g.rowptr[v] <= j < e == g.rowptr[v + 1] && g.col[j] == u && Seen(g, level, g.rowptr[v], j)
    case Write(j, e, _, u) =>
      && frontier && g.rowptr[v] <= j < e == g.rowptr[v + 1] && g.col[j] == u && Seen(g, level, g.rowptr[v], j)
      && g.Label(lvl, u) == UNSEEN
    case SetFlag => frontier && Seen(g, level, g.rowptr[v], g.rowptr[v + 1])
    case Done => frontier ==> Seen(g, level, g.rowptr[v], g.rowptr[v + 1])
  }

  /** Thread v has discovered something and still has to raise the flag. */
  ghost predicate WillFlag(t: Thread) {
    match t
    case ReadCol(_, _, f) => f
    case ReadLevel(_, _, f, _) => f
    case Write(_, _, f, _) => f
    case SetFlag => true
    case _ => false
  }

  ghost predicate Discovered(g: Csr, lvl: word, level: seq<word>, u: nat)
    requires g.Valid() && |level| == g.nv
  {
    u < g.nv && level[u] == lvl + 1
  }

  ghost predicate Found(g: Csr, lvl: word, level: seq<word>)
    requires g.Valid() && |level| == g.nv
  {
    exists u: nat :: Discovered(g, lvl, level, u)
  }

  ghost predicate Pending(ts: seq<Thread>) {
    exists v: nat :: v < |ts| && WillFlag(ts[v])
  }

  ghost predicate Inv(g: Csr, lvl: word, s: Grid)
    requires lvl < UNSEEN
  {
    && Shape(g, s)
    && (forall u: nat | u < g.nv :: LevelOk(g, lvl, u, s.level[u]))
    && (forall v: nat | v < g.nv :: ThreadOk(g, lvl, s.level, v, s.threads[v]))
    && s.flag <= 1
    // the flag, now or soon, records exactly that something was discovered
    && (Found(g, lvl, s.level) <==> s.flag == 1 || Pending(s.threads))
  }

  lemma LaunchInv(g: Csr, lvl: word)
    requires g.Valid() && lvl + 1 < UNSEEN
    ensures Inv(g, lvl, Launch(g, lvl))
  {
  }

  /** Writing level[u] := lvl + 1 never un-labels a vertex, so what a thread has passed stays seen. */
  lemma WriteKeepsThread(g: Csr, lvl: word, level: seq<word>, u: nat, v: nat, t: Thread)
    requires g.Valid() && |level| == g.nv && v < g.nv && u < g.nv && lvl + 1 < UNSEEN
    requires ThreadOk(g, lvl, level, v, t)
    ensures ThreadOk(g, lvl, level[u := lvl + 1], v, t)
  {
  }

  lemma PendingGoto(s: Grid, v: nat, t: Thread)
    requires v < |s.threads| && WillFlag(t) == WillFlag(s.threads[v])
    ensures Pending(Goto(s, v, t).threads) == Pending(s.threads)
  {
    var r := Goto(s, v, t);
    if w: nat :| w < |s.threads| && WillFlag(s.threads[w]) {
      assert WillFlag(r.threads[w]);
    }
    if w: nat :| w < |r.threads| && WillFlag(r.threads[w]) {
      assert WillFlag(s.threads[w]);
    }
  }

  /** Moving one thread only. */
  lemma GotoInv(g: Csr, lvl: word, s: Grid, v: nat, t: Thread)
    requires lvl + 1 < UNSEEN && Inv(g, lvl, s) && v < g.nv && InRange(g, t)
    requires ThreadOk(g, lvl, s.level, v, t) && WillFlag(t) == WillFlag(s.threads[v])
    ensures Inv(g, lvl, Goto(s, v, t))
  {
    PendingGoto(s, v, t);
  }

  lemma WriteInv(g: Csr, lvl: word, s: Grid, v: nat)
    requires lvl + 1 < UNSEEN && Inv(g, lvl, s) && v < g.nv && s.threads[v].Write?
    ensures Inv(g, lvl, Step(g, lvl, s, v))
  {
    var Write(j, e, f, u) := s.threads[v];
    var r := Step(g, lvl, s, v);
    assert g.Edge(v, u);
    assert NextLevel(g, lvl, u);
    assert Discovered(g, lvl, r.level, u);
    assert Seen(g, r.level, g.rowptr[v], j + 1);
    forall w: nat | w < g.nv
      ensures ThreadOk(g, lvl, r.level, w, r.threads[w])
    {
      if w != v {
        WriteKeepsThread(g, lvl, s.level, u, w, s.threads[w]);
      }
    }
    assert WillFlag(r.threads[v]);
  }

  lemma ReadLevelInv(g: Csr, lvl: word, s: Grid, v: nat)
    requires lvl + 1 < UNSEEN && Inv(g, lvl, s) && v < g.nv && s.threads[v].ReadLevel?
    ensures Inv(g, lvl, Step(g, lvl, s, v))
  {
    var ReadLevel(j, e, f, u) := s.threads[v];
    if s.level[u] == UNSEEN {
      assert LevelOk(g, lvl, u, s.level[u]);
      GotoInv(g, lvl, s, v, Write(j, e, f, u));
    } else {
      assert Seen(g, s.level, g.rowptr[v], j + 1);
      GotoInv(g, lvl, s, v, AtTest(j + 1, e, f));
    }
  }

  lemma SetFlagInv(g: Csr, lvl: word, s: Grid, v: nat)
    requires lvl + 1 < UNSEEN && Inv(g, lvl, s) && v < g.nv && s.threads[v].SetFlag?
    ensures Inv(g, lvl, Step(g, lvl, s, v))
  {
    assert WillFlag(s.threads[v]);
    var r := Step(g, lvl, s, v);
    assert r.flag == 1 && r.level == s.level;
  }

  /** Every single access of every thread keeps the launch invariant. */
  lemma StepInv(g: Csr, lvl: word, s: Grid, v: nat)
    requires lvl + 1 < UNSEEN && Inv(g, lvl, s) && v < g.nv
    ensures Inv(g, lvl, Step(g, lvl, s, v))
  {
    match s.threads[v]
    case Begin =>
      GotoInv(g, lvl, s, v, if s.level[v] == lvl then Row else Done) by {
        assert LevelOk(g, lvl, v, s.level[v]);
      }
    case Row => GotoInv(g, lvl, s, v, RowEnd(g.rowptr[v]));
    case RowEnd(j) => GotoInv(g, lvl, s, v, AtTest(j, g.rowptr[v + 1], false));
    case ReadCol(j, e, f) => GotoInv(g, lvl, s, v, ReadLevel(j, e, f, g.col[j]));
    case ReadLevel(_, _, _, _) => ReadLevelInv(g, lvl, s, v);
    case Write(_, _, _, _) => WriteInv(g, lvl, s, v);
    case SetFlag => SetFlagInv(g, lvl, s, v);
    case Done =>
  }

  lemma {:induction false} RunInv(g: Csr, lvl: word, s: Grid, sched: seq<nat>)
    requires lvl + 1 < UNSEEN && Inv(g, lvl, s) && Schedule(g, sched)
    ensures Inv(g, lvl, Run(g, lvl, s, sched))
    decreases |sched|
  {
    if sched != [] {
      StepInv(g, lvl, s, sched[0]);
      RunInv(g, lvl, Step(g, lvl, s, sched[0]), sched[1..]);
    }
  }

  // ----- the effect of a whole launch -----

  ghost predicate LevelNonEmpty(g: Csr, d: nat)
    requires g.Valid()
  {
    exists v: nat :: v < g.nv && g.IsDist(d, v)
  }

  lemma FinishedEffect(g: Csr, lvl: word, s: Grid)
    requires lvl + 1 < UNSEEN && Inv(g, lvl, s) && Finished(s)
    ensures s.level == g.Labels(lvl + 1)
    ensures s.flag == if LevelNonEmpty(g, lvl + 1) then 1 else 0
  {
    forall u: nat | u < g.nv
      ensures s.level[u] == g.Label(lvl + 1, u)
    {
      LabelStep(g, lvl, u);
      LabelIsDist(g, lvl, u);
      assert LevelOk(g, lvl, u, s.level[u]);
      if NextLevel(g, lvl, u) {
        var v: nat :| g.Label(lvl, v) == lvl && g.Edge(v, u);
        var j :| g.rowptr[v] <= j < g.rowptr[v + 1] && g.col[j] == u;
        assert ThreadOk(g, lvl, s.level, v, s.threads[v]);
        assert s.level[g.col[j]] != UNSEEN;
      }
    }
    FlagEffect(g, lvl, s);
  }

  lemma FlagEffect(g: Csr, lvl: word, s: Grid)
    requires lvl + 1 < UNSEEN && Inv(g, lvl, s) && Finished(s)
    requires forall u: nat | u < g.nv :: s.level[u] == g.Label(lvl + 1, u)
    ensures s.flag == if LevelNonEmpty(g, lvl + 1) then 1 else 0
  {
    if u: nat :| Discovered(g, lvl, s.level, u) {
      LabelIsDist(g, lvl + 1, u);
      assert g.IsDist(lvl + 1, u);
    }
    if LevelNonEmpty(g, lvl + 1) {
      var v: nat :| v < g.nv && g.IsDist(lvl + 1, v);
      LabelIsDist(g, lvl + 1, v);
      assert Discovered(g, lvl, s.level, v);
    }
  }

  /** Any complete interleaving of the threads' accesses turns the labels of level lvl into those of
      level lvl + 1 and sets the flag exactly when some vertex lies at distance lvl + 1. */
  lemma LaunchTheorem(g: Csr, lvl: word, sched: seq<nat>)
    requires g.Valid() && lvl + 1 < UNSEEN && Schedule(g, sched)
    requires Finished(Run(g, lvl, Launch(g, lvl), sched))
    ensures Run(g, lvl, Launch(g, lvl), sched).level == g.Labels(lvl + 1)
    ensures Run(g, lvl, Launch(g, lvl), sched).flag == if LevelNonEmpty(g, lvl + 1) then 1 else 0
  {
    LaunchInv(g, lvl);
    RunInv(g, lvl, Launch(g, lvl), sched);
    FinishedEffect(g, lvl, Run(g, lvl, Launch(g, lvl), sched));
  }

  // ----- termination of every interleaving -----

  /** An upper bound on the accesses thread t still has to make. */
  ghost function Left(g: Csr, t: Thread): nat
    requires g.Valid() && InRange(g, t)
  {
    match t
    case Begin => 3 * |g.col| + 4
    case Row => 3 * |g.col| + 3
    case RowEnd(_) => 3 * |g.col| + 2
    case ReadCol(j, e, _) => 3 * (e - j) + 1
    case ReadLevel(j, e, _, _) => 3 * (e - j)
    case Write(j, e, _, _) => 3 * (e - j) - 1
    case SetFlag => 1
    case Done => 0
  }

  ghost function TotalLeft(g: Csr, ts: seq<Thread>): nat
    requires g.Valid() && forall i | 0 <= i < |ts| :: InRange(g, ts[i])
  {
    if ts == [] then 0 else Left(g, ts[0]) + TotalLeft(g, ts[1..])
  }

  lemma {:induction false} TotalLeftUpdate(g: Csr, ts: seq<Thread>, v: nat, t: Thread)
    requires g.Valid() && v < |ts| && InRange(g, t) && forall i | 0 <= i < |ts| :: InRange(g, ts[i])
    ensures TotalLeft(g, ts[v := t]) == TotalLeft(g, ts) - Left(g, ts[v]) + Left(g, t)
    decreases |ts|
  {
    if v == 0 {
      assert ts[v := t][1..] == ts[1..];
    } else {
      assert ts[v := t][1..] == ts[1..][v - 1 := t];
      TotalLeftUpdate(g, ts[1..], v - 1, t);
    }
  }

  /** A step of an unfinished thread uses up budget: no interleaving of a launch runs forever. */
  lemma StepProgress(g: Csr, lvl: word, s: Grid, v: nat)
    requires Shape(g, s) && v < g.nv && !s.threads[v].Done?
    ensures TotalLeft(g, Step(g, lvl, s, v).threads) < TotalLeft(g, s.threads)
  {
    TotalLeftUpdate(g, s.threads, v, Step(g, lvl, s, v).threads[v]);
  }
}
