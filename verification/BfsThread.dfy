/** One thread of the BFS kernel on its own: what the C function does to memory, for any level array at all,
    and that the 30-word image running alone does exactly that; and the bound on every interleaved run. */
module BfsThread {
  import opened Words
  import opened Graphs
  import opened BfsKernel
  import opened Rv32
  import opened DeviceMemory
  import opened BfsMachine

  // ----- the C function -----

  /** Some target in positions from..to of the column array is u. */
  ghost predicate Targets(g: Csr, from: nat, to: nat, u: nat) {
    exists k :: from <= k < to && k < |g.col| && g.col[k] == u
  }

  /** The level of u once positions rowptr[v]..to have been visited. */
  ghost function VisitedLevel(g: Csr, lvl: word, level: seq<word>, v: nat, to: nat, u: nat): word
    requires g.Valid() && |level| == g.nv && v < g.nv && u < g.nv
  {
    if level[u] == UNSEEN && Targets(g, g.rowptr[v], to, u) then AddW(lvl, 1) else level[u]
  }

  ghost predicate VisitedFound(g: Csr, level: seq<word>, v: nat, to: nat)
    requires g.Valid() && |level| == g.nv && v < g.nv
  {
    exists k :: g.rowptr[v] <= k < to && k < |g.col| && level[g.col[k]] == UNSEEN
  }

  /** The memory effect of thread v: if v is in the frontier, every unseen target of v gets lvl + 1 (modulo 2^32), and the
      flag is ORed with 1 if there was any; otherwise nothing. */
  ghost function EffectLevel(g: Csr, lvl: word, level: seq<word>, v: nat): (r: seq<word>)
    requires g.Valid() && |level| == g.nv && v < g.nv
    ensures |r| == g.nv
  {
    if level[v] != lvl then level
    else seq(g.nv, u requires 0 <= u < g.nv => VisitedLevel(g, lvl, level, v, g.rowptr[v + 1], u))
  }

  ghost function EffectFlag(g: Csr, lvl: word, level: seq<word>, flag: word, v: nat): word
    requires g.Valid() && |level| == g.nv && v < g.nv
  {
    if level[v] == lvl && VisitedFound(g, level, v, g.rowptr[v + 1]) then OrOne(flag) else flag
  }

  /** The kernel function as written: a loop over the row, writing the level array in place. */
  method KernelThread(g: Csr, lvl: word, level: array<word>, flag: word, v: nat) returns (flag': word)
    requires g.Valid() && level.Length == g.nv && v < g.nv
    modifies level
    ensures level[..] == EffectLevel(g, lvl, old(level[..]), v)
    ensures flag' == EffectFlag(g, lvl, old(level[..]), flag, v)
  {
    flag' := flag;
    if level[v] != lvl {
      return;
    }
    ghost var before := level[..];
    var found := false;
    var j := g.rowptr[v];
    while j < g.rowptr[v + 1]
      invariant g.rowptr[v] <= j
      invariant j > g.rowptr[v] ==> j <= g.rowptr[v + 1]
      invariant forall u: nat | u < g.nv :: level[u] == VisitedLevel(g, lvl, before, v, j, u)
      invariant found <==> VisitedFound(g, before, v, j)
    {
      var u := g.col[j];
      assert before[u] != UNSEEN ==> level[u] == before[u];
      if level[u] == UNSEEN {
        level[u] := AddW(lvl, 1);
        found := true;
      }
      j := j + 1;
    }
    if found {
      flag' := OrOne(flag);
    }
    assert level[..] == EffectLevel(g, lvl, before, v);
  }

  // ----- the protocol, one thread only -----

  /** Positions rowptr[v]..to of v's row have been visited. */
  ghost predicate Visited(g: Csr, lvl: word, before: seq<word>, flag0: word, v: nat, s: Grid, to: nat, found: bool)
    requires Shape(g, s) && v < g.nv && |before| == g.nv
  {
    && before[v] == lvl && s.flag == flag0 && g.rowptr[v] <= to <= g.rowptr[v + 1]
    && (forall u: nat | u < g.nv :: s.level[u] == VisitedLevel(g, lvl, before, v, to, u))
    && (found <==> VisitedFound(g, before, v, to))
  }

  /** Where thread v is when it has run alone since the level array was `before` and the flag `flag0`. */
  ghost predicate Alone(g: Csr, lvl: word, before: seq<word>, flag0: word, v: nat, s: Grid) {
    && Shape(g, s) && v < g.nv && |before| == g.nv
    && var end := g.rowptr[v + 1];
    match s.threads[v]
    case Begin => s.level == before && s.flag == flag0
    case Row => s.level == before && s.flag == flag0 && before[v] == lvl
    case RowEnd(j) => s.level == before && s.flag == flag0 && before[v] == lvl && j == g.rowptr[v]
    case ReadCol(j, e, f) => e == end && j < e && Visited(g, lvl, before, flag0, v, s, j, f)
    case ReadLevel(j, e, f, _) => e == end && j < e && Visited(g, lvl, before, flag0, v, s, j, f)
    case Write(j, e, f, u) =>
      e == end && j < e && before[u] == UNSEEN && Visited(g, lvl, before, flag0, v, s, j, f)
    case SetFlag => Visited(g, lvl, before, flag0, v, s, end, true)
    case Done => s.level == EffectLevel(g, lvl, before, v) && s.flag == EffectFlag(g, lvl, before, flag0, v)
  }

  /** The local loop test with everything before position j visited. */
  lemma AloneAtTest(g: Csr, lvl: word, before: seq<word>, flag0: word, v: nat, s: Grid, j: nat, f: bool)
    requires Shape(g, s) && v < g.nv && |before| == g.nv && before[v] == lvl && s.flag == flag0
    requires g.rowptr[v] <= j && (j <= g.rowptr[v + 1] || j == g.rowptr[v])
    requires forall u: nat | u < g.nv :: s.level[u] == VisitedLevel(g, lvl, before, v, j, u)
    requires f <==> VisitedFound(g, before, v, j)
    ensures Alone(g, lvl, before, flag0, v, Goto(s, v, AtTest(j, g.rowptr[v + 1], f)))
  {
    if j >= g.rowptr[v + 1] {
      forall u: nat | u < g.nv
        ensures VisitedLevel(g, lvl, before, v, j, u) == VisitedLevel(g, lvl, before, v, g.rowptr[v + 1], u)
      {
      }
      assert VisitedFound(g, before, v, j) == VisitedFound(g, before, v, g.rowptr[v + 1]);
      assert !f ==> s.level == EffectLevel(g, lvl, before, v);
    }
  }

  lemma AloneReadLevel(g: Csr, lvl: word, before: seq<word>, flag0: word, v: nat, s: Grid)
    requires Alone(g, lvl, before, flag0, v, s) && s.threads[v].ReadLevel?
    ensures Alone(g, lvl, before, flag0, v, Step(g, lvl, s, v))
  {
    var ReadLevel(j, e, f, u) := s.threads[v];
    if s.level[u] != UNSEEN {
      AloneAtTest(g, lvl, before, flag0, v, s, j + 1, f);
    }
  }

  lemma AloneWrite(g: Csr, lvl: word, before: seq<word>, flag0: word, v: nat, s: Grid)
    requires Alone(g, lvl, before, flag0, v, s) && s.threads[v].Write?
    ensures Alone(g, lvl, before, flag0, v, Step(g, lvl, s, v))
  {
    var Write(j, e, f, u) := s.threads[v];
    var s' := s.(level := s.level[u := AddW(lvl, 1)]);
    AloneAtTest(g, lvl, before, flag0, v, s', j + 1, true);
    assert Step(g, lvl, s, v) == Goto(s', v, AtTest(j + 1, e, true));
  }

  lemma AloneStep(g: Csr, lvl: word, before: seq<word>, flag0: word, v: nat, s: Grid)
    requires Alone(g, lvl, before, flag0, v, s)
    ensures Alone(g, lvl, before, flag0, v, Step(g, lvl, s, v))
  {
    match s.threads[v]
    case Begin =>
    case Row =>
    case RowEnd(j) =>
      AloneAtTest(g, lvl, before, flag0, v, s, j, false);
    case ReadCol(_, _, _) =>
    case ReadLevel(_, _, _, _) => AloneReadLevel(g, lvl, before, flag0, v, s);
    case Write(_, _, _, _) => AloneWrite(g, lvl, before, flag0, v, s);
    case SetFlag =>
      assert s.level == EffectLevel(g, lvl, before, v);
    case Done =>
  }

  // ----- the image, one hart only -----

  /** n instructions of one hart. */
  ghost function RunHart(h: Hart, mem: Memory, n: nat): Outcome
    decreases n
  {
    if n == 0 then Next(h, mem)
    else if !WellFormed(h) then Trap
    else match StepHart(Code(), h, mem)
      case Next(h', mem') => RunHart(h', mem', n - 1)
      case Trap => Trap
  }

  /** An upper bound on the instructions a hart still has to execute. */
  ghost function HartLeft(g: Csr, h: Hart): int
    requires WellFormed(h)
  {
    var k: int, d: int := h.pc / 4, h.x[7] as int - h.x[6] as int;
    if h.halted then 0
    else if k <= 10 then 21 - k + 12 * |g.col|
    else if k <= 13 then 21 - k + if d > 0 then 12 * d else 0
    else if k <= 24 then 12 * d - k + 21
    else if k == 25 then 12 * d + 8
    else 32 - k
  }

  lemma HartLeftNonNegative(g: Csr, lay: Layout, lvl: word, v: nat, h: Hart, t: Thread)
    requires g.Valid() && v < g.nv && Mirrors(g, lay, lvl, v, h, t) && InRange(g, t)
    ensures HartLeft(g, h) >= 0
  {
  }

  /** Where the program counter goes, and that the two loop registers only change where they should. */
  lemma ListingFlow(h: Hart, mem: Memory)
    requires WellFormed(h) && 0 <= h.pc < 120 && h.pc % 4 == 0
    requires Execute(Listing(h.pc / 4), h, mem).Next?
    ensures var k, h' := h.pc / 4, Execute(Listing(h.pc / 4), h, mem).hart;
            && (k < 29 ==> h'.halted == h.halted) && (k == 29 ==> h'.halted)
            && (k != 7 && k != 13 && k != 21 && k != 25 && k != 26 && k != 29 ==> h'.pc == h.pc + 4)
            && (k == 7 ==> h'.pc == 32 || h'.pc == 116)
            && (k == 13 ==> h'.pc == if Signed(h.x[6]) >= Signed(h.x[7]) then 104 else 56)
            && (k == 21 ==> h'.pc == 88 || h'.pc == 96)
            && (k == 25 ==> h'.pc == if Signed(h.x[6]) < Signed(h.x[7]) then 56 else 104)
            && (k == 26 ==> h'.pc == 108 || h'.pc == 116)
            && (k == 24 ==> h'.x[6] == AddW(h.x[6], 1) && h'.x[7] == h.x[7])
            && (11 <= k && k != 24 ==> h'.x[6] == h.x[6] && h'.x[7] == h.x[7])
  {
  }

  lemma HartProgress(g: Csr, lay: Layout, lvl: word, mem: Memory, s: Grid, v: nat, h: Hart)
    requires Ready(g, lay, lvl, mem, s, v, h) && !h.halted
    ensures StepHart(Code(), h, mem).Next? && WellFormed(StepHart(Code(), h, mem).hart)
    ensures HartLeft(g, StepHart(Code(), h, mem).hart) < HartLeft(g, h)
  {
    hide Image, Frame, Decode, Execute, Listing, BfsKernel.Step;
    ShapeAt(g, s, v);
    InstructionFollows(g, lay, lvl, mem, s, v, h);
    Decoded(h.pc / 4);
    ListingFlow(h, mem);
  }

  /** From its seeded registers the image alone retires, after at most 12 instructions per edge and 21 more,
      with exactly the memory effect of the C function. */
  lemma AloneTheorem(g: Csr, lay: Layout, lvl: word, mem: Memory, level: seq<word>, flag: word, v: nat, h: Hart)
    returns (n: nat)
    requires v < g.nv && Image(g, lay, lvl, mem, level, flag) && Seeded(h, v, lay.params)
    ensures n <= 12 * |g.col| + 21
    ensures RunHart(h, mem, n).Next? && RunHart(h, mem, n).hart.halted
    ensures Image(g, lay, lvl, RunHart(h, mem, n).mem, EffectLevel(g, lvl, level, v), EffectFlag(g, lvl, level, flag, v))
    ensures Frame(g, lay, mem, RunHart(h, mem, n).mem)
  {
    var s := Grid(level, flag, seq(g.nv, _ => Begin));
    n := AloneRun(g, lay, lvl, level, flag, mem, s, v, h);
  }

  lemma FrameTransitive(g: Csr, lay: Layout, a: Memory, b: Memory, c: Memory)
    requires Frame(g, lay, a, b) && Frame(g, lay, b, c)
    ensures Frame(g, lay, a, c)
  {
  }

  lemma {:induction false} AloneRun(g: Csr, lay: Layout, lvl: word, before: seq<word>, flag0: word, mem: Memory,
                                    s: Grid, v: nat, h: Hart)
    returns (n: nat)
    requires Ready(g, lay, lvl, mem, s, v, h) && Alone(g, lvl, before, flag0, v, s)
    ensures WellFormed(h) && n <= HartLeft(g, h)
    ensures RunHart(h, mem, n).Next? && RunHart(h, mem, n).hart.halted
    ensures Image(g, lay, lvl, RunHart(h, mem, n).mem, EffectLevel(g, lvl, before, v), EffectFlag(g, lvl, before, flag0, v))
    ensures Frame(g, lay, mem, RunHart(h, mem, n).mem)
    decreases HartLeft(g, h)
  {
    hide Image, Mirrors, StepHart, Shape, HartLeft, BfsKernel.Step;
    ShapeAt(g, s, v);
    WellFormedMirror(g, lay, lvl, v, h, s.threads[v]);
    HartLeftNonNegative(g, lay, lvl, v, h, s.threads[v]);
    if h.halted {
      n := 0;
    } else {
      HartProgress(g, lay, lvl, mem, s, v, h);
      InstructionFollows(g, lay, lvl, mem, s, v, h);
      AloneStep(g, lvl, before, flag0, v, s);
      var o := StepHart(Code(), h, mem);
      var m := AloneRun(g, lay, lvl, before, flag0, o.mem, Follow(g, lvl, s, v, h), v, o.hart);
      n := m + 1;
      FrameTransitive(g, lay, mem, o.mem, RunHart(o.hart, o.mem, m).mem);
    }
  }

  // ----- the bound on interleaved runs -----

  ghost function TotalHartLeft(g: Csr, hs: seq<Hart>): int
    requires forall i | 0 <= i < |hs| :: WellFormed(hs[i])
  {
    if hs == [] then 0 else HartLeft(g, hs[0]) + TotalHartLeft(g, hs[1..])
  }

  lemma {:induction false} TotalHartLeftUpdate(g: Csr, hs: seq<Hart>, v: nat, h: Hart)
    requires v < |hs| && WellFormed(h) && forall i | 0 <= i < |hs| :: WellFormed(hs[i])
    ensures TotalHartLeft(g, hs[v := h]) == TotalHartLeft(g, hs) - HartLeft(g, hs[v]) + HartLeft(g, h)
    decreases |hs|
  {
    hide WellFormed, HartLeft;
    if v == 0 {
      assert hs[v := h][1..] == hs[1..];
    } else {
      assert hs[v := h][1..] == hs[1..][v - 1 := h];
      TotalHartLeftUpdate(g, hs[1..], v - 1, h);
    }
  }

  /** Every instruction of an unretired hart uses up the launch's budget: no interleaving runs forever. */
  lemma MachineProgress(g: Csr, lay: Layout, lvl: word, mem0: Memory, m: Machine, s: Grid, v: nat)
    requires Refines(g, lay, lvl, mem0, m, s) && v < g.nv && !m.harts[v].halted
    ensures forall w | 0 <= w < g.nv :: WellFormed(m.harts[w])
    ensures MachineStep(Code(), m, v).Running?
    ensures forall w | 0 <= w < g.nv :: WellFormed(MachineStep(Code(), m, v).m.harts[w])
    ensures 0 <= TotalHartLeft(g, MachineStep(Code(), m, v).m.harts) < TotalHartLeft(g, m.harts)
  {
    hide Image, Frame, Mirrors, Shape, StepHart, HartLeft;
    forall w: nat | w < g.nv
      ensures WellFormed(m.harts[w])
    {
      WellFormedMirror(g, lay, lvl, w, m.harts[w], s.threads[w]);
    }
    HartProgress(g, lay, lvl, m.mem, s, v, m.harts[v]);
    TotalHartLeftUpdate(g, m.harts, v, StepHart(Code(), m.harts[v], m.mem).hart);
    MachineStepRefines(g, lay, lvl, mem0, m, s, v);
    TotalNonNegative(g, lay, lvl, mem0, MachineStep(Code(), m, v).m, Follow(g, lvl, s, v, m.harts[v]));
  }

  lemma TotalNonNegative(g: Csr, lay: Layout, lvl: word, mem0: Memory, m: Machine, s: Grid)
    requires Refines(g, lay, lvl, mem0, m, s)
    ensures forall w | 0 <= w < g.nv :: WellFormed(m.harts[w])
    ensures TotalHartLeft(g, m.harts) >= 0
  {
    hide Image, Frame, Mirrors, Shape, HartLeft;
    forall w: nat | w < g.nv
      ensures WellFormed(m.harts[w]) && HartLeft(g, m.harts[w]) >= 0
    {
      WellFormedMirror(g, lay, lvl, w, m.harts[w], s.threads[w]);
      ShapeAt(g, s, w);
      HartLeftNonNegative(g, lay, lvl, w, m.harts[w], s.threads[w]);
    }
    SumNonNegative(g, m.harts);
  }

  lemma {:induction false} SumNonNegative(g: Csr, hs: seq<Hart>)
    requires forall i | 0 <= i < |hs| :: WellFormed(hs[i]) && HartLeft(g, hs[i]) >= 0
    ensures TotalHartLeft(g, hs) >= 0
  {
    if hs != [] {
      SumNonNegative(g, hs[1..]);
    }
  }
}
