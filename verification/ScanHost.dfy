/** The board host's planner over its arena, the bound on its plan, the sequential reference, and the tie from
    planned launches to the kernel. */
module ScanHost {
  import opened Finite
  import opened Words
  import opened Sums
  import opened ScanKernel
  import opened ScanPlan
  import opened ScanLevels
  import ScanLaunch
  import Rounding


  // ----- a planned scan launch is the kernel launch -----

  /** The kernel on blocks of the launch's size leaves exactly the words the planned launch stands for. */
  lemma LaunchIsKernel(c: Launch, mem: seq<word>, s: Launching, out: seq<word>, bsum: seq<word>)
    requires s.Scan? && FitsIn(|mem|, s) && c.Valid() && c.Block() == s.size
    requires c.src == mem[s.src..s.src + s.m] && BlockScanned(c, out, bsum)
    ensures c.blocks == s.m / s.size
    ensures forall a | s.out <= a < s.out + s.m :: Exec(mem, s)[a] == out[a - s.out]
    ensures forall a | s.bs <= a < s.bs + s.m / s.size :: Exec(mem, s)[a] == bsum[a - s.bs]
  {
    hide Range, Wrap;
    CountBlocks(c.blocks, s.size, s.m);
    forall a | s.out <= a < s.out + s.m
      ensures Exec(mem, s)[a] == out[a - s.out]
    {
      var t := a - s.out;
      BlockStart(t, s.m, s.size);
      var lo := t / s.size * s.size;
      assert out[t] == Prefix(c, BlockOf(c, t), t);
      RangeShift(mem, s.src, s.m, c.src, lo, t + 1);
    }
    forall a | s.bs <= a < s.bs + s.m / s.size
      ensures Exec(mem, s)[a] == bsum[a - s.bs]
    {
      var b := a - s.bs;
      BlockEnd(b, s.m, s.size);
      assert bsum[b] == Wrap(Range(c.src, b * c.Block(), b * c.Block() + c.Block()));
      RangeShift(mem, s.src, s.m, c.src, b * s.size, b * s.size + s.size);
    }
  }

  lemma CountBlocks(n: nat, size: nat, m: nat)
    requires size > 0 && m == n * size
    ensures m / size == n
  {
    Rounding.DivMod(n, 0, size);
    assert m / size == Rounding.Quotient(n * size + 0, size);
  }

  lemma RangeShift(mem: seq<word>, src: nat, m: nat, xs: seq<word>, lo: nat, hi: nat)
    requires src + m <= |mem| && xs == mem[src..src + m] && lo <= hi <= m
    ensures Range(mem, src + lo, src + hi) == Range(xs, lo, hi)
  {
    var l, r := mem[src + lo..src + hi], xs[lo..hi];
    forall i | 0 <= i < hi - lo
      ensures l[i] == r[i]
    {
      assert l[i] == mem[src + (lo + i)] && r[i] == xs[lo + i];
    }
    assert l == r;
  }

  // ----- the plan fits its table -----

  function Pow(b: nat, e: nat): (r: nat)
    ensures b > 0 ==> r > 0
  {
    if e == 0 then 1
    else
      b * Pow(b, e - 1)
  }

  /** With 8 lanes, e levels are enough for 32^e words in blocks, or 512 * 8^(e-1) words in segments. */
  function Capacity(mode: Mode, e: nat): nat
    requires e > 0
  {
    if mode.Blocks? then Pow(32, e) else 512 * Pow(8, e - 1)
  }

  lemma {:induction false} PlanLength(mode: Mode, src: nat, m: nat, top: nat, e: nat)
    requires m > 0 && m % Unit(mode, 8) == 0 && e > 0 && m <= Capacity(mode, e)
    ensures |Plan(mode, 8, src, m, top).steps| <= 2 * e - 1
    decreases m
  {
    var size := BlockSize(mode, 8, m);
    if m / size > 1 {
      LevelShrinks(mode, 8, m);
      NextLevelSize(mode, m, e);
      PlanLength(mode, TotalsAt(m, top), TotalWords(mode, 8, m), LevelTop(mode, 8, m, top), e - 1);
    }
  }

  /** A level that needs a next one is larger than one block, and the next one is a factor of its block smaller. */
  lemma NextLevelSize(mode: Mode, m: nat, e: nat)
    requires m > 0 && m % Unit(mode, 8) == 0 && e > 0 && m <= Capacity(mode, e) && m / BlockSize(mode, 8, m) > 1
    ensures e > 1 && TotalWords(mode, 8, m) <= Capacity(mode, e - 1)
  {
    if mode.Blocks? {
      NextBlocks(m, e);
    } else {
      NextSegments(m, e);
    }
  }

  lemma NextBlocks(m: nat, e: nat)
    requires m > 0 && m % 32 == 0 && e > 0 && m <= Pow(32, e) && m / 32 > 1
    ensures e > 1 && RoundUp(m / 32, 32) <= Pow(32, e - 1)
  {
  }

  lemma NextSegments(m: nat, e: nat)
    requires m > 0 && m % 8 == 0 && e > 0 && m <= 512 * Pow(8, e - 1)
    requires m / BlockSize(Segments, 8, m) > 1
    ensures e > 1 && RoundUp(m / BlockSize(Segments, 8, m), 8) <= 512 * Pow(8, e - 2)
  {
    hide BlockSize;
    SegmentBlock(m);
    assert Pow(8, 0) == 1;
    if e > 1 {
      assert Pow(8, e - 1) == 8 * Pow(8, e - 2);
      SegmentsBound(m, BlockSize(Segments, 8, m), 512 * Pow(8, e - 2));
    }
  }

  /** At most 512 words are one segment. */
  lemma SegmentBlock(m: nat)
    requires m > 0 && m % 8 == 0
    ensures m <= 512 ==> BlockSize(Segments, 8, m) == m
  {
    if m <= 512 {
      var r := m / 8;
      assert r * 8 == m;
      assert r <= 64;
      assert (if r < 64 then r else 64) == r;
      assert m % (r * 8) == 0 by {
        assert m % m == 0;
      }
    }
  }

  lemma SegmentsBound(m: nat, size: nat, cap: nat)
    requires size >= 8 && m % size == 0 && m <= 8 * cap && cap % 8 == 0
    ensures RoundUp(m / size, 8) <= cap
  {
    DivBounds(m, size);
    MulMono(8, size, m / size);
    assert m / size * size == size * (m / size);
  }

  /** Whatever fits the arena is planned in at most 16 entries, blocks or segments. */
  lemma PlanFitsTable(mode: Mode, src: nat, m: nat, top: nat)
    requires m > 0 && m % Unit(mode, 8) == 0
    requires Plan(mode, 8, src, m, top).top <= 0x400_0000
    ensures |Plan(mode, 8, src, m, top).steps| <= 16
  {
    PowValues();
    PlanLength(mode, src, m, top, if mode.Blocks? then 6 else 7);
  }

  lemma PowValues()
    ensures Pow(32, 6) >= 0x400_0000 && 512 * Pow(8, 6) >= 0x400_0000
  {
  }

  // ----- the planner, over the arena -----

  class Planner {
    const mem: array<word>
    const mode: Mode
    const lanes: nat
    var top: nat
    var plan: seq<Launching>

    constructor (arena: array<word>, mode: Mode, lanes: nat)
      ensures mem == arena && this.mode == mode && this.lanes == lanes && top == 0 && plan == []
    {
      mem, this.mode, this.lanes, top, plan := arena, mode, lanes, 0, [];
    }

    /** 64-byte aligned buffer of n words; not ok when the arena overflows (where the source stops for good). */
    method Alloc(n: nat) returns (a: nat, ok: bool)
      modifies this`top
      ensures a == Align(old(top)) && top == a + n && (ok <==> top <= mem.Length)
    {
      a := Align(top);
      top := a + n;
      ok := top <= mem.Length;
    }

    /** The rows of a segment: at most 64, halved until the segments tile m. */
    method SegmentRows(m: nat) returns (r: nat)
      requires lanes > 0 && m > 0 && m % lanes == 0
      ensures 0 < r <= 64 && m % (r * lanes) == 0 && (m % (64 * lanes) == 0 ==> r == 64)
      ensures r * lanes == BlockSize(Segments, lanes, m)
    {
      DivPositive(m, lanes);
      if m % (64 * lanes) == 0 {
        FullSegments(m, lanes);
      }
      r := if m / lanes < 64 then m / lanes else 64;
      ghost var r0 := r;
      while m % (r * lanes) != 0
        invariant 0 < r <= 64 && r * lanes > 0 && (m % (64 * lanes) == 0 ==> r == 64)
        invariant Halve(r, m, lanes) == Halve(r0, m, lanes)
        decreases r
      {
        assert r > 1 by {
          assert 1 * lanes == lanes;
        }
        r := r / 2;
        TimesAtLeast(r, lanes);
      }
    }

    method Zero(at: nat, n: nat)
      requires at + n <= mem.Length
      modifies mem
      ensures forall a | at <= a < at + n :: mem[a] == 0
      ensures forall a | 0 <= a < mem.Length && !(at <= a < at + n) :: mem[a] == old(mem[a])
    {
      for i := 0 to n
        invariant forall a | at <= a < at + i :: mem[a] == 0
        invariant forall a | 0 <= a < mem.Length && !(at <= a < at + i) :: mem[a] == old(mem[a])
      {
        mem[at + i] := 0;
      }
    }

    /** One level of the planner: allocate, zero the totals, append the scan, recur on the totals, append the
        add. It plans exactly `Plan`, or overflows exactly when that plan does not fit the arena. */
    method Level(src: nat, m: nat) returns (out: nat, ok: bool)
      requires lanes > 1 && m > 0 && m % Unit(mode, lanes) == 0
      modifies this`top, this`plan, mem
      decreases m
      ensures ok <==> Plan(mode, lanes, src, m, old(top)).top <= mem.Length
      ensures ok ==> out == Plan(mode, lanes, src, m, old(top)).out && top == Plan(mode, lanes, src, m, old(top)).top
      ensures ok ==> plan == old(plan) + Plan(mode, lanes, src, m, old(top)).steps
      ensures ok ==> PaddingZero(mode, lanes, m, old(top), mem[..])
      ensures forall a | 0 <= a < old(top) && a < mem.Length :: mem[a] == old(mem[a])
    {
      hide PaddingZero, Align, Plan, TotalsAt, LevelTop, TotalWords, BlockSize, Halve;
      ghost var top0, plan0 := top, plan;
      LevelFacts(mode, lanes, src, m, top);
      var size: nat;
      if mode.Blocks? {
        size := 4 * lanes;
      } else {
        var r := SegmentRows(m);
        size := r * lanes;
      }
      var nb := m / size;
      var unit := if mode.Blocks? then 4 * lanes else lanes;
      var nbp := (nb + unit - 1) / unit * unit;
      out, ok := Alloc(m);
      if !ok { return; }
      var bs: nat;
      bs, ok := Alloc(nbp);
      if !ok { return; }
      Zero(bs, nbp);
      var params: nat;
      params, ok := Alloc(if mode.Blocks? then 3 else 4);
      if !ok { return; }
      plan := plan + [Scan(src, out, bs, m, size)];
      if nb > 1 {
        var bsc: nat;
        bsc, ok := Level(bs, nbp);
        if !ok { return; }
        params, ok := Alloc(if mode.Blocks? then 2 else 3);
        plan := plan + [Add(out, bsc, m, size)];
        assert plan == plan0 + Plan(mode, lanes, src, m, top0).steps;
      }
      if ok {
        LevelPadding(mode, lanes, m, top0, mem[..]);
      }
    }
  }

  lemma LevelPadding(mode: Mode, lanes: nat, m: nat, top: nat, mem: seq<word>)
    requires lanes > 1 && m > 0 && m % Unit(mode, lanes) == 0
    requires TotalsAt(m, top) + TotalWords(mode, lanes, m) <= |mem|
    requires forall a | TotalsAt(m, top) <= a < TotalsAt(m, top) + TotalWords(mode, lanes, m) :: mem[a] == 0
    requires m / BlockSize(mode, lanes, m) > 1 ==>
               TotalWords(mode, lanes, m) < m &&
               PaddingZero(mode, lanes, TotalWords(mode, lanes, m), LevelTop(mode, lanes, m, top), mem)
    ensures PaddingZero(mode, lanes, m, top, mem)
  {
  }

  // ----- the sequential reference -----

  /** The A53's running sum. */
  method RunningSum(input: seq<word>) returns (r: seq<word>)
    ensures |r| == |input| && forall t: nat | t < |input| :: r[t] == PrefixAt(input, 0, t)
    ensures forall t: nat | t < |input| :: r[t] == Wrap(Range(input, 0, t + 1))
  {
    var acc: word := 0;
    r := [];
    RangeEmpty(input, 0);
    for i := 0 to |input|
      invariant |r| == i && acc == Wrap(Range(input, 0, i))
      invariant forall t: nat | t < i :: r[t] == PrefixAt(input, 0, t)
    {
      RangeStep(input, 0, i);
      WrapSum(Range(input, 0, i), input[i]);
      WrapWord(input[i]);
      acc := AddW(acc, input[i]);
      r := r + [acc];
    }
  }

  // ----- running the plan -----

  /** Copy a stretch into the arena. */
  method Copy(mem: array<word>, at: nat, v: array<word>, n: nat)
    requires n <= v.Length && at + n <= mem.Length && v != mem
    modifies mem
    ensures forall a | at <= a < at + n :: mem[a] == v[a - at]
    ensures forall a | 0 <= a < mem.Length && !(at <= a < at + n) :: mem[a] == old(mem[a])
  {
    for i := 0 to n
      invariant forall a | at <= a < at + i :: mem[a] == v[a - at]
      invariant forall a | 0 <= a < mem.Length && !(at <= a < at + i) :: mem[a] == old(mem[a])
    {
      mem[at + i] := v[i];
    }
  }

  /** A planned block-scan launch on the device: 4 warps of `lanes` lanes a block, any interleaving. */
  method LaunchScan(mem: array<word>, s: Launching, lanes: nat)
    requires s.Scan? && FitsIn(mem.Length, s) && s.size == lanes * 4 && lanes > 0
    modifies mem
    ensures mem[..] == Exec(old(mem[..]), s)
  {
    DivBounds(s.m, s.size);
    var blocks := s.m / s.size;
    var c := Launch(lanes, 4, blocks, mem[s.src..s.src + s.m]);
    assert c.Block() == s.size && c.Valid();
    var out, bsum := new word[s.m], new word[blocks];
    ScanLaunch.RunScan(c, out, bsum, seq(blocks, _ => seq(4, _ => 0)));
    LaunchIsKernel(c, mem[..], s, out[..], bsum[..]);
    StoreLaunch(mem, s, out, bsum);
  }

  /** The launch's two output buffers in the arena. */
  method StoreLaunch(mem: array<word>, s: Launching, out: array<word>, bsum: array<word>)
    requires s.Scan? && FitsIn(mem.Length, s) && out.Length == s.m && bsum.Length == s.m / s.size
    requires out != mem && bsum != mem
    requires forall a | s.out <= a < s.out + s.m :: Exec(mem[..], s)[a] == out[a - s.out]
    requires forall a | s.bs <= a < s.bs + s.m / s.size :: Exec(mem[..], s)[a] == bsum[a - s.bs]
    modifies mem
    ensures mem[..] == Exec(old(mem[..]), s)
  {
    ghost var before := mem[..];
    ghost var after := Exec(before, s);
    hide Exec, ScanWord;
    Copy(mem, s.out, out, s.m);
    Copy(mem, s.bs, bsum, s.m / s.size);
    assert mem[..] == after;
  }

  /** A planned add launch: every thread, in any order, adds its block's scanned total once. */
  method LaunchAdd(mem: array<word>, s: Launching)
    requires s.Add? && FitsIn(mem.Length, s)
    modifies mem
    ensures mem[..] == Exec(old(mem[..]), s)
  {
    ghost var before := mem[..];
    var todo := Below(s.m);
    assert mem[..] == PartlyAdded(before, s, todo);
    while todo != {}
      invariant todo <= Below(s.m)
      invariant mem[..] == PartlyAdded(before, s, todo)
      decreases todo
    {
      hide AddWord, Exec, Below;
      var t :| t in todo;
      BelowMember(s.m, todo, t);
      PartlyFacts(before, s, todo, t, mem[..]);
      AddThread(mem, s, t, before);
      PartlyAddedStep(before, s, todo, t);
      todo := todo - {t};
    }
    assert mem[..] == Exec(before, s);
  }

  lemma BelowMember(n: nat, todo: set<nat>, t: nat)
    requires todo <= Below(n) && t in todo
    ensures t < n
  {
  }

  /** Memory when the threads in todo have not run yet. */
  ghost function PartlyAdded(before: seq<word>, s: Launching, todo: set<nat>): seq<word>
    requires s.Add? && FitsIn(|before|, s)
  {
    seq(|before|, a requires 0 <= a < |before| =>
          if s.out <= a < s.out + s.m && a - s.out !in todo then AddWord(before, s, a) else before[a])
  }

  lemma PartlyFacts(before: seq<word>, s: Launching, todo: set<nat>, t: nat, now: seq<word>)
    requires s.Add? && FitsIn(|before|, s) && t < s.m && t in todo && now == PartlyAdded(before, s, todo)
    ensures now[s.out + t] == before[s.out + t]
    ensures forall a: nat | a < |now| && s.out + s.m <= a :: now[a] == before[a]
  {
  }

  lemma PartlyAddedStep(before: seq<word>, s: Launching, todo: set<nat>, t: nat)
    requires s.Add? && FitsIn(|before|, s) && t < s.m
    ensures PartlyAdded(before, s, todo)[s.out + t := AddWord(before, s, s.out + t)] == PartlyAdded(before, s, todo - {t})
  {
  }

  /** Thread t of the add kernel. */
  method AddThread(mem: array<word>, s: Launching, t: nat, ghost before: seq<word>)
    requires s.Add? && FitsIn(mem.Length, s) && t < s.m && |before| == mem.Length
    requires mem[s.out + t] == before[s.out + t]
    requires forall a: nat | a < mem.Length && s.out + s.m <= a :: mem[a] == before[a]
    modifies mem
    ensures mem[..] == old(mem[..])[s.out + t := AddWord(before, s, s.out + t)]
  {
    BlockStart(t, s.m, s.size);
    var b := t / s.size;
    if b > 0 {
      mem[s.out + t] := AddW(mem[s.out + t], mem[s.bsc + (b - 1)]);
    }
  }

  ghost predicate BlockSteps(lanes: nat, steps: seq<Launching>) {
    forall i | 0 <= i < |steps| && steps[i].Scan? :: steps[i].size == lanes * 4
  }

  lemma {:induction false} PlanBlockSteps(lanes: nat, src: nat, m: nat, top: nat)
    requires lanes > 1 && m > 0 && m % Unit(Blocks, lanes) == 0
    ensures BlockSteps(lanes, Plan(Blocks, lanes, src, m, top).steps)
    decreases m
  {
    if m / BlockSize(Blocks, lanes, m) > 1 {
      LevelShrinks(Blocks, lanes, m);
      PlanBlockSteps(lanes, TotalsAt(m, top), TotalWords(Blocks, lanes, m), LevelTop(Blocks, lanes, m, top));
    }
  }

  /** The launch loop over the plan. */
  method RunPlan(mem: array<word>, plan: seq<Launching>, lanes: nat)
    requires AllFit(mem.Length, plan) && BlockSteps(lanes, plan) && lanes > 0
    modifies mem
    ensures mem[..] == ExecAll(old(mem[..]), plan)
  {
    ghost var before := mem[..];
    for i := 0 to |plan|
      invariant ExecAll(mem[..], plan[i..]) == ExecAll(before, plan)
    {
      assert plan[i..][0] == plan[i] && plan[i..][1..] == plan[i + 1..];
      if plan[i].Scan? {
        LaunchScan(mem, plan[i], lanes);
      } else {
        LaunchAdd(mem, plan[i]);
      }
    }
  }

  /** The board check for the block scan: plan, run the launches in order, compare with the running sum. */
  method CompareOnBoard(h: Planner, src: nat, m: nat) returns (ok: bool, result: seq<word>, reference: seq<word>)
    requires h.mode.Blocks? && h.lanes > 1 && m > 0 && m % (4 * h.lanes) == 0 && src + m <= h.top <= h.mem.Length
    modifies h`top, h`plan, h.mem
    ensures ok <==> Plan(Blocks, h.lanes, src, m, old(h.top)).top <= h.mem.Length
    ensures ok ==>
              var input, out := old(h.mem[src..src + m]), (old(h.top) + 15) / 16 * 16;
              && out + m <= h.mem.Length && result == h.mem[out..out + m] && result == reference && |reference| == m
              && forall t: nat | t < m :: reference[t] == Wrap(Range(input, 0, t + 1))
  {
    hide Plan, PaddingZero, ExecAll, Prefixes, AllFit, BlockSteps, Unit, Align, Range;
    assert Unit(Blocks, h.lanes) == 4 * h.lanes by { BlockUnit(h.lanes); }
    PlanOut(Blocks, h.lanes, src, m, h.top);
    ghost var top0, input := h.top, h.mem[src..src + m];
    reference := RunningSum(h.mem[src..src + m]);
    h.plan := [];
    var out: nat;
    out, ok := h.Level(src, m);
    result := [];
    if ok {
      ghost var planned := h.mem[..];
      assert planned[src..src + m] == input;
      PlanCorrect(Blocks, h.lanes, src, m, top0, planned);
      PlanBlockSteps(h.lanes, src, m, top0);
      assert h.plan == Plan(Blocks, h.lanes, src, m, top0).steps;
      RunPlan(h.mem, h.plan, h.lanes);
      result := h.mem[out..out + m];
      SamePrefixes(planned, src, m, h.mem[..], out, input, reference);
    }
  }

  lemma BlockUnit(lanes: nat)
    ensures Unit(Blocks, lanes) == 4 * lanes
  {
  }

  lemma SamePrefixes(mem: seq<word>, src: nat, m: nat, mem': seq<word>, out: nat, input: seq<word>, reference: seq<word>)
    requires Prefixes(mem, src, m, mem', out) && input == mem[src..src + m] && |reference| == m
    requires forall t: nat | t < m :: reference[t] == PrefixAt(input, 0, t)
    ensures mem'[out..out + m] == reference
  {
    hide Range;
    forall t: nat | t < m
      ensures mem'[out..out + m][t] == reference[t]
    {
      assert mem'[out + t] == PrefixAt(mem, src, t);
      RangeShift(mem, src, m, input, 0, t + 1);
    }
  }
}
