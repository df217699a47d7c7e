/** The multi-level scan plan: the launches and buffers for an input of any size, planned before the run, and
    what executing the planned launches in order leaves in memory. Memory is the arena as a sequence of words;
    a buffer is a word offset. */
module ScanPlan {
  import opened Words
  import opened Sums
  import opened ScanKernel
  import Rounding

  /** Block scan (4 warps a block) or segmented scan (one warp scans up to 64 rows of its lanes). */
  datatype Mode = Blocks | Segments

  datatype Launching =
    | Scan(src: nat, out: nat, bs: nat, m: nat, size: nat)
    | Add(out: nat, bsc: nat, m: nat, size: nat)

  datatype Planned = Planned(steps: seq<Launching>, out: nat, top: nat)

  // ----- planning -----

  /** The multiple every level's size is padded to. */
  function Unit(mode: Mode, lanes: nat): nat {
    if mode.Blocks? then 4 * lanes else lanes
  }

  /** The halving loop: the first r, r/2, r/4, ... whose segments tile m. */
  function Halve(r: nat, m: nat, lanes: nat): (h: nat)
    requires r > 0 && lanes > 0 && m % lanes == 0
    ensures 0 < h <= r && m % (h * lanes) == 0
    decreases r
  {
    if m % (r * lanes) == 0 then r
    else
      assert r > 1;
      Halve(r / 2, m, lanes)
  }

  function BlockSize(mode: Mode, lanes: nat, m: nat): (b: nat)
    requires lanes > 0 && m > 0 && m % Unit(mode, lanes) == 0
    ensures b >= lanes && m % b == 0
  {
    if mode.Blocks? then 4 * lanes
    else
      DivPositive(m, lanes);
      var h := Halve(if m / lanes < 64 then m / lanes else 64, m, lanes);
      TimesAtLeast(h, lanes);
      h * lanes
  }

  lemma DivPositive(m: nat, lanes: nat)
    requires lanes > 0 && m > 0 && m % lanes == 0
    ensures m / lanes > 0
  {
  }

  lemma TimesAtLeast(h: nat, lanes: nat)
    requires h > 0
    ensures h * lanes >= lanes
  {
  }

  /** 64-byte alignment, in words. */
  function Align(top: nat): (a: nat)
    ensures top <= a < top + 16 && a % 16 == 0
  {
    (top + 15) / 16 * 16
  }

  function RoundUp(n: nat, unit: nat): (r: nat)
    requires unit > 0
    ensures n <= r < n + unit && r % unit == 0
  {
    RoundUpBounds(n, unit);
    (n + unit - 1) / unit * unit
  }

  lemma RoundUpBounds(n: nat, unit: nat)
    requires unit > 0
    ensures var r := (n + unit - 1) / unit * unit; r >= 0 && n <= r < n + unit && r % unit == 0
  {
  }

  function ParamWords(mode: Mode): nat {
    if mode.Blocks? then 3 else 4
  }

  /** Words of the totals buffer of a level. */
  function TotalWords(mode: Mode, lanes: nat, m: nat): (n: nat)
    requires lanes > 1 && m > 0 && m % Unit(mode, lanes) == 0
    ensures m / BlockSize(mode, lanes, m) <= n && n % Unit(mode, lanes) == 0
    ensures m / BlockSize(mode, lanes, m) > 0 && n > 0
  {
    BlocksPositive(m, BlockSize(mode, lanes, m));
    RoundUp(m / BlockSize(mode, lanes, m), Unit(mode, lanes))
  }

  lemma BlocksPositive(m: nat, size: nat)
    requires m > 0 && size > 0 && m % size == 0
    ensures m / size > 0 && m == m / size * size
  {
  }

  /** Each level is strictly smaller than the one it serves: the planner terminates. */
  lemma LevelShrinks(mode: Mode, lanes: nat, m: nat)
    requires lanes > 1 && m > 0 && m % Unit(mode, lanes) == 0 && m / BlockSize(mode, lanes, m) > 1
    ensures TotalWords(mode, lanes, m) < m
  {
    var size := BlockSize(mode, lanes, m);
    var nb := m / size;
    BlocksPositive(m, size);
    var u := Unit(mode, lanes);
    assert u <= size;
    MulMono(u, size, nb);
    assert nb * size == size * nb;
    Shrink(nb, u);
  }

  lemma Shrink(nb: nat, u: nat)
    requires nb > 1 && u > 1
    ensures nb + u <= u * nb
  {
    MulMono(2, nb, u);
    assert u * nb == nb * u;
    if nb > 2 {
      MulMono(2, u, nb - 1);
      assert u * nb == u * (nb - 1) + u;
    }
  }

  /** Where a level's totals buffer starts, and the arena's top once its parameter block is allocated. */
  function TotalsAt(m: nat, top: nat): (bs: nat)
    ensures Align(top) + m <= bs
  {
    Align(Align(top) + m)
  }

  function LevelTop(mode: Mode, lanes: nat, m: nat, top: nat): (t: nat)
    requires lanes > 1 && m > 0 && m % Unit(mode, lanes) == 0
    ensures TotalsAt(m, top) + TotalWords(mode, lanes, m) <= t
  {
    Align(TotalsAt(m, top) + TotalWords(mode, lanes, m)) + ParamWords(mode)
  }

  /** The plan for m words at src, with the arena filled up to top. */
  function Plan(mode: Mode, lanes: nat, src: nat, m: nat, top: nat): (p: Planned)
    requires lanes > 1 && m > 0 && m % Unit(mode, lanes) == 0
    ensures top <= p.out && p.out + m <= p.top
    decreases m
  {
    var size := BlockSize(mode, lanes, m);
    var out := Align(top);
    var bs := TotalsAt(m, top);
    var top1 := LevelTop(mode, lanes, m, top);
    var scan := Scan(src, out, bs, m, size);
    if m / size > 1 then
      LevelShrinks(mode, lanes, m);
      var sub := Plan(mode, lanes, bs, TotalWords(mode, lanes, m), top1);
      Planned([scan] + sub.steps + [Add(out, sub.out, m, size)], out, Align(sub.top) + ParamWords(mode) - 1)
    else
      Planned([scan], out, top1)
  }

  // ----- executing -----

  /** Word a after a scan launch: a block prefix in out, a block total in bs, otherwise unchanged. */
  ghost function ScanWord(mem: seq<word>, s: Launching, a: nat): word
    requires s.Scan? && FitsIn(|mem|, s) && a < |mem|
  {
    if s.out <= a < s.out + s.m then
      var t := a - s.out;
      BlockStart(t, s.m, s.size);
      Wrap(Range(mem, s.src + t / s.size * s.size, s.src + t + 1))
    else if s.bs <= a < s.bs + s.m / s.size then
      var b := a - s.bs;
      BlockEnd(b, s.m, s.size);
      Wrap(Range(mem, s.src + b * s.size, s.src + b * s.size + s.size))
    else mem[a]
  }

  lemma BlockStart(t: nat, m: nat, size: nat)
    requires t < m && size > 0 && m % size == 0
    ensures 0 <= t / size * size <= t && t / size < m / size
  {
  }

  lemma BlockEnd(b: nat, m: nat, size: nat)
    requires size > 0 && m % size == 0 && b < m / size
    ensures 0 <= b * size && b * size + size <= m
  {
    DivBounds(m, size);
    MulMono(b + 1, m / size, size);
    assert (b + 1) * size == b * size + size;
  }

  /** Word a after the add launch: out[t] += bsc[t / size - 1] past the first block. */
  ghost function AddWord(mem: seq<word>, s: Launching, a: nat): word
    requires s.Add? && FitsIn(|mem|, s) && a < |mem|
  {
    if s.out <= a < s.out + s.m && (a - s.out) / s.size > 0 then
      BlockStart(a - s.out, s.m, s.size);
      AddW(mem[a], mem[s.bsc + (a - s.out) / s.size - 1])
    else mem[a]
  }

  /** The launch's buffers lie inside an arena of n words, and what it writes is apart from what it reads. */
  ghost predicate FitsIn(n: nat, s: Launching) {
    && s.size > 0 && s.m % s.size == 0
    && match s
       case Scan(src, out, bs, m, size) =>
         src + m <= out && out + m <= bs && bs + m / size <= n
       case Add(out, bsc, m, size) => out + m <= bsc && bsc + m / size <= n
  }

  ghost function Exec(mem: seq<word>, s: Launching): (r: seq<word>)
    requires FitsIn(|mem|, s)
    ensures |r| == |mem|
  {
    if s.Scan? then seq(|mem|, a requires 0 <= a < |mem| => ScanWord(mem, s, a))
    else seq(|mem|, a requires 0 <= a < |mem| => AddWord(mem, s, a))
  }

  ghost predicate AllFit(n: nat, steps: seq<Launching>) {
    forall i | 0 <= i < |steps| :: FitsIn(n, steps[i])
  }

  ghost function ExecAll(mem: seq<word>, steps: seq<Launching>): (r: seq<word>)
    requires AllFit(|mem|, steps)
    ensures |r| == |mem|
    decreases |steps|
  {
    if steps == [] then mem else ExecAll(Exec(mem, steps[0]), steps[1..])
  }

  lemma {:induction false} ExecAppend(mem: seq<word>, a: seq<Launching>, b: seq<Launching>)
    requires AllFit(|mem|, a) && AllFit(|mem|, b)
    ensures AllFit(|mem|, a + b) && ExecAll(mem, a + b) == ExecAll(ExecAll(mem, a), b)
    decreases |a|
  {
    if a == [] {
      assert a + b == b;
    } else {
      assert (a + b)[1..] == a[1..] + b;
      ExecAppend(Exec(mem, a[0]), a[1..], b);
    }
  }

  /** The padding of every totals buffer is zero, as the planner leaves it. */
  ghost predicate PaddingZero(mode: Mode, lanes: nat, m: nat, top: nat, mem: seq<word>)
    requires lanes > 1 && m > 0 && m % Unit(mode, lanes) == 0
    decreases m
  {
    var size := BlockSize(mode, lanes, m);
    var bs := TotalsAt(m, top);
    var nbp := TotalWords(mode, lanes, m);
    && bs + nbp <= |mem|
    && (forall a | bs + m / size <= a < bs + nbp :: mem[a] == 0)
    && if m / size > 1 then
         LevelShrinks(mode, lanes, m);
         PaddingZero(mode, lanes, nbp, LevelTop(mode, lanes, m, top), mem)
       else true
  }

  lemma {:induction false} PaddingKept(mode: Mode, lanes: nat, m: nat, top: nat, mem: seq<word>, mem': seq<word>)
    requires lanes > 1 && m > 0 && m % Unit(mode, lanes) == 0
    requires PaddingZero(mode, lanes, m, top, mem) && |mem'| == |mem|
    requires forall a | top <= a < |mem| :: mem'[a] == mem[a]
    ensures PaddingZero(mode, lanes, m, top, mem')
    decreases m
  {
    hide BlockSize, TotalWords, Align, Unit, TotalsAt, LevelTop;
    var size := BlockSize(mode, lanes, m);
    var bs := TotalsAt(m, top);
    var nbp := TotalWords(mode, lanes, m);
    if m / size > 1 {
      LevelShrinks(mode, lanes, m);
      PaddingKept(mode, lanes, nbp, LevelTop(mode, lanes, m, top), mem, mem');
    }
  }

  // ----- what the plan computes -----

  /** Inclusive prefix sum t of the words at src. */
  ghost function PrefixAt(mem: seq<word>, src: nat, t: nat): word
    requires src + t < |mem|
  {
    Wrap(Range(mem, src, src + t + 1))
  }

  /** mem' holds the inclusive prefix sums of m words of mem. */
  ghost predicate Prefixes(mem: seq<word>, src: nat, m: nat, mem': seq<word>, out: nat)
  {
    && src + m <= |mem| && out + m <= |mem'|
    && forall a: nat | out <= a < out + m :: mem'[a] == PrefixAt(mem, src, a - out)
  }

  /** Launches that fit have room in a larger arena, too, and a plan's launches fit below its top. */
  lemma {:induction false} PlanFits(mode: Mode, lanes: nat, src: nat, m: nat, top: nat, n: nat)
    requires lanes > 1 && m > 0 && m % Unit(mode, lanes) == 0
    requires src + m <= top && Plan(mode, lanes, src, m, top).top <= n
    ensures AllFit(n, Plan(mode, lanes, src, m, top).steps)
    decreases m
  {
    hide BlockSize, TotalWords, Unit, Align, TotalsAt, LevelTop;
    var size := BlockSize(mode, lanes, m);
    var out := Align(top);
    var bs := TotalsAt(m, top);
    var nbp := TotalWords(mode, lanes, m);
    if m / size > 1 {
      LevelShrinks(mode, lanes, m);
      PlanFits(mode, lanes, bs, nbp, LevelTop(mode, lanes, m, top), n);
    }
  }

  ghost predicate HasTotals(mem: seq<word>, src: nat, m: nat, size: nat, mem1: seq<word>, bs: nat)
    requires size > 0 && m % size == 0 && src + m <= |mem| && bs + m / size <= |mem1|
  {
    forall a: nat | bs <= a < bs + m / size :: BlockTotal(mem, src, m, size, a - bs, mem1[a])
  }

  ghost predicate BlockTotal(mem: seq<word>, src: nat, m: nat, size: nat, b: nat, x: word)
    requires size > 0 && m % size == 0 && src + m <= |mem| && b < m / size
  {
    BlockEnd(b, m, size);
    x == Wrap(Range(mem, src + b * size, src + b * size + size))
  }

  lemma AddTotals(r: int, p: int, x: word, q: int)
    requires Wrap(r) == Wrap(p) && x == Wrap(q)
    ensures Wrap(r + x) == Wrap(p + q)
  {
  }

  /** Block totals sum to prefix sums at block boundaries. */
  lemma {:induction false} TotalsPrefix(mem: seq<word>, src: nat, m: nat, size: nat, mem1: seq<word>, bs: nat, j: nat)
    requires size > 0 && m % size == 0 && j <= m / size && src + m <= |mem| && bs + m / size <= |mem1|
    requires HasTotals(mem, src, m, size, mem1, bs)
    ensures 0 <= j * size <= m && Wrap(Range(mem1, bs, bs + j)) == Wrap(Range(mem, src, src + j * size))
    decreases j
  {
    hide Range, Wrap;
    if j == 0 {
      RangeEmpty(mem1, bs);
      RangeEmpty(mem, src);
    } else {
      BlockEnd(j - 1, m, size);
      var at := (j - 1) * size;
      assert j * size == at + size;
      TotalsPrefix(mem, src, m, size, mem1, bs, j - 1);
      RangeStep(mem1, bs, bs + (j - 1));
      RangeSplit(mem, src, src + at, src + at + size);
      assert BlockTotal(mem, src, m, size, j - 1, mem1[bs + (j - 1)]);
      AddTotals(Range(mem1, bs, bs + (j - 1)), Range(mem, src, src + at), mem1[bs + (j - 1)], Range(mem, src + at, src + at + size));
    }
  }

  /** A block prefix plus the prefix of the earlier blocks' totals is the whole prefix. */
  lemma AddBack(mem: seq<word>, src: nat, t: nat, base: nat, own: word, below: word)
    requires base <= t && src + t + 1 <= |mem|
    requires own == Wrap(Range(mem, src + base, src + t + 1)) && below == Wrap(Range(mem, src, src + base))
    ensures AddW(own, below) == Wrap(Range(mem, src, src + t + 1))
  {
    RangeSplit(mem, src, src + base, src + t + 1);
    WrapSum(Range(mem, src + base, src + t + 1), Range(mem, src, src + base));
  }

  /** After the scan launch, the recursive scan of the totals and the add launch, out holds the whole prefix. */
  lemma LevelCombines(mem: seq<word>, scan: Launching, mem1: seq<word>, mem2: seq<word>, bsc: nat, nbp: nat)
    requires scan.Scan? && FitsIn(|mem|, scan) && mem1 == Exec(mem, scan)
    requires |mem2| == |mem| && Prefixes(mem1, scan.bs, nbp, mem2, bsc) && scan.m / scan.size <= nbp
    requires forall a: nat | scan.out <= a < scan.out + scan.m :: mem2[a] == mem1[a]
    requires scan.out + scan.m <= bsc && bsc + scan.m / scan.size <= |mem|
    ensures Prefixes(mem, scan.src, scan.m, Exec(mem2, Add(scan.out, bsc, scan.m, scan.size)), scan.out)
  {
    hide Range, Wrap, ExecAll;
    var Scan(src, out, bs, m, size) := scan;
    var add := Add(out, bsc, m, size);
    forall a: nat | out <= a < out + m
      ensures Exec(mem2, add)[a] == PrefixAt(mem, src, a - out)
    {
      OneWord(mem, scan, mem1, mem2, bsc, nbp, a);
    }
  }

  lemma OneWord(mem: seq<word>, scan: Launching, mem1: seq<word>, mem2: seq<word>, bsc: nat, nbp: nat, a: nat)
    requires scan.Scan? && FitsIn(|mem|, scan) && mem1 == Exec(mem, scan)
    requires |mem2| == |mem| && Prefixes(mem1, scan.bs, nbp, mem2, bsc) && scan.m / scan.size <= nbp
    requires scan.out <= a < scan.out + scan.m && mem2[a] == mem1[a]
    requires scan.out + scan.m <= bsc && bsc + scan.m / scan.size <= |mem|
    requires HasTotals(mem, scan.src, scan.m, scan.size, mem1, scan.bs)
    ensures AddWord(mem2, Add(scan.out, bsc, scan.m, scan.size), a) == PrefixAt(mem, scan.src, a - scan.out)
  {
    hide Range, Wrap, HasTotals;
    var Scan(src, out, bs, m, size) := scan;
    var t := a - out;
    BlockStart(t, m, size);
    var b := t / size;
    if b > 0 {
      assert mem2[bsc + (b - 1)] == PrefixAt(mem1, bs, b - 1);
      TotalsPrefix(mem, src, m, size, mem1, bs, b);
      AddBack(mem, src, t, b * size, mem2[a], mem2[bsc + (b - 1)]);
    } else {
      assert b * size == 0;
    }
  }

  lemma FirstBlock(t: nat, size: nat)
    requires t < size
    ensures t / size * size == 0
  {
  }

  /** One block only: the launch already is the whole scan. */
  lemma SingleBlock(mem: seq<word>, scan: Launching)
    requires scan.Scan? && FitsIn(|mem|, scan) && scan.m == scan.size
    ensures Prefixes(mem, scan.src, scan.m, Exec(mem, scan), scan.out)
  {
    hide Range;
    forall a: nat | scan.out <= a < scan.out + scan.m
      ensures ScanWord(mem, scan, a) == PrefixAt(mem, scan.src, a - scan.out)
    {
      FirstBlock(a - scan.out, scan.size);
    }
  }

  /** Executing the planned launches in order leaves the inclusive prefix sum modulo 2^32 of the m input words
      at the plan's output, and changes nothing outside the buffers the plan allocated. */
  lemma {:induction false} PlanCorrect(mode: Mode, lanes: nat, src: nat, m: nat, top: nat, mem: seq<word>)
    requires lanes > 1 && m > 0 && m % Unit(mode, lanes) == 0 && src + m <= top
    requires Plan(mode, lanes, src, m, top).top <= |mem| && PaddingZero(mode, lanes, m, top, mem)
    ensures var p := Plan(mode, lanes, src, m, top);
            && AllFit(|mem|, p.steps)
            && Prefixes(mem, src, m, ExecAll(mem, p.steps), p.out)
            && forall a | 0 <= a < |mem| && (a < top || p.top <= a) :: ExecAll(mem, p.steps)[a] == mem[a]
    decreases m
  {
    hide BlockSize, TotalWords, Unit, Align, Prefixes, Range, Wrap, TotalsAt, LevelTop;
    PlanFits(mode, lanes, src, m, top, |mem|);
    var size := BlockSize(mode, lanes, m);
    var out := Align(top);
    var bs := TotalsAt(m, top);
    var nbp := TotalWords(mode, lanes, m);
    var top1 := LevelTop(mode, lanes, m, top);
    var scan := Scan(src, out, bs, m, size);
    BlocksPositive(m, size);
    var mem1 := Exec(mem, scan);
    if m / size > 1 {
      LevelShrinks(mode, lanes, m);
      var sub := Plan(mode, lanes, bs, nbp, top1);
      PaddingKept(mode, lanes, nbp, top1, mem, mem1);
      PlanCorrect(mode, lanes, bs, nbp, top1, mem1);
      var mem2 := ExecAll(mem1, sub.steps);
      var add := Add(out, sub.out, m, size);
      LevelCombines(mem, scan, mem1, mem2, sub.out, nbp);
      ExecAppend(mem1, sub.steps, [add]);
      LevelSteps(mem, scan, sub.steps, add);
    } else {
      SingleBlock(mem, scan);
      assert ExecAll(mem, [scan]) == ExecAll(mem1, []);
    }
  }

  lemma LevelSteps(mem: seq<word>, scan: Launching, sub: seq<Launching>, add: Launching)
    requires AllFit(|mem|, [scan] + sub + [add]) && AllFit(|mem|, sub) && FitsIn(|mem|, scan) && FitsIn(|mem|, add)
    ensures ExecAll(mem, [scan] + sub + [add]) == Exec(ExecAll(Exec(mem, scan), sub), add)
  {
    var steps := [scan] + sub + [add];
    assert steps[1..] == sub + [add];
    var mem1 := Exec(mem, scan);
    ExecAppend(mem1, sub, [add]);
    assert ExecAll(ExecAll(mem1, sub), [add]) == Exec(ExecAll(mem1, sub), add);
  }
}
