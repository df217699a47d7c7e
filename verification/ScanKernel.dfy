/** The block-scan kernel: within a warp a shuffle scan in lockstep, then the warp totals through shared memory
    and a barrier. Warps of all blocks are interleaved freely; a warp at the barrier waits for its block. */
module ScanKernel {
  import opened Words
  import opened Sums

  // ----- one warp in lockstep -----

  /** vx_shfl_up: the value of lane l - k, or the reader's own below lane k. */
  function ShflUp(v: seq<word>, k: nat): (o: seq<word>)
    ensures |o| == |v|
  {
    seq(|v|, l requires 0 <= l < |v| => if l >= k then v[l - k] else v[l])
  }

  /** o & (0 - (u32)(lane >= k)): all ones or all zeros. */
  function Masked(o: word, keep: bool): word {
    if keep then o else 0
  }

  function ShuffleStep(v: seq<word>, k: nat): (r: seq<word>)
    ensures |r| == |v|
  {
    var o := ShflUp(v, k);
    seq(|v|, l requires 0 <= l < |v| => AddW(v[l], Masked(o[l], l >= k)))
  }

  /** The shuffle loop, k = 1, 2, 4, ... below the number of lanes. */
  function ShuffleFrom(v: seq<word>, k: nat): (r: seq<word>)
    requires k > 0
    ensures |r| == |v|
    decreases |v| - k
  {
    if k >= |v| then v else ShuffleFrom(ShuffleStep(v, k), 2 * k)
  }

  function WarpScan(v: seq<word>): (r: seq<word>)
    ensures |r| == |v|
  {
    ShuffleFrom(v, 1)
  }

  function Low(l: nat, k: nat): nat {
    if l + 1 >= k then l + 1 - k else 0
  }

  /** After the step for k/2, lane l holds the sum of the last k values up to its own. */
  ghost predicate Windows(v0: seq<word>, v: seq<word>, k: nat) {
    |v| == |v0| && forall l: nat | l < |v| :: v[l] == Wrap(Range(v0, Low(l, k), l + 1))
  }

  lemma WindowsStart(v0: seq<word>)
    ensures Windows(v0, v0, 1)
  {
    forall l: nat | l < |v0|
      ensures v0[l] == Wrap(Range(v0, Low(l, 1), l + 1))
    {
      RangeStep(v0, l, l);
      RangeEmpty(v0, l);
    }
  }

  lemma WindowsStep(v0: seq<word>, v: seq<word>, k: nat)
    requires k > 0 && Windows(v0, v, k)
    ensures Windows(v0, ShuffleStep(v, k), 2 * k)
  {
    forall l: nat | l < |v|
      ensures ShuffleStep(v, k)[l] == Wrap(Range(v0, Low(l, 2 * k), l + 1))
    {
      if l >= k {
        RangeSplit(v0, Low(l, 2 * k), Low(l, k), l + 1);
        assert Low(l - k, k) == Low(l, 2 * k) && l - k + 1 == Low(l, k);
        WrapSum(Range(v0, Low(l, k), l + 1), Range(v0, Low(l, 2 * k), Low(l, k)));
      } else {
        WrapSum(Range(v0, 0, l + 1), 0);
      }
    }
  }

  lemma {:induction false} ShuffleWindows(v0: seq<word>, v: seq<word>, k: nat)
    requires k > 0 && Windows(v0, v, k)
    ensures forall l: nat | l < |v0| :: ShuffleFrom(v, k)[l] == Wrap(Range(v0, 0, l + 1))
    decreases |v| - k
  {
    if k < |v| {
      WindowsStep(v0, v, k);
      ShuffleWindows(v0, ShuffleStep(v, k), 2 * k);
    }
  }

  /** The shuffle loop is an inclusive prefix sum of the warp, for any number of lanes. */
  lemma WarpScanCorrect(v: seq<word>)
    ensures forall l: nat | l < |v| :: WarpScan(v)[l] == Wrap(Range(v, 0, l + 1))
  {
    WindowsStart(v);
    ShuffleWindows(v, v, 1);
  }

  // ----- warps, blocks and the barrier -----

  /** lanes per warp, warps per block, blocks; the input has one word per thread. */
  datatype Launch = Launch(lanes: nat, warps: nat, blocks: nat, src: seq<word>)
  {
    function Block(): nat {
      lanes * warps
    }

    ghost predicate Valid() {
      lanes > 0 && warps > 0 && |src| == blocks * Block()
    }
  }

  /** Where a warp is, with its lanes' registers. */
  datatype WarpState =
    | Start                              // about to load and shuffle
    | Scanned(v: seq<word>)              // about to store its total in shared memory
    | Waiting(v: seq<word>)              // at the barrier
    | Adding(v: seq<word>, i: nat)       // about to add shared[i], or to store its results
    | Finished

  /** Global memory written by the launch, the blocks' shared memories and the warps, by block and warp. */
  datatype Grid = Grid(warp: seq<seq<WarpState>>, shared: seq<seq<word>>, out: seq<word>, bsum: seq<word>)

  ghost predicate Shape(c: Launch, s: Grid) {
    && c.Valid() && |s.warp| == |s.shared| == c.blocks <= |s.bsum| && |s.out| == |c.src|
    && (forall b | 0 <= b < c.blocks :: |s.warp[b]| == |s.shared[b]| == c.warps)
    && forall b, w | 0 <= b < c.blocks && 0 <= w < c.warps :: Registers(c, s.warp[b][w])
  }

  ghost predicate Registers(c: Launch, t: WarpState) {
    match t
    case Scanned(v) => |v| == c.lanes
    case Waiting(v) => |v| == c.lanes
    case Adding(v, _) => |v| == c.lanes
    case _ => true
  }

  /** First thread of warp w of block b. */
  function Base(c: Launch, b: nat, w: nat): nat {
    b * c.Block() + w * c.lanes
  }

  lemma BaseBound(c: Launch, b: nat, w: nat)
    requires c.Valid() && b < c.blocks && w < c.warps
    ensures Base(c, b, w) + c.lanes <= b * c.Block() + c.Block() <= |c.src|
    ensures b * c.Block() <= Base(c, b, w) && Base(c, b, w + 1) == Base(c, b, w) + c.lanes
    ensures w == c.warps - 1 ==> Base(c, b, w) + c.lanes == b * c.Block() + c.Block()
  {
    assert w * c.lanes + c.lanes == (w + 1) * c.lanes;
    MulMono(w + 1, c.warps, c.lanes);
    MulMono(b + 1, c.blocks, c.Block());
    assert (b + 1) * c.Block() == b * c.Block() + c.Block();
  }

  lemma MulMono(a: nat, b: nat, c: nat)
    requires a <= b
    ensures a * c <= b * c
  {
  }

  predicate Arrived(t: WarpState) {
    t.Waiting? || t.Adding? || t.Finished?
  }

  function SetWarp(s: Grid, b: nat, w: nat, t: WarpState): Grid
    requires b < |s.warp| && w < |s.warp[b]|
  {
    s.(warp := s.warp[b := s.warp[b][w := t]])
  }

  /** A warp's new state together with its word of the block's shared memory. */
  function Move(s: Grid, b: nat, w: nat, t: WarpState, x: word): Grid
    requires b < |s.warp| && w < |s.warp[b]| && b < |s.shared| && w < |s.shared[b]|
  {
    var row: seq<word> := s.shared[b][w := x];
    SetWarp(s, b, w, t).(shared := s.shared[b := row])
  }

  function AddAll(v: seq<word>, x: word): (r: seq<word>)
    ensures |r| == |v|
  {
    seq(|v|, l requires 0 <= l < |v| => AddW(v[l], x))
  }

  /** A stretch of a buffer replaced. */
  function Splice(buf: seq<word>, at: nat, v: seq<word>): (r: seq<word>)
    requires at + |v| <= |buf|
    ensures |r| == |buf|
    ensures forall i | 0 <= i < |buf| :: r[i] == if at <= i < at + |v| then v[i - at] else buf[i]
  {
    buf[..at] + v + buf[at + |v|..]
  }

  predicate BarrierOpen(s: Grid, b: nat)
    requires b < |s.warp|
  {
    forall w | 0 <= w < |s.warp[b]| :: Arrived(s.warp[b][w])
  }

  /** The next lockstep action of one warp; at a closed barrier it waits. */
  ghost function Step(c: Launch, s: Grid, b: nat, w: nat): Grid
    requires Shape(c, s) && b < c.blocks && w < c.warps
  {
    BaseBound(c, b, w);
    var at := Base(c, b, w);
    match s.warp[b][w]
    case Start => SetWarp(s, b, w, Scanned(WarpScan(c.src[at..at + c.lanes])))
    case Scanned(v) => Move(s, b, w, Waiting(v), v[c.lanes - 1])
    case Waiting(v) => if BarrierOpen(s, b) then SetWarp(s, b, w, Adding(v, 0)) else s
    case Adding(v, i) =>
      if i < w then SetWarp(s, b, w, Adding(AddAll(v, s.shared[b][i]), i + 1))
      else SetWarp(s, b, w, Finished).(out := Splice(s.out, at, v),
                                       bsum := if w == c.warps - 1 then s.bsum[b := v[c.lanes - 1]] else s.bsum)
    case Finished => s
  }

  // ----- the invariant -----

  /** The inclusive prefix sum of thread t within its block. */
  ghost function Prefix(c: Launch, b: nat, t: nat): word
    requires c.Valid() && b * c.Block() <= t < |c.src|
  {
    Wrap(Range(c.src, b * c.Block(), t + 1))
  }

  /** Lane values of warp w once the totals of the warps below i have been added. */
  ghost predicate Holds(c: Launch, b: nat, w: nat, i: nat, v: seq<word>)
    requires c.Valid() && b < c.blocks && w < c.warps && i <= w && |v| == c.lanes
  {
    BaseBound(c, b, w);
    BaseBound(c, b, i);
    forall l: nat | l < c.lanes ::
      v[l] == Wrap(Range(c.src, b * c.Block(), Base(c, b, i)) + Range(c.src, Base(c, b, w), Base(c, b, w) + l + 1))
  }

  ghost predicate SharedOk(c: Launch, b: nat, w: nat, x: word)
    requires c.Valid() && b < c.blocks && w < c.warps
  {
    BaseBound(c, b, w);
    x == Wrap(Range(c.src, Base(c, b, w), Base(c, b, w) + c.lanes))
  }

  ghost predicate WarpOk(c: Launch, s: Grid, b: nat, w: nat)
    requires Shape(c, s) && b < c.blocks && w < c.warps
  {
    BaseBound(c, b, w);
    var at := Base(c, b, w);
    && (Arrived(s.warp[b][w]) ==> SharedOk(c, b, w, s.shared[b][w]))
    && match s.warp[b][w]
       case Start => true
       case Scanned(v) => Holds(c, b, w, 0, v)
       case Waiting(v) => Holds(c, b, w, 0, v)
       case Adding(v, i) => i <= w && Holds(c, b, w, i, v) && BarrierOpen(s, b)
       case Finished =>
         && BarrierOpen(s, b)
         && (forall t: nat | at <= t < at + c.lanes :: s.out[t] == Prefix(c, b, t))
         && (w == c.warps - 1 ==> s.bsum[b] == Prefix(c, b, at + c.lanes - 1))
  }

  ghost predicate Inv(c: Launch, s: Grid) {
    Shape(c, s) && forall b: nat, w: nat | b < c.blocks && w < c.warps :: WarpOk(c, s, b, w)
  }

  lemma ScannedHolds(c: Launch, b: nat, w: nat)
    requires c.Valid() && b < c.blocks && w < c.warps
    ensures Base(c, b, w) + c.lanes <= |c.src|
    ensures Holds(c, b, w, 0, WarpScan(c.src[Base(c, b, w)..Base(c, b, w) + c.lanes]))
  {
    BaseBound(c, b, w);
    BaseBound(c, b, 0);
    var at := Base(c, b, w);
    var x := c.src[at..at + c.lanes];
    WarpScanCorrect(x);
    RangeEmpty(c.src, b * c.Block());
    forall l: nat | l < c.lanes
      ensures WarpScan(x)[l] == Wrap(Range(c.src, at, at + l + 1))
    {
      assert x[0..l + 1] == c.src[at..at + l + 1];
    }
  }

  /** Adding one more warp total to a lane. */
  lemma AddWindow(src: seq<word>, lo: nat, mid: nat, n: nat, at: nat, hi: nat, v: word, x: word)
    requires lo <= mid && mid + n <= |src| && at <= hi <= |src|
    requires v == Wrap(Range(src, lo, mid) + Range(src, at, hi)) && x == Wrap(Range(src, mid, mid + n))
    ensures AddW(v, x) == Wrap(Range(src, lo, mid + n) + Range(src, at, hi))
  {
    RangeSplit(src, lo, mid, mid + n);
    WrapSum(Range(src, lo, mid) + Range(src, at, hi), Range(src, mid, mid + n));
  }

  lemma AddHolds(c: Launch, b: nat, w: nat, i: nat, v: seq<word>, x: word)
    requires c.Valid() && b < c.blocks && w < c.warps && i < w && |v| == c.lanes
    requires Holds(c, b, w, i, v) && SharedOk(c, b, i, x)
    ensures Holds(c, b, w, i + 1, AddAll(v, x))
  {
    hide Base, Launch.Block, Wrap, AddW, Range;
    BaseBound(c, b, w);
    BaseBound(c, b, i);
    BaseBound(c, b, i + 1);
    forall l: nat | l < c.lanes
      ensures AddAll(v, x)[l] == Wrap(Range(c.src, b * c.Block(), Base(c, b, i) + c.lanes)
                                      + Range(c.src, Base(c, b, w), Base(c, b, w) + l + 1))
    {
      AddWindow(c.src, b * c.Block(), Base(c, b, i), c.lanes, Base(c, b, w), Base(c, b, w) + l + 1, v[l], x);
    }
  }

  lemma FullHolds(c: Launch, b: nat, w: nat, v: seq<word>)
    requires c.Valid() && b < c.blocks && w < c.warps && |v| == c.lanes && Holds(c, b, w, w, v)
    ensures Base(c, b, w) + c.lanes <= |c.src| && b * c.Block() <= Base(c, b, w)
    ensures forall l: nat | l < c.lanes :: v[l] == Prefix(c, b, Base(c, b, w) + l)
  {
    hide Base, Launch.Block, Range;
    BaseBound(c, b, w);
    forall l: nat | l < c.lanes
      ensures v[l] == Prefix(c, b, Base(c, b, w) + l)
    {
      RangeSplit(c.src, b * c.Block(), Base(c, b, w), Base(c, b, w) + l + 1);
    }
  }

  // ----- every interleaving keeps the invariant -----

  /** A warp's own facts survive another warp's change, as long as shared memory words of arrived warps, its own
      results and the barrier are untouched. */
  lemma OtherWarpOk(c: Launch, s: Grid, r: Grid, b: nat, w: nat)
    requires Inv(c, s) && Shape(c, r) && b < c.blocks && w < c.warps
    requires r.warp[b][w] == s.warp[b][w]
    requires Arrived(s.warp[b][w]) ==> r.shared[b][w] == s.shared[b][w]
    requires BarrierOpen(s, b) ==> BarrierOpen(r, b)
    requires s.warp[b][w].Finished? ==>
               && (forall t: nat | Base(c, b, w) <= t < Base(c, b, w) + c.lanes && t < |c.src| :: r.out[t] == s.out[t])
               && (w == c.warps - 1 ==> r.bsum[b] == s.bsum[b])
    ensures WarpOk(c, r, b, w)
  {
    hide Base, Launch.Block, Holds, SharedOk, Prefix;
    BaseBound(c, b, w);
    assert WarpOk(c, s, b, w);
  }

  /** A warp that only changes its own state and its own shared word. */
  lemma MoveInv(c: Launch, s: Grid, b: nat, w: nat, t: WarpState, x: word)
    requires Inv(c, s) && b < c.blocks && w < c.warps && Registers(c, t)
    requires Arrived(s.warp[b][w]) ==> Arrived(t) && x == s.shared[b][w]
    requires Shape(c, Move(s, b, w, t, x)) && WarpOk(c, Move(s, b, w, t, x), b, w)
    ensures Inv(c, Move(s, b, w, t, x))
  {
    hide WarpOk, Base, Launch.Block;
    var r := Move(s, b, w, t, x);
    OpenKept(s, b, w, t);
    forall b': nat, w': nat | b' < c.blocks && w' < c.warps
      ensures WarpOk(c, r, b', w')
    {
      if b' != b || w' != w {
        OtherWarpOk(c, s, r, b', w');
      }
    }
  }

  lemma OpenKept(s: Grid, b: nat, w: nat, t: WarpState)
    requires b < |s.warp| && w < |s.warp[b]| && (Arrived(s.warp[b][w]) ==> Arrived(t))
    ensures BarrierOpen(s, b) ==> BarrierOpen(SetWarp(s, b, w, t), b)
  {
  }

  lemma SameShared(s: Grid, b: nat, w: nat, t: WarpState)
    requires b < |s.warp| == |s.shared| && w < |s.warp[b]| == |s.shared[b]|
    ensures Move(s, b, w, t, s.shared[b][w]) == SetWarp(s, b, w, t)
  {
    assert s.shared[b][w := s.shared[b][w]] == s.shared[b];
    assert s.shared[b := s.shared[b]] == s.shared;
  }

  lemma StartInv(c: Launch, s: Grid, b: nat, w: nat)
    requires Inv(c, s) && b < c.blocks && w < c.warps && (s.warp[b][w].Start? || s.warp[b][w].Scanned?)
    ensures Inv(c, Step(c, s, b, w))
  {
    hide Base, Launch.Block, Holds, SharedOk, WarpScan;
    BaseBound(c, b, w);
    var at := Base(c, b, w);
    assert WarpOk(c, s, b, w);
    if s.warp[b][w].Start? {
      ScannedHolds(c, b, w);
      SameShared(s, b, w, Scanned(WarpScan(c.src[at..at + c.lanes])));
      MoveInv(c, s, b, w, Scanned(WarpScan(c.src[at..at + c.lanes])), s.shared[b][w]);
    } else {
      var v := s.warp[b][w].v;
      TotalShared(c, b, w, v);
      MoveInv(c, s, b, w, Waiting(v), v[c.lanes - 1]);
    }
  }

  lemma TotalShared(c: Launch, b: nat, w: nat, v: seq<word>)
    requires c.Valid() && b < c.blocks && w < c.warps && |v| == c.lanes && Holds(c, b, w, 0, v)
    ensures SharedOk(c, b, w, v[c.lanes - 1])
  {
  }

  lemma BarrierInv(c: Launch, s: Grid, b: nat, w: nat)
    requires Inv(c, s) && b < c.blocks && w < c.warps && s.warp[b][w].Waiting?
    ensures Inv(c, Step(c, s, b, w))
  {
    hide Base, Launch.Block, Holds, SharedOk;
    assert WarpOk(c, s, b, w);
    if BarrierOpen(s, b) {
      var t := Adding(s.warp[b][w].v, 0);
      SameShared(s, b, w, t);
      OpenKept(s, b, w, t);
      MoveInv(c, s, b, w, t, s.shared[b][w]);
    }
  }

  lemma AddingInv(c: Launch, s: Grid, b: nat, w: nat)
    requires Inv(c, s) && b < c.blocks && w < c.warps && s.warp[b][w].Adding? && s.warp[b][w].i < w
    ensures Inv(c, Step(c, s, b, w))
  {
    hide Base, Launch.Block, Holds, SharedOk;
    var Adding(v, i) := s.warp[b][w];
    assert WarpOk(c, s, b, w);
    assert Arrived(s.warp[b][i]) && WarpOk(c, s, b, i);
    AddHolds(c, b, w, i, v, s.shared[b][i]);
    var t := Adding(AddAll(v, s.shared[b][i]), i + 1);
    SameShared(s, b, w, t);
    OpenKept(s, b, w, t);
    MoveInv(c, s, b, w, t, s.shared[b][w]);
  }

  /** Two warps' threads are disjoint. */
  lemma BasesApart(c: Launch, b: nat, w: nat, b': nat, w': nat)
    requires c.Valid() && b < c.blocks && w < c.warps && b' < c.blocks && w' < c.warps && (b != b' || w != w')
    ensures Base(c, b, w) + c.lanes <= Base(c, b', w') || Base(c, b', w') + c.lanes <= Base(c, b, w)
  {
    BaseBound(c, b, w);
    BaseBound(c, b', w');
    if b < b' {
      MulMono(b + 1, b', c.Block());
      assert (b + 1) * c.Block() == b * c.Block() + c.Block();
    } else if b' < b {
      MulMono(b' + 1, b, c.Block());
      assert (b' + 1) * c.Block() == b' * c.Block() + c.Block();
    } else if w < w' {
      MulMono(w + 1, w', c.lanes);
      assert (w + 1) * c.lanes == w * c.lanes + c.lanes;
    } else {
      MulMono(w' + 1, w, c.lanes);
      assert (w' + 1) * c.lanes == w' * c.lanes + c.lanes;
    }
  }

  lemma StoreInv(c: Launch, s: Grid, b: nat, w: nat)
    requires Inv(c, s) && b < c.blocks && w < c.warps && s.warp[b][w].Adding? && s.warp[b][w].i >= w
    ensures Inv(c, Step(c, s, b, w))
  {
    hide Base, Launch.Block, Holds, SharedOk, Prefix;
    var Adding(v, i) := s.warp[b][w];
    assert WarpOk(c, s, b, w);
    BaseBound(c, b, w);
    FullHolds(c, b, w, v);
    OpenKept(s, b, w, Finished);
    var r := Step(c, s, b, w);
    forall b': nat, w': nat | b' < c.blocks && w' < c.warps
      ensures WarpOk(c, r, b', w')
    {
      if b' != b || w' != w {
        BasesApart(c, b, w, b', w');
        BaseBound(c, b', w');
        OtherWarpOk(c, s, r, b', w');
      }
    }
  }

  /** Every action of every warp keeps the invariant. */
  lemma StepInv(c: Launch, s: Grid, b: nat, w: nat)
    requires Inv(c, s) && b < c.blocks && w < c.warps
    ensures Inv(c, Step(c, s, b, w))
  {
    hide WarpOk, Base, Launch.Block;
    match s.warp[b][w]
    case Start => StartInv(c, s, b, w);
    case Scanned(_) => StartInv(c, s, b, w);
    case Waiting(_) => BarrierInv(c, s, b, w);
    case Adding(_, i) => if i < w { AddingInv(c, s, b, w); } else { StoreInv(c, s, b, w); }
    case Finished =>
  }

  // ----- the effect of a launch -----

  ghost predicate AllFinished(s: Grid) {
    forall b, w | 0 <= b < |s.warp| && 0 <= w < |s.warp[b]| :: s.warp[b][w].Finished?
  }

  /** out and bsum as the launch must leave them. */
  ghost predicate BlockScanned(c: Launch, out: seq<word>, bsum: seq<word>)
    requires c.Valid()
  {
    && |out| == |c.src| && c.blocks <= |bsum|
    && (forall t: nat | t < |c.src| :: BlockOf(c, t) * c.Block() <= t && out[t] == Prefix(c, BlockOf(c, t), t))
    && forall b: nat | b < c.blocks :: b * c.Block() + c.Block() - 1 < |c.src| &&
                                       bsum[b] == Wrap(Range(c.src, b * c.Block(), b * c.Block() + c.Block()))
  }

  function BlockOf(c: Launch, t: nat): nat
    requires c.Valid()
  {
    t / c.Block()
  }

  /** Every thread belongs to exactly one lane of one warp of one block. */
  lemma ThreadWarp(c: Launch, t: nat) returns (b: nat, w: nat)
    requires c.Valid() && t < |c.src|
    ensures b == BlockOf(c, t) && b < c.blocks && w < c.warps
    ensures b * c.Block() <= Base(c, b, w) <= t < Base(c, b, w) + c.lanes
  {
    var size := c.Block();
    b := t / size;
    var r := t % size;
    DivBounds(t, size);
    if b >= c.blocks {
      MulMono(c.blocks, b, size);
    }
    w := r / c.lanes;
    DivBounds(r, c.lanes);
    if w >= c.warps {
      MulMono(c.warps, w, c.lanes);
    }
  }

  lemma DivBounds(t: nat, size: nat)
    requires size > 0
    ensures t / size >= 0 && t / size * size <= t < t / size * size + size && t == t / size * size + t % size
  {
  }

  lemma FinishedEffect(c: Launch, s: Grid)
    requires Inv(c, s) && AllFinished(s)
    ensures BlockScanned(c, s.out, s.bsum)
  {
    hide Base, Launch.Block, Holds, SharedOk;
    forall t: nat | t < |c.src|
      ensures BlockOf(c, t) * c.Block() <= t && s.out[t] == Prefix(c, BlockOf(c, t), t)
    {
      var b, w := ThreadWarp(c, t);
      assert WarpOk(c, s, b, w);
    }
    forall b: nat | b < c.blocks
      ensures b * c.Block() + c.Block() - 1 < |c.src|
      ensures s.bsum[b] == Wrap(Range(c.src, b * c.Block(), b * c.Block() + c.Block()))
    {
      BaseBound(c, b, c.warps - 1);
      assert WarpOk(c, s, b, c.warps - 1);
    }
  }

  // ----- progress: the barrier never deadlocks and every run ends -----

  ghost function WarpLeft(w: nat, t: WarpState): nat {
    match t
    case Start => w + 4
    case Scanned(_) => w + 3
    case Waiting(_) => w + 2
    case Adding(_, i) => if i <= w then w - i + 1 else 1
    case Finished => 0
  }

  /** Whether warp w of block b can act: it is unfinished, and not waiting at a closed barrier. */
  predicate Enabled(s: Grid, b: nat, w: nat)
    requires b < |s.warp| && w < |s.warp[b]|
  {
    !s.warp[b][w].Finished? && (s.warp[b][w].Waiting? ==> BarrierOpen(s, b))
  }

  /** As long as some warp is unfinished, some warp can act. */
  lemma NoDeadlock(c: Launch, s: Grid) returns (b: nat, w: nat)
    requires Shape(c, s) && !AllFinished(s)
    ensures b < c.blocks && w < c.warps && Enabled(s, b, w)
  {
    b, w :| 0 <= b < |s.warp| && 0 <= w < |s.warp[b]| && !s.warp[b][w].Finished?;
    if !BarrierOpen(s, b) {
      w :| 0 <= w < |s.warp[b]| && !Arrived(s.warp[b][w]);
    }
  }

  ghost function RowLeft(row: seq<WarpState>): nat {
    if row == [] then 0 else RowLeft(row[..|row| - 1]) + WarpLeft(|row| - 1, row[|row| - 1])
  }

  ghost function TotalLeft(warp: seq<seq<WarpState>>): nat {
    if warp == [] then 0 else TotalLeft(warp[..|warp| - 1]) + RowLeft(warp[|warp| - 1])
  }

  lemma {:induction false} RowUpdate(row: seq<WarpState>, w: nat, t: WarpState)
    requires w < |row|
    ensures RowLeft(row[w := t]) == RowLeft(row) - WarpLeft(w, row[w]) + WarpLeft(w, t)
    decreases |row|
  {
    var n := |row| - 1;
    if w == n {
      assert row[w := t][..n] == row[..n];
    } else {
      assert row[w := t][..n] == row[..n][w := t];
      RowUpdate(row[..n], w, t);
    }
  }

  lemma {:induction false} TotalUpdate(warp: seq<seq<WarpState>>, b: nat, row: seq<WarpState>)
    requires b < |warp|
    ensures TotalLeft(warp[b := row]) == TotalLeft(warp) - RowLeft(warp[b]) + RowLeft(row)
    decreases |warp|
  {
    var n := |warp| - 1;
    if b == n {
      assert warp[b := row][..n] == warp[..n];
    } else {
      assert warp[b := row][..n] == warp[..n][b := row];
      TotalUpdate(warp[..n], b, row);
    }
  }

  /** Every action of a warp that can act brings the launch closer to its end. */
  lemma StepProgress(c: Launch, s: Grid, b: nat, w: nat)
    requires Shape(c, s) && b < c.blocks && w < c.warps && Enabled(s, b, w)
    ensures TotalLeft(Step(c, s, b, w).warp) < TotalLeft(s.warp)
  {
    var row := Step(c, s, b, w).warp[b];
    assert Step(c, s, b, w).warp == s.warp[b := row];
    RowUpdate(s.warp[b], w, row[w]);
    TotalUpdate(s.warp, b, row);
  }
}
