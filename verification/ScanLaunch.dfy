/** A scan launch as the device runs it: output buffers written in place, warps scheduled adversarially. */
module ScanLaunch {
  import opened Words
  import opened ScanKernel

  ghost function InitialGrid(c: Launch, out: seq<word>, bsum: seq<word>, shared: seq<seq<word>>): Grid {
    Grid(seq(c.blocks, _ => seq(c.warps, _ => Start)), shared, out, bsum)
  }

  lemma InitialInv(c: Launch, out: seq<word>, bsum: seq<word>, shared: seq<seq<word>>)
    requires c.Valid() && |out| == |c.src| && c.blocks <= |bsum|
    requires |shared| == c.blocks && forall b | 0 <= b < c.blocks :: |shared[b]| == c.warps
    ensures Inv(c, InitialGrid(c, out, bsum, shared))
  {
  }

  /** One launch of the scan kernel: whatever the interleaving of the warps of all blocks, it ends, every word
      of out is the prefix sum of its block, and every block total is in bsum, whose padding stays as it was.
      Shared memory starts with arbitrary contents. */
  method RunScan(c: Launch, out: array<word>, bsum: array<word>, sharedMem: seq<seq<word>>)
    requires c.Valid() && out.Length == |c.src| && c.blocks <= bsum.Length && out != bsum
    requires |sharedMem| == c.blocks && forall b | 0 <= b < c.blocks :: |sharedMem[b]| == c.warps
    modifies out, bsum
    ensures BlockScanned(c, out[..], bsum[..])
    ensures bsum[c.blocks..] == old(bsum[c.blocks..])
  {
    hide Inv, Step, Shape, BlockScanned;
    ghost var s := InitialGrid(c, out[..], bsum[..], sharedMem);
    InitialInv(c, out[..], bsum[..], sharedMem);
    InvShape(c, s);
    var warp: seq<seq<WarpState>> := seq(c.blocks, _ => seq(c.warps, _ => Start));
    var shared := sharedMem;
    while exists b, w :: 0 <= b < |warp| && 0 <= w < |warp[b]| && !warp[b][w].Finished?
      invariant Inv(c, s) && Shape(c, s) && s == Grid(warp, shared, out[..], bsum[..])
      invariant |warp| == |shared| == c.blocks
      invariant bsum[c.blocks..] == old(bsum[c.blocks..])
      decreases TotalLeft(warp)
    {
      var b0, w0 := NoDeadlock(c, s);
      ShapeFacts(c, s);
      var b, w :| 0 <= b < |warp| && 0 <= w < |warp[b]| && !warp[b][w].Finished? &&
                  (warp[b][w].Waiting? ==> forall i | 0 <= i < |warp[b]| :: Arrived(warp[b][i]));
      StepInv(c, s, b, w);
      StepProgress(c, s, b, w);
      warp, shared := Act(c, out, bsum, warp, shared, b, w);
      s := Step(c, s, b, w);
      InvShape(c, s);
    }
    FinishedEffect(c, s);
  }

  lemma InvShape(c: Launch, s: Grid)
    requires Inv(c, s)
    ensures Shape(c, s)
  {
  }

  lemma ShapeFacts(c: Launch, s: Grid)
    requires Shape(c, s)
    ensures |s.warp| == |s.shared| == c.blocks && forall b | 0 <= b < c.blocks :: |s.warp[b]| == c.warps
  {
  }

  /** One enabled action of one warp, storing to the output buffers in place. */
  method Act(c: Launch, out: array<word>, bsum: array<word>, warp: seq<seq<WarpState>>, shared: seq<seq<word>>, b: nat, w: nat)
    returns (warp': seq<seq<WarpState>>, shared': seq<seq<word>>)
    requires Shape(c, Grid(warp, shared, out[..], bsum[..])) && out != bsum
    requires b < c.blocks && w < c.warps && Enabled(Grid(warp, shared, out[..], bsum[..]), b, w)
    modifies out, bsum
    ensures Grid(warp', shared', out[..], bsum[..]) == Step(c, old(Grid(warp, shared, out[..], bsum[..])), b, w)
    ensures |warp'| == |shared'| == c.blocks
    ensures bsum[c.blocks..] == old(bsum[c.blocks..])
  {
    BaseBound(c, b, w);
    hide Base, Launch.Block, WarpScan;
    var at := Base(c, b, w);
    shared' := shared;
    match warp[b][w] {
      case Start =>
        warp' := warp[b := warp[b][w := Scanned(WarpScan(c.src[at..at + c.lanes]))]];
      case Scanned(v) =>
        var row: seq<word> := shared[b][w := v[c.lanes - 1]];
        shared' := shared[b := row];
        warp' := warp[b := warp[b][w := Waiting(v)]];
      case Waiting(v) =>
        warp' := warp[b := warp[b][w := Adding(v, 0)]];
      case Adding(v, i) =>
        if i < w {
          warp' := warp[b := warp[b][w := Adding(AddAll(v, shared[b][i]), i + 1)]];
        } else {
          StoreWarp(out, at, v);
          if w == c.warps - 1 {
            bsum[b] := v[c.lanes - 1];
          }
          warp' := warp[b := warp[b][w := Finished]];
        }
    }
  }

  /** The lanes of a warp store their results. */
  method StoreWarp(out: array<word>, at: nat, v: seq<word>)
    requires at + |v| <= out.Length
    modifies out
    ensures out[..] == Splice(old(out[..]), at, v)
  {
    for l := 0 to |v|
      invariant forall i | at <= i < at + l :: out[i] == v[i - at]
      invariant forall i | 0 <= i < out.Length && !(at <= i < at + l) :: out[i] == old(out[i])
    {
      out[at + l] := v[l];
    }
  }
}
