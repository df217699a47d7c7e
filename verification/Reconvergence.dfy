/** The SIMT reconvergence stack: the update rules of one warp, and the proof that every lane computes what it
    would compute alone. The rules are those of the written design. */
module Reconvergence {

  /** Per-lane instructions; a branch target is an index into the code. */
  datatype Instr<!S> =
    | Op(f: S -> S)
    | Branch(taken: S -> bool, target: nat)

  // ----- one lane alone -----

  datatype Lane<S> = Lane(pc: nat, s: S)

  function SoloStep<S>(code: seq<Instr<S>>, l: Lane<S>): Lane<S> {
    if l.pc >= |code| then l
    else match code[l.pc]
      case Op(f) => Lane(l.pc + 1, f(l.s))
      case Branch(taken, target) => Lane(if taken(l.s) then target else l.pc + 1, l.s)
  }

  ghost function SoloRun<S>(code: seq<Instr<S>>, l: Lane<S>, n: nat): Lane<S>
    decreases n
  {
    if n == 0 then l else SoloRun(code, SoloStep(code, l), n - 1)
  }

  // ----- the warp -----

  /** A frame's join; the base frame has none and never pops. */
  datatype Join = Bottom | At(pc: nat)

  datatype Frame = Frame(npc: nat, mask: set<nat>, rpc: Join)

  datatype Warp<S> = Warp(stack: seq<Frame>, regs: seq<S>)

  function Top<S>(w: Warp<S>): Frame
    requires w.stack != []
  {
    w.stack[|w.stack| - 1]
  }

  function Retarget<S>(w: Warp<S>, pc: nat): Warp<S>
    requires w.stack != []
  {
    w.(stack := w.stack[|w.stack| - 1 := Top(w).(npc := pc)])
  }

  /** The lanes of the mask that take the branch. */
  function TakenMask<S>(mask: set<nat>, taken: S -> bool, regs: seq<S>): set<nat> {
    set l | l in mask && l < |regs| && taken(regs[l])
  }

  function Spent(f: Frame): bool {
    f.rpc == At(f.npc)
  }

  /** One issue slot of the warp: pop a spent frame, retire at the end of the code, or execute the top frame's
      instruction for its lanes. A divergent branch leaves the union mask at the join and pushes a frame that
      runs the fall-through lanes of a forward branch, or the looping lanes of a backward one. */
  function Issue<S>(code: seq<Instr<S>>, w: Warp<S>): Warp<S>
    requires w.stack != []
  {
    var top := Top(w);
    var pc := top.npc;
    if |w.stack| > 1 && Spent(top) then w.(stack := w.stack[..|w.stack| - 1])
    else if pc >= |code| then w
    else match code[pc]
      case Op(f) =>
        Retarget(w, pc + 1).(regs := seq(|w.regs|, l requires 0 <= l < |w.regs| =>
                                           if l in top.mask then f(w.regs[l]) else w.regs[l]))
      case Branch(taken, target) =>
        var mask := TakenMask(top.mask, taken, w.regs);
        if mask == top.mask then Retarget(w, target)
        else if mask == {} then Retarget(w, pc + 1)
        else if target > pc then
          var w' := Retarget(w, target);
          w'.(stack := w'.stack + [Frame(pc + 1, top.mask - mask, At(target))])
        else
          var w' := Retarget(w, pc + 1);
          w'.(stack := w'.stack + [Frame(target, mask, At(pc + 1))])
  }

  ghost function Run<S>(code: seq<Instr<S>>, w: Warp<S>, n: nat): (r: Warp<S>)
    requires w.stack != []
    ensures r.stack != []
    decreases n
  {
    if n == 0 then w else Run(code, Issue(code, w), n - 1)
  }

  /** The whole warp has retired. */
  predicate Retired<S>(code: seq<Instr<S>>, w: Warp<S>) {
    |w.stack| == 1 && w.stack[0].npc >= |code|
  }

  // ----- the stack invariant -----

  /** Masks shrink strictly up the stack and stay non-empty; every frame below the top waits at the join of the
      frame above it. */
  ghost predicate StackOk<S>(w: Warp<S>, lanes: set<nat>) {
    && w.stack != [] && w.stack[0].mask == lanes && lanes != {}
    && (forall l | l in lanes :: l < |w.regs|)
    && (forall i | 0 <= i < |w.stack| :: w.stack[i].mask != {})
    && (forall i | 0 <= i < |w.stack| - 1 :: w.stack[i + 1].mask < w.stack[i].mask)
    && (forall i | 0 <= i < |w.stack| - 1 :: w.stack[i + 1].rpc == At(w.stack[i].npc))
  }

  lemma TakenIsSubset<S>(mask: set<nat>, taken: S -> bool, regs: seq<S>)
    ensures TakenMask(mask, taken, regs) <= mask
  {
  }

  lemma RetargetKeepsStack<S>(w: Warp<S>, lanes: set<nat>, pc: nat)
    requires StackOk(w, lanes)
    ensures StackOk(Retarget(w, pc), lanes)
  {
  }

  lemma PushKeepsStack<S>(w: Warp<S>, lanes: set<nat>, f: Frame)
    requires StackOk(w, lanes) && f.mask != {} && f.mask < Top(w).mask && f.rpc == At(Top(w).npc)
    ensures StackOk(w.(stack := w.stack + [f]), lanes)
  {
  }

  /** Every issue slot of every program keeps the stack invariant. */
  lemma IssueKeepsStack<S>(code: seq<Instr<S>>, w: Warp<S>, lanes: set<nat>)
    requires StackOk(w, lanes)
    ensures StackOk(Issue(code, w), lanes)
  {
    hide StackOk;
    StackFacts(w, lanes);
    var top := Top(w);
    var pc := top.npc;
    if |w.stack| > 1 && Spent(top) {
      PopKeepsStack(w, lanes);
    } else if pc < |code| {
      match code[pc]
      case Op(f) =>
        RetargetKeepsStack(w, lanes, pc + 1);
        RegsKeepStack(Retarget(w, pc + 1), Issue(code, w), lanes);
      case Branch(taken, target) =>
        var mask := TakenMask(top.mask, taken, w.regs);
        TakenIsSubset(top.mask, taken, w.regs);
        RetargetKeepsStack(w, lanes, target);
        RetargetKeepsStack(w, lanes, pc + 1);
        if mask != top.mask && mask != {} {
          ProperParts(top.mask, mask);
          if target > pc {
            PushKeepsStack(Retarget(w, target), lanes, Frame(pc + 1, top.mask - mask, At(target)));
          } else {
            PushKeepsStack(Retarget(w, pc + 1), lanes, Frame(target, mask, At(pc + 1)));
          }
        }
    }
  }

  /** A divergent branch splits the mask into two non-empty, proper parts. */
  lemma ProperParts(a: set<nat>, b: set<nat>)
    requires b <= a && b != a && b != {}
    ensures a - b != {} && a - b < a && b < a
  {
    var x :| x in b;
    var y :| y in a && y !in b;
    assert y in a - b && x !in a - b;
  }

  lemma StackFacts<S>(w: Warp<S>, lanes: set<nat>)
    requires StackOk(w, lanes)
    ensures w.stack != [] && Top(w).mask != {}
  {
  }

  lemma PopKeepsStack<S>(w: Warp<S>, lanes: set<nat>)
    requires StackOk(w, lanes) && |w.stack| > 1
    ensures StackOk(w.(stack := w.stack[..|w.stack| - 1]), lanes)
  {
  }

  lemma RegsKeepStack<S>(w: Warp<S>, w': Warp<S>, lanes: set<nat>)
    requires StackOk(w, lanes) && w'.stack == w.stack && |w'.regs| == |w.regs|
    ensures StackOk(w', lanes)
  {
  }

  lemma ProperSubsetSize(a: set<nat>, b: set<nat>)
    requires a < b
    ensures |a| < |b|
  {
    assert b == a + (b - a) && a !! (b - a) && b - a != {};
  }

  lemma {:induction false} MaskSize<S>(w: Warp<S>, lanes: set<nat>, i: nat)
    requires StackOk(w, lanes) && i < |w.stack|
    ensures |w.stack[i].mask| + i <= |lanes|
  {
    if i > 0 {
      MaskSize(w, lanes, i - 1);
      ProperSubsetSize(w.stack[i].mask, w.stack[i - 1].mask);
    }
  }

  /** A warp of L lanes never holds more than L frames. */
  lemma DepthBound<S>(w: Warp<S>, lanes: set<nat>)
    requires StackOk(w, lanes)
    ensures |w.stack| <= |lanes|
  {
    MaskSize(w, lanes, |w.stack| - 1);
    assert Top(w).mask != {};
  }

  // ----- safety: each lane is always somewhere on its own solo run -----

  /** Where lane l stands: at the program counter of the highest frame that runs it. */
  ghost function LanePc(stack: seq<Frame>, l: nat): nat {
    if stack == [] then 0
    else if l in stack[|stack| - 1].mask then stack[|stack| - 1].npc
    else LanePc(stack[..|stack| - 1], l)
  }

  ghost function LaneOf<S>(w: Warp<S>, l: nat): Lane<S>
    requires l < |w.regs|
  {
    Lane(LanePc(w.stack, l), w.regs[l])
  }

  /** Changing only the top frame's program counter moves exactly the top frame's lanes. */
  lemma RetargetPc<S>(w: Warp<S>, pc: nat, l: nat)
    requires w.stack != []
    ensures LanePc(Retarget(w, pc).stack, l) == if l in Top(w).mask then pc else LanePc(w.stack, l)
  {
  }

  /** Does this issue slot execute an instruction, rather than pop or retire? */
  predicate Executes<S>(code: seq<Instr<S>>, w: Warp<S>)
    requires w.stack != []
  {
    !(|w.stack| > 1 && Spent(Top(w))) && Top(w).npc < |code|
  }

  /** An issue slot advances the top frame's lanes by one step of their own, and leaves all others alone. */
  lemma IssueIsSoloStep<S>(code: seq<Instr<S>>, w: Warp<S>, lanes: set<nat>, l: nat)
    requires StackOk(w, lanes) && l in lanes
    ensures |Issue(code, w).regs| == |w.regs|
    ensures LaneOf(Issue(code, w), l) ==
            if Executes(code, w) && l in Top(w).mask then SoloStep(code, LaneOf(w, l)) else LaneOf(w, l)
  {
    var top := Top(w);
    if |w.stack| > 1 && Spent(top) {
      var below := w.stack[..|w.stack| - 1];
      assert below[|below| - 1] == w.stack[|w.stack| - 2];
      assert top.mask < w.stack[|w.stack| - 2].mask;
    } else if top.npc < |code| {
      match code[top.npc]
      case Op(f) => RetargetPc(w, top.npc + 1, l);
      case Branch(taken, target) => BranchIsSoloStep(code, w, lanes, l);
    }
  }

  lemma BranchIsSoloStep<S>(code: seq<Instr<S>>, w: Warp<S>, lanes: set<nat>, l: nat)
    requires StackOk(w, lanes) && l in lanes && Executes(code, w) && code[Top(w).npc].Branch?
    ensures Issue(code, w).regs == w.regs
    ensures LaneOf(Issue(code, w), l) == if l in Top(w).mask then SoloStep(code, LaneOf(w, l)) else LaneOf(w, l)
  {
    var top := Top(w);
    var Branch(taken, target) := code[top.npc];
    var mask := TakenMask(top.mask, taken, w.regs);
    assert l in mask <==> l in top.mask && taken(w.regs[l]);
    RetargetPc(w, target, l);
    RetargetPc(w, top.npc + 1, l);
  }

  lemma {:induction false} SoloRunAdd<S>(code: seq<Instr<S>>, l: Lane<S>, n: nat)
    ensures SoloRun(code, l, n + 1) == SoloStep(code, SoloRun(code, l, n))
    decreases n
  {
    if n > 0 {
      SoloRunAdd(code, SoloStep(code, l), n - 1);
    }
  }

  /** For every program and every number of issue slots: the stack is well formed, and lane l has taken some
      number of steps of its solo run, no more and no fewer. */
  lemma {:induction false} RunIsSolo<S>(code: seq<Instr<S>>, w: Warp<S>, lanes: set<nat>, n: nat, l: nat)
    returns (k: nat)
    requires StackOk(w, lanes) && l in lanes
    ensures StackOk(Run(code, w, n), lanes) && |Run(code, w, n).regs| == |w.regs|
    ensures LaneOf(Run(code, w, n), l) == SoloRun(code, LaneOf(w, l), k)
    decreases n
  {
    if n == 0 {
      k := 0;
    } else {
      IssueKeepsStack(code, w, lanes);
      IssueIsSoloStep(code, w, lanes, l);
      k := RunIsSolo(code, Issue(code, w), lanes, n - 1, l);
      if Executes(code, w) && l in Top(w).mask {
        k := k + 1;
      }
    }
  }

  /** A retired warp leaves every lane in a final state of its own solo run. */
  lemma RetiredIsSolo<S>(code: seq<Instr<S>>, w: Warp<S>, lanes: set<nat>, n: nat, l: nat) returns (k: nat)
    requires StackOk(w, lanes) && l in lanes && Retired(code, Run(code, w, n))
    ensures l < |w.regs| == |Run(code, w, n).regs|
    ensures SoloRun(code, LaneOf(w, l), k).pc >= |code|
    ensures SoloRun(code, LaneOf(w, l), k).s == Run(code, w, n).regs[l]
  {
    k := RunIsSolo(code, w, lanes, n, l);
  }

  // ----- structured programs: forward ifs and backward loops -----

  /** Control stays inside the block a..b, or leaves it at b. */
  ghost predicate Closed<S>(code: seq<Instr<S>>, a: nat, b: nat) {
    && a <= b <= |code|
    && forall i | a <= i < b && code[i].Branch? :: a <= code[i].target <= b
  }

  /** The branch at i spans a closed block: the body of a single-sided if, or the body of a loop. */
  ghost predicate SpansBlock<S>(code: seq<Instr<S>>, i: nat)
    requires i < |code| && code[i].Branch?
  {
    var target := code[i].target;
    if target > i then Closed(code, i + 1, target) else Closed(code, target, i + 1)
  }

  ghost predicate Nested<S>(code: seq<Instr<S>>, a: nat, b: nat) {
    && Closed(code, a, b)
    && forall i | a <= i < b && code[i].Branch? :: SpansBlock(code, i)
  }

  /** Every branch of the program spans a closed block. */
  ghost predicate WellNested<S>(code: seq<Instr<S>>) {
    Nested(code, 0, |code|)
  }

  /** Source programs: blocks, ifs that skip their body when the condition holds, and bottom-tested loops. */
  datatype Stmt<!S> =
    | Do(f: S -> S)
    | Seq(first: Stmt<S>, second: Stmt<S>)
    | Unless(skip: S -> bool, body: Stmt<S>)
    | Repeat(body: Stmt<S>, again: S -> bool)

  /** The code of a statement placed at index base. */
  function Compile<S>(s: Stmt<S>, base: nat): (c: seq<Instr<S>>)
    ensures c != []
  {
    match s
    case Do(f) => [Op(f)]
    case Seq(a, b) => var x := Compile(a, base); x + Compile(b, base + |x|)
    case Unless(skip, body) => var x := Compile(body, base + 1); [Branch(skip, base + 1 + |x|)] + x
    case Repeat(body, again) => var x := Compile(body, base); x + [Branch(again, base)]
  }

  /** The statement's code sits at base in the program. */
  ghost predicate Placed<S>(code: seq<Instr<S>>, s: Stmt<S>, base: nat) {
    var c := Compile(s, base);
    base + |c| <= |code| && code[base..base + |c|] == c
  }

  /** The parts of a placed statement are placed, and their sizes and branches are where they should be. */
  lemma PlacedParts<S>(code: seq<Instr<S>>, s: Stmt<S>, base: nat)
    requires Placed(code, s, base)
    ensures 0 < |Compile(s, base)| && base + |Compile(s, base)| <= |code|
    ensures s.Do? ==> |Compile(s, base)| == 1 && code[base] == Op(s.f)
    ensures s.Seq? ==> Placed(code, s.first, base) && Placed(code, s.second, base + |Compile(s.first, base)|)
                       && |Compile(s, base)| == |Compile(s.first, base)| + |Compile(s.second, base + |Compile(s.first, base)|)|
    ensures s.Unless? ==> Placed(code, s.body, base + 1) && |Compile(s, base)| == 1 + |Compile(s.body, base + 1)|
                          && code[base] == Branch(s.skip, base + |Compile(s, base)|)
    ensures s.Repeat? ==> Placed(code, s.body, base) && |Compile(s, base)| == |Compile(s.body, base)| + 1
                          && code[base + |Compile(s.body, base)|] == Branch(s.again, base)
  {
    match s
    case Do(f) => PlacedSlice(code, base, Compile(s, base), 0, 1);
    case Seq(_, _) => PlacedSeq(code, s, base);
    case Unless(_, _) => PlacedUnless(code, s, base);
    case Repeat(_, _) => PlacedRepeat(code, s, base);
  }

  lemma PlacedSeq<S>(code: seq<Instr<S>>, s: Stmt<S>, base: nat)
    requires Placed(code, s, base) && s.Seq?
    ensures Placed(code, s.first, base) && Placed(code, s.second, base + |Compile(s.first, base)|)
  {
    var c, x := Compile(s, base), Compile(s.first, base);
    PlacedSlice(code, base, c, 0, |x|);
    PlacedSlice(code, base, c, |x|, |c|);
  }

  lemma PlacedUnless<S>(code: seq<Instr<S>>, s: Stmt<S>, base: nat)
    requires Placed(code, s, base) && s.Unless?
    ensures Placed(code, s.body, base + 1) && code[base] == Branch(s.skip, base + |Compile(s, base)|)
  {
    var c := Compile(s, base);
    PlacedSlice(code, base, c, 0, 1);
    PlacedSlice(code, base, c, 1, |c|);
  }

  lemma PlacedRepeat<S>(code: seq<Instr<S>>, s: Stmt<S>, base: nat)
    requires Placed(code, s, base) && s.Repeat?
    ensures Placed(code, s.body, base) && code[base + |Compile(s.body, base)|] == Branch(s.again, base)
  {
    var c := Compile(s, base);
    PlacedSlice(code, base, c, 0, |c| - 1);
    PlacedSlice(code, base, c, |c| - 1, |c|);
  }

  lemma PlacedSlice<T>(code: seq<T>, base: nat, c: seq<T>, lo: nat, hi: nat)
    requires base + |c| <= |code| && code[base..base + |c|] == c && lo <= hi <= |c|
    ensures code[base + lo..base + hi] == c[lo..hi]
    ensures lo < hi ==> code[base + lo] == c[lo]
  {
    var p := code[base..base + |c|];
    assert forall i | 0 <= i < |c| :: p[i] == code[base + i];
    var q := code[base + lo..base + hi];
    assert forall i | 0 <= i < hi - lo :: q[i] == p[lo + i];
  }

  lemma NestedJoin<S>(code: seq<Instr<S>>, a: nat, b: nat, c: nat)
    requires Nested(code, a, b) && Nested(code, b, c)
    ensures Nested(code, a, c)
  {
  }

  lemma NestedOp<S>(code: seq<Instr<S>>, a: nat)
    requires a < |code| && code[a].Op?
    ensures Nested(code, a, a + 1)
  {
  }

  /** A forward branch over a nested block, or a backward branch after one, is nested with it. */
  lemma NestedBranch<S>(code: seq<Instr<S>>, a: nat, b: nat)
    ensures 0 < a && a <= b && Nested(code, a, b) && code[a - 1].Branch? && code[a - 1].target == b ==> Nested(code, a - 1, b)
    ensures a <= b < |code| && Nested(code, a, b) && code[b].Branch? && code[b].target == a ==> Nested(code, a, b + 1)
  {
  }

  /** A statement's code is one closed block whose branches all span closed blocks. */
  lemma {:induction false} CompileNested<S>(code: seq<Instr<S>>, s: Stmt<S>, base: nat)
    requires Placed(code, s, base)
    ensures Nested(code, base, base + |Compile(s, base)|)
    decreases s
  {
    hide Placed, Compile, Nested;
    PlacedParts(code, s, base);
    match s
    case Do(f) =>
      NestedOp(code, base);
    case Seq(a, b) =>
      CompileNested(code, a, base);
      CompileNested(code, b, base + |Compile(a, base)|);
      NestedJoin(code, base, base + |Compile(a, base)|, base + |Compile(s, base)|);
    case Unless(_, body) =>
      CompileNested(code, body, base + 1);
      NestedBranch(code, base + 1, base + |Compile(s, base)|);
    case Repeat(body, _) =>
      CompileNested(code, body, base);
      NestedBranch(code, base, base + |Compile(body, base)|);
  }

  /** Every structured program is well nested. */
  lemma CompileWellNested<S>(s: Stmt<S>)
    ensures WellNested(Compile(s, 0))
  {
    CompileNested(Compile(s, 0), s, 0);
  }

  // ----- liveness: on well-nested code the warp retires when its lanes do -----

  /** Every pushed frame runs inside a closed block that ends at its join. */
  ghost predicate FramesOk<S>(code: seq<Instr<S>>, w: Warp<S>) {
    forall i | 1 <= i < |w.stack| :: FrameOk(code, w.stack[i])
  }

  ghost predicate FrameOk<S>(code: seq<Instr<S>>, f: Frame) {
    f.rpc.At? && exists a: nat :: Closed(code, a, f.rpc.pc) && a <= f.npc <= f.rpc.pc
  }

  /** Inside a closed block, the next program counter stays in the block or is its end. */
  lemma ClosedStep<S>(code: seq<Instr<S>>, f: Frame, pc: nat)
    requires WellNested(code) && FrameOk(code, f) && f.npc < f.rpc.pc
    requires pc == f.npc + 1 || (code[f.npc].Branch? && pc == code[f.npc].target)
    ensures FrameOk(code, f.(npc := pc))
  {
  }

  lemma IssueKeepsFrames<S>(code: seq<Instr<S>>, w: Warp<S>, lanes: set<nat>)
    requires StackOk(w, lanes) && FramesOk(code, w) && WellNested(code)
    ensures FramesOk(code, Issue(code, w))
  {
    hide FrameOk, WellNested;
    var top, r := Top(w), Issue(code, w);
    if |w.stack| > 1 && Spent(top) {
      assert forall i | 1 <= i < |r.stack| :: r.stack[i] == w.stack[i];
    } else if top.npc < |code| {
      if |w.stack| > 1 {
        JoinAhead(code, top);
        ClosedStep(code, top, top.npc + 1);
        if code[top.npc].Branch? {
          ClosedStep(code, top, code[top.npc].target);
        }
      }
      if code[top.npc].Branch? {
        var mask := TakenMask(top.mask, code[top.npc].taken, w.regs);
        BranchFrame(code, top.npc, top.mask - mask, mask);
      }
      assert forall i | 1 <= i < |w.stack| - 1 :: r.stack[i] == w.stack[i];
    }
  }

  lemma JoinAhead<S>(code: seq<Instr<S>>, f: Frame)
    requires FrameOk(code, f) && !Spent(f)
    ensures f.npc < f.rpc.pc <= |code|
  {
  }

  /** The frame a divergent branch pushes starts in the closed block the branch spans. */
  lemma BranchFrame<S>(code: seq<Instr<S>>, pc: nat, falling: set<nat>, looping: set<nat>)
    requires WellNested(code) && pc < |code| && code[pc].Branch?
    ensures code[pc].target > pc ==> FrameOk(code, Frame(pc + 1, falling, At(code[pc].target)))
    ensures code[pc].target <= pc ==> FrameOk(code, Frame(code[pc].target, looping, At(pc + 1)))
  {
  }

  /** Nothing but retirement stops a warp: an issue slot pops or executes. */
  lemma NeverStuck<S>(code: seq<Instr<S>>, w: Warp<S>, lanes: set<nat>)
    requires StackOk(w, lanes) && FramesOk(code, w) && !Retired(code, w)
    ensures Executes(code, w) || (|w.stack| > 1 && Spent(Top(w)))
  {
    if |w.stack| > 1 && !Spent(Top(w)) {
      JoinAhead(code, Top(w));
    }
  }

  /** rem[l] steps take lane l to the end of its solo run. */
  ghost predicate HaltsIn<S>(code: seq<Instr<S>>, w: Warp<S>, lanes: set<nat>, rem: seq<nat>)
    requires forall l | l in lanes :: l < |w.regs|
  {
    && |rem| == |w.regs|
    && forall l | l in lanes :: SoloRun(code, LaneOf(w, l), rem[l]).pc >= |code|
  }

  ghost function Sum(xs: seq<nat>): nat {
    if xs == [] then 0 else xs[0] + Sum(xs[1..])
  }

  /** The remaining steps after an issue slot: one less for each lane of the top frame. */
  ghost function Advance<S>(w: Warp<S>, rem: seq<nat>): (r: seq<nat>)
    requires w.stack != []
    ensures |r| == |rem|
  {
    seq(|rem|, l requires 0 <= l < |rem| => if l in Top(w).mask && rem[l] > 0 then rem[l] - 1 else rem[l])
  }

  lemma {:induction false} SumDecreases(a: seq<nat>, b: seq<nat>)
    requires |a| == |b| && forall i | 0 <= i < |a| :: b[i] <= a[i]
    ensures Sum(b) <= Sum(a)
    ensures (exists i :: 0 <= i < |a| && b[i] < a[i]) ==> Sum(b) < Sum(a)
  {
    if a != [] {
      SumDecreases(a[1..], b[1..]);
      if i :| 0 <= i < |a| && b[i] < a[i] && i > 0 {
        assert b[1..][i - 1] < a[1..][i - 1];
      }
    }
  }

  /** A lane that has not reached the end has steps left, and taking one of them leaves one less. */
  lemma ExecuteProgress<S>(code: seq<Instr<S>>, w: Warp<S>, lanes: set<nat>, rem: seq<nat>)
    requires StackOk(w, lanes) && HaltsIn(code, w, lanes, rem) && Executes(code, w)
    ensures |Issue(code, w).regs| == |w.regs|
    ensures HaltsIn(code, Issue(code, w), lanes, Advance(w, rem))
    ensures Sum(Advance(w, rem)) < Sum(rem)
  {
    var rem' := Advance(w, rem);
    StackFacts(w, lanes);
    TopLanes(w, lanes);
    forall l | l in lanes
      ensures |Issue(code, w).regs| == |w.regs|
      ensures SoloRun(code, LaneOf(Issue(code, w), l), rem'[l]).pc >= |code|
      ensures l in Top(w).mask ==> rem'[l] < rem[l]
    {
      IssueIsSoloStep(code, w, lanes, l);
    }
    var l :| l in Top(w).mask;
    assert rem'[l] < rem[l];
    SumDecreases(rem, rem');
  }

  lemma TopLanes<S>(w: Warp<S>, lanes: set<nat>)
    requires StackOk(w, lanes)
    ensures Top(w).mask <= lanes
    ensures forall l | l in Top(w).mask :: LanePc(w.stack, l) == Top(w).npc
  {
    SubsetUp(w, lanes, |w.stack| - 1);
  }

  lemma {:induction false} SubsetUp<S>(w: Warp<S>, lanes: set<nat>, i: nat)
    requires StackOk(w, lanes) && i < |w.stack|
    ensures w.stack[i].mask <= lanes
  {
    if i > 0 {
      SubsetUp(w, lanes, i - 1);
    }
  }

  lemma PopProgress<S>(code: seq<Instr<S>>, w: Warp<S>, lanes: set<nat>, rem: seq<nat>)
    requires StackOk(w, lanes) && HaltsIn(code, w, lanes, rem) && |w.stack| > 1 && Spent(Top(w))
    ensures Issue(code, w).regs == w.regs && HaltsIn(code, Issue(code, w), lanes, rem)
    ensures |Issue(code, w).stack| == |w.stack| - 1
  {
    forall l | l in lanes
      ensures LaneOf(Issue(code, w), l) == LaneOf(w, l)
    {
      IssueIsSoloStep(code, w, lanes, l);
    }
  }

  /** If every lane alone halts, the warp retires, within twice the lanes' total steps and the pops of the
      frames now held. */
  lemma {:induction false} WarpRetires<S>(code: seq<Instr<S>>, w: Warp<S>, lanes: set<nat>, rem: seq<nat>)
    returns (n: nat)
    requires StackOk(w, lanes) && FramesOk(code, w) && WellNested(code) && HaltsIn(code, w, lanes, rem)
    ensures n < 2 * Sum(rem) + |w.stack| && Retired(code, Run(code, w, n))
    decreases 2 * Sum(rem) + |w.stack|
  {
    hide StackOk, FramesOk, WellNested, HaltsIn, Issue;
    StackFacts(w, lanes);
    if Retired(code, w) {
      n := 0;
    } else {
      IssueKeepsStack(code, w, lanes);
      IssueKeepsFrames(code, w, lanes);
      NeverStuck(code, w, lanes);
      var w' := Issue(code, w);
      var m: nat;
      if Executes(code, w) {
        ExecuteProgress(code, w, lanes, rem);
        StackGrowth(code, w);
        m := WarpRetires(code, w', lanes, Advance(w, rem));
      } else {
        PopProgress(code, w, lanes, rem);
        m := WarpRetires(code, w', lanes, rem);
      }
      n := m + 1;
    }
  }

  lemma StackGrowth<S>(code: seq<Instr<S>>, w: Warp<S>)
    requires w.stack != []
    ensures |Issue(code, w).stack| <= |w.stack| + 1
  {
  }

  /** A warp as spawned: one base frame at the kernel's entry. */
  function Spawn<S>(lanes: set<nat>, regs: seq<S>): Warp<S> {
    Warp([Frame(0, lanes, Bottom)], regs)
  }

  /** The theorem: a warp running a structured program retires exactly when all of its lanes halt alone, and
      then every lane holds the state it reaches alone. */
  lemma WarpEqualsLanes<S>(s: Stmt<S>, lanes: set<nat>, regs: seq<S>)
    requires lanes != {} && forall l | l in lanes :: l < |regs|
    ensures (exists n: nat :: Retired(Compile(s, 0), Run(Compile(s, 0), Spawn(lanes, regs), n))) <==>
            (forall l | l in lanes :: Halts(Compile(s, 0), regs[l]))
    ensures forall n: nat, l | l in lanes && Retired(Compile(s, 0), Run(Compile(s, 0), Spawn(lanes, regs), n)) ::
              |Run(Compile(s, 0), Spawn(lanes, regs), n).regs| == |regs| &&
              FinalState(Compile(s, 0), regs[l], Run(Compile(s, 0), Spawn(lanes, regs), n).regs[l])
  {
    var code, w := Compile(s, 0), Spawn(lanes, regs);
    forall n: nat, l | l in lanes && Retired(code, Run(code, w, n))
      ensures |Run(code, w, n).regs| == |regs| && FinalState(code, regs[l], Run(code, w, n).regs[l])
    {
      var k := RetiredIsSolo(code, w, lanes, n, l);
    }
    if forall l | l in lanes :: Halts(code, regs[l]) {
      CompileWellNested(s);
      var rem := seq(|regs|, l requires 0 <= l < |regs| =>
                       if l in lanes && Halts(code, regs[l]) then HaltTime(code, regs[l]) else 0);
      var n := WarpRetires(code, w, lanes, rem);
    }
    if n: nat :| Retired(code, Run(code, w, n)) {
      forall l | l in lanes
        ensures Halts(code, regs[l])
      {
        assert FinalState(code, regs[l], Run(code, w, n).regs[l]);
      }
    }
  }

  ghost predicate Halts<S>(code: seq<Instr<S>>, s: S) {
    exists n: nat :: SoloRun(code, Lane(0, s), n).pc >= |code|
  }

  ghost function HaltTime<S>(code: seq<Instr<S>>, s: S): (n: nat)
    requires Halts(code, s)
    ensures SoloRun(code, Lane(0, s), n).pc >= |code|
  {
    var n: nat :| SoloRun(code, Lane(0, s), n).pc >= |code|; n
  }

  /** Running alone from s, a lane ends in state t. */
  ghost predicate FinalState<S>(code: seq<Instr<S>>, s: S, t: S) {
    exists n: nat :: SoloRun(code, Lane(0, s), n).pc >= |code| && SoloRun(code, Lane(0, s), n).s == t
  }

  lemma {:induction false} SoloStays<S>(code: seq<Instr<S>>, l: Lane<S>, n: nat)
    requires l.pc >= |code|
    ensures SoloRun(code, l, n) == l
    decreases n
  {
    if n > 0 {
      SoloStays(code, l, n - 1);
    }
  }

  lemma {:induction false} SoloSplit<S>(code: seq<Instr<S>>, l: Lane<S>, m: nat, n: nat)
    ensures SoloRun(code, l, m + n) == SoloRun(code, SoloRun(code, l, m), n)
    decreases m
  {
    if m > 0 {
      SoloSplit(code, SoloStep(code, l), m - 1, n);
    }
  }

  /** A lane's final state is unique. */
  lemma FinalStateUnique<S>(code: seq<Instr<S>>, s: S, t: S, u: S)
    requires FinalState(code, s, t) && FinalState(code, s, u)
    ensures t == u
  {
    var m: nat :| SoloRun(code, Lane(0, s), m).pc >= |code| && SoloRun(code, Lane(0, s), m).s == t;
    var n: nat :| SoloRun(code, Lane(0, s), n).pc >= |code| && SoloRun(code, Lane(0, s), n).s == u;
    if m <= n {
      SoloSplit(code, Lane(0, s), m, n - m);
      SoloStays(code, SoloRun(code, Lane(0, s), m), n - m);
    } else {
      SoloSplit(code, Lane(0, s), n, m - n);
      SoloStays(code, SoloRun(code, Lane(0, s), n), m - n);
    }
  }

  // ----- what the compiled code means -----

  /** The source meaning of a statement, for as many loop rounds as the fuel allows. */
  ghost predicate Means<S(!new)>(st: Stmt<S>, s: S, t: S, fuel: nat)
    decreases fuel, st
  {
    match st
    case Do(f) => t == f(s)
    case Seq(a, b) => exists m: S :: Means(a, s, m, fuel) && Means(b, m, t, fuel)
    case Unless(skip, body) => if skip(s) then t == s else Means(body, s, t, fuel)
    case Repeat(body, again) =>
      exists m: S :: Means(body, s, m, fuel) &&
                     if again(m) then fuel > 0 && Means(st, m, t, fuel - 1) else t == m
  }

  lemma FirstStep<S>(code: seq<Instr<S>>, l: Lane<S>, n: nat)
    ensures SoloRun(code, l, n + 1) == SoloRun(code, SoloStep(code, l), n)
    ensures SoloRun(code, l, 0) == l
  {
  }

  /** Running the code of a statement alone carries out its meaning and ends just behind it. */
  lemma {:induction false} CompileMeans<S(!new)>(code: seq<Instr<S>>, st: Stmt<S>, base: nat, s: S, t: S, fuel: nat)
    returns (n: nat)
    requires Placed(code, st, base) && Means(st, s, t, fuel)
    ensures SoloRun(code, Lane(base, s), n) == Lane(base + |Compile(st, base)|, t)
    decreases fuel, st
  {
    hide Placed, Compile, SoloRun;
    PlacedParts(code, st, base);
    match st
    case Do(f) =>
      n := 1;
      FirstStep(code, Lane(base, s), 0);
      FirstStep(code, Lane(base + 1, t), 0);
    case Seq(a, b) =>
      var m: S :| Means(a, s, m, fuel) && Means(b, m, t, fuel);
      var i := CompileMeans(code, a, base, s, m, fuel);
      var j := CompileMeans(code, b, base + |Compile(a, base)|, m, t, fuel);
      SoloSplit(code, Lane(base, s), i, j);
      n := i + j;
    case Unless(skip, body) =>
      n := 0;
      if skip(s) {
        FirstStep(code, Lane(base + |Compile(st, base)|, t), 0);
      } else {
        n := CompileMeans(code, body, base + 1, s, t, fuel);
      }
      FirstStep(code, Lane(base, s), n);
      n := n + 1;
    case Repeat(body, again) =>
      var m: S :| Means(body, s, m, fuel) && if again(m) then fuel > 0 && Means(st, m, t, fuel - 1) else t == m;
      var i := CompileMeans(code, body, base, s, m, fuel);
      LoopTest(code, base, base + |Compile(body, base)|, s, m, again, i);
      n := i + 1;
      if again(m) {
        var j := CompileMeans(code, st, base, m, t, fuel - 1);
        SoloSplit(code, Lane(base, s), i + 1, j);
        n := i + 1 + j;
      }
  }

  /** The bottom test of a loop: back to the start, or out. */
  lemma LoopTest<S>(code: seq<Instr<S>>, base: nat, end: nat, s: S, m: S, again: S -> bool, i: nat)
    requires end < |code| && code[end] == Branch(again, base) && SoloRun(code, Lane(base, s), i) == Lane(end, m)
    ensures SoloRun(code, Lane(base, s), i + 1) == Lane(if again(m) then base else end + 1, m)
  {
    SoloRunAdd(code, Lane(base, s), i);
  }

  /** More fuel changes no meaning. */
  lemma {:induction false} MeansMore<S(!new)>(st: Stmt<S>, s: S, t: S, fuel: nat, more: nat)
    requires Means(st, s, t, fuel) && fuel <= more
    ensures Means(st, s, t, more)
    decreases fuel, st
  {
    match st
    case Do(f) =>
    case Seq(a, b) =>
      var m: S :| Means(a, s, m, fuel) && Means(b, m, t, fuel);
      MeansMore(a, s, m, fuel, more);
      MeansMore(b, m, t, fuel, more);
    case Unless(skip, body) =>
      if !skip(s) {
        MeansMore(body, s, t, fuel, more);
      }
    case Repeat(body, again) =>
      var m: S :| Means(body, s, m, fuel) && if again(m) then fuel > 0 && Means(st, m, t, fuel - 1) else t == m;
      MeansMore(body, s, m, fuel, more);
      if again(m) {
        MeansMore(st, m, t, fuel - 1, more - 1);
      }
  }

  /** Conversely, a lane that starts a placed statement and leaves the program after n steps passes the statement's
      end on the way, in a state that the statement means. */
  lemma {:induction false} RunMeans<S(!new)>(code: seq<Instr<S>>, st: Stmt<S>, base: nat, s: S, n: nat)
    returns (t: S, fuel: nat, k: nat)
    requires Placed(code, st, base) && SoloRun(code, Lane(base, s), n).pc >= |code|
    ensures Means(st, s, t, fuel) && k <= n
    ensures SoloRun(code, Lane(base, s), k) == Lane(base + |Compile(st, base)|, t)
    decreases n, st
  {
    hide Placed, Compile, SoloRun;
    PlacedParts(code, st, base);
    FirstStep(code, Lane(base, s), 0);
    if n > 0 {
      FirstStep(code, Lane(base, s), n - 1);
    }
    match st
    case Do(f) =>
      t, fuel, k := f(s), 0, 1;
      FirstStep(code, Lane(base + 1, t), 0);
    case Seq(a, b) =>
      var m, f, i := RunMeans(code, a, base, s, n);
      SoloSplit(code, Lane(base, s), i, n - i);
      var f', j;
      t, f', j := RunMeans(code, b, base + |Compile(a, base)|, m, n - i);
      SoloSplit(code, Lane(base, s), i, j);
      fuel, k := Larger(f, f'), i + j;
      MeansMore(a, s, m, f, fuel);
      MeansMore(b, m, t, f', fuel);
    case Unless(skip, body) =>
      if skip(s) {
        t, fuel, k := s, 0, 1;
        FirstStep(code, Lane(base + |Compile(st, base)|, t), 0);
      } else {
        t, fuel, k := RunMeans(code, body, base + 1, s, n - 1);
        FirstStep(code, Lane(base, s), k);
        k := k + 1;
      }
    case Repeat(body, again) =>
      var m, f, i := RunMeans(code, body, base, s, n);
      LoopTest(code, base, base + |Compile(body, base)|, s, m, again, i);
      assert i < n;
      if again(m) {
        SoloSplit(code, Lane(base, s), i + 1, n - i - 1);
        var f', j;
        t, f', j := RunMeans(code, st, base, m, n - i - 1);
        SoloSplit(code, Lane(base, s), i + 1, j);
        fuel, k := Larger(f, f' + 1), i + 1 + j;
        MeansMore(body, s, m, f, fuel);
        MeansMore(st, m, t, f', fuel - 1);
      } else {
        t, fuel, k := m, f, i + 1;
      }
  }

  function Larger(a: nat, b: nat): nat {
    if a < b then b else a
  }

  /** The final states of the compiled code are exactly the meanings of the program: a lane halts in t precisely
      when the program means t. */
  lemma FinalIffMeans<S(!new)>(st: Stmt<S>, s: S, t: S)
    ensures FinalState(Compile(st, 0), s, t) <==> exists fuel: nat :: Means(st, s, t, fuel)
  {
    hide Means, Compile;
    var code := Compile(st, 0);
    if fuel: nat :| Means(st, s, t, fuel) {
      var n := CompileMeans(code, st, 0, s, t, fuel);
    }
    if FinalState(code, s, t) {
      var n: nat :| SoloRun(code, Lane(0, s), n).pc >= |code| && SoloRun(code, Lane(0, s), n).s == t;
      var t', fuel, k := RunMeans(code, st, 0, s, n);
      FinalStateUnique(code, s, t, t');
    }
  }

  /** A warp whose lanes' program means t for lane l retires with t in lane l. */
  lemma WarpMeans<S(!new)>(st: Stmt<S>, lanes: set<nat>, regs: seq<S>, n: nat, l: nat, t: S, fuel: nat)
    requires lanes != {} && (forall i | i in lanes :: i < |regs|) && l in lanes
    requires Means(st, regs[l], t, fuel)
    requires Retired(Compile(st, 0), Run(Compile(st, 0), Spawn(lanes, regs), n))
    ensures |Run(Compile(st, 0), Spawn(lanes, regs), n).regs| == |regs|
    ensures Run(Compile(st, 0), Spawn(lanes, regs), n).regs[l] == t
  {
    var code := Compile(st, 0);
    WarpEqualsLanes(st, lanes, regs);
    var k := CompileMeans(code, st, 0, regs[l], t, fuel);
    FinalStateUnique(code, regs[l], t, Run(code, Spawn(lanes, regs), n).regs[l]);
  }

  /** And a retired warp holds in every lane a state the program means for that lane's input. */
  lemma RetiredMeans<S(!new)>(st: Stmt<S>, lanes: set<nat>, regs: seq<S>, n: nat, l: nat)
    requires lanes != {} && (forall i | i in lanes :: i < |regs|) && l in lanes
    requires Retired(Compile(st, 0), Run(Compile(st, 0), Spawn(lanes, regs), n))
    ensures |Run(Compile(st, 0), Spawn(lanes, regs), n).regs| == |regs|
    ensures exists fuel: nat :: Means(st, regs[l], Run(Compile(st, 0), Spawn(lanes, regs), n).regs[l], fuel)
  {
    var code := Compile(st, 0);
    WarpEqualsLanes(st, lanes, regs);
    FinalIffMeans(st, regs[l], Run(code, Spawn(lanes, regs), n).regs[l]);
  }
}
