/** The 14-word second-pass scan image (8 lanes, blocks of 32 threads), run by all threads of a launch with
    arbitrary interleaving of single instructions. */
module ScanAddMachine {
  import opened Words
  import opened Powers
  import opened Rv32
  import opened DeviceMemory
  import opened ScanPlan

  function Word(k: nat): word
    requires k < 14
  {
    match k
    case 0 => 0x0005a403
    case 1 => 0x0045a483
    case 2 => 0x00555293
    case 3 => 0x02028463
    case 4 => 0xfff28293
    case 5 => 0x00229293
    case 6 => 0x005482b3
    case 7 => 0x0002a303
    case 8 => 0x00251393
    case 9 => 0x007403b3
    case 10 => 0x0003ae03
    case 11 => 0x006e0e33
    case 12 => 0x01c3a023
    case 13 => 0x00000073
  }

  function Code(): (c: seq<word>)
    ensures |c| == 14 && forall k | 0 <= k < 14 :: c[k] == Word(k)
  {
    seq(14, k requires 0 <= k < 14 => Word(k))
  }

  /** The listing the words encode. */
  function Listing(k: nat): Instr
    requires k < 14
  {
    match k
    case 0 => Lw(8, 11, 0)              // s0 = &out
    case 1 => Lw(9, 11, 4)              // s1 = &bscan
    case 2 => Srli(5, 10, 5)            // block
    case 3 => Branch(Eq, 5, 0, 40)      // the first block has nothing to add
    case 4 => Addi(5, 5, -1)
    case 5 => Slli(5, 5, 2)
    case 6 => Rv32.Instr.Add(5, 9, 5)
    case 7 => Lw(6, 5, 0)               // total of the blocks before
    case 8 => Slli(7, 10, 2)
    case 9 => Rv32.Instr.Add(7, 8, 7)
    case 10 => Lw(28, 7, 0)
    case 11 => Rv32.Instr.Add(28, 28, 6)
    case 12 => Sw(7, 28, 0)
    case 13 => Ecall
  }

  /** The 14 words decode to the listing. */
  lemma Decoded(k: nat)
    requires k < 14
    ensures Decode(Word(k)) == Listing(k)
  {
    hide Decode;
    if k < 4 { DecodedBlock(); }
    else if k < 8 { DecodedTotal(); }
    else if k < 12 { DecodedSum(); }
    else { DecodedStore(); }
  }

  lemma DecodedBlock()
    ensures Decode(0x0005a403) == Listing(0)
    ensures Decode(0x0045a483) == Listing(1)
    ensures Decode(0x00555293) == Listing(2)
    ensures Decode(0x02028463) == Listing(3)
  {
  }

  lemma DecodedTotal()
    ensures Decode(0xfff28293) == Listing(4)
    ensures Decode(0x00229293) == Listing(5)
    ensures Decode(0x005482b3) == Listing(6)
    ensures Decode(0x0002a303) == Listing(7)
  {
  }

  lemma DecodedSum()
    ensures Decode(0x00251393) == Listing(8)
    ensures Decode(0x007403b3) == Listing(9)
    ensures Decode(0x0003ae03) == Listing(10)
    ensures Decode(0x006e0e33) == Listing(11)
  {
  }

  lemma DecodedStore()
    ensures Decode(0x01c3a023) == Listing(12)
    ensures Decode(0x00000073) == Listing(13)
  {
  }

  // ----- the launch -----

  /** Buffers of a launch of n threads. */
  datatype Layout = Layout(params: word, out: word, bscan: word, n: nat, totals: seq<word>)
  {
    /** n outputs in whole blocks, a scanned total for every block, and out apart from what is read. */
    ghost predicate Valid() {
      && n % 32 == 0 && n / 32 <= |totals|
      && Apart(out, n, params, 2) && Apart(out, n, bscan, |totals|)
    }
  }

  ghost predicate Image(lay: Layout, mem: Memory, out: seq<word>) {
    && lay.Valid() && |out| == lay.n
    && Buffer(mem, lay.params, [lay.out, lay.bscan])
    && Buffer(mem, lay.bscan, lay.totals)
    && Buffer(mem, lay.out, out)
  }

  ghost predicate Frame(lay: Layout, before: Memory, after: Memory) {
    && before.Keys == after.Keys
    && forall a | a in before && !(lay.out <= a < lay.out + 4 * lay.n) :: after[a] == before[a]
  }

  /** What the C function leaves in out[t]. */
  ghost function Result(lay: Layout, out0: seq<word>, t: nat): word
    requires lay.Valid() && |out0| == lay.n && t < lay.n
  {
    var b := t / 32;
    if b > 0 then AddW(out0[t], lay.totals[b - 1]) else out0[t]
  }

  /** A hart's registers at instruction k. */
  ghost predicate HartOk(lay: Layout, out0: seq<word>, t: nat, h: Hart)
    requires lay.Valid() && |out0| == lay.n && t < lay.n
  {
    && WellFormed(h) && h.x[10] == t && h.x[11] == lay.params
    && 0 <= h.pc < 56 && h.pc % 4 == 0
    && var k, b := h.pc / 4, t / 32;
    && (h.halted ==> k == 13)
    && (4 <= k < 13 ==> b > 0)
    && (1 <= k < 13 ==> h.x[8] == lay.out) && (2 <= k < 13 ==> h.x[9] == lay.bscan)
    && ((k == 3 ==> h.x[5] == b) && (k == 4 ==> h.x[5] == b) && (k == 5 ==> h.x[5] == b - 1))
    && ((k == 6 ==> h.x[5] == 4 * (b - 1)) && (k == 7 ==> h.x[5] == lay.bscan + 4 * (b - 1)))
    && (8 <= k < 13 ==> h.x[6] == lay.totals[b - 1])
    && (k == 9 ==> h.x[7] == 4 * t) && (10 <= k < 13 ==> h.x[7] == lay.out + 4 * t)
    && (k == 11 ==> h.x[28] == out0[t]) && (k == 12 ==> h.x[28] == AddW(out0[t], lay.totals[b - 1]))
  }

  /** Thread t has finished its store, or never has one. */
  predicate Stored(h: Hart) {
    h.pc == 52
  }

  /** The out buffer while some threads have stored and others have not. */
  ghost function Current(lay: Layout, out0: seq<word>, harts: seq<Hart>): (r: seq<word>)
    requires lay.Valid() && |out0| == |harts| == lay.n
    ensures |r| == lay.n
  {
    seq(lay.n, t requires 0 <= t < lay.n => if Stored(harts[t]) then Result(lay, out0, t) else out0[t])
  }

  ghost predicate Inv(lay: Layout, out0: seq<word>, mem0: Memory, m: Machine) {
    && lay.Valid() && |out0| == |m.harts| == lay.n
    && Image(lay, m.mem, Current(lay, out0, m.harts)) && Frame(lay, mem0, m.mem)
    && forall t: nat | t < lay.n :: HartOk(lay, out0, t, m.harts[t])
  }

  /** One instruction of thread t, with its own word of out at v. */
  ghost predicate After(lay: Layout, out0: seq<word>, mem: Memory, t: nat, h: Hart, o: Outcome)
    requires lay.Valid() && |out0| == lay.n && t < lay.n
  {
    && o.Next? && HartOk(lay, out0, t, o.hart)
    && (h.pc != 48 ==> o.mem == mem)
    && (h.pc == 48 ==> lay.out + 4 * t < MOD32 && o.mem == mem[lay.out + 4 * t := Result(lay, out0, t)])
    && (Stored(o.hart) ==> h.pc == 48 || h.pc == 52 || (h.pc == 12 && Result(lay, out0, t) == out0[t]))
    && (Stored(h) ==> Stored(o.hart))
  }

  lemma BlockSteps(lay: Layout, out0: seq<word>, mem: Memory, cur: seq<word>, t: nat, h: Hart)
    requires Image(lay, mem, cur) && |out0| == lay.n && t < lay.n && HartOk(lay, out0, t, h) && h.pc < 16
    ensures After(lay, out0, mem, t, h, Execute(Listing(h.pc / 4), h, mem))
  {
    hide Buffer;
    assert Pow2(5) == 32;
    BufferAt(mem, lay.params, [lay.out, lay.bscan], 0);
    BufferAt(mem, lay.params, [lay.out, lay.bscan], 1);
    if h.pc == 0 {
    } else if h.pc == 4 {
    } else if h.pc == 8 {
    } else {
    }
  }

  lemma OffsetSteps(lay: Layout, out0: seq<word>, mem: Memory, cur: seq<word>, t: nat, h: Hart)
    requires Image(lay, mem, cur) && |out0| == lay.n && t < lay.n && HartOk(lay, out0, t, h) && 16 <= h.pc < 24
    ensures After(lay, out0, mem, t, h, Execute(Listing(h.pc / 4), h, mem))
  {
    hide Buffer;
    assert Pow2(2) == 4;
    BufferAt(mem, lay.bscan, lay.totals, t / 32 - 1);
    if h.pc == 16 {
    } else {
    }
  }

  lemma TotalSteps(lay: Layout, out0: seq<word>, mem: Memory, cur: seq<word>, t: nat, h: Hart)
    requires Image(lay, mem, cur) && |out0| == lay.n && t < lay.n && HartOk(lay, out0, t, h) && 24 <= h.pc < 32
    ensures After(lay, out0, mem, t, h, Execute(Listing(h.pc / 4), h, mem))
  {
    hide Buffer;
    BufferAt(mem, lay.bscan, lay.totals, t / 32 - 1);
    if h.pc == 24 {
    } else {
    }
  }

  lemma ShiftStep(lay: Layout, out0: seq<word>, mem: Memory, cur: seq<word>, t: nat, h: Hart)
    requires Image(lay, mem, cur) && |out0| == lay.n && t < lay.n && HartOk(lay, out0, t, h) && h.pc == 32
    ensures After(lay, out0, mem, t, h, Execute(Listing(h.pc / 4), h, mem))
  {
    hide Buffer;
    assert Pow2(2) == 4;
    BufferAt(mem, lay.out, cur, t);
  }

  lemma AddressStep(lay: Layout, out0: seq<word>, mem: Memory, cur: seq<word>, t: nat, h: Hart)
    requires Image(lay, mem, cur) && |out0| == lay.n && t < lay.n && HartOk(lay, out0, t, h) && h.pc == 36
    ensures After(lay, out0, mem, t, h, Execute(Listing(h.pc / 4), h, mem))
  {
    hide Buffer;
    BufferAt(mem, lay.out, cur, t);
  }

  lemma SumSteps(lay: Layout, out0: seq<word>, mem: Memory, cur: seq<word>, t: nat, h: Hart)
    requires Image(lay, mem, cur) && |out0| == lay.n && t < lay.n && HartOk(lay, out0, t, h) && 40 <= h.pc < 48
    requires h.pc <= 48 ==> cur[t] == out0[t]
    ensures After(lay, out0, mem, t, h, Execute(Listing(h.pc / 4), h, mem))
  {
    hide Buffer;
    BufferAt(mem, lay.out, cur, t);
    if h.pc == 40 {
    } else {
    }
  }

  lemma StoreSteps(lay: Layout, out0: seq<word>, mem: Memory, cur: seq<word>, t: nat, h: Hart)
    requires Image(lay, mem, cur) && |out0| == lay.n && t < lay.n && HartOk(lay, out0, t, h) && 48 <= h.pc
    ensures After(lay, out0, mem, t, h, Execute(Listing(h.pc / 4), h, mem))
  {
    hide Buffer;
    BufferAt(mem, lay.out, cur, t);
    if h.pc == 48 {
    } else {
    }
  }

  lemma InstructionFollows(lay: Layout, out0: seq<word>, mem: Memory, cur: seq<word>, t: nat, h: Hart)
    requires Image(lay, mem, cur) && |out0| == lay.n && t < lay.n && HartOk(lay, out0, t, h)
    requires h.pc <= 48 ==> cur[t] == out0[t]
    ensures WellFormed(h) && After(lay, out0, mem, t, h, StepHart(Code(), h, mem))
  {
    hide Decode, Execute, Listing, Image;
    if !h.halted {
      Decoded(h.pc / 4);
      if h.pc < 16 { BlockSteps(lay, out0, mem, cur, t, h); }
      else if h.pc < 24 { OffsetSteps(lay, out0, mem, cur, t, h); }
      else if h.pc < 32 { TotalSteps(lay, out0, mem, cur, t, h); }
      else if h.pc < 36 { ShiftStep(lay, out0, mem, cur, t, h); }
      else if h.pc < 40 { AddressStep(lay, out0, mem, cur, t, h); }
      else if h.pc < 48 { SumSteps(lay, out0, mem, cur, t, h); }
      else { StoreSteps(lay, out0, mem, cur, t, h); }
    }
  }

  lemma StoreImage(lay: Layout, mem: Memory, cur: seq<word>, t: nat, w: word)
    requires Image(lay, mem, cur) && t < lay.n
    ensures lay.out + 4 * t < MOD32
    ensures Image(lay, mem[lay.out + 4 * t := w], cur[t := w]) && Frame(lay, mem, mem[lay.out + 4 * t := w])
  {
    hide Buffer;
    BufferAt(mem, lay.out, cur, t);
    BufferStore(mem, lay.out, cur, t, w);
    BufferKept(mem, lay.params, [lay.out, lay.bscan], lay.out + 4 * t, w);
    BufferKept(mem, lay.bscan, lay.totals, lay.out + 4 * t, w);
  }

  lemma FrameTransitive(lay: Layout, a: Memory, b: Memory, c: Memory)
    requires Frame(lay, a, b) && Frame(lay, b, c)
    ensures Frame(lay, a, c)
  {
  }

  /** Every instruction of every thread keeps the invariant and does not trap. */
  lemma StepInv(lay: Layout, out0: seq<word>, mem0: Memory, m: Machine, t: nat)
    requires Inv(lay, out0, mem0, m) && t < lay.n
    ensures WellFormed(m.harts[t]) && MachineStep(Code(), m, t).Running?
    ensures Inv(lay, out0, mem0, MachineStep(Code(), m, t).m)
  {
    hide Image, Frame, HartOk, StepHart, Result;
    var h, cur := m.harts[t], Current(lay, out0, m.harts);
    PcRange(lay, out0, t, h);
    InstructionFollows(lay, out0, m.mem, cur, t, h);
    var o := StepHart(Code(), h, m.mem);
    var harts' := m.harts[t := o.hart];
    var next := Current(lay, out0, harts');
    if h.pc == 48 {
      StoreImage(lay, m.mem, cur, t, Result(lay, out0, t));
      StoreAdvances(lay, out0, t, h, o, m.mem);
      assert next == cur[t := Result(lay, out0, t)];
      FrameTransitive(lay, mem0, m.mem, o.mem);
    } else {
      assert next == cur;
    }
  }

  lemma PcRange(lay: Layout, out0: seq<word>, t: nat, h: Hart)
    requires lay.Valid() && |out0| == lay.n && t < lay.n && HartOk(lay, out0, t, h)
    ensures WellFormed(h) && h.pc <= 52 && (h.pc <= 48 <==> !Stored(h))
    ensures h.halted ==> Stored(h)
  {
  }

  lemma StoreAdvances(lay: Layout, out0: seq<word>, t: nat, h: Hart, o: Outcome, mem: Memory)
    requires lay.Valid() && |out0| == lay.n && t < lay.n && HartOk(lay, out0, t, h)
    requires h.pc == 48 && o == StepHart(Code(), h, mem) && o.Next?
    ensures Stored(o.hart)
  {
  }

  ghost predicate Schedule(n: nat, sched: seq<nat>) {
    forall i | 0 <= i < |sched| :: sched[i] < n
  }

  lemma {:induction false} RunInv(lay: Layout, out0: seq<word>, mem0: Memory, m: Machine, sched: seq<nat>)
    requires Inv(lay, out0, mem0, m) && Schedule(lay.n, sched)
    ensures MachineRun(Code(), m, sched).Running? && Inv(lay, out0, mem0, MachineRun(Code(), m, sched).m)
    decreases |sched|
  {
    hide Inv, StepHart;
    InvShape(lay, out0, mem0, m);
    if sched != [] {
      StepInv(lay, out0, mem0, m, sched[0]);
      RunInv(lay, out0, mem0, MachineStep(Code(), m, sched[0]).m, sched[1..]);
    }
  }

  lemma InvShape(lay: Layout, out0: seq<word>, mem0: Memory, m: Machine)
    requires Inv(lay, out0, mem0, m)
    ensures |m.harts| == lay.n
  {
  }

  /** The image computes the second pass under every interleaving of its instructions: no thread traps, and
      when all have retired every out[t] past the first block has grown by the scanned total of the blocks
      before it, and no other word of memory has changed. */
  lemma ImageTheorem(lay: Layout, out0: seq<word>, m: Machine, sched: seq<nat>)
    requires Image(lay, m.mem, out0) && |m.harts| == lay.n && lay.n < MOD32 && Schedule(lay.n, sched)
    requires forall t: nat | t < lay.n :: Seeded(m.harts[t], t, lay.params)
    ensures MachineRun(Code(), m, sched).Running?
    ensures AllHalted(MachineRun(Code(), m, sched).m) ==>
              && Image(lay, MachineRun(Code(), m, sched).m.mem, seq(lay.n, t requires 0 <= t < lay.n => Result(lay, out0, t)))
              && Frame(lay, m.mem, MachineRun(Code(), m, sched).m.mem)
  {
    hide MachineRun, StepHart;
    assert Current(lay, out0, m.harts) == out0;
    RunInv(lay, out0, m.mem, m, sched);
    var m' := MachineRun(Code(), m, sched).m;
    if AllHalted(m') {
      forall t: nat | t < lay.n
        ensures Stored(m'.harts[t])
      {
        PcRange(lay, out0, t, m'.harts[t]);
      }
      assert Current(lay, out0, m'.harts) == seq(lay.n, t requires 0 <= t < lay.n => Result(lay, out0, t));
    }
  }

  /** Instructions a hart can still execute. */
  function Left(h: Hart): int {
    if h.halted then 0 else (56 - h.pc) / 4
  }

  /** The program counter only moves forward: every instruction uses up at least one of at most 14. */
  lemma Forward(lay: Layout, out0: seq<word>, mem: Memory, cur: seq<word>, t: nat, h: Hart)
    requires Image(lay, mem, cur) && |out0| == lay.n && t < lay.n && HartOk(lay, out0, t, h) && !h.halted
    requires h.pc <= 48 ==> cur[t] == out0[t]
    ensures WellFormed(h) && StepHart(Code(), h, mem).Next?
    ensures StepHart(Code(), h, mem).hart.pc > h.pc || StepHart(Code(), h, mem).hart.halted
    ensures 0 <= Left(StepHart(Code(), h, mem).hart) < Left(h) <= 14
  {
    hide Decode, Image;
    InstructionFollows(lay, out0, mem, cur, t, h);
    Decoded(h.pc / 4);
  }

  function TotalLeft(hs: seq<Hart>): int {
    if hs == [] then 0 else TotalLeft(hs[..|hs| - 1]) + Left(hs[|hs| - 1])
  }

  lemma {:induction false} TotalLeftUpdate(hs: seq<Hart>, t: nat, h: Hart)
    requires t < |hs|
    ensures TotalLeft(hs[t := h]) == TotalLeft(hs) - Left(hs[t]) + Left(h)
  {
    var n := |hs| - 1;
    if t < n {
      TotalLeftUpdate(hs[..n], t, h);
      assert hs[t := h][..n] == hs[..n][t := h];
    } else {
      assert hs[t := h][..n] == hs[..n];
    }
  }

  lemma {:induction false} TotalLeftBounds(hs: seq<Hart>)
    requires forall t | 0 <= t < |hs| :: 0 <= Left(hs[t]) <= 14
    ensures 0 <= TotalLeft(hs) <= 14 * |hs|
  {
    if hs != [] {
      TotalLeftBounds(hs[..|hs| - 1]);
    }
  }

  /** Every turn of the schedule is taken by a thread that has not retired yet. */
  ghost predicate Busy(m: Machine, sched: seq<nat>)
    decreases |sched|
  {
    sched != [] ==>
      && sched[0] < |m.harts| && WellFormed(m.harts[sched[0]]) && !m.harts[sched[0]].halted
      && (MachineStep(Code(), m, sched[0]).Running? ==> Busy(MachineStep(Code(), m, sched[0]).m, sched[1..]))
  }

  lemma {:induction false} BusyLength(lay: Layout, out0: seq<word>, mem0: Memory, m: Machine, sched: seq<nat>)
    requires Inv(lay, out0, mem0, m) && Schedule(lay.n, sched) && Busy(m, sched)
    ensures |sched| <= TotalLeft(m.harts)
    decreases |sched|
  {
    hide Image, Frame, HartOk, StepHart, TotalLeft, Left;
    if sched == [] {
      LeftRange(lay, out0, mem0, m);
    } else {
      var t := sched[0];
      var h := m.harts[t];
      PcRange(lay, out0, t, h);
      StepInv(lay, out0, mem0, m, t);
      Forward(lay, out0, m.mem, Current(lay, out0, m.harts), t, h);
      TotalLeftUpdate(m.harts, t, StepHart(Code(), h, m.mem).hart);
      BusyLength(lay, out0, mem0, MachineStep(Code(), m, t).m, sched[1..]);
    }
  }

  lemma LeftRange(lay: Layout, out0: seq<word>, mem0: Memory, m: Machine)
    requires Inv(lay, out0, mem0, m)
    ensures 0 <= TotalLeft(m.harts) <= 14 * lay.n
  {
    TotalLeftBounds(m.harts);
  }

  /** A launch of n threads executes at most 14 * n instructions, however they interleave. */
  lemma LaunchLength(lay: Layout, out0: seq<word>, m: Machine, sched: seq<nat>)
    requires Image(lay, m.mem, out0) && |m.harts| == lay.n && lay.n < MOD32 && Schedule(lay.n, sched)
    requires forall t: nat | t < lay.n :: Seeded(m.harts[t], t, lay.params)
    requires Busy(m, sched)
    ensures |sched| <= 14 * lay.n
  {
    hide Busy;
    assert Current(lay, out0, m.harts) == out0;
    BusyLength(lay, out0, m.mem, m, sched);
    LeftRange(lay, out0, m.mem, m);
  }

  /** What the image leaves in out is what the planned add launch stands for, on arena words. */
  lemma ResultIsAddWord(lay: Layout, out0: seq<word>, arena: seq<word>, s: Launching, t: nat)
    requires lay.Valid() && |out0| == lay.n && t < lay.n
    requires s.Add? && s.size == 32 && s.m == lay.n && FitsIn(|arena|, s)
    requires out0 == arena[s.out..s.out + s.m]
    requires s.bsc + |lay.totals| <= |arena| && lay.totals == arena[s.bsc..s.bsc + |lay.totals|]
    ensures Result(lay, out0, t) == AddWord(arena, s, s.out + t)
  {
  }
}
