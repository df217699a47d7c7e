/** Word buffers in device memory, and the harts of a launch interleaved by instruction. */
module DeviceMemory {
  import opened Words
  import opened Rv32

  /** A word-aligned buffer holding vals, inside the 32-bit address space. */
  ghost predicate Buffer(mem: Memory, base: word, vals: seq<word>) {
    && base % 4 == 0 && base + 4 * |vals| <= MOD32
    && forall i: nat | i < |vals| :: base + 4 * i in mem && mem[base + 4 * i] == vals[i]
  }

  ghost predicate Apart(a: word, m: nat, b: word, n: nat) {
    a + 4 * m <= b || b + 4 * n <= a
  }

  lemma BufferAt(mem: Memory, base: word, vals: seq<word>, i: nat)
    requires Buffer(mem, base, vals) && i < |vals|
    ensures base + 4 * i < MOD32 && Accessible(mem, base + 4 * i) && mem[base + 4 * i] == vals[i]
  {
  }

  lemma BufferKept(mem: Memory, base: word, vals: seq<word>, a: word, w: word)
    requires Buffer(mem, base, vals) && (a < base || base + 4 * |vals| <= a)
    ensures Buffer(mem[a := w], base, vals)
  {
  }

  lemma BufferStore(mem: Memory, base: word, vals: seq<word>, i: nat, w: word)
    requires Buffer(mem, base, vals) && i < |vals|
    ensures base + 4 * i < MOD32 && Buffer(mem[base + 4 * i := w], base, vals[i := w])
  {
  }

  // ----- interleaving -----

  datatype Machine = Machine(mem: Memory, harts: seq<Hart>)

  datatype MaybeMachine = Running(m: Machine) | Trapped

  ghost function MachineStep(code: seq<word>, m: Machine, v: nat): MaybeMachine
    requires v < |m.harts| && WellFormed(m.harts[v])
  {
    match StepHart(code, m.harts[v], m.mem)
    case Next(h, mem) => Running(Machine(mem, m.harts[v := h]))
    case Trap => Trapped
  }

  /** The harts take turns in the order of the schedule, one instruction at a time. */
  ghost function MachineRun(code: seq<word>, m: Machine, sched: seq<nat>): MaybeMachine
    decreases |sched|
  {
    if sched == [] then Running(m)
    else if sched[0] >= |m.harts| || !WellFormed(m.harts[sched[0]]) then Trapped
    else match MachineStep(code, m, sched[0])
      case Running(n) => MachineRun(code, n, sched[1..])
      case Trapped => Trapped
  }

  ghost predicate AllHalted(m: Machine) {
    forall v | 0 <= v < |m.harts| :: m.harts[v].halted
  }
}
