/** The part of RV32 the kernel images use, as an interpreter over fetched words
    (RISC-V Unprivileged ISA 20191213, sections 2.4 to 2.6 and 8.4).
    Addresses of instructions are relative to the first word of the image: a kernel may start in any slot,
    and these images only branch relative to the program counter. */
module Rv32 {
  import opened Words
  import opened Powers

  datatype Instr =
    | Lw(rd: nat, rs1: nat, imm: int)
    | Sw(rs1: nat, rs2: nat, imm: int)
    | Addi(rd: nat, rs1: nat, imm: int)
    | Slli(rd: nat, rs1: nat, shamt: nat)
    | Srli(rd: nat, rs1: nat, shamt: nat)
    | Add(rd: nat, rs1: nat, rs2: nat)
    | Branch(cond: Cond, rs1: nat, rs2: nat, offset: int)
    | AmoOr(rd: nat, rs1: nat, rs2: nat)
    | Ecall
    | Illegal

  datatype Cond = Eq | Ne | Lt | Ge

  type Memory = map<word, word>

  /** One hardware thread: its program counter, its registers, and whether it has retired. */
  datatype Hart = Hart(pc: int, x: seq<word>, halted: bool)

  datatype Outcome = Next(hart: Hart, mem: Memory) | Trap

  /** The bit field of a word that starts at the bit of weight `unit` and takes `size` values. */
  function Field(w: word, unit: nat, size: nat): nat
    requires unit > 0 && size > 0
  {
    w / unit % size
  }

  function SignExtend(v: nat, size: nat): int {
    if 2 * v < size then v else v - size
  }

  function Decode(w: word): Instr {
    var opcode := w % 0x80;
    var rd := Field(w, 0x80, 0x20);
    var funct3 := Field(w, 0x1000, 8);
    var rs1 := Field(w, 0x8000, 0x20);
    var rs2 := Field(w, 0x10_0000, 0x20);
    var funct7 := Field(w, 0x200_0000, 0x80);
    var immI := SignExtend(Field(w, 0x10_0000, 0x1000), 0x1000);
    if opcode == 0x03 && funct3 == 2 then
      Lw(rd, rs1, immI)
    else if opcode == 0x23 && funct3 == 2 then
      Sw(rs1, rs2, SignExtend(32 * funct7 + rd, 0x1000))
    else if opcode == 0x13 && funct3 == 0 then
      Addi(rd, rs1, immI)
    else if opcode == 0x13 && funct3 == 1 && funct7 == 0 then
      Slli(rd, rs1, rs2)
    else if opcode == 0x13 && funct3 == 5 && funct7 == 0 then
      Srli(rd, rs1, rs2)
    else if opcode == 0x33 && funct3 == 0 && funct7 == 0 then
      Add(rd, rs1, rs2)
    else if opcode == 0x63 && (funct3 == 0 || funct3 == 1 || funct3 == 4 || funct3 == 5) then
      // offset bits: 12 at bit 31, 11 at bit 7, 10..5 at bit 25, 4..1 at bit 8
      var off := 0x1000 * Field(w, 0x8000_0000, 2) + 0x800 * Field(w, 0x80, 2)
                 + 0x20 * Field(w, 0x200_0000, 0x40) + 2 * Field(w, 0x100, 0x10);
      Branch(if funct3 == 0 then Eq else if funct3 == 1 then Ne else if funct3 == 4 then Lt else Ge,
             rs1, rs2, SignExtend(off, 0x2000))
    else if opcode == 0x2f && funct3 == 2 && Field(w, 0x800_0000, 0x20) == 8 then
      AmoOr(rd, rs1, rs2)
    else if w == 0x73 then
      Ecall
    else
      Illegal
  }

  /** x0 ignores writes. */
  function SetReg(x: seq<word>, rd: nat, v: word): (r: seq<word>)
    requires |x| == 32 && rd < 32
    ensures |r| == 32
  {
    if rd == 0 then x else x[rd := v]
  }

  predicate Taken(c: Cond, a: word, b: word) {
    match c
    case Eq => a == b
    case Ne => a != b
    case Lt => Signed(a) < Signed(b)
    case Ge => Signed(a) >= Signed(b)
  }

  function OrW(a: word, b: word): word {
    BitOrBound(a, b, 32);
    Pow2Word();
    BitOr(a, b, 32)
  }

  predicate Accessible(mem: Memory, a: word) {
    a % 4 == 0 && a in mem
  }

  predicate WellFormed(h: Hart) {
    |h.x| == 32 && h.x[0] == 0
  }

  /** The effect of one decoded instruction. */
  function Execute(i: Instr, h: Hart, mem: Memory): Outcome
    requires WellFormed(h)
  {
    match i
    case Lw(rd, rs1, imm) =>
      if rd >= 32 || rs1 >= 32 then Trap else
      var a := Wrap(h.x[rs1] + imm);
      if !Accessible(mem, a) then Trap else Next(h.(pc := h.pc + 4, x := SetReg(h.x, rd, mem[a])), mem)
    case Sw(rs1, rs2, imm) =>
      if rs1 >= 32 || rs2 >= 32 then Trap else
      var a := Wrap(h.x[rs1] + imm);
      if !Accessible(mem, a) then Trap else Next(h.(pc := h.pc + 4), mem[a := h.x[rs2]])
    case Addi(rd, rs1, imm) =>
      if rd >= 32 || rs1 >= 32 then Trap else
      Next(h.(pc := h.pc + 4, x := SetReg(h.x, rd, Wrap(h.x[rs1] + imm))), mem)
    case Slli(rd, rs1, n) =>
      if rd >= 32 || rs1 >= 32 then Trap else
      Next(h.(pc := h.pc + 4, x := SetReg(h.x, rd, Wrap(h.x[rs1] * Pow2(n)))), mem)
    case Srli(rd, rs1, n) =>
      if rd >= 32 || rs1 >= 32 then Trap else
      Next(h.(pc := h.pc + 4, x := SetReg(h.x, rd, Wrap(h.x[rs1] / Pow2(n)))), mem)
    case Add(rd, rs1, rs2) =>
      if rd >= 32 || rs1 >= 32 || rs2 >= 32 then Trap else
      Next(h.(pc := h.pc + 4, x := SetReg(h.x, rd, AddW(h.x[rs1], h.x[rs2]))), mem)
    case Branch(c, rs1, rs2, off) =>
      if rs1 >= 32 || rs2 >= 32 then Trap else
      Next(h.(pc := h.pc + if Taken(c, h.x[rs1], h.x[rs2]) then off else 4), mem)
    case AmoOr(rd, rs1, rs2) =>
      if rd >= 32 || rs1 >= 32 || rs2 >= 32 then Trap else
      var a := h.x[rs1];
      if !Accessible(mem, a) then Trap else
      Next(h.(pc := h.pc + 4, x := SetReg(h.x, rd, mem[a])), mem[a := OrW(mem[a], h.x[rs2])])
    case Ecall => Next(h.(halted := true), mem)
    case Illegal => Trap
  }

  /** Fetch, decode, execute. A retired hart stays as it is. */
  function StepHart(code: seq<word>, h: Hart, mem: Memory): Outcome
    requires WellFormed(h)
  {
    if h.halted then Next(h, mem)
    else if h.pc % 4 != 0 || h.pc < 0 || h.pc / 4 >= |code| then Trap
    else Execute(Decode(code[h.pc / 4]), h, mem)
  }

  /** Registers a launch seeds: a0 = thread id, a1 = parameter block. */
  ghost predicate Seeded(h: Hart, tid: word, params: word) {
    WellFormed(h) && h.pc == 0 && !h.halted && h.x[10] == tid && h.x[11] == params
  }
}
