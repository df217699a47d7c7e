/** The 30-word BFS kernel image, run by every thread of a launch with arbitrary interleaving of single
    instructions, and its refinement of the kernel's access-by-access protocol. */
module BfsMachine {
  import opened Words
  import opened Powers
  import opened Graphs
  import opened BfsKernel
  import opened Rv32
  import opened DeviceMemory

  /** The words of the image. */
  function Word(k: nat): word
    requires k < 30
  {
    match k
    case 0 => 0x0005a403
    case 1 => 0x0045a483
    case 2 => 0x0085a903
    case 3 => 0x00c5a983
    case 4 => 0x00251293
    case 5 => 0x00590333
    case 6 => 0x00032303
    case 7 => 0x05331c63
    case 8 => 0x005402b3
    case 9 => 0x0002a303
    case 10 => 0x0042a383
    case 11 => 0x00198a13
    case 12 => 0x00000a93
    case 13 => 0x02735a63
    case 14 => 0x00231e13
    case 15 => 0x01c48e33
    case 16 => 0x000e2e03
    case 17 => 0x002e1e13
    case 18 => 0x01c90e33
    case 19 => 0x000e2e83
    case 20 => 0x001e8e93
    case 21 => 0x000e9663
    case 22 => 0x014e2023
    case 23 => 0x00100a93
    case 24 => 0x00130313
    case 25 => 0xfc734ae3
    case 26 => 0x000a8663
    case 27 => 0x0105ae03
    case 28 => 0x415e202f
    case 29 => 0x00000073
  }

  function Code(): (c: seq<word>)
    ensures |c| == 30 && forall k | 0 <= k < 30 :: c[k] == Word(k)
  {
    seq(30, k requires 0 <= k < 30 => Word(k))
  }

  /** The listing the words encode. */
  function Listing(k: nat): Instr
    requires k < 30
  {
    match k
    case 0 => Lw(8, 11, 0)            // s0 = &rowptr
    case 1 => Lw(9, 11, 4)            // s1 = &col
    case 2 => Lw(18, 11, 8)           // s2 = &level
    case 3 => Lw(19, 11, 12)          // s3 = L
    case 4 => Slli(5, 10, 2)
    case 5 => Add(6, 18, 5)
    case 6 => Lw(6, 6, 0)             // level[v]
    case 7 => Branch(Ne, 6, 19, 88)   // not in the frontier
    case 8 => Add(5, 8, 5)
    case 9 => Lw(6, 5, 0)             // j
    case 10 => Lw(7, 5, 4)            // end
    case 11 => Addi(20, 19, 1)
    case 12 => Addi(21, 0, 0)         // found
    case 13 => Branch(Ge, 6, 7, 52)
    case 14 => Slli(28, 6, 2)
    case 15 => Add(28, 9, 28)
    case 16 => Lw(28, 28, 0)          // u
    case 17 => Slli(28, 28, 2)
    case 18 => Add(28, 18, 28)
    case 19 => Lw(29, 28, 0)          // level[u]
    case 20 => Addi(29, 29, 1)
    case 21 => Branch(Ne, 29, 0, 12)
    case 22 => Sw(28, 20, 0)
    case 23 => Addi(21, 0, 1)
    case 24 => Addi(6, 6, 1)
    case 25 => Branch(Lt, 6, 7, -44)
    case 26 => Branch(Eq, 21, 0, 12)
    case 27 => Lw(28, 11, 16)         // &flag
    case 28 => AmoOr(0, 28, 21)
    case 29 => Ecall
  }

  /** The 30 words decode to the listing. */
  lemma Decoded(k: nat)
    requires k < 30
    ensures Decode(Word(k)) == Listing(k)
  {
    hide Decode;
    if k < 5 { DecodedParams(); }
    else if k < 10 { DecodedFrontier(); }
    else if k < 14 { DecodedRow(); }
    else if k < 18 { DecodedColumn(); }
    else if k < 22 { DecodedNeighbour(); }
    else if k < 26 { DecodedDiscover(); }
    else { DecodedTail(); }
  }

  lemma DecodedParams()
    ensures Decode(0x0005a403) == Listing(0)
    ensures Decode(0x0045a483) == Listing(1)
    ensures Decode(0x0085a903) == Listing(2)
    ensures Decode(0x00c5a983) == Listing(3)
    ensures Decode(0x00251293) == Listing(4)
  {
  }

  lemma DecodedFrontier()
    ensures Decode(0x00590333) == Listing(5)
    ensures Decode(0x00032303) == Listing(6)
    ensures Decode(0x05331c63) == Listing(7)
    ensures Decode(0x005402b3) == Listing(8)
    ensures Decode(0x0002a303) == Listing(9)
  {
  }

  lemma DecodedRow()
    ensures Decode(0x0042a383) == Listing(10)
    ensures Decode(0x00198a13) == Listing(11)
    ensures Decode(0x00000a93) == Listing(12)
    ensures Decode(0x02735a63) == Listing(13)
  {
  }

  lemma DecodedColumn()
    ensures Decode(0x00231e13) == Listing(14)
    ensures Decode(0x01c48e33) == Listing(15)
    ensures Decode(0x000e2e03) == Listing(16)
    ensures Decode(0x002e1e13) == Listing(17)
  {
  }

  lemma DecodedNeighbour()
    ensures Decode(0x01c90e33) == Listing(18)
    ensures Decode(0x000e2e83) == Listing(19)
    ensures Decode(0x001e8e93) == Listing(20)
    ensures Decode(0x000e9663) == Listing(21)
  {
  }

  lemma DecodedDiscover()
    ensures Decode(0x014e2023) == Listing(22)
    ensures Decode(0x00100a93) == Listing(23)
    ensures Decode(0x00130313) == Listing(24)
    ensures Decode(0xfc734ae3) == Listing(25)
  {
  }

  lemma DecodedTail()
    ensures Decode(0x000a8663) == Listing(26)
    ensures Decode(0x0105ae03) == Listing(27)
    ensures Decode(0x415e202f) == Listing(28)
    ensures Decode(0x00000073) == Listing(29)
  {
  }

  // ----- memory layout -----

  /** Where the launch's buffers lie. */
  datatype Layout = Layout(params: word, rowptr: word, col: word, level: word, flag: word)

  /** Row pointers and columns are words: the graph fits the address space. */
  ghost predicate Fits(g: Csr) {
    && g.Valid() && 4 * |g.col| <= MOD32
  }

  ghost function AsWords(xs: seq<nat>): (r: seq<word>)
    requires forall i | 0 <= i < |xs| :: xs[i] < MOD32
    ensures |r| == |xs| && forall i | 0 <= i < |xs| :: r[i] == xs[i]
  {
    seq(|xs|, i requires 0 <= i < |xs| => xs[i])
  }

  ghost function ParamBlock(lay: Layout, lvl: word): seq<word> {
    [lay.rowptr, lay.col, lay.level, lvl, lay.flag]
  }

  /** The two written buffers lie apart from everything else. */
  ghost predicate Separate(g: Csr, lay: Layout) {
    && Apart(lay.level, g.nv, lay.params, 5) && Apart(lay.level, g.nv, lay.rowptr, g.nv + 1)
    && Apart(lay.level, g.nv, lay.col, |g.col|) && Apart(lay.level, g.nv, lay.flag, 1)
    && Apart(lay.flag, 1, lay.params, 5) && Apart(lay.flag, 1, lay.rowptr, g.nv + 1)
    && Apart(lay.flag, 1, lay.col, |g.col|)
  }

  /** The launch's memory: five parameters, the graph, the levels and the flag. */
  ghost predicate Image(g: Csr, lay: Layout, lvl: word, mem: Memory, level: seq<word>, flag: word) {
    && Fits(g) && |level| == g.nv && Separate(g, lay)
    && Buffer(mem, lay.params, ParamBlock(lay, lvl))
    && Buffer(mem, lay.rowptr, AsWords(g.rowptr))
    && Buffer(mem, lay.col, AsWords(g.col))
    && Buffer(mem, lay.level, level)
    && Buffer(mem, lay.flag, [flag])
  }

  /** Nothing but the level buffer and the flag differs between two memories. */
  ghost predicate Frame(g: Csr, lay: Layout, before: Memory, after: Memory) {
    && before.Keys == after.Keys
    && forall a | a in before && !(lay.level <= a < lay.level + 4 * g.nv) && a != lay.flag :: after[a] == before[a]
  }

  lemma LevelStore(g: Csr, lay: Layout, lvl: word, mem: Memory, level: seq<word>, flag: word, u: nat, w: word)
    requires Image(g, lay, lvl, mem, level, flag) && u < g.nv
    ensures lay.level + 4 * u < MOD32
    ensures Image(g, lay, lvl, mem[lay.level + 4 * u := w], level[u := w], flag)
    ensures Frame(g, lay, mem, mem[lay.level + 4 * u := w])
  {
    hide Buffer;
    BufferAt(mem, lay.level, level, u);
    BufferStore(mem, lay.level, level, u, w);
    var a := lay.level + 4 * u;
    BufferKept(mem, lay.params, ParamBlock(lay, lvl), a, w);
    BufferKept(mem, lay.rowptr, AsWords(g.rowptr), a, w);
    BufferKept(mem, lay.col, AsWords(g.col), a, w);
    BufferKept(mem, lay.flag, [flag], a, w);
  }

  lemma FlagStore(g: Csr, lay: Layout, lvl: word, mem: Memory, level: seq<word>, flag: word, w: word)
    requires Image(g, lay, lvl, mem, level, flag)
    ensures Image(g, lay, lvl, mem[lay.flag := w], level, w)
    ensures Frame(g, lay, mem, mem[lay.flag := w])
  {
    hide Buffer;
    BufferAt(mem, lay.flag, [flag], 0);
    BufferStore(mem, lay.flag, [flag], 0, w);
    assert lay.flag + 4 * 0 == lay.flag && [flag][0 := w] == [w];
    BufferKept(mem, lay.params, ParamBlock(lay, lvl), lay.flag, w);
    BufferKept(mem, lay.rowptr, AsWords(g.rowptr), lay.flag, w);
    BufferKept(mem, lay.col, AsWords(g.col), lay.flag, w);
    BufferKept(mem, lay.level, level, lay.flag, w);
  }

  // ----- one hart against one protocol thread -----

  /** Which protocol thread a hart at instruction k stands for, and what its registers hold. */
  ghost predicate Mirrors(g: Csr, lay: Layout, lvl: word, v: nat, h: Hart, t: Thread)
    requires g.Valid() && v < g.nv
  {
    && WellFormed(h) && h.x[10] == v && h.x[11] == lay.params
    && 0 <= h.pc < 120 && h.pc % 4 == 0
    && var k := h.pc / 4;
    && (h.halted ==> k == 29)
    && (1 <= k ==> h.x[8] == lay.rowptr) && (2 <= k ==> h.x[9] == lay.col)
    && (3 <= k ==> h.x[18] == lay.level) && (4 <= k ==> h.x[19] == lvl)
    && (5 <= k <= 8 ==> h.x[5] == 4 * v) && (9 <= k <= 10 ==> h.x[5] == lay.rowptr + 4 * v)
    && (12 <= k <= 25 ==> h.x[20] == AddW(lvl, 1)) && (13 <= k <= 28 ==> h.x[21] <= 1)
    && var j, e, f := h.x[6], h.x[7], h.x[21] == 1;
    && var u := h.x[28];
    if k <= 6 then t == Begin && (k == 6 ==> j == lay.level + 4 * v)
    else if k == 7 then t == if j == lvl then Row else Done
    else if k <= 9 then t == Row
    else if k == 10 then t == RowEnd(j) && j <= |g.col|
    else if k <= 13 then t == AtTest(j, e, false) && j <= |g.col| && e <= |g.col| && (k == 13 ==> !f)
    else if k <= 16 then
      t == ReadCol(j, e, f) && (k == 15 ==> u == 4 * j) && (k == 16 ==> u == lay.col + 4 * j)
    else if k <= 19 then
      && t.ReadLevel? && t == ReadLevel(j, e, f, t.u)
      && u == if k == 17 then t.u else if k == 18 then 4 * t.u else lay.level + 4 * t.u
    else if k <= 22 then
      && j < e <= |g.col| && h.x[28] == lay.level + 4 * g.col[j]
      && (k == 22 ==> t == Write(j, e, f, g.col[j]))
      && (k <= 21 ==>
            t == if h.x[29] == (if k == 20 then UNSEEN else 0) then Write(j, e, f, g.col[j]) else AtTest(j + 1, e, f))
    else if k == 23 then t == AtTest(j + 1, e, true) && j < e <= |g.col|
    else if k == 24 then t == AtTest(j + 1, e, f) && j < e <= |g.col|
    else if k == 25 then t == AtTest(j, e, f) && j <= e <= |g.col|
    else if k == 26 then t == if f then SetFlag else Done
    else if k <= 28 then t == SetFlag && f && (k == 28 ==> u == lay.flag)
    else t == Done
  }

  /** The instructions that access the shared level array, the flag or the graph's row and column arrays in
      the protocol's sense; every other instruction is local. */
  predicate Visible(k: int) {
    k == 6 || k == 9 || k == 10 || k == 16 || k == 19 || k == 22 || k == 28
  }

  /** The protocol state after the instruction at the hart's program counter. */
  ghost function Follow(g: Csr, lvl: word, s: Grid, v: nat, h: Hart): Grid
    requires Shape(g, s) && v < g.nv
  {
    if !h.halted && Visible(h.pc / 4) then BfsKernel.Step(g, lvl, s, v) else s
  }

  ghost predicate Ready(g: Csr, lay: Layout, lvl: word, mem: Memory, s: Grid, v: nat, h: Hart) {
    && Shape(g, s) && v < g.nv
    && Image(g, lay, lvl, mem, s.level, s.flag)
    && Mirrors(g, lay, lvl, v, h, s.threads[v])
  }

  /** One instruction has followed the protocol: it did not trap, and memory and hart mirror the new state. */
  ghost predicate After(g: Csr, lay: Layout, lvl: word, mem: Memory, s: Grid, v: nat, h: Hart, o: Outcome)
    requires Shape(g, s) && v < g.nv
  {
    && o.Next?
    && var s' := Follow(g, lvl, s, v, h);
    && Image(g, lay, lvl, o.mem, s'.level, s'.flag) && Frame(g, lay, mem, o.mem)
    && Mirrors(g, lay, lvl, v, o.hart, s'.threads[v])
  }

  lemma OrWithOne(a: word)
    ensures OrW(a, 1) == OrOne(a)
  {
    Pow2Word();
    assert Pow2(32) == 2 * Pow2(31);
    BitOrZero(a / 2, 31);
  }

  lemma ShapeAt(g: Csr, s: Grid, v: nat)
    requires Shape(g, s) && v < g.nv
    ensures g.Valid() && 4 * g.nv < MOD32 && |s.level| == |s.threads| == g.nv && |g.rowptr| == g.nv + 1
    ensures InRange(g, s.threads[v])
    ensures g.rowptr[v] <= |g.col| && g.rowptr[v + 1] <= |g.col|
  {
  }

  lemma ColumnAt(g: Csr, j: nat)
    requires g.Valid() && j < |g.col|
    ensures g.col[j] < g.nv
  {
  }

  lemma ParamSteps(g: Csr, lay: Layout, lvl: word, mem: Memory, s: Grid, v: nat, h: Hart)
    requires Ready(g, lay, lvl, mem, s, v, h) && !h.halted && h.pc < 16
    ensures After(g, lay, lvl, mem, s, v, h, Execute(Listing(h.pc / 4), h, mem))
  {
    hide Buffer, Shape, Separate, Csr.Valid;
    ShapeAt(g, s, v);
    BufferAt(mem, lay.params, ParamBlock(lay, lvl), h.pc / 4);
    if h.pc == 0 {
    } else if h.pc == 4 {
    } else if h.pc == 8 {
    } else {
    }
  }

  lemma AddressSteps(g: Csr, lay: Layout, lvl: word, mem: Memory, s: Grid, v: nat, h: Hart)
    requires Ready(g, lay, lvl, mem, s, v, h) && !h.halted && 16 <= h.pc < 24
    ensures After(g, lay, lvl, mem, s, v, h, Execute(Listing(h.pc / 4), h, mem))
  {
    hide Buffer, Shape, Separate, Csr.Valid;
    ShapeAt(g, s, v);
    assert Pow2(2) == 4;
    BufferAt(mem, lay.level, s.level, v);
    if h.pc == 16 {
    } else {
    }
  }

  lemma FrontierSteps(g: Csr, lay: Layout, lvl: word, mem: Memory, s: Grid, v: nat, h: Hart)
    requires Ready(g, lay, lvl, mem, s, v, h) && !h.halted && 24 <= h.pc < 36
    ensures After(g, lay, lvl, mem, s, v, h, Execute(Listing(h.pc / 4), h, mem))
  {
    hide Buffer, Shape, Separate, Csr.Valid;
    ShapeAt(g, s, v);
    BufferAt(mem, lay.level, s.level, v);
    BufferAt(mem, lay.rowptr, AsWords(g.rowptr), v);
    if h.pc == 24 {
    } else if h.pc == 28 {
    } else {
    }
  }

  lemma RowSteps(g: Csr, lay: Layout, lvl: word, mem: Memory, s: Grid, v: nat, h: Hart)
    requires Ready(g, lay, lvl, mem, s, v, h) && !h.halted && 36 <= h.pc < 44
    ensures After(g, lay, lvl, mem, s, v, h, Execute(Listing(h.pc / 4), h, mem))
  {
    hide Buffer, Shape, Separate, Csr.Valid;
    ShapeAt(g, s, v);
    BufferAt(mem, lay.rowptr, AsWords(g.rowptr), v);
    BufferAt(mem, lay.rowptr, AsWords(g.rowptr), v + 1);
    if h.pc == 36 {
    } else {
    }
  }

  lemma TestSteps(g: Csr, lay: Layout, lvl: word, mem: Memory, s: Grid, v: nat, h: Hart)
    requires Ready(g, lay, lvl, mem, s, v, h) && !h.halted && 44 <= h.pc < 56
    ensures After(g, lay, lvl, mem, s, v, h, Execute(Listing(h.pc / 4), h, mem))
  {
    hide Buffer, Shape, Separate, Csr.Valid;
    ShapeAt(g, s, v);
    if h.pc == 44 {
    } else if h.pc == 48 {
    } else {
    }
  }

  lemma ColumnShiftStep(g: Csr, lay: Layout, lvl: word, mem: Memory, s: Grid, v: nat, h: Hart)
    requires Ready(g, lay, lvl, mem, s, v, h) && !h.halted && h.pc == 56
    ensures After(g, lay, lvl, mem, s, v, h, Execute(Listing(h.pc / 4), h, mem))
  {
    hide Buffer, Shape, Separate, Csr.Valid;
    ShapeAt(g, s, v);
    assert Pow2(2) == 4;
    BufferAt(mem, lay.col, AsWords(g.col), h.x[6]);
  }

  lemma ColumnAddressStep(g: Csr, lay: Layout, lvl: word, mem: Memory, s: Grid, v: nat, h: Hart)
    requires Ready(g, lay, lvl, mem, s, v, h) && !h.halted && h.pc == 60
    ensures After(g, lay, lvl, mem, s, v, h, Execute(Listing(h.pc / 4), h, mem))
  {
    hide Buffer, Shape, Separate, Csr.Valid;
    ShapeAt(g, s, v);
    assert Pow2(2) == 4;
    BufferAt(mem, lay.col, AsWords(g.col), h.x[6]);
  }

  lemma ColumnStep(g: Csr, lay: Layout, lvl: word, mem: Memory, s: Grid, v: nat, h: Hart)
    requires Ready(g, lay, lvl, mem, s, v, h) && !h.halted && h.pc == 64
    ensures After(g, lay, lvl, mem, s, v, h, Execute(Listing(h.pc / 4), h, mem))
  {
    hide Buffer, Shape, Separate, Csr.Valid;
    ShapeAt(g, s, v);
    ColumnAt(g, h.x[6]);
    BufferAt(mem, lay.col, AsWords(g.col), h.x[6]);
  }

  lemma NeighbourShiftStep(g: Csr, lay: Layout, lvl: word, mem: Memory, s: Grid, v: nat, h: Hart)
    requires Ready(g, lay, lvl, mem, s, v, h) && !h.halted && h.pc == 68
    ensures After(g, lay, lvl, mem, s, v, h, Execute(Listing(h.pc / 4), h, mem))
  {
    hide Buffer, Shape, Separate, Csr.Valid;
    ShapeAt(g, s, v);
    assert Pow2(2) == 4;
    ColumnAt(g, h.x[6]);
    BufferAt(mem, lay.level, s.level, s.threads[v].u);
  }

  lemma NeighbourAddressStep(g: Csr, lay: Layout, lvl: word, mem: Memory, s: Grid, v: nat, h: Hart)
    requires Ready(g, lay, lvl, mem, s, v, h) && !h.halted && h.pc == 72
    ensures After(g, lay, lvl, mem, s, v, h, Execute(Listing(h.pc / 4), h, mem))
  {
    hide Buffer, Shape, Separate, Csr.Valid;
    ShapeAt(g, s, v);
    assert Pow2(2) == 4;
    ColumnAt(g, h.x[6]);
    BufferAt(mem, lay.level, s.level, s.threads[v].u);
  }

  lemma NeighbourStep(g: Csr, lay: Layout, lvl: word, mem: Memory, s: Grid, v: nat, h: Hart)
    requires Ready(g, lay, lvl, mem, s, v, h) && !h.halted && h.pc == 76
    ensures After(g, lay, lvl, mem, s, v, h, Execute(Listing(h.pc / 4), h, mem))
  {
    hide Buffer, Shape, Separate, Csr.Valid;
    ShapeAt(g, s, v);
    ColumnAt(g, h.x[6]);
    BufferAt(mem, lay.level, s.level, s.threads[v].u);
  }

  lemma UnseenSteps(g: Csr, lay: Layout, lvl: word, mem: Memory, s: Grid, v: nat, h: Hart)
    requires Ready(g, lay, lvl, mem, s, v, h) && !h.halted && 80 <= h.pc < 88
    ensures After(g, lay, lvl, mem, s, v, h, Execute(Listing(h.pc / 4), h, mem))
  {
    hide Buffer, Shape, Separate, Csr.Valid;
    ShapeAt(g, s, v);
    if h.pc == 80 {
    } else {
    }
  }

  lemma StoreStep(g: Csr, lay: Layout, lvl: word, mem: Memory, s: Grid, v: nat, h: Hart)
    requires Ready(g, lay, lvl, mem, s, v, h) && !h.halted && h.pc == 88
    ensures After(g, lay, lvl, mem, s, v, h, Execute(Listing(h.pc / 4), h, mem))
  {
    hide Buffer, Shape, Separate, Csr.Valid;
    ShapeAt(g, s, v);
    ColumnAt(g, h.x[6]);
    BufferAt(mem, lay.level, s.level, s.threads[v].u);
    LevelStore(g, lay, lvl, mem, s.level, s.flag, s.threads[v].u, AddW(lvl, 1));
  }

  lemma FoundSteps(g: Csr, lay: Layout, lvl: word, mem: Memory, s: Grid, v: nat, h: Hart)
    requires Ready(g, lay, lvl, mem, s, v, h) && !h.halted && 92 <= h.pc < 100
    ensures After(g, lay, lvl, mem, s, v, h, Execute(Listing(h.pc / 4), h, mem))
  {
    hide Buffer, Shape, Separate, Csr.Valid;
    ShapeAt(g, s, v);
    if h.pc == 92 {
    } else {
    }
  }

  lemma LoopSteps(g: Csr, lay: Layout, lvl: word, mem: Memory, s: Grid, v: nat, h: Hart)
    requires Ready(g, lay, lvl, mem, s, v, h) && !h.halted && 100 <= h.pc < 108
    ensures After(g, lay, lvl, mem, s, v, h, Execute(Listing(h.pc / 4), h, mem))
  {
    hide Buffer, Shape, Separate, Csr.Valid;
    ShapeAt(g, s, v);
    if h.pc == 100 {
    } else {
    }
  }

  lemma FlagSteps(g: Csr, lay: Layout, lvl: word, mem: Memory, s: Grid, v: nat, h: Hart)
    requires Ready(g, lay, lvl, mem, s, v, h) && !h.halted && 108 <= h.pc < 120
    ensures After(g, lay, lvl, mem, s, v, h, Execute(Listing(h.pc / 4), h, mem))
  {
    hide Buffer, Shape, Separate, Csr.Valid;
    ShapeAt(g, s, v);
    BufferAt(mem, lay.params, ParamBlock(lay, lvl), 4);
    BufferAt(mem, lay.flag, [s.flag], 0);
    FlagStore(g, lay, lvl, mem, s.level, s.flag, OrOne(s.flag));
    OrWithOne(s.flag);
    if h.pc == 108 {
    } else if h.pc == 112 {
    } else {
    }
  }

  /** Every instruction of the image follows the protocol: a visible access is the protocol's next step of
      that thread, everything else leaves the protocol state alone, and no instruction traps. */
  lemma InstructionFollows(g: Csr, lay: Layout, lvl: word, mem: Memory, s: Grid, v: nat, h: Hart)
    requires Ready(g, lay, lvl, mem, s, v, h)
    ensures After(g, lay, lvl, mem, s, v, h, StepHart(Code(), h, mem))
  {
    hide Decode, Listing, Execute, Image;
    if !h.halted {
      Decoded(h.pc / 4);
      if h.pc < 16 { ParamSteps(g, lay, lvl, mem, s, v, h); }
      else if h.pc < 24 { AddressSteps(g, lay, lvl, mem, s, v, h); }
      else if h.pc < 36 { FrontierSteps(g, lay, lvl, mem, s, v, h); }
      else if h.pc < 44 { RowSteps(g, lay, lvl, mem, s, v, h); }
      else if h.pc < 56 { TestSteps(g, lay, lvl, mem, s, v, h); }
      else if h.pc < 60 { ColumnShiftStep(g, lay, lvl, mem, s, v, h); }
      else if h.pc < 64 { ColumnAddressStep(g, lay, lvl, mem, s, v, h); }
      else if h.pc < 68 { ColumnStep(g, lay, lvl, mem, s, v, h); }
      else if h.pc < 72 { NeighbourShiftStep(g, lay, lvl, mem, s, v, h); }
      else if h.pc < 76 { NeighbourAddressStep(g, lay, lvl, mem, s, v, h); }
      else if h.pc < 80 { NeighbourStep(g, lay, lvl, mem, s, v, h); }
      else if h.pc < 88 { UnseenSteps(g, lay, lvl, mem, s, v, h); }
      else if h.pc < 92 { StoreStep(g, lay, lvl, mem, s, v, h); }
      else if h.pc < 100 { FoundSteps(g, lay, lvl, mem, s, v, h); }
      else if h.pc < 108 { LoopSteps(g, lay, lvl, mem, s, v, h); }
      else { FlagSteps(g, lay, lvl, mem, s, v, h); }
    }
  }

  // ----- all harts of a launch, interleaved by instruction -----

  /** The machine mirrors the protocol state s. */
  ghost predicate Refines(g: Csr, lay: Layout, lvl: word, mem0: Memory, m: Machine, s: Grid) {
    && Shape(g, s) && lvl + 1 < UNSEEN && |m.harts| == |s.threads| == g.nv && g.Valid()
    && Image(g, lay, lvl, m.mem, s.level, s.flag) && Frame(g, lay, mem0, m.mem)
    && forall v: nat | v < g.nv :: Mirrors(g, lay, lvl, v, m.harts[v], s.threads[v])
  }

  lemma StepOthers(g: Csr, lvl: word, s: Grid, v: nat, w: nat)
    requires Shape(g, s) && v < g.nv && w < g.nv && w != v
    ensures BfsKernel.Step(g, lvl, s, v).threads[w] == s.threads[w]
  {
  }

  /** One instruction of one hart among all: the refinement is kept. */
  lemma MachineStepRefines(g: Csr, lay: Layout, lvl: word, mem0: Memory, m: Machine, s: Grid, v: nat)
    requires Refines(g, lay, lvl, mem0, m, s) && v < g.nv
    ensures MachineStep(Code(), m, v).Running?
    ensures Refines(g, lay, lvl, mem0, MachineStep(Code(), m, v).m, Follow(g, lvl, s, v, m.harts[v]))
  {
    hide Image, Mirrors, BfsKernel.Step, StepHart, Shape;
    ShapeAt(g, s, v);
    WellFormedMirror(g, lay, lvl, v, m.harts[v], s.threads[v]);
    InstructionFollows(g, lay, lvl, m.mem, s, v, m.harts[v]);
    ShapeAt(g, Follow(g, lvl, s, v, m.harts[v]), v);
    forall w: nat | w < g.nv && w != v
      ensures Follow(g, lvl, s, v, m.harts[v]).threads[w] == s.threads[w]
    {
      StepOthers(g, lvl, s, v, w);
    }
  }

  lemma WellFormedMirror(g: Csr, lay: Layout, lvl: word, v: nat, h: Hart, t: Thread)
    requires g.Valid() && v < g.nv && Mirrors(g, lay, lvl, v, h, t)
    ensures WellFormed(h)
    ensures h.halted ==> t.Done?
  {
  }

  /** Every instruction-level interleaving of the 30 words stays within the protocol and its invariant. */
  lemma {:induction false} MachineRunRefines(g: Csr, lay: Layout, lvl: word, mem0: Memory, m: Machine, s: Grid,
                                             sched: seq<nat>)
    returns (s': Grid)
    requires Refines(g, lay, lvl, mem0, m, s) && Inv(g, lvl, s) && Schedule(g, sched)
    ensures MachineRun(Code(), m, sched).Running?
    ensures Refines(g, lay, lvl, mem0, MachineRun(Code(), m, sched).m, s') && Inv(g, lvl, s')
    decreases |sched|
  {
    hide Image, Frame, Mirrors, BfsKernel.Step, StepHart, Shape, Inv;
    if sched == [] {
      s' := s;
    } else {
      var v := sched[0];
      WellFormedMirror(g, lay, lvl, v, m.harts[v], s.threads[v]);
      MachineStepRefines(g, lay, lvl, mem0, m, s, v);
      StepInv(g, lvl, s, v);
      s' := MachineRunRefines(g, lay, lvl, mem0, MachineStep(Code(), m, v).m, Follow(g, lvl, s, v, m.harts[v]), sched[1..]);
    }
  }

  /** A launch as the dispatcher starts it: thread ids in a0, the parameter block in a1. */
  ghost predicate Launched(g: Csr, lay: Layout, lvl: word, m: Machine) {
    && g.Valid() && lvl + 1 < UNSEEN && |m.harts| == g.nv
    && Image(g, lay, lvl, m.mem, g.Labels(lvl), 0)
    && forall v: nat | v < g.nv :: Seeded(m.harts[v], v, lay.params)
  }

  /** The kernel image computes one breadth-first level under every interleaving of its instructions: no
      hart ever traps, and when all have retired the levels up to lvl + 1 are in place, the flag tells
      whether level lvl + 1 is non-empty, and no other word of memory has changed. */
  lemma ImageTheorem(g: Csr, lay: Layout, lvl: word, m: Machine, sched: seq<nat>)
    requires Launched(g, lay, lvl, m) && Schedule(g, sched)
    ensures MachineRun(Code(), m, sched).Running?
    ensures AllHalted(MachineRun(Code(), m, sched).m) ==>
              && Image(g, lay, lvl, MachineRun(Code(), m, sched).m.mem, g.Labels(lvl + 1),
                       if LevelNonEmpty(g, lvl + 1) then 1 else 0)
              && Frame(g, lay, m.mem, MachineRun(Code(), m, sched).m.mem)
  {
    hide Image, MachineRun, Inv;
    LaunchInv(g, lvl);
    var s' := MachineRunRefines(g, lay, lvl, m.mem, m, Launch(g, lvl), sched);
    var m' := MachineRun(Code(), m, sched).m;
    if AllHalted(m') {
      forall v: nat | v < g.nv
        ensures s'.threads[v].Done?
      {
        WellFormedMirror(g, lay, lvl, v, m'.harts[v], s'.threads[v]);
      }
      FinishedEffect(g, lvl, s');
    }
  }
}
