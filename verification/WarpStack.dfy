/** The warp's stack as the pool stores it: one next-PC, mask and join array of NUM_LANES entries, a stack
    pointer, and the lanes' registers, all updated in place. */
module WarpStack {
  import opened Reconvergence

  class WarpSlot<S(0)> {
    const npc: array<nat>
    const mask: array<set<nat>>
    const rpc: array<Join>
    const regs: array<S>
    var sp: nat

    ghost predicate Valid()
      reads this, npc, mask, rpc, regs
    {
      && npc.Length == mask.Length == rpc.Length && sp < npc.Length
      && regs as object != npc as object && regs as object != mask as object && regs as object != rpc as object
    }

    /** The frames 0..sp and the registers, as the rules speak of them. */
    ghost function Contents(): Warp<S>
      requires Valid()
      reads this, npc, mask, rpc, regs
    {
      Warp(seq(sp + 1, i requires 0 <= i <= sp && Valid() reads this, npc, mask, rpc, regs =>
                 Frame(npc[i], mask[i], rpc[i])),
           regs[..])
    }

    /** Spawn: the base frame at the kernel's entry with the (possibly partial) warp mask. */
    constructor (depth: nat, lanes: set<nat>, seeds: seq<S>)
      requires depth > 0
      ensures Valid() && fresh(npc) && fresh(mask) && fresh(rpc) && fresh(regs) && npc.Length == depth
      ensures Contents() == Spawn(lanes, seeds)
    {
      npc := new nat[depth](_ => 0);
      mask := new set<nat>[depth](_ => lanes);
      rpc := new Join[depth](_ => Bottom);
      regs := new S[|seeds|](i requires 0 <= i < |seeds| => seeds[i]);
      sp := 0;
      new;
      assert regs[..] == seeds;
      assert Contents().stack == Spawn(lanes, seeds).stack;
    }

    method ApplyOp(f: S -> S, active: set<nat>)
      requires Valid()
      modifies regs
      ensures regs[..] == seq(regs.Length, l requires 0 <= l < regs.Length => if l in active then f(old(regs[l])) else old(regs[l]))
    {
      for l := 0 to regs.Length
        invariant forall i | 0 <= i < l :: regs[i] == if i in active then f(old(regs[i])) else old(regs[i])
        invariant forall i | l <= i < regs.Length :: regs[i] == old(regs[i])
      {
        if l in active {
          regs[l] := f(regs[l]);
        }
      }
    }

    /** The top frame moves on. */
    method SetPc(pc: nat)
      requires Valid()
      modifies npc
      ensures Valid() && Contents() == Retarget(old(Contents()), pc)
    {
      ghost var w := Contents();
      npc[sp] := pc;
      assert Contents().stack == Retarget(w, pc).stack;
    }

    /** The top frame waits at the join with its union mask; a new frame starts above it. */
    method Diverge(join: nat, start: nat, lanes: set<nat>)
      requires Valid() && sp + 1 < npc.Length
      modifies this`sp, npc, mask, rpc
      ensures Valid() && sp == old(sp) + 1
      ensures Contents() == var w := Retarget(old(Contents()), join); w.(stack := w.stack + [Frame(start, lanes, At(join))])
    {
      ghost var w := Contents();
      npc[sp], npc[sp + 1], mask[sp + 1], rpc[sp + 1] := join, start, lanes, At(join);
      sp := sp + 1;
      assert Contents().stack == Retarget(w, join).stack + [Frame(start, lanes, At(join))];
    }

    method Pop()
      requires Valid() && sp > 0
      modifies this`sp
      ensures Valid() && Contents() == var w := old(Contents()); w.(stack := w.stack[..|w.stack| - 1])
    {
      ghost var w := Contents();
      sp := sp - 1;
      assert Contents().stack == w.stack[..|w.stack| - 1];
    }

    /** One issue slot, in place. With NUM_LANES entries per array the push never runs off the end, whatever
        the program. */
    method IssueSlot(code: seq<Instr<S>>, ghost lanes: set<nat>)
      requires Valid() && StackOk(Contents(), lanes) && |lanes| <= npc.Length
      modifies this`sp, npc, mask, rpc, regs
      ensures Valid() && Contents() == Issue(code, old(Contents()))
    {
      ghost var w := Contents();
      assert Top(w) == Frame(npc[sp], mask[sp], rpc[sp]);
      var pc := npc[sp];
      if sp != 0 && rpc[sp] == At(pc) {
        Pop();
      } else if pc < |code| {
        match code[pc] {
          case Op(f) =>
            ApplyOp(f, mask[sp]);
            SetPc(pc + 1);
          case Branch(taken, target) =>
            var active := mask[sp];
            var hit := TakenMask(active, taken, regs[..]);
            if hit == active {
              SetPc(target);
            } else if hit == {} {
              SetPc(pc + 1);
            } else {
              IssueKeepsStack(code, w, lanes);
              DepthBound(Issue(code, w), lanes);
              if target > pc {
                Diverge(target, pc + 1, active - hit);
              } else {
                Diverge(pc + 1, target, hit);
              }
            }
        }
      }
    }
  }
}
