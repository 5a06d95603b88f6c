/**
 * The folds of gen_addsub and gen_muldiv keep the meaning of the code:
 * run on the reference register machine, the instructions they remove
 * (with the operator they would have emitted) and the instructions they
 * emit instead leave the same integer in the destination register.
 *
 * The operand loads are those of a binary call: the receiver in dst and
 * the argument in dst+1, as the caller arranges; gen_addsub and
 * gen_muldiv themselves do not check the registers.
 */
module FoldingSound {
  import opened MachineInts
  import opened Opcodes
  import opened Encoding
  import opened Wrappers
  import opened Scope
  import opened Pools
  import opened IntLoads
  import opened RegMachine
  import opened Folding

  /** The operator instruction on dst, as genop_1 records it at some address. */
  function OpRec(op: byte, dst: u16): Insn {
    Insn(op, dst, 0, 0, 0, 2)
  }

  /** gen_int's load of v into dst, with lit the pool index of a literal. */
  function LoadOf(v: int, dst: u16, lit: u16, addr: nat, size: nat): Insn {
    var f := IntLoadForm(v);
    Insn(LoadOp(f), dst, LoadB(f, lit), LoadC(f), addr, size)
  }

  /**
   * When gen_addsub keeps one operand, its code leaves in dst the integer
   * the unfolded code (the load of the addend into dst+1 and the operator)
   * would: `x + 0` is x, and `x + n` is ADDI / SUBI of |n|.
   */
  lemma AddSubImmKeepsValue(op: byte, dst: u16, prev: Insn, last: Insn, atLabel: bool, pool: seq<PoolValue>,
                            regs: Regs, addr: nat, size: nat)
    requires op == OP_ADD || op == OP_SUB
    requires last.a == dst + 1 && dst in regs && regs[dst].Int?
    ensures var step := AddSubStepOf(op, last, prev, atLabel, pool);
            var unfolded := ValueAfter([last, OpRec(op, dst)], regs, pool, dst);
            (step.AddSubDrop? ==> unfolded == Some(regs[dst]))
            && (step.AddSubImm? ==>
                  unfolded.Some? && unfolded == ValueAfter([Insn(step.iop, dst, step.n, 0, addr, size)], regs, pool, dst))
  {
    var step := AddSubStepOf(op, last, prev, atLabel, pool);
    if step.AddSubDrop? || step.AddSubImm? {
      LoadThenOpValue(op, dst, last, pool, regs);
      if step.AddSubImm? {
        ImmSign(op, last, prev, atLabel, pool);
        ImmValue(step.iop, dst, step.n, regs, pool, addr, size);
      }
    }
  }

  /**
   * When gen_addsub folds, the two loads and the operator, and the single
   * load of the folded value, leave the same integer in dst.
   */
  lemma AddSubFoldKeepsValue(op: byte, dst: u16, prev: Insn, last: Insn, atLabel: bool, pool: seq<PoolValue>,
                             regs: Regs, addr: nat, size: nat)
    requires op == OP_ADD || op == OP_SUB
    requires last.a == dst + 1 && prev.a == dst
    requires last.op == OP_LOADL ==> 0 <= last.b < |pool|
    requires prev.op == OP_LOADL ==> 0 <= prev.b < |pool|
    requires var step := AddSubStepOf(op, last, prev, atLabel, pool);
             step.AddSubFold? ==> IntIndex(pool, step.n) <= UINT16_MAX
    ensures var step := AddSubStepOf(op, last, prev, atLabel, pool);
            step.AddSubFold? ==>
              var lit := ToU16(IntIndex(pool, step.n));
              var pool1 := if IntLoadForm(step.n).FormLit? then AddInt(pool, step.n) else pool;
              ValueAfter([prev, last, OpRec(op, dst)], regs, pool1, dst) == Some(Int(step.n))
              && ValueAfter([LoadOf(step.n, dst, lit, addr, size)], regs, pool1, dst) == Some(Int(step.n))
  {
    var step := AddSubStepOf(op, last, prev, atLabel, pool);
    if step.AddSubFold? {
      FoldKeepsValue(op, dst, prev, last, pool, regs, step.n, addr, size);
    }
  }

  /** ADDI / SUBI with the immediate adds what the operator would have added. */
  lemma ImmSign(op: byte, last: Insn, prev: Insn, atLabel: bool, pool: seq<PoolValue>)
    requires op == OP_ADD || op == OP_SUB
    requires AddSubStepOf(op, last, prev, atLabel, pool).AddSubImm?
    ensures var step := AddSubStepOf(op, last, prev, atLabel, pool);
            var n := IntOperand(last, pool).value;
            (if op == OP_ADD then n else -n) == (if step.iop == OP_ADDI then step.n else -step.n)
  {
  }

  /** Loading dst+1 and adding or subtracting it changes dst by the loaded value. */
  lemma LoadThenOpValue(op: byte, dst: u16, last: Insn, pool: seq<PoolValue>, regs: Regs)
    requires op == OP_ADD || op == OP_SUB
    requires last.a == dst + 1 && dst in regs && regs[dst].Int? && IntOperand(last, pool).Some?
    ensures ValueAfter([last, OpRec(op, dst)], regs, pool, dst)
            == Some(Int(if op == OP_ADD then regs[dst].i + IntOperand(last, pool).value
                        else regs[dst].i - IntOperand(last, pool).value))
  {
    var m1 := SetReg(Start(regs), dst + 1, Int(IntOperand(last, pool).value));
    RunFirst(last, [OpRec(op, dst)], Start(regs), pool);
    RunFirst(OpRec(op, dst), [], m1, pool);
  }

  /** ADDI / SUBI changes dst by its immediate. */
  lemma ImmValue(iop: byte, dst: u16, n: int, regs: Regs, pool: seq<PoolValue>, addr: nat, size: nat)
    requires (iop == OP_ADDI || iop == OP_SUBI) && dst in regs && regs[dst].Int?
    ensures ValueAfter([Insn(iop, dst, n, 0, addr, size)], regs, pool, dst)
            == Some(Int(if iop == OP_ADDI then regs[dst].i + n else regs[dst].i - n))
  {
    RunOne(Insn(iop, dst, n, 0, addr, size), Start(regs), pool);
  }

  /**
   * Two integer loads into dst and dst+1 followed by op, and the single
   * load of the folded value v, agree on dst.
   */
  lemma FoldKeepsValue(op: byte, dst: u16, prev: Insn, last: Insn, pool: seq<PoolValue>, regs: Regs,
                       v: int, addr: nat, size: nat)
    requires IsArith(op)
    requires last.a == dst + 1 && prev.a == dst
    requires last.op == OP_LOADL ==> 0 <= last.b < |pool|
    requires prev.op == OP_LOADL ==> 0 <= prev.b < |pool|
    requires IntOperand(prev, pool).Some? && IntOperand(last, pool).Some?
    requires FoldArith(op, IntOperand(prev, pool).value, IntOperand(last, pool).value) == Some(v)
    requires IntIndex(pool, v) <= UINT16_MAX
    ensures var lit := ToU16(IntIndex(pool, v));
            var pool1 := if IntLoadForm(v).FormLit? then AddInt(pool, v) else pool;
            ValueAfter([prev, last, OpRec(op, dst)], regs, pool1, dst) == Some(Int(v))
            && ValueAfter([LoadOf(v, dst, lit, addr, size)], regs, pool1, dst) == Some(Int(v))
  {
    var lit := ToU16(IntIndex(pool, v));
    var pool1 := if IntLoadForm(v).FormLit? then AddInt(pool, v) else pool;
    var ext := pool1[|pool|..];
    assert pool1 == pool + ext;
    IntOperandPoolGrow(prev, pool, ext);
    IntOperandPoolGrow(last, pool, ext);
    LoadsThenOpValue(op, dst, prev, last, pool1, regs);
    LoadValue(v, dst, pool, regs, addr, size);
  }

  /** Loading dst and dst+1 and applying op leaves Ruby's value of the operation in dst. */
  lemma LoadsThenOpValue(op: byte, dst: u16, prev: Insn, last: Insn, pool: seq<PoolValue>, regs: Regs)
    requires IsArith(op)
    requires last.a == dst + 1 && prev.a == dst
    requires IntOperand(prev, pool).Some? && IntOperand(last, pool).Some?
    ensures ValueAfter([prev, last, OpRec(op, dst)], regs, pool, dst)
            == match Arith(op, IntOperand(prev, pool).value, IntOperand(last, pool).value)
               case Some(v) => Some(Int(v))
               case None => None
  {
    var m1 := SetReg(Start(regs), dst, Int(IntOperand(prev, pool).value));
    var m2 := SetReg(m1, dst + 1, Int(IntOperand(last, pool).value));
    RunFirst(prev, [last, OpRec(op, dst)], Start(regs), pool);
    RunFirst(last, [OpRec(op, dst)], m1, pool);
    RunFirst(OpRec(op, dst), [], m2, pool);
  }

  /** gen_int's load of v leaves v in dst. */
  lemma LoadValue(v: int, dst: u16, pool: seq<PoolValue>, regs: Regs, addr: nat, size: nat)
    requires IntIndex(pool, v) <= UINT16_MAX
    ensures var lit := ToU16(IntIndex(pool, v));
            var pool1 := if IntLoadForm(v).FormLit? then AddInt(pool, v) else pool;
            ValueAfter([LoadOf(v, dst, lit, addr, size)], regs, pool1, dst) == Some(Int(v))
  {
    var lit := ToU16(IntIndex(pool, v));
    var pool1 := if IntLoadForm(v).FormLit? then AddInt(pool, v) else pool;
    var d := LoadOf(v, dst, lit, addr, size);
    IntLoadRoundTrip(v, dst, pool, addr, size);
    assert IntOperand(d, pool1) == Some(v);
    RunOne(d, Start(regs), pool1);
  }

  /** gen_muldiv's fold leaves in dst the product or floored quotient of the two loads. */
  lemma MulDivKeepsValue(op: byte, dst: u16, prev: Insn, last: Insn, atLabel: bool, pool: seq<PoolValue>,
                         regs: Regs, addr: nat, size: nat)
    requires op == OP_MUL || op == OP_DIV
    requires last.a == dst + 1 && prev.a == dst
    requires last.op == OP_LOADL ==> 0 <= last.b < |pool|
    requires prev.op == OP_LOADL ==> 0 <= prev.b < |pool|
    requires var step := MulDivStepOf(op, last, prev, atLabel, pool);
             step.MulDivFold? ==> IntIndex(pool, step.n) <= UINT16_MAX
    ensures var step := MulDivStepOf(op, last, prev, atLabel, pool);
            step.MulDivFold? ==>
              var lit := ToU16(IntIndex(pool, step.n));
              var pool1 := if IntLoadForm(step.n).FormLit? then AddInt(pool, step.n) else pool;
              ValueAfter([prev, last, OpRec(op, dst)], regs, pool1, dst) == Some(Int(step.n))
              && ValueAfter([LoadOf(step.n, dst, lit, addr, size)], regs, pool1, dst) == Some(Int(step.n))
  {
    var step := MulDivStepOf(op, last, prev, atLabel, pool);
    if step.MulDivFold? {
      FoldKeepsValue(op, dst, prev, last, pool, regs, step.n, addr, size);
    }
  }
}
