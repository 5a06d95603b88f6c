/**
 * Constant folding of integer operators: gen_addsub, gen_muldiv,
 * gen_binop and gen_uniop (codegen.yarp.c lines 838-971 and 1229-1253).
 *
 * Each one looks at the last instruction, and the binary ones at the one
 * before it, through get_int_operand.  The decision is a pure function of
 * those records, of whether the last one starts at lastlabel, and of the
 * pool; the methods carry it out by cutting the code back and emitting the
 * replacement.
 */
module Folding {
  import opened MachineInts
  import opened Opcodes
  import opened Encoding
  import opened Wrappers
  import opened Scope
  import opened Emitter
  import opened Pools
  import opened IntLoads
  import opened RegMachine

  // The operator symbols gen_binop and gen_uniop compare against (MRB_OPSYM_2).
  const SYM_PLUS: Sym := "+@"
  const SYM_MINUS: Sym := "-@"
  const SYM_NEG: Sym := "~"
  const SYM_AREF: Sym := "[]"
  const SYM_LSHIFT: Sym := "<<"
  const SYM_RSHIFT: Sym := ">>"
  const SYM_MOD: Sym := "%"
  const SYM_AND: Sym := "&"
  const SYM_OR: Sym := "|"
  const SYM_XOR: Sym := "^"

  // ---------------------------------------------------------------------
  // The folding arithmetic
  // ---------------------------------------------------------------------

  /**
   * The guarded operation of gen_addsub and gen_muldiv: None where
   * mrb_int_add_overflow, mrb_int_sub_overflow or mrb_int_mul_overflow
   * report an overflow, and for a division by 0 or MRB_INT_MIN / -1.
   * Division is mrb_div_int, which floors.
   */
  function FoldArith(op: byte, n0: int, n: int): Option<int>
    requires IsArith(op)
  {
    if op == OP_ADD then (if IsMrbInt(n0 + n) then Some(n0 + n) else None)
    else if op == OP_SUB then (if IsMrbInt(n0 - n) then Some(n0 - n) else None)
    else if op == OP_MUL then (if IsMrbInt(n0 * n) then Some(n0 * n) else None)
    else if n == 0 then None
    else if n0 == MRB_INT_MIN && n == -1 then None
    else Some(FloorDiv(n0, n))
  }

  /**
   * The fold computes Ruby's value of the operation, an mrb_int; and on
   * mrb_int operands it refuses exactly the operations whose value is
   * undefined or does not fit an mrb_int.
   */
  lemma FoldArithSound(op: byte, n0: int, n: int)
    requires IsArith(op) && IsMrbInt(n0) && IsMrbInt(n)
    ensures FoldArith(op, n0, n).Some? <==> Arith(op, n0, n).Some? && IsMrbInt(Arith(op, n0, n).value)
    ensures FoldArith(op, n0, n).Some? ==> FoldArith(op, n0, n) == Arith(op, n0, n)
  {
    if op == OP_DIV && n != 0 {
      if n == -1 {
        assert FloorDiv(n0, n) == -n0;
      } else {
        FloorDivShrinks(n0, n);
      }
    }
  }

  /** Dividing by anything but 0 and -1 moves an mrb_int no further from 0. */
  lemma FloorDivShrinks(n0: int, n: int)
    requires IsMrbInt(n0) && n != 0 && n != -1
    ensures IsMrbInt(FloorDiv(n0, n))
  {
    if n > 0 {
      DivInRange(n0, n);
    } else {
      DivInRange(-n0, -n);
    }
  }

  /** x / y lies between 0 and x for a positive divisor. */
  lemma DivInRange(x: int, y: int)
    requires y > 0
    ensures x >= 0 ==> 0 <= x / y <= x
    ensures x < 0 ==> x <= x / y < 0
  {
    if x >= 0 {
      DivAtMost(x, y);
    } else {
      DivAtLeast(x, y);
    }
  }

  lemma DivAtMost(x: int, y: int)
    requires x >= 0 && y > 0
    ensures 0 <= x / y <= x
  {
    var q := x / y;
    assert x == q * y + x % y;
    if q > x {
      MulAtLeastSelf(q, y);
    }
  }

  lemma DivAtLeast(x: int, y: int)
    requires x < 0 && y > 0
    ensures x <= x / y < 0
  {
    var q := x / y;
    assert x == q * y + x % y && 0 <= x % y < y;
    if q < x {
      MulAtMostSelf(q + 1, y);
    }
    if q >= 0 {
      MulAtLeastSelf(q, y);
    }
  }

  lemma MulAtLeastSelf(a: int, y: int)
    requires a >= 0 && y >= 1
    ensures a * y >= a
  {
    assert a * y == a + a * (y - 1);
  }

  lemma MulAtMostSelf(a: int, y: int)
    requires a <= 0 && y >= 1
    ensures a * y <= a
  {
    assert a * y == a + a * (y - 1);
    assert (-a) * (y - 1) >= 0;
  }

  /**
   * The operation gen_binop folds: the shifts through mrb_num_shift (a
   * parameter here), `%` with C's truncating remainder corrected towards
   * the sign of the divisor, and the bitwise operators.  None means no
   * folding.
   */
  function BinopValue(sym: Sym, n0: int, n: int, numShift: (int, int) -> Option<int>): Option<int> {
    if sym == SYM_LSHIFT then numShift(n0, n)
    else if sym == SYM_RSHIFT then (if n == MRB_INT_MIN then None else numShift(n0, -n))
    else if sym == SYM_MOD && n != 0 then
      if n0 == MRB_INT_MIN && n == -1 then Some(0)
      else
        var n1 := CRem(n0, n);
        Some(if (n0 < 0) != (n < 0) && n1 != 0 then n1 + n else n1)
    else if sym == SYM_AND then Some(Bitwise(And, n0, n))
    else if sym == SYM_OR then Some(Bitwise(Or, n0, n))
    else if sym == SYM_XOR then Some(Bitwise(Xor, n0, n))
    else None
  }

  /**
   * gen_binop's `%` is Ruby's floored modulo, MRB_INT_MIN % -1 included,
   * and its bitwise folds are the two's complement operations; all of
   * them stay within mrb_int.
   */
  lemma BinopValueMeaning(sym: Sym, n0: int, n: int, numShift: (int, int) -> Option<int>)
    requires IsMrbInt(n0) && IsMrbInt(n)
    requires sym in {SYM_MOD, SYM_AND, SYM_OR, SYM_XOR}
    ensures BinopValue(sym, n0, n, numShift).Some? <==> sym != SYM_MOD || n != 0
    ensures sym == SYM_MOD && n != 0 ==> BinopValue(sym, n0, n, numShift) == Some(FloorMod(n0, n))
    ensures sym == SYM_AND ==> BinopValue(sym, n0, n, numShift) == Some(Bitwise(And, n0, n))
    ensures sym == SYM_OR ==> BinopValue(sym, n0, n, numShift) == Some(Bitwise(Or, n0, n))
    ensures sym == SYM_XOR ==> BinopValue(sym, n0, n, numShift) == Some(Bitwise(Xor, n0, n))
    ensures BinopValue(sym, n0, n, numShift).Some? ==> IsMrbInt(BinopValue(sym, n0, n, numShift).value)
  {
    if sym == SYM_MOD && n != 0 {
      if n0 == MRB_INT_MIN && n == -1 {
        assert FloorMod(n0, n) == -((-n0) % 1);
      } else {
        CorrectedRemainder(n0, n);
      }
    } else if sym == SYM_AND {
      BitwiseMrbInt(And, n0, n);
    } else if sym == SYM_OR {
      BitwiseMrbInt(Or, n0, n);
    } else if sym == SYM_XOR {
      BitwiseMrbInt(Xor, n0, n);
    }
  }

  /** C's remainder moved towards the divisor's sign is the floored remainder. */
  lemma CorrectedRemainder(n0: int, n: int)
    requires n != 0
    ensures var n1 := CRem(n0, n);
            (if (n0 < 0) != (n < 0) && n1 != 0 then n1 + n else n1) == FloorMod(n0, n)
  {
    var n1 := CRem(n0, n);
    var m := if (n0 < 0) != (n < 0) && n1 != 0 then n1 + n else n1;
    var q := if (n0 < 0) != (n < 0) && n1 != 0 then CDiv(n0, n) - 1 else CDiv(n0, n);
    assert n0 == q * n + m;
    assert Abs(m) < Abs(n) && (m == 0 || (m < 0 <==> n < 0));
    RemainderUnique(n0, n, q, m, FloorDiv(n0, n), FloorMod(n0, n));
  }

  /** Two divisions of n0 by n whose remainders have the divisor's sign agree. */
  lemma RemainderUnique(n0: int, n: int, q1: int, m1: int, q2: int, m2: int)
    requires n != 0
    requires n0 == q1 * n + m1 && Abs(m1) < Abs(n) && (m1 == 0 || (m1 < 0 <==> n < 0))
    requires n0 == q2 * n + m2 && Abs(m2) < Abs(n) && (m2 == 0 || (m2 < 0 <==> n < 0))
    ensures m1 == m2
  {
    var d := q1 - q2;
    assert d * n == m2 - m1 by {
      assert q1 * n - q2 * n == d * n;
    }
    assert Abs(m2 - m1) < Abs(n);
    if d != 0 {
      AbsProduct(d, n);
      MulAtLeastSelf(Abs(n), Abs(d));
      assert Abs(d) * Abs(n) == Abs(n) * Abs(d);
    }
  }

  lemma AbsProduct(d: int, n: int)
    ensures Abs(d * n) == Abs(d) * Abs(n)
  {
    if d < 0 && n < 0 {
      assert d * n == (-d) * (-n);
    } else if d < 0 {
      assert d * n == -((-d) * n);
    } else if n < 0 {
      assert d * n == -(d * (-n));
    }
  }

  // ---------------------------------------------------------------------
  // The decisions
  // ---------------------------------------------------------------------

  /** What gen_addsub makes of the addition or subtraction of R[dst+1] to R[dst]. */
  datatype AddSubStep =
    | AddSubPlain                // emit OP_ADD / OP_SUB
    | AddSubDrop                 // the addend is 0: drop its load, emit nothing
    | AddSubImm(iop: byte, n: int) // drop the addend's load, emit ADDI / SUBI with it
    | AddSubFold(n: int)         // drop both loads, load the result

  /**
   * gen_addsub's choice.  last is the instruction loading the right
   * operand, prev the one before it; lastAtLabel says last starts at
   * lastlabel, so that prev may belong to another path.
   */
  function AddSubStepOf(op: byte, last: Insn, prev: Insn, lastAtLabel: bool, pool: seq<PoolValue>): (r: AddSubStep)
    requires op == OP_ADD || op == OP_SUB
    ensures r.AddSubImm? ==> (r.iop == OP_ADDI || r.iop == OP_SUBI) && 0 < r.n <= 128
    ensures !r.AddSubPlain? ==> IntOperand(last, pool).Some?
    ensures r.AddSubFold? ==> IntOperand(prev, pool).Some? && !lastAtLabel
    ensures r.AddSubFold? ==> FoldArith(op, IntOperand(prev, pool).value, IntOperand(last, pool).value) == Some(r.n)
  {
    match IntOperand(last, pool)
    case None => AddSubPlain
    case Some(n) =>
      if lastAtLabel || IntOperand(prev, pool).None? then
        if n > INT8_MAX || n < INT8_MIN then AddSubPlain
        else if n == 0 then AddSubDrop
        else if n > 0 then AddSubImm(if op == OP_ADD then OP_ADDI else OP_SUBI, n)
        else AddSubImm(if op == OP_ADD then OP_SUBI else OP_ADDI, -n)
      else
        match FoldArith(op, IntOperand(prev, pool).value, n)
        case None => AddSubPlain
        case Some(v) => AddSubFold(v)
  }

  /**
   * gen_addsub as written reads its operands with get_int_operand as
   * written: after `LOADI32 R[1] -40000; LOADI_1 R[2]` it folds
   * `-40000 + 1` to 4294927297.  The model reads the operands as gen_int
   * wrote them and folds to -39999.
   */
  lemma AddSubFoldAsWritten(pool: seq<PoolValue>)
    ensures var prev := Insn(OP_LOADI32, 1, 0xffff, 0x63c0, 0, 6);
            var last := Insn(OP_LOADI_0 + 1, 2, 0, 0, 6, 1);
            IntOperandAsWritten(prev, pool) == Some(4294927296)
            && FoldArith(OP_ADD, IntOperandAsWritten(prev, pool).value, IntOperandAsWritten(last, pool).value)
               == Some(4294927297)
            && AddSubStepOf(OP_ADD, last, prev, false, pool) == AddSubFold(-39999)
  {
  }

  /** What gen_muldiv makes of a multiplication or division. */
  datatype MulDivStep = MulDivPlain | MulDivFold(n: int)

  function MulDivStepOf(op: byte, last: Insn, prev: Insn, lastAtLabel: bool, pool: seq<PoolValue>): (r: MulDivStep)
    requires op == OP_MUL || op == OP_DIV
    ensures r.MulDivFold? ==> IntOperand(last, pool).Some? && IntOperand(prev, pool).Some? && !lastAtLabel
    ensures r.MulDivFold? ==> FoldArith(op, IntOperand(prev, pool).value, IntOperand(last, pool).value) == Some(r.n)
  {
    if lastAtLabel || IntOperand(last, pool).None? || IntOperand(prev, pool).None? then MulDivPlain
    else
      match FoldArith(op, IntOperand(prev, pool).value, IntOperand(last, pool).value)
      case None => MulDivPlain
      case Some(v) => MulDivFold(v)
  }

  /** What gen_binop does: nothing (it returns FALSE), OP_GETIDX for `[]`, or a fold. */
  datatype BinopStep = BinopNone | BinopGetIdx | BinopFold(n: int)

  function BinopStepOf(sym: Sym, last: Insn, prev: Insn, lastAtLabel: bool, pool: seq<PoolValue>,
                       numShift: (int, int) -> Option<int>): (r: BinopStep)
    ensures r.BinopGetIdx? <==> sym == SYM_AREF
    ensures r.BinopFold? ==> IntOperand(last, pool).Some? && IntOperand(prev, pool).Some? && !lastAtLabel
  {
    if sym == SYM_AREF then BinopGetIdx
    else if lastAtLabel || IntOperand(last, pool).None? || IntOperand(prev, pool).None? then BinopNone
    else
      match BinopValue(sym, IntOperand(prev, pool).value, IntOperand(last, pool).value, numShift)
      case None => BinopNone
      case Some(v) => BinopFold(v)
  }

  /** What gen_uniop does: nothing (it returns FALSE), or fold `+n`, `-n`, `~n`. */
  datatype UniopStep = UniopNone | UniopFold(n: int)

  function UniopStepOf(sym: Sym, last: Insn, pool: seq<PoolValue>): (r: UniopStep)
    ensures r.UniopFold? ==> IntOperand(last, pool).Some?
  {
    match IntOperand(last, pool)
    case None => UniopNone
    case Some(n) =>
      if sym == SYM_PLUS then UniopFold(n)
      else if sym == SYM_MINUS then (if n == MRB_INT_MIN then UniopNone else UniopFold(-n))
      else if sym == SYM_NEG then UniopFold(Bitwise(Xor, n, -1))
      else UniopNone
  }

  /**
   * gen_uniop folds the unary operators of Ruby's Integer on an integer
   * load, and the folded value is again an mrb_int.
   */
  lemma UniopMeaning(sym: Sym, last: Insn, pool: seq<PoolValue>)
    requires IntOperand(last, pool).Some? && IsMrbInt(IntOperand(last, pool).value)
    ensures var n := IntOperand(last, pool).value;
            var r := UniopStepOf(sym, last, pool);
            (sym == SYM_PLUS ==> r == UniopFold(n))
            && (sym == SYM_MINUS ==> r == if n == MRB_INT_MIN then UniopNone else UniopFold(-n))
            && (sym == SYM_NEG ==> r == UniopFold(-n - 1))
            && (!(sym in {SYM_PLUS, SYM_MINUS, SYM_NEG}) ==> r == UniopNone)
            && (r.UniopFold? ==> IsMrbInt(r.n))
  {
    var n := IntOperand(last, pool).value;
    XorMinusOne(n);
  }

  // ---------------------------------------------------------------------
  // The decisions in a scope
  // ---------------------------------------------------------------------

  /** The records mrb_last_insn and mrb_prev_pc return, once no_peephole is false. */
  function LastRec(s: CodegenScope): Insn
    reads s
    requires s.Valid() && !s.NoPeephole()
  {
    s.insns[|s.insns| - 1]
  }

  function PrevRec(s: CodegenScope): Insn
    reads s
    requires s.Valid() && !s.NoPeephole()
  {
    PrevOf(s.insns, |s.insns| - 1)
  }

  predicate LastAtLabel(s: CodegenScope)
    reads s
    requires s.Valid() && !s.NoPeephole()
  {
    LastRec(s).addr == s.lastlabel
  }

  function AddSubPlan(s: CodegenScope, op: byte): AddSubStep
    reads s
    requires s.Valid() && (op == OP_ADD || op == OP_SUB)
  {
    if s.NoPeephole() then AddSubPlain
    else AddSubStepOf(op, LastRec(s), PrevRec(s), LastAtLabel(s), s.pool)
  }

  function MulDivPlan(s: CodegenScope, op: byte): MulDivStep
    reads s
    requires s.Valid() && (op == OP_MUL || op == OP_DIV)
  {
    if s.NoPeephole() then MulDivPlain
    else MulDivStepOf(op, LastRec(s), PrevRec(s), LastAtLabel(s), s.pool)
  }

  function BinopPlan(s: CodegenScope, sym: Sym, numShift: (int, int) -> Option<int>): BinopStep
    reads s
    requires s.Valid()
  {
    if s.NoPeephole() then BinopNone
    else BinopStepOf(sym, LastRec(s), PrevRec(s), LastAtLabel(s), s.pool, numShift)
  }

  function UniopPlan(s: CodegenScope, sym: Sym): UniopStep
    reads s
    requires s.Valid()
  {
    if s.NoPeephole() then UniopNone
    else UniopStepOf(sym, LastRec(s), s.pool)
  }

  // ---------------------------------------------------------------------
  // Carrying the decisions out
  // ---------------------------------------------------------------------

  /**
   * gen_int into dst after the code was cut back to its first keep
   * records: the pool, the outcome and the new code.
   */
  twostate predicate LoadedAfterCut(s: CodegenScope, keep: nat, dst: u16, v: int, r: Outcome)
    reads s
  {
    var f := IntLoadForm(v);
    var lit := ToU16(IntIndex(old(s.pool), v));
    s.pool == (if f.FormLit? then AddInt(old(s.pool), v) else old(s.pool))
    && r == CheckNoExtOps(s.cxt, dst, LoadExtOperand(f, lit))
    && (r.Pass? ==> s.Replaced(keep, LoadBytes(f, dst, lit), LoadOp(f), dst, LoadB(f, lit), LoadC(f)))
    && (r.Error? ==> s.CutTo(keep))
  }

  /** `s->pc = addr_pc(s, data.addr); gen_int(s, dst, v)`: replace records keep.. by a load of v. */
  method LoadOver(s: CodegenScope, keep: nat, dst: u16, v: int) returns (r: Outcome)
    requires s.Valid() && keep < |s.insns| && s.lastlabel <= s.insns[keep].addr
    requires forall j :: keep <= j < |s.insns| ==> !IsJump(s.insns[j].op)
    modifies s`iseq, s`pc, s`lastpc, s`insns, s`pool
    ensures s.Valid() && LoadedAfterCut(s, keep, dst, v, r)
  {
    RewindTo(s, keep);
    r := GenInt(s, dst, v);
  }

  /** rewind_pc then genop_2(i, dst, b): replace the last record. */
  method ReplaceLast(s: CodegenScope, i: byte, dst: u16, b: u16) returns (r: Outcome)
    requires s.Valid() && !s.NoPeephole() && !IsJump(LastRec(s).op) && i != OP_LOADL && FormatOf(i) == BB
    modifies s`iseq, s`pc, s`lastpc, s`insns
    ensures s.Valid()
    ensures r == CheckNoExtOps(s.cxt, dst, b)
    ensures r.Pass? ==> s.Replaced(|old(s.insns)| - 1, Op2Bytes(i, dst, b), i, dst, b, 0)
    ensures r.Error? ==> s.CutTo(|old(s.insns)| - 1)
  {
    DropLast(s);
    r := Genop2(s, i, dst, b);
  }

  /** rewind_pc: drop the last record. */
  method DropLast(s: CodegenScope)
    requires s.Valid() && !s.NoPeephole() && !IsJump(LastRec(s).op)
    modifies s`iseq, s`pc, s`lastpc, s`insns
    ensures s.Valid() && s.CutTo(|old(s.insns)| - 1)
  {
    var k := |s.insns| - 1;
    LabelAtOrBefore(s.insns, s.pc, s.lastlabel, k);
    RewindTo(s, k);
  }

  /** The last two records may be cut: the label is not between them and neither is a jump. */
  lemma CutTwoAllowed(s: CodegenScope)
    requires s.Valid() && !s.NoPeephole() && !LastAtLabel(s)
    requires IntOperand(LastRec(s), s.pool).Some? && IntOperand(PrevRec(s), s.pool).Some?
    ensures |s.insns| >= 2 && s.lastlabel <= s.insns[|s.insns| - 2].addr
    ensures forall j :: |s.insns| - 2 <= j < |s.insns| ==> !IsJump(s.insns[j].op)
  {
    var k := |s.insns| - 1;
    IntLoadIsNotJump(PrevRec(s), s.pool);
    IntLoadIsNotJump(LastRec(s), s.pool);
    LabelAtOrBefore(s.insns, s.pc, s.lastlabel, k - 1);
  }

  /**
   * gen_addsub: the plain instruction, or the addend folded into ADDI /
   * SUBI, dropped when 0, or both operands folded into one load.
   */
  method GenAddSub(s: CodegenScope, op: byte, dst: u16) returns (r: Outcome)
    requires s.Valid() && (op == OP_ADD || op == OP_SUB)
    modifies s`iseq, s`pc, s`lastpc, s`insns, s`pool
    ensures s.Valid()
    ensures var step := old(AddSubPlan(s, op));
            var n := |old(s.insns)|;
            (step.AddSubPlain? ==>
               s.pool == old(s.pool) && r == CheckNoExtOps(s.cxt, dst, 0)
               && (r.Pass? ==> s.Appended(Op1Bytes(op, dst), op, dst, 0, 0))
               && (r.Error? ==> s.CodeUnchanged()))
            && (step.AddSubDrop? ==> s.pool == old(s.pool) && r == Pass && s.CutTo(n - 1))
            && (step.AddSubImm? ==>
                  s.pool == old(s.pool) && r == CheckNoExtOps(s.cxt, dst, step.n)
                  && (r.Pass? ==> s.Replaced(n - 1, Op2Bytes(step.iop, dst, step.n), step.iop, dst, step.n, 0))
                  && (r.Error? ==> s.CutTo(n - 1)))
            && (step.AddSubFold? ==> LoadedAfterCut(s, n - 2, dst, step.n, r))
  {
    var step := AddSubPlan(s, op);
    if step.AddSubPlain? {
      r := Genop1(s, op, dst);
    } else if step.AddSubFold? {
      r := AddSubFoldOver(s, op, dst, step);
    } else if step.AddSubDrop? {
      r := AddSubDropZero(s, op, step);
    } else {
      r := AddSubImmediate(s, op, dst, step);
    }
  }

  /** The folding branch of gen_addsub: both operands become one load. */
  method AddSubFoldOver(s: CodegenScope, op: byte, dst: u16, step: AddSubStep) returns (r: Outcome)
    requires s.Valid() && (op == OP_ADD || op == OP_SUB)
    requires step == AddSubPlan(s, op) && step.AddSubFold?
    modifies s`iseq, s`pc, s`lastpc, s`insns, s`pool
    ensures s.Valid() && LoadedAfterCut(s, |old(s.insns)| - 2, dst, step.n, r)
  {
    CutTwoAllowed(s);
    r := LoadOver(s, |s.insns| - 2, dst, step.n);
  }

  /** gen_addsub adding or subtracting a literal 0: the load of the 0 is dropped. */
  method AddSubDropZero(s: CodegenScope, op: byte, step: AddSubStep) returns (r: Outcome)
    requires s.Valid() && (op == OP_ADD || op == OP_SUB)
    requires step == AddSubPlan(s, op) && step.AddSubDrop?
    modifies s`iseq, s`pc, s`lastpc, s`insns
    ensures s.Valid() && r == Pass && s.CutTo(|old(s.insns)| - 1)
  {
    IntLoadIsNotJump(LastRec(s), s.pool);
    DropLast(s);
    r := Pass;
  }

  /** gen_addsub with a small literal addend: its load becomes ADDI / SUBI. */
  method AddSubImmediate(s: CodegenScope, op: byte, dst: u16, step: AddSubStep) returns (r: Outcome)
    requires s.Valid() && (op == OP_ADD || op == OP_SUB)
    requires step == AddSubPlan(s, op) && step.AddSubImm?
    modifies s`iseq, s`pc, s`lastpc, s`insns
    ensures s.Valid() && r == CheckNoExtOps(s.cxt, dst, step.n)
    ensures r.Pass? ==> s.Replaced(|old(s.insns)| - 1, Op2Bytes(step.iop, dst, step.n), step.iop, dst, step.n, 0)
    ensures r.Error? ==> s.CutTo(|old(s.insns)| - 1)
  {
    IntLoadIsNotJump(LastRec(s), s.pool);
    r := ReplaceLast(s, step.iop, dst, step.n);
  }

  /** gen_muldiv: the plain instruction, or both operands folded into one load. */
  method GenMulDiv(s: CodegenScope, op: byte, dst: u16) returns (r: Outcome)
    requires s.Valid() && (op == OP_MUL || op == OP_DIV)
    modifies s`iseq, s`pc, s`lastpc, s`insns, s`pool
    ensures s.Valid()
    ensures var step := old(MulDivPlan(s, op));
            (step.MulDivPlain? ==>
               s.pool == old(s.pool) && r == CheckNoExtOps(s.cxt, dst, 0)
               && (r.Pass? ==> s.Appended(Op1Bytes(op, dst), op, dst, 0, 0))
               && (r.Error? ==> s.CodeUnchanged()))
            && (step.MulDivFold? ==> LoadedAfterCut(s, |old(s.insns)| - 2, dst, step.n, r))
  {
    var step := MulDivPlan(s, op);
    if step.MulDivPlain? {
      r := Genop1(s, op, dst);
    } else {
      r := LoadOverPair(s, dst, step.n);
    }
  }

  /** Both integer loads before the operator are replaced by one load of the folded value v. */
  method LoadOverPair(s: CodegenScope, dst: u16, v: int) returns (r: Outcome)
    requires s.Valid() && !s.NoPeephole() && !LastAtLabel(s)
    requires IntOperand(LastRec(s), s.pool).Some? && IntOperand(PrevRec(s), s.pool).Some?
    modifies s`iseq, s`pc, s`lastpc, s`insns, s`pool
    ensures s.Valid() && LoadedAfterCut(s, |old(s.insns)| - 2, dst, v, r)
  {
    CutTwoAllowed(s);
    r := LoadOver(s, |s.insns| - 2, dst, v);
  }

  /**
   * gen_binop: Ok(false) when it leaves the call to the caller, Ok(true)
   * when it emitted OP_GETIDX or the folded load.
   */
  method GenBinop(s: CodegenScope, sym: Sym, dst: u16, numShift: (int, int) -> Option<int>) returns (r: Result<bool>)
    requires s.Valid()
    modifies s`iseq, s`pc, s`lastpc, s`insns, s`pool
    ensures s.Valid()
    ensures var step := old(BinopPlan(s, sym, numShift));
            (step.BinopNone? ==> r == Ok(false) && s.pool == old(s.pool) && s.CodeUnchanged())
            && (step.BinopGetIdx? ==>
                  s.pool == old(s.pool) && (CheckNoExtOps(s.cxt, dst, 0).Pass? <==> r == Ok(true))
                  && (r.Ok? ==> s.Appended(Op1Bytes(OP_GETIDX, dst), OP_GETIDX, dst, 0, 0))
                  && (r.Fail? ==> r.msg == EXT_PROHIBITED && s.CodeUnchanged()))
            && (step.BinopFold? ==>
                  exists e :: LoadedAfterCut(s, |old(s.insns)| - 2, dst, step.n, e) && r == OutcomeTrue(e))
  {
    var step := BinopPlan(s, sym, numShift);
    if step.BinopNone? {
      return Ok(false);
    } else if step.BinopGetIdx? {
      var e := Genop1(s, OP_GETIDX, dst);
      r := OutcomeTrue(e);
    } else {
      r := LoadOverTwo(s, dst, step.n);
    }
  }

  /** The same replacement, with gen_binop's result. */
  method LoadOverTwo(s: CodegenScope, dst: u16, v: int) returns (r: Result<bool>)
    requires s.Valid() && !s.NoPeephole() && !LastAtLabel(s)
    requires IntOperand(LastRec(s), s.pool).Some? && IntOperand(PrevRec(s), s.pool).Some?
    modifies s`iseq, s`pc, s`lastpc, s`insns, s`pool
    ensures s.Valid()
    ensures exists e :: LoadedAfterCut(s, |old(s.insns)| - 2, dst, v, e) && r == OutcomeTrue(e)
  {
    var e := LoadOverPair(s, dst, v);
    r := OutcomeTrue(e);
  }

  /** TRUE once the emission succeeded; its error otherwise. */
  function OutcomeTrue(e: Outcome): (r: Result<bool>)
    ensures r.Ok? <==> e.Pass?
    ensures r.Ok? ==> r.value
    ensures r.Fail? ==> r.msg == e.msg
  {
    if e.Pass? then Ok(true) else Fail(e.msg)
  }

  /** gen_uniop: Ok(false) when nothing was folded, Ok(true) when the load was replaced. */
  method GenUniop(s: CodegenScope, sym: Sym, dst: u16) returns (r: Result<bool>)
    requires s.Valid()
    modifies s`iseq, s`pc, s`lastpc, s`insns, s`pool
    ensures s.Valid()
    ensures var step := old(UniopPlan(s, sym));
            (step.UniopNone? ==> r == Ok(false) && s.pool == old(s.pool) && s.CodeUnchanged())
            && (step.UniopFold? ==>
                  exists e :: LoadedAfterCut(s, |old(s.insns)| - 1, dst, step.n, e) && r == OutcomeTrue(e))
  {
    var step := UniopPlan(s, sym);
    if step.UniopNone? {
      return Ok(false);
    }
    r := LoadOverLast(s, dst, step.n);
  }

  /** The integer load before the operator is replaced by a load of the folded value v. */
  method LoadOverLast(s: CodegenScope, dst: u16, v: int) returns (r: Result<bool>)
    requires s.Valid() && !s.NoPeephole() && IntOperand(LastRec(s), s.pool).Some?
    modifies s`iseq, s`pc, s`lastpc, s`insns, s`pool
    ensures s.Valid()
    ensures exists e :: LoadedAfterCut(s, |old(s.insns)| - 1, dst, v, e) && r == OutcomeTrue(e)
  {
    IntLoadIsNotJump(LastRec(s), s.pool);
    var k := |s.insns| - 1;
    // gen_uniop does not consult lastlabel: it only replaces the last record.
    LabelAtOrBefore(s.insns, s.pc, s.lastlabel, k);
    var e := LoadOver(s, k, dst, v);
    r := OutcomeTrue(e);
  }
}
