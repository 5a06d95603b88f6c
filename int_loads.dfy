/**
 * Loading an integer into a register (gen_int, codegen.yarp.c lines
 * 1209-1227) and reading the integer back from a load instruction
 * (get_int_operand, lines 789-836), which the constant folder relies on.
 */
module IntLoads {
  import opened MachineInts
  import opened Opcodes
  import opened Encoding
  import opened Wrappers
  import opened Scope
  import opened Emitter
  import opened Pools

  /** The instruction shapes gen_int chooses between. */
  datatype LoadForm =
    | Form1(op: byte)          // genop_1: the value is in the opcode
    | Form2(op: byte, b: u16)  // genop_2 with a one-byte immediate
    | Form2S(b: u16)           // OP_LOADI16 (genop_2S)
    | Form2SS(w: u32)          // OP_LOADI32 (genop_2SS)
    | FormLit                  // OP_LOADL of an INT64 pool literal

  /**
   * gen_int's choice for i: -1 and 0..7 have their own opcodes, -255..-2
   * and 8..255 a one-byte immediate, the rest of the int16 and int32
   * ranges a 16-bit and a 32-bit immediate, anything else a pool literal.
   */
  function IntLoadForm(i: int): (f: LoadForm)
    ensures f.Form1? ==> f.op == OP_LOADI__1 || IsLoadISmall(f.op)
    ensures f.Form2? ==> (f.op == OP_LOADINEG || f.op == OP_LOADI) && f.b <= 0xff
  {
    if i < 0 then
      if i == -1 then Form1(OP_LOADI__1)
      else if i >= -0xff then Form2(OP_LOADINEG, -i)
      else if i >= INT16_MIN then Form2S(ToU16(i))
      else if i >= INT32_MIN then Form2SS(ToU32(i))
      else FormLit
    else if i < 8 then Form1(LoadISmall(i))
    else if i <= 0xff then Form2(OP_LOADI, i)
    else if i <= INT16_MAX then Form2S(ToU16(i))
    else if i <= INT32_MAX then Form2SS(ToU32(i))
    else FormLit
  }

  /** The bytes of the load into dst; lit is the (16-bit) pool index of a literal. */
  function LoadBytes(f: LoadForm, dst: u16, lit: u16): seq<byte> {
    match f
    case Form1(op) => Op1Bytes(op, dst)
    case Form2(op, b) => Op2Bytes(op, dst, b)
    case Form2S(b) => Op2SBytes(OP_LOADI16, dst, b)
    case Form2SS(b) => Op2SSBytes(OP_LOADI32, dst, b)
    case FormLit => Op2Bytes(OP_LOADL, dst, lit)
  }

  /** The opcode of the load. */
  function LoadOp(f: LoadForm): byte {
    match f
    case Form1(op) => op
    case Form2(op, _) => op
    case Form2S(_) => OP_LOADI16
    case Form2SS(_) => OP_LOADI32
    case FormLit => OP_LOADL
  }

  /** The b and c operands of the load's decoded record. */
  function LoadB(f: LoadForm, lit: u16): int {
    match f
    case Form1(_) => 0
    case Form2(_, b) => b
    case Form2S(b) => b
    case Form2SS(w) => w / 0x1_0000
    case FormLit => lit
  }

  function LoadC(f: LoadForm): int {
    if f.Form2SS? then f.w % 0x1_0000 else 0
  }

  /** The decoded record of the load into dst when it starts at addr. */
  function LoadRecord(f: LoadForm, dst: u16, lit: u16, addr: nat): Insn {
    Insn(LoadOp(f), dst, LoadB(f, lit), LoadC(f), addr, |LoadBytes(f, dst, lit)|)
  }

  /** The operand besides dst that check_no_ext_ops sees for the load. */
  function LoadExtOperand(f: LoadForm, lit: u16): u16 {
    match f
    case Form2(_, b) => b
    case FormLit => lit
    case _ => 0
  }

  /**
   * gen_int: load i into dst, in the shape IntLoadForm chooses.  A literal
   * is added to the pool first, and its index is passed on as a 16-bit
   * operand.
   */
  method GenInt(s: CodegenScope, dst: u16, i: int) returns (r: Outcome)
    requires s.Valid()
    modifies s`iseq, s`pc, s`lastpc, s`insns, s`pool
    ensures s.Valid()
    ensures s.pool == if IntLoadForm(i).FormLit? then AddInt(old(s.pool), i) else old(s.pool)
    ensures var f := IntLoadForm(i);
            var lit := ToU16(IntIndex(old(s.pool), i));
            r == CheckNoExtOps(s.cxt, dst, LoadExtOperand(f, lit))
            && (r.Pass? ==> s.Appended(LoadBytes(f, dst, lit), LoadOp(f), dst, LoadB(f, lit), LoadC(f)))
            && (r.Error? ==> s.CodeUnchanged())
  {
    var f := IntLoadForm(i);
    if f.FormLit? {
      r := GenIntLit(s, dst, i);
    } else {
      r := EmitLoad(s, dst, f);
    }
  }

  /** The genop call of each shape but the literal one. */
  method EmitLoad(s: CodegenScope, dst: u16, f: LoadForm) returns (r: Outcome)
    requires s.Valid() && !f.FormLit?
    requires f.Form1? ==> f.op == OP_LOADI__1 || IsLoadISmall(f.op)
    requires f.Form2? ==> f.op == OP_LOADINEG || f.op == OP_LOADI
    modifies s`iseq, s`pc, s`lastpc, s`insns
    ensures s.Valid()
    ensures r == CheckNoExtOps(s.cxt, dst, LoadExtOperand(f, 0))
    ensures r.Pass? ==> s.Appended(LoadBytes(f, dst, 0), LoadOp(f), dst, LoadB(f, 0), LoadC(f))
    ensures r.Error? ==> s.CodeUnchanged()
  {
    match f {
      case Form1(op) =>
        r := Genop1(s, op, dst);
      case Form2(op, b) =>
        r := Genop2(s, op, dst, b);
      case Form2S(b) =>
        r := Genop2S(s, OP_LOADI16, dst, b);
      case Form2SS(w) =>
        r := Genop2SS(s, OP_LOADI32, dst, w);
    }
  }

  /** The `int_lit:` branch of gen_int: OP_LOADL of new_lit_int's index. */
  method GenIntLit(s: CodegenScope, dst: u16, i: int) returns (r: Outcome)
    requires s.Valid()
    modifies s`iseq, s`pc, s`lastpc, s`insns, s`pool
    ensures s.Valid()
    ensures s.pool == AddInt(old(s.pool), i)
    ensures var lit := ToU16(IntIndex(old(s.pool), i));
            r == CheckNoExtOps(s.cxt, dst, lit)
            && (r.Pass? ==> s.Appended(Op2Bytes(OP_LOADL, dst, lit), OP_LOADL, dst, lit, 0))
            && (r.Error? ==> s.CodeUnchanged())
  {
    var idx := NewLitInt(s, i);
    r := GenLoadL(s, dst, idx);
  }

  /** genop_2(OP_LOADL, dst, k) of pool entry k, its index truncated to 16 bits as the callers pass it. */
  method GenLoadL(s: CodegenScope, dst: u16, k: nat) returns (r: Outcome)
    requires s.Valid() && ToU16(k) < |s.pool|
    modifies s`iseq, s`pc, s`lastpc, s`insns
    ensures s.Valid()
    ensures r == CheckNoExtOps(s.cxt, dst, ToU16(k))
    ensures r.Pass? ==> s.Appended(Op2Bytes(OP_LOADL, dst, ToU16(k)), OP_LOADL, dst, ToU16(k), 0)
    ensures r.Error? ==> s.CodeUnchanged()
  {
    r := Genop2(s, OP_LOADL, dst, ToU16(k));
  }

  // ---------------------------------------------------------------------
  // Reading the integer back
  // ---------------------------------------------------------------------

  /**
   * get_int_operand, with the 32-bit immediate read as a signed value:
   * the integer a load record puts into its register, or None when the
   * record is not an integer load.  A LOADL counts when its pool entry is
   * an integer.
   */
  function IntOperand(d: Insn, pool: seq<PoolValue>): Option<int> {
    if d.op == OP_LOADI__1 then Some(-1)
    else if d.op == OP_LOADINEG then Some(-d.b)
    else if IsLoadISmall(d.op) then Some(d.op - OP_LOADI_0)
    else if d.op == OP_LOADI || d.op == OP_LOADI16 then Some(Int16Of(ToU16(d.b)))
    else if d.op == OP_LOADI32 then Some(Int32Of(ToU16(d.b) * 0x1_0000 + ToU16(d.c)))
    else if d.op == OP_LOADL && 0 <= d.b < |pool| && pool[d.b].PInt? then Some(pool[d.b].i)
    else None
  }

  /**
   * get_int_operand as written: the 32-bit immediate is rebuilt as
   * `(mrb_int)((uint32_t)b<<16)+c`, an unsigned value, so a negative
   * LOADI32 reads back 2^32 too large.
   */
  function IntOperandAsWritten(d: Insn, pool: seq<PoolValue>): (r: Option<int>)
    ensures d.op != OP_LOADI32 ==> r == IntOperand(d, pool)
  {
    if d.op == OP_LOADI32 then Some(ToU16(d.b) * 0x1_0000 + ToU16(d.c))
    else IntOperand(d, pool)
  }

  /** An integer load is neither a jump nor a NOP. */
  lemma IntLoadIsNotJump(d: Insn, pool: seq<PoolValue>)
    requires IntOperand(d, pool).Some?
    ensures !IsJump(d.op) && d.op != OP_NOP
  {
  }

  /** The bytes gen_int writes decode to the record it keeps. */
  lemma LoadDecodes(pre: seq<byte>, f: LoadForm, dst: u16, lit: u16)
    requires f.Form1? ==> f.op == OP_LOADI__1 || IsLoadISmall(f.op)
    requires f.Form2? ==> f.op == OP_LOADINEG || f.op == OP_LOADI
    ensures Decode(pre + LoadBytes(f, dst, lit), |pre|) == Some(LoadRecord(f, dst, lit, |pre|))
  {
    match f
    case Form1(op) =>
      assert FormatOf(op) == B;
      Op1RoundTrip(pre, op, dst);
    case Form2(op, b) =>
      assert FormatOf(op) == BB;
      Op2RoundTrip(pre, op, dst, b);
    case Form2S(b) =>
      assert FormatOf(OP_LOADI16) == BS;
      Op2SRoundTrip(pre, OP_LOADI16, dst, b);
    case Form2SS(b) =>
      assert FormatOf(OP_LOADI32) == BSS;
      Op2SSRoundTrip(pre, OP_LOADI32, dst, b);
    case FormLit =>
      assert FormatOf(OP_LOADL) == BB;
      Op2RoundTrip(pre, OP_LOADL, dst, lit);
  }

  /**
   * The integer load round trip: reading back the load gen_int emits for i
   * yields i, for every integer, as long as a literal's pool index fits
   * the 16-bit operand it is passed as.
   */
  lemma IntLoadRoundTrip(i: int, dst: u16, pool: seq<PoolValue>, addr: nat, size: nat)
    requires IntIndex(pool, i) <= UINT16_MAX
    ensures var f := IntLoadForm(i);
            var lit := ToU16(IntIndex(pool, i));
            var pool' := if f.FormLit? then AddInt(pool, i) else pool;
            IntOperand(Insn(LoadOp(f), dst, LoadB(f, lit), LoadC(f), addr, size), pool') == Some(i)
  {
    var lit := ToU16(IntIndex(pool, i));
    if -0xff <= i <= 0xff {
      ReadSmallLoad(i, dst, lit, addr, size, pool);
    } else if INT16_MIN <= i <= INT16_MAX {
      ReadLoadI16Form(i, dst, lit, addr, size, pool);
    } else if INT32_MIN <= i <= INT32_MAX {
      ReadLoadI32Form(i, dst, lit, addr, size, pool);
    } else {
      ReadLitLoad(i, dst, addr, size, pool);
    }
  }

  lemma ReadLoadI16Form(i: int, dst: u16, lit: u16, addr: nat, size: nat, pool: seq<PoolValue>)
    requires INT16_MIN <= i <= INT16_MAX && !(-0xff <= i <= 0xff)
    ensures var f := IntLoadForm(i);
            IntOperand(Insn(LoadOp(f), dst, LoadB(f, lit), LoadC(f), addr, size), pool) == Some(i)
  {
    assert IntLoadForm(i) == Form2S(ToU16(i));
    ReadLoadI16(i, dst, addr, size, pool);
  }

  lemma ReadLoadI32Form(i: int, dst: u16, lit: u16, addr: nat, size: nat, pool: seq<PoolValue>)
    requires INT32_MIN <= i <= INT32_MAX && !(INT16_MIN <= i <= INT16_MAX)
    ensures var f := IntLoadForm(i);
            IntOperand(Insn(LoadOp(f), dst, LoadB(f, lit), LoadC(f), addr, size), pool) == Some(i)
  {
    assert IntLoadForm(i) == Form2SS(ToU32(i));
    ReadLoadI32(i, dst, addr, size, pool);
  }

  lemma ReadLitLoad(i: int, dst: u16, addr: nat, size: nat, pool: seq<PoolValue>)
    requires IntIndex(pool, i) <= UINT16_MAX && !(INT32_MIN <= i <= INT32_MAX)
    ensures var f := IntLoadForm(i);
            var lit := ToU16(IntIndex(pool, i));
            IntOperand(Insn(LoadOp(f), dst, LoadB(f, lit), LoadC(f), addr, size), AddInt(pool, i)) == Some(i)
  {
    assert IntLoadForm(i) == FormLit;
    IntInsertIdempotent(pool, i);
    ToU16Small(IntIndex(pool, i));
  }

  lemma ReadSmallLoad(i: int, dst: u16, lit: u16, addr: nat, size: nat, pool: seq<PoolValue>)
    requires -0xff <= i <= 0xff
    ensures var f := IntLoadForm(i);
            IntOperand(Insn(LoadOp(f), dst, LoadB(f, lit), LoadC(f), addr, size), pool) == Some(i)
  {
  }

  lemma ReadLoadI16(i: int, dst: u16, addr: nat, size: nat, pool: seq<PoolValue>)
    requires INT16_MIN <= i <= INT16_MAX
    ensures IntOperand(Insn(OP_LOADI16, dst, ToU16(i), 0, addr, size), pool) == Some(i)
  {
    ToU16Small(ToU16(i));
    Int16RoundTrip(i);
  }

  lemma ReadLoadI32(i: int, dst: u16, addr: nat, size: nat, pool: seq<PoolValue>)
    requires INT32_MIN <= i <= INT32_MAX
    ensures IntOperand(Insn(OP_LOADI32, dst, ToU32(i) / 0x1_0000, ToU32(i) % 0x1_0000, addr, size), pool) == Some(i)
  {
    SplitU32(ToU32(i));
    Int32RoundTrip(i);
  }

  lemma ToU16Small(x: int)
    requires 0 <= x <= UINT16_MAX
    ensures ToU16(x) == x
  {
  }

  lemma SplitU32(w: u32)
    ensures ToU16(w / 0x1_0000) * 0x1_0000 + ToU16(w % 0x1_0000) == w
  {
  }

  lemma Int32RoundTrip(x: int)
    requires INT32_MIN <= x <= INT32_MAX
    ensures Int32Of(ToU32(x)) == x
  {
  }

  /**
   * The as-written reader gets -40000 wrong: gen_int emits it as LOADI32
   * with the pattern 0xffff63c0, which get_int_operand reads as
   * 4294927296.
   */
  lemma LoadI32NegativeMisread(dst: u16, addr: nat)
    ensures IntLoadForm(-40000) == Form2SS(0xffff_63c0)
    ensures var f := IntLoadForm(-40000);
            IntOperandAsWritten(Insn(LoadOp(f), dst, LoadB(f, 0), LoadC(f), addr, 6), []) == Some(4294927296)
    ensures var f := IntLoadForm(-40000);
            IntOperand(Insn(LoadOp(f), dst, LoadB(f, 0), LoadC(f), addr, 6), []) == Some(-40000)
  {
  }
}
