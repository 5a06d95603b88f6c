/**
 * The peephole rewrites that look at the last instruction before emitting
 * a new one: gen_move (codegen.yarp.c lines 626-733), gen_getupvar and
 * gen_setupvar (lines 736-770), gen_return (lines 771-787), gen_setxv
 * (lines 1195-1207) and gen_intern (lines 2288-2304).
 *
 * Each rewrite is first decided as an Effect: how many of the decoded
 * records survive (the rest are cut off, as rewind_pc does) and what single
 * instruction, if any, is emitted after them.  The methods carry the effect
 * out and promise exactly its outcome on the instruction buffer.
 */
module Peephole {
  import opened MachineInts
  import opened Opcodes
  import opened Encoding
  import opened Wrappers
  import opened Scope
  import opened Emitter
  import opened Pools
  import opened IntLoads
  import opened Registers
  import opened Locals

  /** The instruction a rewrite emits, in the genop shape that emits it. */
  datatype Emission =
    | NoEmit
    | Emit1(op: byte, a: u16)
    | Emit2(op: byte, a: u16, b: u16)
    | Emit2S(op: byte, a: u16, b: u16)
    | Emit2SS(op: byte, a: u16, w: u32)
    | Emit3(op: byte, a: u16, b: u16, c: u16)
    | EmitInt(a: u16, v: int)                // gen_int

  /**
   * keep records survive; emit follows them.  markPrev: when nothing ends
   * up emitted after a cut, lastpc marks the record before the cut (gen_move
   * sets it so) rather than the cut itself.
   */
  datatype Effect = Effect(keep: nat, emit: Emission, markPrev: bool)

  /** The instruction buffer, its marks, its records and the pool at one moment. */
  datatype Snap = Snap(iseq: seq<byte>, pc: nat, lastpc: nat, lastlabel: nat, insns: seq<Insn>, pool: seq<PoolValue>)

  function SnapOf(s: CodegenScope): Snap
    reads s
  {
    Snap(s.iseq, s.pc, s.lastpc, s.lastlabel, s.insns, s.pool)
  }

  /** !no_peephole, on a snapshot. */
  predicate Peep(cxt: Context, b: Snap) {
    !(cxt.noOptimize || b.lastlabel == b.pc || b.pc == 0 || b.pc == b.lastpc)
  }

  /** The pool index gen_int passes on for a literal, as a 16-bit operand. */
  function LitIndex(e: Emission, pool: seq<PoolValue>): u16 {
    if e.EmitInt? then ToU16(IntIndex(pool, e.v)) else 0
  }

  function PoolAfter(e: Emission, pool: seq<PoolValue>): seq<PoolValue> {
    if e.EmitInt? && IntLoadForm(e.v).FormLit? then AddInt(pool, e.v) else pool
  }

  function EmissionBytes(e: Emission, lit: u16): seq<byte> {
    match e
    case NoEmit => []
    case Emit1(op, a) => Op1Bytes(op, a)
    case Emit2(op, a, b) => Op2Bytes(op, a, b)
    case Emit2S(op, a, b) => Op2SBytes(op, a, b)
    case Emit2SS(op, a, w) => Op2SSBytes(op, a, w)
    case Emit3(op, a, b, c) => Op3Bytes(op, a, b, c)
    case EmitInt(a, v) => LoadBytes(IntLoadForm(v), a, lit)
  }

  /** The decoded record of the emitted instruction when it starts at base. */
  function EmissionRecord(e: Emission, lit: u16, base: nat): Insn {
    var size := |EmissionBytes(e, lit)|;
    match e
    case NoEmit => Insn(OP_NOP, 0, 0, 0, base, size)
    case Emit1(op, a) => Insn(op, a, 0, 0, base, size)
    case Emit2(op, a, b) => Insn(op, a, b, 0, base, size)
    case Emit2S(op, a, b) => Insn(op, a, b, 0, base, size)
    case Emit2SS(op, a, w) => Insn(op, a, w / 0x1_0000, w % 0x1_0000, base, size)
    case Emit3(op, a, b, c) => Insn(op, a, b, c % 0x100, base, size)
    case EmitInt(a, v) =>
      var f := IntLoadForm(v);
      Insn(LoadOp(f), a, LoadB(f, lit), LoadC(f), base, size)
  }

  /** check_no_ext_ops on the operands the emitting genop checks. */
  function EmissionCheck(cxt: Context, e: Emission, lit: u16): Outcome {
    match e
    case NoEmit => Pass
    case Emit1(_, a) => CheckNoExtOps(cxt, a, 0)
    case Emit2(_, a, b) => CheckNoExtOps(cxt, a, b)
    case Emit2S(_, a, _) => CheckNoExtOps(cxt, a, 0)
    case Emit2SS(_, a, _) => CheckNoExtOps(cxt, a, 0)
    case Emit3(_, a, b, _) => CheckNoExtOps(cxt, a, b)
    case EmitInt(a, v) => CheckNoExtOps(cxt, a, LoadExtOperand(IntLoadForm(v), lit))
  }

  /**
   * The opcode has the operand format of the genop that emits it, and a
   * LOADL names an existing pool entry.
   */
  predicate EmissionOk(e: Emission, pool: seq<PoolValue>) {
    match e
    case Emit1(op, _) => FormatOf(op) == B
    case Emit2(op, _, b) => FormatOf(op) == BB && (op == OP_LOADL ==> b < |pool|)
    case Emit2S(op, _, _) => FormatOf(op) == BS
    case Emit2SS(op, _, _) => FormatOf(op) == BSS
    case Emit3(op, _, _, _) => FormatOf(op) == BBB
    case _ => true
  }

  /** Where the kept records end: the start of the first record cut, or pc. */
  function BaseOf(b: Snap, keep: nat): nat
    requires keep <= |b.insns|
  {
    if keep == |b.insns| then b.pc else b.insns[keep].addr
  }

  function PrevAddr(insns: seq<Insn>, k: nat): nat
    requires k <= |insns|
  {
    if k == 0 then 0 else insns[k - 1].addr
  }

  /** lastpc when a rewrite leaves nothing emitted (or fails to emit). */
  function LastpcKept(b: Snap, e: Effect): nat
    requires e.keep <= |b.insns|
  {
    if e.keep == |b.insns| then b.lastpc
    else if e.markPrev then PrevAddr(b.insns, e.keep)
    else BaseOf(b, e.keep)
  }

  /**
   * a is b with effect e carried out, with outcome r: the records past
   * e.keep and their bytes are gone, the emission (if any, and if its
   * operands pass check_no_ext_ops) follows, and a gen_int literal
   * joined the pool.
   */
  ghost predicate Rewrote(cxt: Context, b: Snap, a: Snap, e: Effect, r: Outcome) {
    e.keep <= |b.insns|
    && var base := BaseOf(b, e.keep);
    var lit := LitIndex(e.emit, b.pool);
    base <= |b.iseq|
    && a.pool == PoolAfter(e.emit, b.pool)
    && r == EmissionCheck(cxt, e.emit, lit)
    && a.lastlabel == b.lastlabel
    && if r.Pass? && !e.emit.NoEmit? then
         var bytes := EmissionBytes(e.emit, lit);
         a.iseq == b.iseq[..base] + bytes && a.pc == base + |bytes| && a.lastpc == base
         && a.insns == b.insns[..e.keep] + [EmissionRecord(e.emit, lit, base)]
       else
         a.iseq == b.iseq[..base] && a.pc == base && a.insns == b.insns[..e.keep]
         && a.lastpc == LastpcKept(b, e)
  }

  /** The records past keep may be cut: no label falls among them and none is a jump. */
  ghost predicate CutOk(b: Snap, keep: nat) {
    CutOkOn(b.insns, b.lastlabel, keep)
  }

  ghost predicate CutOkOn(insns: seq<Insn>, lastlabel: nat, keep: nat) {
    keep <= |insns|
    && (keep < |insns| ==>
          lastlabel <= insns[keep].addr
          && forall j :: keep <= j < |insns| ==> !IsJump(insns[j].op))
  }

  /** Emit e at pc, with the genop that has its shape. */
  method EmitNow(s: CodegenScope, e: Emission) returns (r: Outcome)
    requires s.Valid() && EmissionOk(e, s.pool)
    modifies s`iseq, s`pc, s`lastpc, s`insns, s`pool
    ensures s.Valid()
    ensures Rewrote(s.cxt, old(SnapOf(s)), SnapOf(s), Effect(|old(s.insns)|, e, false), r)
  {
    ghost var before := SnapOf(s);
    match e
    case NoEmit =>
      r := Pass;
      Appending(s.cxt, before, SnapOf(s), e, r);
    case EmitInt(a, v) =>
      r := GenInt(s, a, v);
      Appending(s.cxt, before, SnapOf(s), e, r);
    case _ =>
      r := EmitOp(s, e);
  }

  /** Emit an emission of fixed operands with its genop. */
  method EmitOp(s: CodegenScope, e: Emission) returns (r: Outcome)
    requires s.Valid() && EmissionOk(e, s.pool) && !e.NoEmit? && !e.EmitInt?
    modifies s`iseq, s`pc, s`lastpc, s`insns, s`pool
    ensures s.Valid()
    ensures Rewrote(s.cxt, old(SnapOf(s)), SnapOf(s), Effect(|old(s.insns)|, e, false), r)
  {
    ghost var before := SnapOf(s);
    match e
    case Emit1(op, a) =>
      r := Genop1(s, op, a);
      Appending(s.cxt, before, SnapOf(s), e, r);
    case Emit2(op, a, b) =>
      r := Genop2(s, op, a, b);
      Appending(s.cxt, before, SnapOf(s), e, r);
    case Emit2S(op, a, b) =>
      r := Genop2S(s, op, a, b);
      Appending(s.cxt, before, SnapOf(s), e, r);
    case Emit2SS(op, a, w) =>
      r := Genop2SS(s, op, a, w);
      Appending(s.cxt, before, SnapOf(s), e, r);
    case Emit3(op, a, b, c) =>
      r := Genop3(s, op, a, b, c);
      Appending(s.cxt, before, SnapOf(s), e, r);
  }

  /** What appending the emission at pc, or failing to, amounts to. */
  lemma Appending(cxt: Context, b: Snap, a: Snap, e: Emission, r: Outcome)
    requires |b.iseq| == b.pc
    requires var lit := LitIndex(e, b.pool);
             a.pool == PoolAfter(e, b.pool) && r == EmissionCheck(cxt, e, lit) && a.lastlabel == b.lastlabel
             && (r.Pass? && !e.NoEmit? ==>
                   var bytes := EmissionBytes(e, lit);
                   a.iseq == b.iseq + bytes && a.pc == b.pc + |bytes| && a.lastpc == b.pc
                   && a.insns == b.insns + [EmissionRecord(e, lit, b.pc)])
             && (r.Error? || e.NoEmit? ==> a.iseq == b.iseq && a.pc == b.pc && a.insns == b.insns && a.lastpc == b.lastpc)
    ensures Rewrote(cxt, b, a, Effect(|b.insns|, e, false), r)
  {
    assert b.iseq[..b.pc] == b.iseq;
    assert b.insns[..|b.insns|] == b.insns;
  }

  /** b cut back to its first keep records, lastpc at the cut (rewind_pc). */
  function CutSnap(b: Snap, keep: nat): Snap
    requires keep < |b.insns| && b.insns[keep].addr <= |b.iseq|
  {
    var base := b.insns[keep].addr;
    Snap(b.iseq[..base], base, base, b.lastlabel, b.insns[..keep], b.pool)
  }

  /** Carry out an effect decided without gen_move's lastpc fix-up. */
  method ApplyEffect(s: CodegenScope, e: Effect) returns (r: Outcome)
    requires s.Valid() && CutOk(SnapOf(s), e.keep) && EmissionOk(e.emit, s.pool) && !e.markPrev
    modifies s`iseq, s`pc, s`lastpc, s`insns, s`pool
    ensures s.Valid()
    ensures Rewrote(s.cxt, old(SnapOf(s)), SnapOf(s), e, r)
  {
    if e.keep == |s.insns| {
      r := EmitNow(s, e.emit);
    } else {
      ghost var b := SnapOf(s);
      RewindTo(s, e.keep);
      assert SnapOf(s) == CutSnap(b, e.keep);
      ghost var m := SnapOf(s);
      r := EmitNow(s, e.emit);
      AfterCut(s.cxt, b, m, SnapOf(s), e, r);
    }
  }

  /** An effect carried out on the cut-back code is that effect on the original. */
  lemma AfterCut(cxt: Context, b: Snap, m: Snap, a: Snap, e: Effect, r: Outcome)
    requires e.keep < |b.insns| && b.insns[e.keep].addr <= |b.iseq| && m == CutSnap(b, e.keep) && !e.markPrev
    requires Rewrote(cxt, m, a, Effect(e.keep, e.emit, false), r)
    ensures Rewrote(cxt, b, a, e, r)
  {
    var base := b.insns[e.keep].addr;
    assert m.iseq[..base] == b.iseq[..base];
    assert m.insns[..e.keep] == b.insns[..e.keep];
  }

  // ---------------------------------------------------------------------
  // gen_move
  // ---------------------------------------------------------------------

  /** Loads whose register operand alone gen_move retargets with genop_1. */
  predicate IsRetarget1(op: byte) {
    op == OP_LOADNIL || op == OP_LOADSELF || op == OP_LOADT || op == OP_LOADF
    || op == OP_LOADI__1 || IsLoadISmall(op)
  }

  /**
   * Instructions gen_move retargets with genop_2, keeping their b operand
   * (OP_BLKPUSH, which the source lists among them, is retargeted in its
   * own BS format here; see BlkpushRetargetAsWritten).
   */
  predicate IsRetarget2(op: byte) {
    op in {OP_LOADI, OP_LOADINEG, OP_LOADL, OP_LOADSYM, OP_GETGV, OP_GETSV, OP_GETIV, OP_GETCV,
           OP_GETCONST, OP_STRING, OP_LAMBDA, OP_BLOCK, OP_METHOD}
  }

  /** b with its last record k cut off and lastpc on the record before it (gen_move's rewind). */
  function CutPrevSnap(b: Snap, k: nat): Snap
    requires k < |b.insns| && b.insns[k].addr <= |b.iseq|
  {
    var base := b.insns[k].addr;
    Snap(b.iseq[..base], base, PrevAddr(b.insns, k), b.lastlabel, b.insns[..k], b.pool)
  }

  /** The effect of the recursive call, seen from before the dropped MOVE. */
  function Lift(inner: Effect, k: nat): Effect {
    if inner.keep == k then Effect(k, inner.emit, true) else inner
  }

  /**
   * gen_move(dst, src): MOVE dst src, unless the last instruction makes it
   * redundant or can simply be retargeted to dst.
   *  - dst == src, or a last `MOVE src dst`: nothing is emitted.
   *  - a last `MOVE src x` into a temporary is dropped and the move becomes
   *    `x` to dst; a last MOVE into dst itself is dropped as overwritten.
   *  - a load or a value-producing instruction into the temporary src is
   *    retargeted to dst with its other operands; an ARRAY of fewer than
   *    256 values into src becomes an ARRAY2 that builds the array from
   *    src's registers.
   *  - `MOVE t dst; ADDI t n` becomes `ADDI dst n`, or, after an integer
   *    load into dst, the load of the sum.
   * peep is !nopeep && !no_peephole at entry.
   */
  function MoveEffect(noOpt: bool, insns: seq<Insn>, peep: bool, lastlabel: nat, pool: seq<PoolValue>,
                      nlocals: int, dst: u16, src: u16): (e: Effect)
    requires peep ==> |insns| > 0
    requires OperandBounds(insns) && PoolRefs(insns, |pool|)
    ensures e.keep <= |insns|
    decreases |insns|
  {
    var normal := Effect(|insns|, Emit2(OP_MOVE, dst, src), false);
    if !peep then normal
    else if dst == src then Effect(|insns|, NoEmit, false)
    else
      var k := |insns| - 1;
      var d := insns[k];
      if d.op == OP_MOVE then
        if d.a == src && d.b == dst then Effect(|insns|, NoEmit, false)
        else if d.a == src && d.a < nlocals then normal
        else if d.a == src || d.a == dst then
          var src' := if d.a == src then d.b as u16 else src;
          var inner := MoveEffect(noOpt, insns[..k], !noOpt && k > 0 && lastlabel != d.addr,
                                  lastlabel, pool, nlocals, dst, src');
          Lift(inner, k)
        else normal
      else if d.op == OP_ADDI || d.op == OP_SUBI then
        ImmMoveEffect(insns, lastlabel, pool, nlocals, dst, src)
      else RetargetEffect(d, pool, nlocals, dst, src, |insns|)
  }

  /**
   * gen_move after an instruction d (the last of n records) that only
   * fills a register: retargeted to dst when it fills the temporary src.
   */
  function RetargetEffect(d: Insn, pool: seq<PoolValue>, nlocals: int, dst: u16, src: u16, n: nat): (e: Effect)
    requires n > 0 && 0 <= d.b <= 0xffff && 0 <= d.c <= 0xffff
    requires d.op == OP_LOADL ==> d.b < |pool|
    ensures e == Effect(n, Emit2(OP_MOVE, dst, src), false)
            || (e.keep == n - 1 && !IsJump(d.op) && !e.markPrev && EmissionOk(e.emit, pool))
  {
    var normal := Effect(n, Emit2(OP_MOVE, dst, src), false);
    var k := n - 1;
    var temp := d.a == src && d.a >= nlocals;
    if IsRetarget1(d.op) then
      if temp then Effect(k, Emit1(d.op, dst), false) else normal
    else if IsRetarget2(d.op) || (d.op == OP_HASH && d.b == 0) then
      if temp then Effect(k, Emit2(d.op, dst, d.b as u16), false) else normal
    else if d.op == OP_LOADI16 || d.op == OP_BLKPUSH then
      if temp then Effect(k, Emit2S(d.op, dst, d.b as u16), false) else normal
    else if d.op == OP_LOADI32 then
      if temp then Effect(k, Emit2SS(d.op, dst, d.b * 0x1_0000 + d.c), false) else normal
    else if d.op == OP_ARRAY then
      if temp && d.a >= dst && d.b < 0x100 then
        Effect(k, if d.b == 0 || dst == d.a then Emit2(OP_ARRAY, dst, 0) else Emit3(OP_ARRAY2, dst, src, d.b as u16), false)
      else normal
    else if d.op == OP_ARRAY2 then
      if temp && d.a >= dst then Effect(k, Emit3(OP_ARRAY2, dst, d.b as u16, d.c as u16), false) else normal
    else if d.op == OP_AREF || d.op == OP_GETUPVAR then
      if temp then Effect(k, Emit3(d.op, dst, d.b as u16, d.c as u16), false) else normal
    else normal
  }

  /**
   * gen_move after `MOVE t dst; ADDI t n` (or SUBI): `ADDI dst n`, and when
   * an integer load into dst comes first and the sum fits in mrb_int, the
   * load of the sum instead of all three.
   */
  function ImmMoveEffect(insns: seq<Insn>, lastlabel: nat, pool: seq<PoolValue>, nlocals: int,
                         dst: u16, src: u16): (e: Effect)
    requires |insns| > 0 && OperandBounds(insns)
    requires insns[|insns| - 1].op == OP_ADDI || insns[|insns| - 1].op == OP_SUBI
    ensures e.keep == |insns| || e.keep == |insns| - 2 || e.keep == |insns| - 3
    ensures !e.markPrev && EmissionOk(e.emit, pool)
    ensures e.keep < |insns| ==>
              |insns| >= 2 && insns[|insns| - 1].addr != lastlabel && insns[|insns| - 2].op == OP_MOVE
    ensures e.keep < |insns| - 2 ==>
              |insns| >= 3 && insns[|insns| - 2].addr != lastlabel && IntOperand(insns[|insns| - 3], pool).Some?
  {
    var k := |insns| - 1;
    var d := insns[k];
    var normal := Effect(|insns|, Emit2(OP_MOVE, dst, src), false);
    if d.addr == lastlabel || d.a != src || d.a < nlocals then normal
    else
      var d0 := PrevOf(insns, k);
      if d0.op != OP_MOVE || d0.a != d.a || d0.b != dst then normal
      else
        var plain := Effect(k - 1, Emit2(d.op, dst, d.b as u16), false);
        if d0.addr == lastlabel then plain
        else
          var d1 := PrevOf(insns, k - 1);
          match IntOperand(d1, pool)
          case Some(n) =>
            var v := if d.op == OP_ADDI then n + d.b else n - d.b;
            if d1.a == dst && IsMrbInt(v) then Effect(k - 2, EmitInt(dst, v), false) else plain
          case None => plain
  }

  /** A label before pc that is not pc lies at or before the last record. */
  lemma LabelBeforeLast(s: CodegenScope)
    requires s.Valid() && !s.NoPeephole()
    ensures |s.insns| > 0 && s.lastlabel <= s.insns[|s.insns| - 1].addr
  {
    LabelAtOrBefore(s.insns, s.pc, s.lastlabel, |s.insns| - 1);
  }

  /** Every effect MoveEffect decides for a valid scope may be carried out, recursion aside. */
  lemma MoveEffectOk(noOpt: bool, insns: seq<Insn>, pc: nat, lastlabel: nat, pool: seq<PoolValue>,
                     nlocals: int, dst: u16, src: u16, peep: bool)
    requires Tiles(insns, pc) && Boundary(insns, pc, lastlabel) && OperandBounds(insns) && PoolRefs(insns, |pool|)
    requires peep ==> |insns| > 0 && lastlabel != pc
    ensures var e := MoveEffect(noOpt, insns, peep, lastlabel, pool, nlocals, dst, src);
            !NeedsRecursion(insns, peep, nlocals, dst, src) ==>
              CutOkOn(insns, lastlabel, e.keep) && EmissionOk(e.emit, pool) && !e.markPrev
  {
    if peep && dst != src {
      var n := |insns|;
      LabelAtOrBefore(insns, pc, lastlabel, n - 1);
      var d := insns[n - 1];
      if d.op == OP_ADDI || d.op == OP_SUBI {
        ImmMoveEffectOk(insns, pc, lastlabel, pool, nlocals, dst, src);
      }
    }
  }

  lemma ImmMoveEffectOk(insns: seq<Insn>, pc: nat, lastlabel: nat, pool: seq<PoolValue>, nlocals: int, dst: u16, src: u16)
    requires Tiles(insns, pc) && Boundary(insns, pc, lastlabel) && lastlabel != pc
    requires |insns| > 0 && OperandBounds(insns)
    requires insns[|insns| - 1].op == OP_ADDI || insns[|insns| - 1].op == OP_SUBI
    ensures CutOkOn(insns, lastlabel, ImmMoveEffect(insns, lastlabel, pool, nlocals, dst, src).keep)
  {
    var e := ImmMoveEffect(insns, lastlabel, pool, nlocals, dst, src);
    var n := |insns|;
    if e.keep < n {
      LabelAtOrBefore(insns, pc, lastlabel, n - 2);
      if e.keep < n - 2 {
        LabelAtOrBefore(insns, pc, lastlabel, n - 3);
      }
      forall j | e.keep <= j < n
        ensures !IsJump(insns[j].op)
      {
        if j == n - 3 {
          IntLoadIsNotJump(insns[n - 3], pool);
        }
      }
    }
  }

  /** Whether gen_move drops a last MOVE and calls itself again. */
  predicate NeedsRecursion(insns: seq<Insn>, peep: bool, nlocals: int, dst: u16, src: u16)
    requires peep ==> |insns| > 0
  {
    peep && dst != src
    && var d := insns[|insns| - 1];
    d.op == OP_MOVE && !(d.a == src && d.b == dst) && !(d.a == src && d.a < nlocals) && (d.a == src || d.a == dst)
  }

  /** gen_move's rewind: drop the last record, lastpc on the one before it. */
  method RewindToPrev(s: CodegenScope, k: nat)
    requires s.Valid() && k == |s.insns| - 1 && s.lastlabel <= s.insns[k].addr && !IsJump(s.insns[k].op)
    modifies s`iseq, s`pc, s`lastpc, s`insns
    ensures s.Valid()
    ensures old(s.insns[k].addr) <= |old(s.iseq)| && SnapOf(s) == CutPrevSnap(old(SnapOf(s)), k)
    ensures s.NoPeephole() <==> s.cxt.noOptimize || k == 0 || s.lastlabel == s.pc
  {
    ghost var ins := s.insns;
    RewindTo(s, k);
    if k > 0 {
      TilesOrder(ins, |old(s.iseq)|, k - 1, k);
      s.lastpc := s.insns[k - 1].addr;
    } else {
      s.lastpc := 0;
    }
  }

  /**
   * gen_move: the code after it is the code before it with MoveEffect
   * carried out.  The recursion on a dropped MOVE is gen_move's own.
   */
  method GenMove(s: CodegenScope, dst: u16, src: u16, nopeep: bool) returns (r: Outcome)
    requires s.Valid()
    modifies s`iseq, s`pc, s`lastpc, s`insns, s`pool
    ensures s.Valid()
    ensures Rewrote(s.cxt, old(SnapOf(s)), SnapOf(s),
                    MoveEffect(s.cxt.noOptimize, old(s.insns), !nopeep && !old(s.NoPeephole()),
                               old(s.lastlabel), old(s.pool), s.nlocals, dst, src), r)
    decreases |s.insns|, 1
  {
    var peep := !nopeep && !s.NoPeephole();
    if NeedsRecursion(s.insns, peep, s.nlocals, dst, src) {
      r := MoveThroughLast(s, dst, src);
    } else {
      MoveEffectOk(s.cxt.noOptimize, s.insns, s.pc, s.lastlabel, s.pool, s.nlocals, dst, src, peep);
      var e := MoveEffect(s.cxt.noOptimize, s.insns, peep, s.lastlabel, s.pool, s.nlocals, dst, src);
      r := ApplyEffect(s, e);
    }
  }

  /** gen_move's recursive cases: drop the last MOVE and move again, from its source or over it. */
  method MoveThroughLast(s: CodegenScope, dst: u16, src: u16) returns (r: Outcome)
    requires s.Valid() && NeedsRecursion(s.insns, !s.NoPeephole(), s.nlocals, dst, src)
    modifies s`iseq, s`pc, s`lastpc, s`insns, s`pool
    ensures s.Valid()
    ensures Rewrote(s.cxt, old(SnapOf(s)), SnapOf(s),
                    MoveEffect(s.cxt.noOptimize, old(s.insns), true, old(s.lastlabel), old(s.pool), s.nlocals, dst, src), r)
    decreases |s.insns|, 0
  {
    var k := |s.insns| - 1;
    var d := s.insns[k];
    LabelBeforeLast(s);
    var src' := if d.a == src then d.b as u16 else src;
    ghost var b := SnapOf(s);
    ghost var inner := MoveEffect(s.cxt.noOptimize, s.insns[..k], !s.cxt.noOptimize && k > 0 && s.lastlabel != d.addr,
                                  s.lastlabel, s.pool, s.nlocals, dst, src');
    MoveEffectUnfolds(s.cxt.noOptimize, s.insns, s.lastlabel, s.pool, s.nlocals, dst, src);
    RewindToPrev(s, k);
    r := GenMove(s, dst, src', false);
    AfterCutPrev(s.cxt, b, CutPrevSnap(b, k), SnapOf(s), k, inner, r);
  }

  /** In its recursive cases MoveEffect is the lifted effect on the records before the dropped MOVE. */
  lemma MoveEffectUnfolds(noOpt: bool, insns: seq<Insn>, lastlabel: nat, pool: seq<PoolValue>,
                          nlocals: int, dst: u16, src: u16)
    requires |insns| > 0 && OperandBounds(insns) && PoolRefs(insns, |pool|)
    requires NeedsRecursion(insns, true, nlocals, dst, src)
    ensures var k := |insns| - 1;
            var d := insns[k];
            var src' := if d.a == src then d.b as u16 else src;
            MoveEffect(noOpt, insns, true, lastlabel, pool, nlocals, dst, src)
            == Lift(MoveEffect(noOpt, insns[..k], !noOpt && k > 0 && lastlabel != d.addr, lastlabel, pool, nlocals, dst, src'), k)
  {
  }

  /** The recursive call's effect on the code without the dropped MOVE, seen from before it. */
  lemma AfterCutPrev(cxt: Context, b: Snap, m: Snap, a: Snap, k: nat, inner: Effect, r: Outcome)
    requires k < |b.insns| && b.insns[k].addr <= |b.iseq| && m == CutPrevSnap(b, k)
    requires Rewrote(cxt, m, a, inner, r)
    ensures Rewrote(cxt, b, a, Lift(inner, k), r)
  {
    var e := Lift(inner, k);
    var base := BaseOf(m, inner.keep);
    assert BaseOf(b, e.keep) == base;
    assert m.iseq[..base] == b.iseq[..base];
    assert m.insns[..inner.keep] == b.insns[..inner.keep];
  }

  // ---------------------------------------------------------------------
  // The rewrites that look at one last instruction
  // ---------------------------------------------------------------------

  /** Cutting just the last record is allowed when it is no jump and no label falls on it. */
  lemma LastCutOk(insns: seq<Insn>, pc: nat, lastlabel: nat, keep: nat)
    requires Tiles(insns, pc) && Boundary(insns, pc, lastlabel)
    requires keep == |insns| || (lastlabel != pc && keep + 1 == |insns| && !IsJump(insns[keep].op))
    ensures CutOkOn(insns, lastlabel, keep)
  {
    if keep < |insns| {
      LabelAtOrBefore(insns, pc, lastlabel, keep);
    }
  }

  /**
   * gen_return: `op src`, unless the last instruction is `MOVE src x`,
   * which is dropped for `op x`, or a RETURN already, after which nothing
   * runs and nothing is emitted.
   */
  function ReturnEffect(insns: seq<Insn>, peep: bool, op: byte, src: u16): (e: Effect)
    requires peep ==> |insns| > 0
    requires OperandBounds(insns)
    ensures e.keep == |insns| || (peep && e.keep + 1 == |insns| && insns[e.keep].op == OP_MOVE)
    ensures !e.markPrev && (e.emit.NoEmit? || (e.emit.Emit1? && e.emit.op == op))
  {
    var n := |insns|;
    if !peep then Effect(n, Emit1(op, src), false)
    else
      var d := insns[n - 1];
      if d.op == OP_MOVE && d.a == src then Effect(n - 1, Emit1(op, d.b as u16), false)
      else if d.op != OP_RETURN then Effect(n, Emit1(op, src), false)
      else Effect(n, NoEmit, false)
  }

  method GenReturn(s: CodegenScope, op: byte, src: u16) returns (r: Outcome)
    requires s.Valid() && (op == OP_RETURN || op == OP_RETURN_BLK || op == OP_BREAK)
    modifies s`iseq, s`pc, s`lastpc, s`insns, s`pool
    ensures s.Valid()
    ensures Rewrote(s.cxt, old(SnapOf(s)), SnapOf(s), ReturnEffect(old(s.insns), !old(s.NoPeephole()), op, src), r)
  {
    var e := ReturnEffect(s.insns, !s.NoPeephole(), op, src);
    LastCutOk(s.insns, s.pc, s.lastlabel, e.keep);
    r := ApplyEffect(s, e);
  }

  /**
   * The register a store of dst may read instead: dst itself, or x when
   * the last instruction `MOVE dst x` can be dropped.  The first component
   * is the number of records kept.
   */
  function StoreSource(insns: seq<Insn>, peep: bool, dst: u16): (p: (nat, u16))
    requires peep ==> |insns| > 0
    requires OperandBounds(insns)
    ensures p.0 == |insns| || (peep && p.0 + 1 == |insns| && insns[p.0].op == OP_MOVE)
  {
    var n := |insns|;
    if peep && insns[n - 1].op == OP_MOVE && insns[n - 1].a == dst then (n - 1, insns[n - 1].b as u16)
    else (n, dst)
  }

  /** gen_setxv's store of dst into the variable or constant of symbol index idx. */
  function SetxvEffect(insns: seq<Insn>, peep: bool, op: byte, dst: u16, idx: u16): (e: Effect)
    requires peep ==> |insns| > 0
    requires OperandBounds(insns)
    ensures e.keep == |insns| || (peep && e.keep + 1 == |insns| && insns[e.keep].op == OP_MOVE)
  {
    var (k, x) := StoreSource(insns, peep, dst);
    Effect(k, Emit2(op, x, idx), false)
  }

  /**
   * gen_setxv: intern the name, then store dst.  Only when the value is
   * not wanted afterwards (!val) may a last `MOVE dst x` be dropped and x
   * stored instead.
   */
  method GenSetxv(s: CodegenScope, op: byte, dst: u16, sym: Sym, val: bool) returns (r: Outcome)
    requires s.Valid() && s.hasIrep
    requires op in {OP_SETGV, OP_SETSV, OP_SETIV, OP_SETCV, OP_SETCONST}
    modifies s`iseq, s`pc, s`lastpc, s`insns, s`pool, s`syms, s`scapa
    ensures s.Valid()
    ensures var idx := SymIndex(old(s.syms), sym);
            if idx == |old(s.syms)| && idx == MAX_SYMS then
              r == Error(TOO_MANY_SYMBOLS) && s.syms == old(s.syms) && SnapOf(s) == old(SnapOf(s))
            else
              s.syms == AddSym(old(s.syms), sym)
              && Rewrote(s.cxt, old(SnapOf(s)), SnapOf(s),
                         SetxvEffect(old(s.insns), !val && !old(s.NoPeephole()), op, dst, idx as u16), r)
  {
    ghost var before := SnapOf(s);
    var peep := !val && !s.NoPeephole();
    var found := NewSym(s, sym);
    if found.Fail? {
      return Error(found.msg);
    }
    assert SnapOf(s) == before && peep == (!val && !s.NoPeephole());
    r := StoreXv(s, op, dst, found.value as u16, peep);
  }

  /** The store of gen_setxv, once the name is interned as idx. */
  method StoreXv(s: CodegenScope, op: byte, dst: u16, idx: u16, peep: bool) returns (r: Outcome)
    requires s.Valid() && (peep ==> !s.NoPeephole())
    requires op in {OP_SETGV, OP_SETSV, OP_SETIV, OP_SETCV, OP_SETCONST}
    modifies s`iseq, s`pc, s`lastpc, s`insns, s`pool
    ensures s.Valid()
    ensures Rewrote(s.cxt, old(SnapOf(s)), SnapOf(s), SetxvEffect(old(s.insns), peep, op, dst, idx), r)
  {
    var e := SetxvEffect(s.insns, peep, op, dst, idx);
    assert FormatOf(op) == BB;
    LastCutOk(s.insns, s.pc, s.lastlabel, e.keep);
    r := ApplyEffect(s, e);
  }

  /**
   * gen_getupvar: GETUPVAR of local idx lv + 1 levels out, unless the last
   * instruction stored dst into that very upvariable.  genop_3 takes the
   * operands as 16-bit values and writes the level as one byte.
   */
  function GetupvarEffect(insns: seq<Insn>, peep: bool, dst: u16, idx: nat, lv: nat): (e: Effect)
    requires peep ==> |insns| > 0
    ensures e.keep == |insns| && !e.markPrev
  {
    var n := |insns|;
    if peep && insns[n - 1].op == OP_SETUPVAR && insns[n - 1].a == dst && insns[n - 1].b == idx && insns[n - 1].c == lv
    then Effect(n, NoEmit, false)
    else Effect(n, Emit3(OP_GETUPVAR, dst, ToU16(idx), ToU16(lv)), false)
  }

  method GenGetupvar(s: CodegenScope, dst: u16, id: Sym) returns (r: Outcome)
    requires s.Valid() && s.Linked()
    modifies s`iseq, s`pc, s`lastpc, s`insns, s`pool
    ensures s.Valid()
    ensures match UpvarFrom(s.prev, id, 0)
            case Fail(msg) => r == Error(msg) && SnapOf(s) == old(SnapOf(s))
            case Ok(found) =>
              Rewrote(s.cxt, old(SnapOf(s)), SnapOf(s),
                      GetupvarEffect(old(s.insns), !old(s.NoPeephole()), dst, found.1, found.0), r)
  {
    var up := SearchUpvar(s, id);
    if up.Fail? {
      return Error(up.msg);
    }
    var (lv, idx) := up.value;
    var e := GetupvarEffect(s.insns, !s.NoPeephole(), dst, idx, lv);
    LastCutOk(s.insns, s.pc, s.lastlabel, e.keep);
    r := ApplyEffect(s, e);
  }

  /** gen_setupvar: SETUPVAR of dst, or of x when a last `MOVE dst x` is dropped. */
  function SetupvarEffect(insns: seq<Insn>, peep: bool, dst: u16, idx: nat, lv: nat): (e: Effect)
    requires peep ==> |insns| > 0
    requires OperandBounds(insns)
    ensures e.keep == |insns| || (peep && e.keep + 1 == |insns| && insns[e.keep].op == OP_MOVE)
  {
    var (k, x) := StoreSource(insns, peep, dst);
    Effect(k, Emit3(OP_SETUPVAR, x, ToU16(idx), ToU16(lv)), false)
  }

  /**
   * gen_setupvar: store dst into the upvariable id.  As in gen_setxv, a
   * last `MOVE dst x` is dropped, and x stored, only when the value is not
   * wanted in dst afterwards (!val); the source drops it whatever val is
   * (see PeepholeSound.SetupvarDropsValue).
   */
  method GenSetupvar(s: CodegenScope, dst: u16, id: Sym, val: bool) returns (r: Outcome)
    requires s.Valid() && s.Linked()
    modifies s`iseq, s`pc, s`lastpc, s`insns, s`pool
    ensures s.Valid()
    ensures match UpvarFrom(s.prev, id, 0)
            case Fail(msg) => r == Error(msg) && SnapOf(s) == old(SnapOf(s))
            case Ok(found) =>
              Rewrote(s.cxt, old(SnapOf(s)), SnapOf(s),
                      SetupvarEffect(old(s.insns), !val && !old(s.NoPeephole()), dst, found.1, found.0), r)
  {
    var up := SearchUpvar(s, id);
    if up.Fail? {
      return Error(up.msg);
    }
    var (lv, idx) := up.value;
    var e := SetupvarEffect(s.insns, !val && !s.NoPeephole(), dst, idx, lv);
    LastCutOk(s.insns, s.pc, s.lastlabel, e.keep);
    r := ApplyEffect(s, e);
  }

  /**
   * gen_intern on the string in register sp: INTERN sp, or, when the
   * string was just loaded there by STRING, the single SYMBOL load.
   */
  function InternEffect(insns: seq<Insn>, peep: bool, sp: u16): (e: Effect)
    requires peep ==> |insns| > 0
    requires OperandBounds(insns)
    ensures e.keep == |insns| || (peep && e.keep + 1 == |insns| && insns[e.keep].op == OP_STRING)
  {
    var n := |insns|;
    var d := if n > 0 then insns[n - 1] else Insn(OP_NOP, 0, 0, 0, 0, 0);
    if peep && d.op == OP_STRING && d.a == sp then Effect(n - 1, Emit2(OP_SYMBOL, sp, d.b as u16), false)
    else Effect(n, Emit1(OP_INTERN, sp), false)
  }

  /** gen_intern: pop the string, turn it into a symbol in its register, push the symbol. */
  method GenIntern(s: CodegenScope) returns (r: Outcome)
    requires s.Valid()
    modifies s`iseq, s`pc, s`lastpc, s`insns, s`pool, s`sp, s`nregs
    ensures s.Valid()
    ensures old(s.sp) == 0 ==> r == Error(SP_UNDERFLOW) && SnapOf(s) == old(SnapOf(s)) && s.sp == 0
    ensures old(s.sp) > 0 ==>
              var e := InternEffect(old(s.insns), !old(s.NoPeephole()), (old(s.sp) - 1) as u16);
              var emitted := EmissionCheck(s.cxt, e.emit, 0);
              Rewrote(s.cxt, old(SnapOf(s)), SnapOf(s), e, emitted)
              && (emitted.Error? ==> r == emitted && s.sp == old(s.sp) - 1)
              && (emitted.Pass? ==> (r.Pass? <==> old(s.sp) < 0xffff) && (r.Pass? ==> s.sp == old(s.sp)))
  {
    ghost var b := SnapOf(s);
    r := PopN(s, 1);
    if r.Error? {
      return;
    }
    assert SnapOf(s) == b;
    r := InternPush(s);
  }

  /** gen_intern after the pop: the rewrite on the string register sp, then the push. */
  method InternPush(s: CodegenScope) returns (r: Outcome)
    requires s.Valid()
    modifies s`iseq, s`pc, s`lastpc, s`insns, s`pool, s`sp, s`nregs
    ensures s.Valid()
    ensures var e := InternEffect(old(s.insns), !old(s.NoPeephole()), old(s.sp) as u16);
            var emitted := EmissionCheck(s.cxt, e.emit, 0);
            Rewrote(s.cxt, old(SnapOf(s)), SnapOf(s), e, emitted)
            && (emitted.Error? ==> r == emitted && s.sp == old(s.sp))
            && (emitted.Pass? ==> (r.Pass? <==> old(s.sp) + 1 < 0xffff) && (r.Pass? ==> s.sp == old(s.sp) + 1))
  {
    r := InternTop(s);
    if r.Error? {
      return;
    }
    ghost var a := SnapOf(s);
    r := PushN(s, 1);
    assert SnapOf(s) == a;
  }

  /** gen_intern's rewrite on the popped string register. */
  method InternTop(s: CodegenScope) returns (r: Outcome)
    requires s.Valid()
    modifies s`iseq, s`pc, s`lastpc, s`insns, s`pool
    ensures s.Valid()
    ensures Rewrote(s.cxt, old(SnapOf(s)), SnapOf(s), InternEffect(old(s.insns), !old(s.NoPeephole()), s.sp as u16), r)
  {
    var e := InternEffect(s.insns, !s.NoPeephole(), s.sp as u16);
    LastCutOk(s.insns, s.pc, s.lastlabel, e.keep);
    r := ApplyEffect(s, e);
  }
}
