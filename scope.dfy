/**
 * The code generator's per-scope state (struct scope of codegen.yarp.c):
 * the instruction buffer with its pc / lastpc / lastlabel marks, the
 * literal pool, the symbol table, the register stack pointer and the
 * loop stack.
 *
 * Next to the bytes the scope keeps `insns`, one record per instruction
 * in the buffer, in order and tiling [0, pc).  Emit appends a record only
 * when mrb_decode_insn reads exactly that record back from the bytes
 * appended with it; later jump patching rewrites only the offset bytes
 * inside jump records.  The records stand in for mrb_decode_insn /
 * mrb_prev_pc, which the C code uses to re-read the last one or two
 * instructions.
 */
module Scope {
  import opened MachineInts
  import opened Opcodes
  import opened Encoding
  import opened Wrappers

  /** An interned symbol; symbols are equal exactly when their names are. */
  type Sym = string

  /** The options of mrbc_context the generator consults. */
  datatype Context = Context(noOptimize: bool, noExtOps: bool)

  /** An entry of the literal pool (mrb_pool_value). */
  datatype PoolValue =
    | PStr(str: seq<byte>, shared: bool)          // IREP_TT_STR, or IREP_TT_SSTR when shared
    | PInt(i: int)                                // IREP_TT_INT64
    | PBigInt(len: int, base: int, digits: string) // IREP_TT_BIGINT: buf[0], buf[1], the digits

  datatype LoopKind = LoopNormal | LoopBlock | LoopFor | LoopBegin | LoopRescue

  /** struct loopinfo: kind, the next / redo / break chains, result register. */
  datatype LoopInfo = LoopInfo(kind: LoopKind, pc0: int, pc1: int, pc2: int, reg: int)

  /** The capacities the symbol table passes through: 256 doubled, up to 0x8000. */
  predicate SymCapacity(c: nat) {
    c == 0 || c in {0x100, 0x200, 0x400, 0x800, 0x1000, 0x2000, 0x4000, 0x8000}
  }

  predicate NoDuplicates<T(==)>(xs: seq<T>) {
    forall i, j :: 0 <= i < j < |xs| ==> xs[i] != xs[j]
  }

  // ---------------------------------------------------------------------
  // The decoded records tile the buffer
  // ---------------------------------------------------------------------

  /** Records follow each other without gaps from address 0 up to pc. */
  ghost predicate Tiles(insns: seq<Insn>, pc: nat) {
    (|insns| == 0 ==> pc == 0)
    && (|insns| > 0 ==> insns[0].addr == 0 && insns[|insns| - 1].addr + insns[|insns| - 1].size == pc)
    && (forall k :: 0 <= k < |insns| ==> insns[k].size > 0)
    && (forall j, k :: 0 <= j && k == j + 1 && k < |insns| ==> insns[j].addr + insns[j].size == insns[k].addr)
  }

  /** x is an instruction boundary: the start of a record, or pc itself. */
  ghost predicate Boundary(insns: seq<Insn>, pc: nat, x: nat) {
    x == pc || exists k :: 0 <= k < |insns| && insns[k].addr == x
  }

  /** The b and c operands of every record fit in 16 bits. */
  ghost predicate OperandBounds(insns: seq<Insn>) {
    forall k :: 0 <= k < |insns| ==> 0 <= insns[k].b <= 0xffff && 0 <= insns[k].c <= 0xffff
  }

  /** Every LOADL record names an existing pool entry. */
  ghost predicate PoolRefs(insns: seq<Insn>, plen: nat) {
    forall k :: 0 <= k < |insns| && insns[k].op == OP_LOADL ==> 0 <= insns[k].b < plen
  }

  lemma {:induction false} TilesOrder(insns: seq<Insn>, pc: nat, j: nat, k: nat)
    requires Tiles(insns, pc) && j < k < |insns|
    ensures insns[j].addr < insns[k].addr
    decreases k - j
  {
    if j + 1 < k {
      TilesOrder(insns, pc, j + 1, k);
    }
  }

  lemma {:induction false} TilesWithin(insns: seq<Insn>, pc: nat, k: nat)
    requires Tiles(insns, pc) && k < |insns|
    ensures insns[k].addr + insns[k].size <= pc
    decreases |insns| - k
  {
    if k + 1 < |insns| {
      TilesWithin(insns, pc, k + 1);
    }
  }

  lemma AppendTiles(insns: seq<Insn>, pc: nat, r: Insn, x: nat)
    requires Tiles(insns, pc) && r.addr == pc && r.size > 0 && Boundary(insns, pc, x)
    ensures Tiles(insns + [r], pc + r.size) && Boundary(insns + [r], pc + r.size, x)
  {
    var ins' := insns + [r];
    if x != pc {
      var k :| 0 <= k < |insns| && insns[k].addr == x;
      assert ins'[k].addr == x;
    } else {
      assert ins'[|insns|].addr == x;
    }
  }

  /** An appended record whose operands fit keeps the operand and pool invariants. */
  lemma AppendRefs(insns: seq<Insn>, r: Insn, plen: nat)
    requires OperandBounds(insns) && PoolRefs(insns, plen)
    requires 0 <= r.b <= 0xffff && 0 <= r.c <= 0xffff && (r.op == OP_LOADL ==> r.b < plen)
    ensures OperandBounds(insns + [r]) && PoolRefs(insns + [r], plen)
  {
    var ins' := insns + [r];
    assert forall k :: 0 <= k < |insns| ==> ins'[k] == insns[k];
  }

  lemma TruncateTiles(insns: seq<Insn>, pc: nat, k: nat, x: nat)
    requires Tiles(insns, pc) && k < |insns| && Boundary(insns, pc, x) && x <= insns[k].addr
    ensures Tiles(insns[..k], insns[k].addr) && Boundary(insns[..k], insns[k].addr, x)
  {
    if x != insns[k].addr {
      if x == pc {
        TilesWithin(insns, pc, k);
        assert false;
      }
      var j :| 0 <= j < |insns| && insns[j].addr == x;
      if j >= k {
        if j > k {
          TilesOrder(insns, pc, k, j);
        }
        assert false;
      }
      assert insns[..k][j].addr == x;
    }
  }

  /**
   * A label x below pc that no record after index k starts at lies at or
   * before record k: the optimiser looking back to record k does not cross it.
   */
  lemma LabelAtOrBefore(insns: seq<Insn>, pc: nat, x: nat, k: nat)
    requires Tiles(insns, pc) && Boundary(insns, pc, x) && x != pc && k < |insns|
    requires forall j :: k < j < |insns| ==> insns[j].addr != x
    ensures x <= insns[k].addr
  {
    var j :| 0 <= j < |insns| && insns[j].addr == x;
    if j < k {
      TilesOrder(insns, pc, j, k);
    }
  }

  lemma LastRecordInRange(insns: seq<Insn>, pc: nat)
    requires Tiles(insns, pc) && pc != 0
    ensures |insns| > 0
  {
  }

  /** The record before record k (mrb_prev_pc then mrb_decode_insn); a NOP at the start. */
  function PrevOf(insns: seq<Insn>, k: nat): Insn
    requires k < |insns|
  {
    if k == 0 then Insn(OP_NOP, 0, 0, 0, 0, 0) else insns[k - 1]
  }

  /** The instruction buffer, its marks and its records agree. */
  ghost predicate CodeOk(iseq: seq<byte>, pc: nat, lastpc: nat, lastlabel: nat, insns: seq<Insn>) {
    |iseq| == pc
    && Tiles(insns, pc)
    && lastpc <= pc
    && (pc != lastpc && pc != 0 ==> |insns| > 0 && insns[|insns| - 1].addr == lastpc)
    && lastlabel <= pc && Boundary(insns, pc, lastlabel)
    && OperandBounds(insns)
  }

  /** Registers fit in 16 bits, LOADL operands index the pool, the symbol table keeps its capacity. */
  ghost predicate TablesOk(sp: int, nregs: int, nlocals: int, pool: seq<PoolValue>, syms: seq<Sym>, scapa: nat, insns: seq<Insn>) {
    0 <= sp <= UINT16_MAX && 0 <= nregs <= UINT16_MAX && 0 <= nlocals <= UINT16_MAX
    && PoolRefs(insns, |pool|)
    && SymCapacity(scapa) && |syms| <= scapa && NoDuplicates(syms)
  }

  /** Appending one instruction keeps the code invariant and the tables' invariant. */
  lemma AppendOk(iseq: seq<byte>, pc: nat, lastpc: nat, lastlabel: nat, insns: seq<Insn>, bytes: seq<byte>, r: Insn,
                 sp: int, nregs: int, nlocals: int, pool: seq<PoolValue>, syms: seq<Sym>, scapa: nat)
    requires CodeOk(iseq, pc, lastpc, lastlabel, insns) && TablesOk(sp, nregs, nlocals, pool, syms, scapa, insns)
    requires |bytes| > 0 && r.addr == pc && r.size == |bytes|
    requires 0 <= r.b <= 0xffff && 0 <= r.c <= 0xffff && (r.op == OP_LOADL ==> r.b < |pool|)
    ensures CodeOk(iseq + bytes, pc + |bytes|, pc, lastlabel, insns + [r])
    ensures TablesOk(sp, nregs, nlocals, pool, syms, scapa, insns + [r])
  {
    AppendTiles(insns, pc, r, lastlabel);
    AppendRefs(insns, r, |pool|);
  }

  class CodegenScope {
    const cxt: Context
    const prev: CodegenScope?
    /** Number of enclosing scopes; it makes the walk over `prev` terminate. */
    const depth: nat
    const lv: seq<Sym>
    const nlocals: int

    var iseq: seq<byte>
    var pc: nat
    var lastpc: nat
    var lastlabel: nat
    var insns: seq<Insn>
    var sp: int
    var nregs: int
    var pool: seq<PoolValue>
    var syms: seq<Sym>
    var scapa: nat
    /** Whether this scope's irep exists yet, and how many child ireps it has (irep->rlen). */
    var hasIrep: bool
    var rlen: nat
    /** The loop stack, innermost last (s->loop and its prev links). */
    var loops: seq<LoopInfo>
    var rlev: int

    /** The chain of enclosing scopes is finite. */
    ghost predicate Linked()
      decreases depth
    {
      if prev == null then depth == 0 else prev.depth + 1 == depth && prev.Linked()
    }

    ghost predicate Valid()
      reads this
    {
      CodeOk(iseq, pc, lastpc, lastlabel, insns) && TablesOk(sp, nregs, nlocals, pool, syms, scapa, insns)
      && (hasIrep ==> scapa != 0)
    }

    /** The instruction buffer and its marks are as before. */
    twostate predicate CodeUnchanged()
      reads this
    {
      iseq == old(iseq) && pc == old(pc) && lastpc == old(lastpc)
      && lastlabel == old(lastlabel) && insns == old(insns)
    }

    /** One instruction was appended: its bytes, and its record starting at the old pc. */
    twostate predicate Appended(bytes: seq<byte>, op: byte, a: int, b: int, c: int)
      reads this
    {
      iseq == old(iseq) + bytes && pc == old(pc) + |bytes| && lastpc == old(pc)
      && insns == old(insns) + [Insn(op, a, b, c, old(pc), |bytes|)]
      && lastlabel == old(lastlabel)
    }

    /** The code was cut back to its first keep records; nothing was appended. */
    twostate predicate CutTo(keep: nat)
      reads this
    {
      keep < |old(insns)| && old(insns[keep].addr) <= |old(iseq)|
      && iseq == old(iseq)[..old(insns[keep].addr)] && pc == old(insns[keep].addr) && lastpc == pc
      && insns == old(insns)[..keep] && lastlabel == old(lastlabel)
    }

    /** The code was cut back to its first keep records, then one instruction was appended. */
    twostate predicate Replaced(keep: nat, bytes: seq<byte>, op: byte, a: int, b: int, c: int)
      reads this
    {
      keep < |old(insns)| && old(insns[keep].addr) <= |old(iseq)|
      && var base := old(insns[keep].addr);
      iseq == old(iseq)[..base] + bytes && pc == base + |bytes| && lastpc == base
      && insns == old(insns)[..keep] + [Insn(op, a, b, c, base, |bytes|)]
      && lastlabel == old(lastlabel)
    }

    /**
     * no_peephole: rewriting is off with optimisation disabled, right after
     * a label, at the start of the code, and right after a rewind.
     */
    predicate NoPeephole()
      reads this
    {
      cxt.noOptimize || lastlabel == pc || pc == 0 || pc == lastpc
    }

    /** mrb_last_insn, once NoPeephole() is false. */
    function LastInsn(): Insn
      reads this
      requires |insns| > 0
    {
      insns[|insns| - 1]
    }

    /**
     * scope_new: a scope with no enclosing scope is the zeroed outermost
     * one; any other gets empty buffers and its locals numbered from 1,
     * register 0 being self.
     */
    constructor (cxt: Context, prev: CodegenScope?, lv: seq<Sym>)
      requires prev != null ==> prev.Linked()
      ensures Valid() && Linked()
      ensures this.cxt == cxt && this.prev == prev
      ensures iseq == [] && pc == 0 && lastpc == 0 && lastlabel == 0 && insns == []
      ensures pool == [] && syms == [] && loops == [] && nregs == 0 && rlen == 0
      ensures prev == null ==> this.lv == [] && sp == 0 && nlocals == 0 && scapa == 0 && rlev == 0 && !hasIrep
      ensures prev != null ==>
                this.lv == lv && sp == (|lv| + 1) % 0x1_0000 && nlocals == sp
                && scapa == 0x100 && rlev == old(prev.rlev) + 1 && hasIrep
    {
      this.cxt := cxt;
      this.prev := prev;
      if prev == null {
        depth := 0;
        this.lv := [];
        nlocals := 0;
        sp := 0;
        scapa := 0;
        rlev := 0;
        hasIrep := false;
      } else {
        depth := prev.depth + 1;
        this.lv := lv;
        var n := (|lv| + 1) % 0x1_0000;   // s->sp += lvsize+1 on a uint16_t
        sp := n;
        nlocals := n;
        scapa := 0x100;
        rlev := prev.rlev + 1;
        hasIrep := true;
      }
      iseq := [];
      pc := 0;
      lastpc := 0;
      lastlabel := 0;
      insns := [];
      nregs := 0;
      pool := [];
      syms := [];
      rlen := 0;
      loops := [];
    }
  }

  // ---------------------------------------------------------------------
  // The two primitive changes of the instruction buffer
  // ---------------------------------------------------------------------

  /** Append one instruction's bytes and its record; lastpc marks its start. */
  method Emit(s: CodegenScope, bytes: seq<byte>, op: byte, a: int, b: int, c: int)
    requires s.Valid() && |bytes| > 0 && 0 <= b <= 0xffff && 0 <= c <= 0xffff
    requires op == OP_LOADL ==> b < |s.pool|
    requires Decode(s.iseq + bytes, s.pc) == Some(Insn(op, a, b, c, s.pc, |bytes|))
    modifies s`iseq, s`pc, s`lastpc, s`insns
    ensures s.Valid()
    ensures s.Appended(bytes, op, a, b, c)
  {
    var r := Insn(op, a, b, c, s.pc, |bytes|);
    AppendOk(s.iseq, s.pc, s.lastpc, s.lastlabel, s.insns, bytes, r, s.sp, s.nregs, s.nlocals, s.pool, s.syms, s.scapa);
    s.lastpc := s.pc;
    s.iseq := s.iseq + bytes;
    s.pc := s.pc + |bytes|;
    s.insns := s.insns + [r];
  }

  /**
   * Cut the buffer back to the start of record k (rewind_pc, or
   * `s->pc = addr_pc(s, data.addr)`).  The cut never crosses lastlabel and
   * never removes a jump.  lastpc is left at the new pc: the C code leaves
   * it stale, but always emits an instruction before it is read again.
   */
  method RewindTo(s: CodegenScope, k: nat)
    requires s.Valid() && k < |s.insns| && s.lastlabel <= s.insns[k].addr
    requires forall j :: k <= j < |s.insns| ==> !IsJump(s.insns[j].op)
    modifies s`iseq, s`pc, s`lastpc, s`insns
    ensures s.Valid()
    ensures s.pc == old(s.insns[k].addr) && s.pc <= old(s.pc) && s.iseq == old(s.iseq)[..s.pc]
    ensures s.insns == old(s.insns[..k]) && s.lastpc == s.pc
    ensures s.lastlabel == old(s.lastlabel) && s.CutTo(k)
  {
    var p := s.insns[k].addr;
    TruncateTiles(s.insns, s.pc, k, s.lastlabel);
    TilesWithin(s.insns, s.pc, k);
    s.pc := p;
    s.iseq := s.iseq[..p];
    s.insns := s.insns[..k];
    s.lastpc := p;
  }
}
