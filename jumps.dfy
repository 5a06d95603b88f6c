/**
 * Emitting and resolving jumps: gen_jmpdst, genjmp, genjmp2 with its
 * peephole on conditional jumps, dispatch and dispatch_linked
 * (codegen.yarp.c lines 531-619 and 974-1002).
 *
 * A forward jump is emitted before its destination is known; its offset
 * slot then links to the previous pending jump of the same destination
 * (the chains of JumpLinks), and dispatch_linked patches the whole chain
 * once the destination is reached.
 */
module Jumps {
  import opened MachineInts
  import opened Opcodes
  import opened Encoding
  import opened Wrappers
  import opened JumpLinks
  import opened Scope
  import opened Emitter

  const JUMP_TOO_BIG: string := "too big jump offset"

  predicate IsCondJump(i: byte) {
    i == OP_JMPIF || i == OP_JMPNOT || i == OP_JMPNIL
  }

  /** How a conditional jump sees the value a constant load leaves in its register. */
  datatype Truth = NilValue | FalseValue | TrueValue

  /** The loads genjmp2 folds into the jump that follows them. */
  predicate IsConstLoad(op: byte) {
    op == OP_LOADNIL || op == OP_LOADF || op == OP_LOADT || op == OP_LOADI
    || op == OP_LOADINEG || op == OP_LOADI__1 || IsLoadISmall(op)
  }

  function LoadedTruth(op: byte): Truth
    requires IsConstLoad(op)
  {
    if op == OP_LOADNIL then NilValue else if op == OP_LOADF then FalseValue else TrueValue
  }

  /** Whether the conditional jump i is taken on a register holding v. */
  predicate Taken(i: byte, v: Truth)
    requires IsCondJump(i)
  {
    if i == OP_JMPIF then v == TrueValue
    else if i == OP_JMPNOT then v != TrueValue
    else v == NilValue
  }

  /** What genjmp2 makes of a conditional jump. */
  datatype CondJump =
    | Test(reg: u16, rewound: bool)  // emit the jump on reg; rewound: the MOVE before it was dropped
    | Always                         // the load is dropped and the jump becomes OP_JMP
    | Never                          // the load and the jump are both dropped

  /**
   * The peephole of genjmp2 as written, on the last instruction `last`
   * before a conditional jump i on register a.  A MOVE into a temporary is
   * bypassed; a constant load into the tested register, or into any
   * temporary at all, is dropped together with the test, and the jump is
   * kept exactly when the loaded constant would take it.
   */
  function FoldCondJumpAsWritten(i: byte, a: u16, last: Insn, nlocals: int): (r: CondJump)
    requires IsCondJump(i) && 0 <= last.b <= 0xffff
    ensures IsConstLoad(last.op) && (last.a == a || last.a > nlocals) ==>
              (r == Always <==> Taken(i, LoadedTruth(last.op))) && (r == Never <==> !Taken(i, LoadedTruth(last.op)))
    ensures IsConstLoad(last.op) && last.a != a && last.a <= nlocals ==> r == Test(a, false)
    ensures last.op == OP_MOVE ==>
              r == if last.a == a && last.a > nlocals then Test(last.b, true) else Test(a, false)
    ensures !IsConstLoad(last.op) && last.op != OP_MOVE ==> r == Test(a, false)
  {
    if last.op == OP_MOVE then
      if last.a == a && last.a > nlocals then Test(last.b, true) else Test(a, false)
    else if last.op == OP_LOADNIL || last.op == OP_LOADF then
      if last.a == a || last.a > nlocals then
        if i == OP_JMPNOT || (i == OP_JMPNIL && last.op == OP_LOADNIL) then Always else Never
      else Test(a, false)
    else if IsConstLoad(last.op) then
      if last.a == a || last.a > nlocals then
        if i == OP_JMPIF then Always else Never
      else Test(a, false)
    else Test(a, false)
  }

  /**
   * genjmp2's peephole with the condition of its MOVE case on the loads
   * too: a constant load is folded away only when it fills the tested
   * temporary, and then the jump is kept exactly when it is taken on the
   * constant.  A MOVE into the tested temporary is tested at its source;
   * anything else is tested as is.
   */
  function FoldCondJump(i: byte, a: u16, last: Insn, nlocals: int): (r: CondJump)
    requires IsCondJump(i) && 0 <= last.b <= 0xffff
    ensures (r == Always || r == Never) <==> IsConstLoad(last.op) && last.a == a && last.a > nlocals
    ensures IsConstLoad(last.op) && last.a == a && last.a > nlocals ==>
              (r == Always <==> Taken(i, LoadedTruth(last.op))) && (r == Never <==> !Taken(i, LoadedTruth(last.op)))
    ensures last.op == OP_MOVE ==>
              r == if last.a == a && last.a > nlocals then Test(last.b, true) else Test(a, false)
    ensures last.op != OP_MOVE && !(IsConstLoad(last.op) && last.a == a && last.a > nlocals) ==> r == Test(a, false)
  {
    if IsConstLoad(last.op) && !(last.a == a && last.a > nlocals) then Test(a, false)
    else FoldCondJumpAsWritten(i, a, last, nlocals)
  }

  /**
   * genjmp2 as written folds a constant load into any temporary, though
   * the jump tests another register: `LOADT t; JMPIF a` becomes an
   * unconditional jump whatever a holds, and `JMPNOT a` after it
   * vanishes.  Corrected, a is tested.
   */
  lemma CondJumpFoldAsWritten(a: u16, t: u16, nlocals: int)
    requires t != a && t > nlocals
    ensures FoldCondJumpAsWritten(OP_JMPIF, a, Insn(OP_LOADT, t, 0, 0, 0, 2), nlocals) == Always
    ensures FoldCondJumpAsWritten(OP_JMPNOT, a, Insn(OP_LOADT, t, 0, 0, 0, 2), nlocals) == Never
    ensures FoldCondJump(OP_JMPIF, a, Insn(OP_LOADT, t, 0, 0, 0, 2), nlocals) == Test(a, false)
    ensures FoldCondJump(OP_JMPNOT, a, Insn(OP_LOADT, t, 0, 0, 0, 2), nlocals) == Test(a, false)
  {
  }

  /** The decision genjmp2 takes in scope s: no rewrite when the peephole is off or val is set. */
  function PeepholeFold(s: CodegenScope, i: byte, a: u16, val: bool): CondJump
    reads s
    requires s.Valid() && IsCondJump(i)
  {
    if s.NoPeephole() || val then Test(a, false)
    else FoldCondJump(i, a, s.LastInsn(), s.nlocals)
  }

  /** How many records survive genjmp2's rewrite, and the address the new code starts at. */
  function FoldPoint(s: CodegenScope, f: CondJump): (r: (nat, nat))
    reads s
    requires s.Valid()
    requires !(f.Test? && !f.rewound) ==> |s.insns| > 0
    ensures r.0 <= |s.insns| && r.1 <= s.pc
  {
    if f.Test? && !f.rewound then (|s.insns|, s.pc)
    else
      TilesWithin(s.insns, s.pc, |s.insns| - 1);
      (|s.insns| - 1, s.LastInsn().addr)
  }

  /**
   * genjmp with gen_jmpdst: an unconditional jump whose slot holds the
   * offset to `target`, measured from the end of the slot; a target of
   * JMPLINK_START makes the slot the end of a new chain.  Returns the
   * address of the slot.  An offset outside int16 is an error.
   */
  method GenJmp(s: CodegenScope, i: byte, target: u32) returns (r: Result<int>)
    requires s.Valid() && (i == OP_JMP || i == OP_JMPUW)
    modifies s`iseq, s`pc, s`lastpc, s`insns
    ensures s.Valid()
    ensures r.Fail? <==> !IsInt16(JmpOffset(old(s.pc) + 1, target))
    ensures r.Fail? ==> r.msg == JUMP_TOO_BIG && s.CodeUnchanged()
    ensures r.Ok? ==>
              r.value == old(s.pc) + 1 && r.value + 2 == s.pc
              && s.Appended(JmpBytes(i, ToU16(JmpOffset(r.value, target))), i, ToU16(JmpOffset(r.value, target)), 0, 0)
  {
    var site := s.pc + 1;
    var off := JmpOffset(site, target);
    if !IsInt16(off) {
      return Fail(JUMP_TOO_BIG);
    }
    var v := ToU16(off);
    JmpRoundTrip(s.iseq, i, v);
    Emit(s, JmpBytes(i, v), i, v, 0, 0);
    r := Ok(site);
  }

  /**
   * A jump emitted at the end of the code, after it was cut back to
   * `base`, with its slot aimed at t (gen_jmpdst), heads t's chain
   * extended by the new site, or a chain of its own when t is
   * JMPLINK_START.  This is what lets the slots of every jump to one
   * unknown destination be found again from the newest one.
   */
  lemma JumpOntoChain(c0: seq<byte>, base: nat, ops: seq<byte>, t: int, code: seq<byte>)
    requires base <= |c0|
    requires t == JMPLINK_START || (0 < t < JMPLINK_START && Chain(c0, t) && t + 2 <= base)
    requires IsInt16(JmpOffset(base + |ops|, t))
    requires code == c0[..base] + (ops + SBytes(ToU16(JmpOffset(base + |ops|, t))))
    ensures Chain(code, base + |ops|)
    ensures Sites(code, base + |ops|) == [base + |ops|] + (if t == JMPLINK_START then [] else Sites(c0, t))
  {
    SlotAtEnd(c0, base, ops, ToU16(JmpOffset(base + |ops|, t)));
    ExtendCutChain(c0, base, code, base + |ops|, t);
  }

  /** The code cut back to base and followed by ops and a slot keeps its prefix and holds v in the slot. */
  lemma SlotAtEnd(c0: seq<byte>, base: nat, ops: seq<byte>, v: u16)
    requires base <= |c0|
    ensures var code := c0[..base] + (ops + SBytes(v));
            var site := base + |ops|;
            |code| == site + 2 && code[..base] == c0[..base] && BE16(code[site], code[site + 1]) == v
  {
    var code := c0[..base] + (ops + SBytes(v));
    var site := base + |ops|;
    assert code[..base] == c0[..base];
    assert code[site] == Hi(v) && code[site + 1] == Lo(v);
    BE16OfBytes(v);
  }


  /**
   * The peephole step of genjmp2: decide what becomes of the jump and drop
   * the last instruction when the decision bypasses it.
   */
  method PeepholeForJump(s: CodegenScope, i: byte, a: u16, val: bool) returns (f: CondJump)
    requires s.Valid() && IsCondJump(i)
    modifies s`iseq, s`pc, s`lastpc, s`insns
    ensures f == old(PeepholeFold(s, i, a, val))
    ensures s.Valid()
    ensures var (keep, base) := old(FoldPoint(s, f));
            s.pc == base && s.iseq == old(s.iseq)[..base] && s.insns == old(s.insns)[..keep]
            && s.lastpc == if f.Test? && !f.rewound then old(s.lastpc) else base
  {
    f := PeepholeFold(s, i, a, val);
    if !(f.Test? && !f.rewound) {
      var k := |s.insns| - 1;
      LabelAtOrBefore(s.insns, s.pc, s.lastlabel, k);
      RewindTo(s, k);
    }
  }

  /**
   * The emission of genjmp2: the conditional jump i on register reg, its
   * slot holding the offset to `target` (gen_jmpdst).  Returns the slot
   * address.
   */
  method EmitCondJump(s: CodegenScope, i: byte, reg: u16, target: u32) returns (r: Result<int>)
    requires s.Valid() && IsCondJump(i)
    modifies s`iseq, s`pc, s`lastpc, s`insns
    ensures s.Valid()
    ensures r.Fail? <==> CheckNoExtOps(s.cxt, reg, 0).Error? || !IsInt16(JmpOffset(old(s.pc) + |Op1Bytes(i, reg)|, target))
    ensures r.Fail? ==> s.CodeUnchanged()
    ensures r.Fail? ==> r.msg == if CheckNoExtOps(s.cxt, reg, 0).Error? then EXT_PROHIBITED else JUMP_TOO_BIG
    ensures r.Ok? ==> r.value == old(s.pc) + |Op1Bytes(i, reg)| && r.value + 2 == s.pc
    ensures r.Ok? ==> s.Appended(Op2SBytes(i, reg, ToU16(JmpOffset(r.value, target))), i, reg, ToU16(JmpOffset(r.value, target)), 0)
  {
    var e := CheckNoExtOps(s.cxt, reg, 0);
    if e.Error? {
      return Fail(e.msg);
    }
    var site := s.pc + |Op1Bytes(i, reg)|;
    var off := JmpOffset(site, target);
    if !IsInt16(off) {
      return Fail(JUMP_TOO_BIG);
    }
    var v := ToU16(off);
    Op2SRoundTrip(s.iseq, i, reg, v);
    Emit(s, Op2SBytes(i, reg, v), i, reg, v, 0);
    r := Ok(site);
  }

  /**
   * genjmp2: a conditional jump on register a.  Unless the peephole is
   * off or `val` asks for the tested value to be kept, the last
   * instruction is looked at first (FoldCondJump).  Returns the slot
   * address, or JMPLINK_START when no jump remains.
   */
  method GenJmp2(s: CodegenScope, i: byte, a: u16, target: u32, val: bool) returns (r: Result<int>)
    requires s.Valid() && IsCondJump(i)
    modifies s`iseq, s`pc, s`lastpc, s`insns
    ensures s.Valid()
    ensures var f := old(PeepholeFold(s, i, a, val));
            var (keep, base) := old(FoldPoint(s, f));
            match f
            case Never =>
              r == Ok(JMPLINK_START) && s.pc == base && s.lastpc == base
              && s.iseq == old(s.iseq)[..base] && s.insns == old(s.insns)[..keep]
            case Always =>
              var off := JmpOffset(base + 1, target);
              (r.Fail? <==> !IsInt16(off))
              && (r.Fail? ==> r.msg == JUMP_TOO_BIG)
              && (r.Ok? ==>
                    r.value == base + 1 && s.pc == base + 3 && s.lastpc == base
                    && s.iseq == old(s.iseq)[..base] + JmpBytes(OP_JMP, ToU16(off))
                    && s.insns == old(s.insns)[..keep] + [Insn(OP_JMP, ToU16(off), 0, 0, base, 3)])
            case Test(reg, _) =>
              var site := base + |Op1Bytes(i, reg)|;
              var off := JmpOffset(site, target);
              (r.Fail? <==> CheckNoExtOps(s.cxt, reg, 0).Error? || !IsInt16(off))
              && (r.Fail? ==> r.msg == if CheckNoExtOps(s.cxt, reg, 0).Error? then EXT_PROHIBITED else JUMP_TOO_BIG)
              && (r.Ok? ==>
                    r.value == site && s.pc == site + 2 && s.lastpc == base
                    && s.iseq == old(s.iseq)[..base] + Op2SBytes(i, reg, ToU16(off))
                    && s.insns == old(s.insns)[..keep] + [Insn(i, reg, ToU16(off), 0, base, site + 2 - base)])
  {
    ghost var iseq0, insns0 := s.iseq, s.insns;
    ghost var (keep, base) := FoldPoint(s, PeepholeFold(s, i, a, val));
    var f := PeepholeForJump(s, i, a, val);
    assert s.pc == base && s.iseq == iseq0[..base] && s.insns == insns0[..keep];
    match f {
      case Never =>
        r := Ok(JMPLINK_START);
      case Always =>
        r := GenJmp(s, OP_JMP, target);
      case Test(reg, _) =>
        r := EmitCondJump(s, i, reg, target);
    }
  }

  /**
   * dispatch: resolve the slot at pos0 to jump to the current pc, which
   * becomes a label; returns the next site of its chain, or 0 at the end.
   * A forward offset beyond INT16_MAX is an error.
   */
  method Dispatch(s: CodegenScope, pos0: u32) returns (r: Result<int>)
    requires s.Valid() && (pos0 == JMPLINK_START || pos0 + 2 <= s.pc)
    modifies s`iseq, s`lastlabel
    ensures s.Valid()
    ensures pos0 == JMPLINK_START ==> r == Ok(0) && s.CodeUnchanged()
    ensures pos0 != JMPLINK_START ==> (r.Fail? <==> DispatchOffset(pos0, s.pc) > INT16_MAX)
    ensures r.Fail? ==> r.msg == JMP_TOO_BIG && s.CodeUnchanged()
    ensures pos0 != JMPLINK_START && r.Ok? ==>
              s.iseq == PutS(old(s.iseq), pos0, ToU16(DispatchOffset(pos0, s.pc))) && s.lastlabel == s.pc
              && r.value == DispatchNext(old(s.iseq), pos0)
  {
    if pos0 == JMPLINK_START {
      return Ok(0);
    }
    var offset := DispatchOffset(pos0, s.pc);
    if offset > INT16_MAX {
      return Fail(JMP_TOO_BIG);
    }
    s.lastlabel := s.pc;
    var newpos := Link(s.iseq, pos0);
    ghost var c0 := s.iseq;
    s.iseq := PutS(s.iseq, pos0, ToU16(offset));
    if newpos == 0 {
      r := Ok(0);
    } else {
      r := Ok(ToU32(pos0 + 2 + newpos));
    }
    assert r.value == DispatchNext(c0, pos0);
  }

  /**
   * dispatch_linked: resolve every site of the chain from pos to the
   * current pc, calling dispatch until the chain ends.  The result is the
   * one ResolveChain describes: an error exactly when one of the sites lies
   * too far back, and otherwise every jump of the chain landing on pc.
   */
  method DispatchLinked(s: CodegenScope, pos: u32) returns (r: Outcome)
    requires s.Valid() && (pos == JMPLINK_START || Chain(s.iseq, pos))
    modifies s`iseq, s`lastlabel
    ensures s.Valid()
    ensures pos == JMPLINK_START ==> r == Pass && s.iseq == old(s.iseq) && s.lastlabel == old(s.lastlabel)
    ensures pos != JMPLINK_START ==>
              (r.Error? <==> ResolveChain(old(s.iseq), pos, s.pc).Fail?)
              && (r.Error? ==> r.msg == JMP_TOO_BIG)
              && (r.Pass? ==> s.iseq == ResolveChain(old(s.iseq), pos, s.pc).value && s.lastlabel == s.pc)
  {
    if pos == JMPLINK_START {
      return Pass;
    }
    ghost var c0 := s.iseq;
    var p: u32 := pos;
    while true
      invariant s.Valid() && Chain(s.iseq, p)
      invariant ResolveChain(s.iseq, p, s.pc) == ResolveChain(c0, pos, s.pc)
      invariant s.iseq != c0 ==> s.lastlabel == s.pc
      decreases p
    {
      ghost var before := s.iseq;
      DispatchNextOnChain(before, p);
      var q := Dispatch(s, p);
      if q.Fail? {
        return Error(q.msg);
      }
      if q.value == 0 {
        break;
      }
      NextAfterPatch(before, p, ToU16(DispatchOffset(p, s.pc)));
      p := q.value;
    }
    r := Pass;
  }

  /**
   * What dispatch_linked promises about the chain: it fails exactly when
   * one of the chain's sites lies more than INT16_MAX bytes back, and
   * otherwise every slot of the chain is patched so that its jump lands on
   * dest, and no other byte changes.
   */
  lemma ResolvedJumpsLand(code: seq<byte>, pos: nat, dest: nat)
    requires Chain(code, pos) && pos + 2 <= dest
    ensures var sites := Sites(code, pos);
            var res := ResolveChain(code, pos, dest);
            (res.Fail? <==> SomeTooFar(sites, dest))
            && (res.Ok? ==>
                  (forall k :: 0 <= k < |sites| ==> sites[k] + 2 + Link(res.value, sites[k]) == dest)
                  && (forall i :: 0 <= i < |code| && !InSlot(i, sites) ==> res.value[i] == code[i]))
  {
    ResolveChainSpec(code, pos, dest);
    if ResolveChain(code, pos, dest).Ok? {
      ResolvedChainLandsOnDest(code, pos, dest);
    }
  }
}
