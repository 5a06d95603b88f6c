/**
 * The register stack and the loop stack of a scope: push_n_ / pop_n_
 * (codegen.yarp.c lines 1004-1022), loop_push and loop_pop (lines
 * 4311-4322 and 4386-4395).
 *
 * sp is the first free register; nregs, the size of the register file the
 * irep will ask for, is the highest sp reached.  A loop records the
 * register its value goes to and the head of the chain of `break` jumps,
 * which loop_pop resolves to the code after the loop.
 */
module Registers {
  import opened MachineInts
  import opened Opcodes
  import opened Encoding
  import opened Wrappers
  import opened JumpLinks
  import opened Scope
  import opened Emitter
  import opened Jumps

  const TOO_COMPLEX: string := "too complex expression"
  const SP_UNDERFLOW: string := "stack pointer underflow"

  function Max(x: int, y: int): (m: int)
    ensures m >= x && m >= y && (m == x || m == y)
  {
    if x >= y then x else y
  }

  /**
   * push_n_: claim n more registers.  The stack may not reach 0xffff; the
   * register file grows to cover the new top.
   */
  method PushN(s: CodegenScope, n: nat) returns (r: Outcome)
    requires s.Valid()
    modifies s`sp, s`nregs
    ensures s.Valid()
    ensures r.Error? <==> old(s.sp) + n >= 0xffff
    ensures r.Error? ==> r.msg == TOO_COMPLEX && s.sp == old(s.sp) && s.nregs == old(s.nregs)
    ensures r.Pass? ==> s.sp == old(s.sp) + n && s.nregs == Max(old(s.nregs), s.sp)
  {
    if s.sp + n >= 0xffff {
      return Error(TOO_COMPLEX);
    }
    s.sp := s.sp + n;
    if s.sp > s.nregs {
      s.nregs := s.sp;
    }
    r := Pass;
  }

  /** pop_n_: release n registers; the stack may not go below register 0. */
  method PopN(s: CodegenScope, n: nat) returns (r: Outcome)
    requires s.Valid()
    modifies s`sp
    ensures s.Valid()
    ensures r.Error? <==> old(s.sp) < n
    ensures r.Error? ==> r.msg == SP_UNDERFLOW && s.sp == old(s.sp)
    ensures r.Pass? ==> s.sp == old(s.sp) - n
  {
    if s.sp - n < 0 {
      return Error(SP_UNDERFLOW);
    }
    s.sp := s.sp - n;
    r := Pass;
  }

  /**
   * loop_push: open a loop of kind t whose value goes to the current top
   * of the stack, with its next / redo / break chains empty.
   */
  method LoopPush(s: CodegenScope, t: LoopKind)
    requires s.Valid()
    modifies s`loops
    ensures s.Valid()
    ensures s.loops == old(s.loops) + [LoopInfo(t, JMPLINK_START, JMPLINK_START, JMPLINK_START, s.sp)]
  {
    s.loops := s.loops + [LoopInfo(t, JMPLINK_START, JMPLINK_START, JMPLINK_START, s.sp)];
  }

  /** The innermost loop's break chain is empty or a chain of pending jumps in code. */
  predicate BreakChainOk(code: seq<byte>, loop: LoopInfo) {
    loop.pc2 == JMPLINK_START || (0 <= loop.pc2 <= UINT32_MAX && Chain(code, loop.pc2))
  }

  /** The code with every break jump of the chain at pc2 patched to land at its end. */
  function BreakExit(code: seq<byte>, pc2: int): (r: Result<seq<byte>>)
    requires pc2 == JMPLINK_START || (0 <= pc2 && Chain(code, pc2))
    ensures r.Ok? ==> |r.value| == |code|
  {
    if pc2 == JMPLINK_START then Ok(code) else ResolveChain(code, pc2, |code|)
  }

  /** The code loop_pop leaves: the optional nil load, then the break jumps patched to land after it. */
  function LoopExitCode(code: seq<byte>, pc2: int, load: seq<byte>): (r: Result<seq<byte>>)
    requires pc2 == JMPLINK_START || (0 <= pc2 && Chain(code, pc2))
    ensures r.Ok? ==> |r.value| == |code| + |load|
  {
    ChainPrefixIfAny(code, code + load, pc2);
    BreakExit(code + load, pc2)
  }

  /**
   * loop_pop: with a value wanted, load nil into the top register (the
   * loop's value when it ends without `break`); patch every `break` of
   * the innermost loop to land here; close the loop; and claim the value's
   * register.
   */
  method LoopPop(s: CodegenScope, val: bool) returns (r: Outcome)
    requires s.Valid() && |s.loops| > 0 && BreakChainOk(s.iseq, s.loops[|s.loops| - 1])
    modifies s`iseq, s`pc, s`lastpc, s`insns, s`lastlabel, s`loops, s`sp, s`nregs
    ensures s.Valid()
    ensures var top := old(s.loops[|s.loops| - 1]);
            var load := if val then Op1Bytes(OP_LOADNIL, old(s.sp)) else [];
            var exit := LoopExitCode(old(s.iseq), top.pc2, load);
            r.Pass? <==>
              (val ==> CheckNoExtOps(s.cxt, old(s.sp), 0).Pass? && old(s.sp) + 1 < 0xffff) && exit.Ok?
    ensures r.Error? ==> r.msg in {EXT_PROHIBITED, JMP_TOO_BIG, TOO_COMPLEX}
    ensures var top := old(s.loops[|s.loops| - 1]);
            var load := if val then Op1Bytes(OP_LOADNIL, old(s.sp)) else [];
            r.Pass? ==>
              s.iseq == LoopExitCode(old(s.iseq), top.pc2, load).value
              && s.pc == old(s.pc) + |load|
              && s.insns == old(s.insns) + (if val then [Insn(OP_LOADNIL, old(s.sp), 0, 0, old(s.pc), |load|)] else [])
              && s.lastpc == (if val then old(s.pc) else old(s.lastpc))
              && s.lastlabel == (if top.pc2 == JMPLINK_START then old(s.lastlabel) else s.pc)
              && s.loops == old(s.loops[..|s.loops| - 1])
              && s.sp == old(s.sp) + (if val then 1 else 0)
              && s.nregs == (if val then Max(old(s.nregs), s.sp) else old(s.nregs))
  {
    var top := s.loops[|s.loops| - 1];
    ghost var load := if val then Op1Bytes(OP_LOADNIL, s.sp) else [];
    ghost var code0 := s.iseq;
    r := LoadLoopValue(s, val, top);
    if r.Error? {
      return;
    }
    assert s.iseq == code0 + load;
    assert LoopExitCode(code0, top.pc2, load) == BreakExit(s.iseq, top.pc2);
    ghost var pc1, insns1, lastpc1 := s.pc, s.insns, s.lastpc;
    r := CloseLoop(s, val, top);
    assert s.pc == pc1 && s.insns == insns1 && s.lastpc == lastpc1;
  }

  /** loop_pop's nil load into the top register, which leaves the break chain in place. */
  method LoadLoopValue(s: CodegenScope, val: bool, top: LoopInfo) returns (r: Outcome)
    requires s.Valid() && BreakChainOk(s.iseq, top)
    modifies s`iseq, s`pc, s`lastpc, s`insns
    ensures s.Valid() && BreakChainOk(s.iseq, top)
    ensures r == (if val then CheckNoExtOps(s.cxt, old(s.sp), 0) else Pass)
    ensures r.Pass? && val ==> s.Appended(Op1Bytes(OP_LOADNIL, old(s.sp)), OP_LOADNIL, old(s.sp), 0, 0)
    ensures r.Error? || !val ==> s.CodeUnchanged()
  {
    if !val {
      return Pass;
    }
    ghost var code0 := s.iseq;
    r := Genop1(s, OP_LOADNIL, s.sp as u16);
    if r.Pass? {
      ChainPrefixIfAny(code0, s.iseq, top.pc2);
    }
  }

  /** The rest of loop_pop: patch the break chain to land here, close the loop, claim the value's register. */
  method CloseLoop(s: CodegenScope, val: bool, top: LoopInfo) returns (r: Outcome)
    requires s.Valid() && |s.loops| > 0 && top == s.loops[|s.loops| - 1] && BreakChainOk(s.iseq, top)
    modifies s`iseq, s`lastlabel, s`loops, s`sp, s`nregs
    ensures s.Valid()
    ensures r.Pass? <==> (val ==> old(s.sp) + 1 < 0xffff) && BreakExit(old(s.iseq), top.pc2).Ok?
    ensures r.Error? ==> r.msg in {JMP_TOO_BIG, TOO_COMPLEX}
    ensures r.Pass? ==>
              s.iseq == BreakExit(old(s.iseq), top.pc2).value
              && s.lastlabel == (if top.pc2 == JMPLINK_START then old(s.lastlabel) else s.pc)
              && s.loops == old(s.loops[..|s.loops| - 1])
              && s.sp == old(s.sp) + (if val then 1 else 0)
              && s.nregs == (if val then Max(old(s.nregs), s.sp) else old(s.nregs))
  {
    ghost var code0 := s.iseq;
    r := DispatchLinked(s, top.pc2 as u32);
    if r.Error? {
      return;
    }
    assert s.iseq == BreakExit(code0, top.pc2).value;
    r := PopLoop(s, val);
  }

  /** Drop the innermost loop and, with val, claim the register its value is in. */
  method PopLoop(s: CodegenScope, val: bool) returns (r: Outcome)
    requires s.Valid() && |s.loops| > 0
    modifies s`loops, s`sp, s`nregs
    ensures s.Valid()
    ensures r.Pass? <==> (val ==> old(s.sp) + 1 < 0xffff)
    ensures r.Error? ==> r.msg == TOO_COMPLEX
    ensures s.loops == old(s.loops[..|s.loops| - 1])
    ensures r.Pass? ==>
              s.sp == old(s.sp) + (if val then 1 else 0)
              && s.nregs == (if val then Max(old(s.nregs), s.sp) else old(s.nregs))
  {
    s.loops := s.loops[..|s.loops| - 1];
    r := Pass;
    if val {
      r := PushN(s, 1);
    }
  }

  /**
   * Every break of the loop lands right after loop_pop's nil load, at the
   * end of the code; nothing but the jumps' offset slots changes.
   */
  lemma BreaksLandAfterLoop(code: seq<byte>, pc2: int, load: seq<byte>)
    requires 0 <= pc2 < JMPLINK_START && Chain(code, pc2)
    ensures var exit := LoopExitCode(code, pc2, load);
            var sites := Sites(code, pc2);
            var dest := |code| + |load|;
            exit.Ok? ==>
              (forall k :: 0 <= k < |sites| ==> sites[k] + 2 + Link(exit.value, sites[k]) == dest)
              && (forall i :: 0 <= i < dest && !InSlot(i, sites) ==> exit.value[i] == (code + load)[i])
  {
    var c := code + load;
    assert c[..pc2 + 2] == code[..pc2 + 2];
    ChainPrefix(code, c, pc2);
    LandsOnEnd(c, pc2);
  }

  /** Resolving a chain at the end of the code, as ResolvedJumpsLand states it. */
  lemma LandsOnEnd(c: seq<byte>, pc2: int)
    requires 0 <= pc2 < JMPLINK_START && Chain(c, pc2)
    ensures var exit := BreakExit(c, pc2);
            var sites := Sites(c, pc2);
            exit.Ok? ==>
              (forall k :: 0 <= k < |sites| ==> sites[k] + 2 + Link(exit.value, sites[k]) == |c|)
              && (forall i :: 0 <= i < |c| && !InSlot(i, sites) ==> exit.value[i] == c[i])
  {
    ResolvedJumpsLand(c, pc2, |c|);
  }

  /** Appending code keeps a break chain (or its absence) as it was. */
  lemma ChainPrefixIfAny(code: seq<byte>, code': seq<byte>, pos: int)
    requires pos == JMPLINK_START || (0 <= pos && Chain(code, pos))
    requires |code| <= |code'| && code'[..|code|] == code
    ensures pos == JMPLINK_START || Chain(code', pos)
  {
    if pos != JMPLINK_START {
      assert code'[..pos + 2] == code[..pos + 2];
      ChainPrefix(code, code', pos);
    }
  }
}
