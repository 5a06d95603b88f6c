/**
 * The peephole rewrites keep the meaning of the code.  Run on the
 * reference register machine from any state at the first record a
 * rewrite's decision rests on, the records it cuts off followed by the
 * instruction the plain genop would have emitted, and the instruction it
 * emits instead, leave the same observable machine: the same stores and
 * returns, the same upvariables, the same local variables, and for a
 * move or a load the same destination register.  Temporaries above the
 * locals that the rewritten code no longer writes may differ.
 */
module PeepholeSound {
  import opened MachineInts
  import opened Opcodes
  import opened Encoding
  import opened Wrappers
  import opened Scope
  import opened Pools
  import opened IntLoads
  import opened RegMachine
  import opened Peephole

  /** The instruction the plain genop of e emits, wherever it lands. */
  function Plain(e: Emission): Insn {
    EmissionRecord(e, 0, 0)
  }

  /** The instructions an effect's emission adds. */
  function Emitted(e: Emission, pool: seq<PoolValue>): seq<Insn> {
    if e.NoEmit? then [] else [EmissionRecord(e, LitIndex(e, pool), 0)]
  }

  // ---------------------------------------------------------------------
  // Composing equivalences
  // ---------------------------------------------------------------------

  /** Records run alike before two tails keep the tails' equivalence. */
  lemma SamePrefix(xs: seq<Insn>, tb: seq<Insn>, ta: seq<Insn>, m: Machine, pool: seq<PoolValue>,
                   pool': seq<PoolValue>, nlocals: int, extra: set<int>)
    requires PoolRefs(xs, |pool|) && |pool| <= |pool'| && pool'[..|pool|] == pool
    requires Run(xs, m, pool).Some? ==> Preserves(tb, ta, Run(xs, m, pool).value, pool, pool', nlocals, extra)
    ensures Preserves(xs + tb, xs + ta, m, pool, pool', nlocals, extra)
  {
    RunAppend(xs, tb, m, pool);
    RunAppend(xs, ta, m, pool');
    assert pool' == pool + pool'[|pool|..];
    RunPoolGrow(xs, m, pool, pool'[|pool|..]);
  }

  lemma PreservesTrans(a: seq<Insn>, b: seq<Insn>, c: seq<Insn>, m: Machine, pool: seq<PoolValue>,
                       pool': seq<PoolValue>, nlocals: int, extra: set<int>)
    requires Preserves(a, b, m, pool, pool, nlocals, extra) && Preserves(b, c, m, pool, pool', nlocals, extra)
    ensures Preserves(a, c, m, pool, pool', nlocals, extra)
  {
    var x := Run(a, m, pool);
    if x.Some? {
      var y := Run(b, m, pool).value;
      var z := Run(c, m, pool').value;
      forall r | 0 <= r < nlocals
        ensures SameReg(x.value, z, r)
      {
        assert SameReg(x.value, y, r) && SameReg(y, z, r);
      }
      forall r | r in extra
        ensures SameReg(x.value, z, r)
      {
        assert SameReg(x.value, y, r) && SameReg(y, z, r);
      }
    }
  }

  lemma PreservesRefl(a: seq<Insn>, m: Machine, pool: seq<PoolValue>, nlocals: int, extra: set<int>)
    ensures Preserves(a, a, m, pool, pool, nlocals, extra)
  {
  }

  /** A write to a temporary and nothing else distinguishes two machines. */
  lemma TempOnly(x: Machine, y: Machine, t: int, nlocals: int, extra: set<int>)
    requires t >= nlocals && t !in extra
    requires x.trace == y.trace && x.done == y.done && x.upvars == y.upvars
    requires forall r :: r != t ==> SameReg(x, y, r)
    ensures Observed(x, y, nlocals) && forall r :: r in extra ==> SameReg(x, y, r)
  {
  }

  lemma PoolRefsSlice(insns: seq<Insn>, i: nat, j: nat, plen: nat)
    requires i <= j <= |insns| && PoolRefs(insns, plen)
    ensures PoolRefs(insns[i..j], plen)
  {
    forall k | 0 <= k < j - i && insns[i..j][k].op == OP_LOADL
      ensures 0 <= insns[i..j][k].b < plen
    {
      assert insns[i..j][k] == insns[i + k];
    }
  }

  /** Running a two- or three-instruction sequence, step by step. */
  lemma RunTwo(d1: Insn, d2: Insn, m: Machine, pool: seq<PoolValue>)
    ensures Run([d1, d2], m, pool)
            == match Step(d1, m, pool) case Some(m1) => Step(d2, m1, pool) case None => None
  {
    assert [d1, d2] == [d1] + [d2];
    RunFirst(d1, [d2], m, pool);
    match Step(d1, m, pool)
    case Some(m1) => RunOne(d2, m1, pool);
    case None =>
  }

  lemma RunThree(d1: Insn, d2: Insn, d3: Insn, m: Machine, pool: seq<PoolValue>)
    ensures Run([d1, d2, d3], m, pool)
            == match Step(d1, m, pool) case Some(m1) => Run([d2, d3], m1, pool) case None => None
  {
    assert [d1, d2, d3] == [d1] + [d2, d3];
    RunFirst(d1, [d2, d3], m, pool);
  }

  lemma SplitLast1(insns: seq<Insn>, from: nat, t: Insn)
    requires from + 1 <= |insns|
    ensures var n := |insns|; insns[from..] + [t] == insns[from..n - 1] + [insns[n - 1], t]
    ensures var n := |insns|; insns[from..n] + [] == insns[from..n - 1] + [insns[n - 1]]
    ensures var n := |insns|; insns[from..n] == insns[from..n - 1] + [insns[n - 1]]
  {
  }

  lemma SplitLast2(insns: seq<Insn>, from: nat, t: Insn)
    requires from + 2 <= |insns|
    ensures var n := |insns|; insns[from..] + [t] == insns[from..n - 2] + [insns[n - 2], insns[n - 1], t]
  {
  }

  lemma SplitLast3(insns: seq<Insn>, from: nat, t: Insn)
    requires from + 3 <= |insns|
    ensures var n := |insns|; insns[from..] + [t] == insns[from..n - 3] + [insns[n - 3], insns[n - 2], insns[n - 1], t]
  {
  }

  // ---------------------------------------------------------------------
  // gen_move, one pattern at a time
  // ---------------------------------------------------------------------

  function Mv(dst: u16, src: u16): Insn {
    Plain(Emit2(OP_MOVE, dst, src))
  }

  /** MOVE x x changes nothing. */
  lemma MoveSelf(x: u16, m: Machine, pool: seq<PoolValue>, nlocals: int, extra: set<int>)
    ensures Preserves([Mv(x, x)], [], m, pool, pool, nlocals, extra)
  {
    RunOne(Mv(x, x), m, pool);
    if !m.done && x in m.regs {
      assert m.regs[x := m.regs[x]] == m.regs;
    }
  }

  /** After `MOVE src dst`, `MOVE dst src` changes nothing. */
  lemma MoveBack(d: Insn, dst: u16, src: u16, m: Machine, pool: seq<PoolValue>, nlocals: int, extra: set<int>)
    requires d.op == OP_MOVE && d.a == src && d.b == dst
    ensures Preserves([d, Mv(dst, src)], [d], m, pool, pool, nlocals, extra)
  {
    RunTwo(d, Mv(dst, src), m, pool);
    RunOne(d, m, pool);
    if !m.done && dst in m.regs {
      var m1 := SetReg(m, src, m.regs[dst]);
      assert m1.regs[dst := m1.regs[src]] == m1.regs;
    }
  }

  /**
   * `MOVE t x; MOVE dst t` is `MOVE dst x` for a temporary t, and
   * `MOVE dst x; MOVE dst y` is `MOVE dst y`.
   */
  lemma MoveThrough(d: Insn, dst: u16, src: u16, src': u16, m: Machine, pool: seq<PoolValue>, nlocals: int)
    requires d.op == OP_MOVE && 0 <= d.b <= 0xffff && dst != src
    requires (d.a == src && d.a >= nlocals && src' == d.b) || (d.a == dst && src' == src)
    ensures Preserves([d, Mv(dst, src)], [Mv(dst, src')], m, pool, pool, nlocals, {dst as int})
  {
    RunTwo(d, Mv(dst, src), m, pool);
    RunOne(Mv(dst, src'), m, pool);
    var x := Run([d, Mv(dst, src)], m, pool);
    if x.Some? && !m.done {
      var y := Run([Mv(dst, src')], m, pool).value;
      if d.a == src {
        TempOnly(x.value, y, src as int, nlocals, {dst as int});
      } else {
        assert x.value == y;
      }
    }
  }

  /**
   * A load or register-filling instruction into the temporary src
   * followed by `MOVE dst src` is the same instruction into dst.
   */
  lemma RetargetSound(d: Insn, n: nat, pool: seq<PoolValue>, nlocals: int, dst: u16, src: u16, m: Machine)
    requires n > 0 && 0 <= d.b <= 0xffff && 0 <= d.c <= 0xffff && (d.op == OP_LOADL ==> d.b < |pool|)
    requires dst != src && RetargetEffect(d, pool, nlocals, dst, src, n).keep == n - 1
    ensures Preserves([d, Mv(dst, src)], Emitted(RetargetEffect(d, pool, nlocals, dst, src, n).emit, pool),
                      m, pool, pool, nlocals, {dst as int})
  {
    var e := RetargetEffect(d, pool, nlocals, dst, src, n);
    var rec := EmissionRecord(e.emit, 0, 0);
    RetargetFills(d, rec, n, pool, nlocals, dst, src, m);
    RunTwo(d, Mv(dst, src), m, pool);
    RunOne(rec, m, pool);
    if !m.done && Step(d, m, pool).Some? {
      var v := Fill(d, m, pool).value;
      var m1 := SetReg(m, src, v);
      assert Step(Mv(dst, src), m1, pool) == Some(SetReg(m1, dst, v));
      TempOnly(SetReg(m1, dst, v), SetReg(m, dst, v), src as int, nlocals, {dst as int});
    }
  }

  /** The retargeted instruction fills its register with what the original would have. */
  lemma RetargetFills(d: Insn, rec: Insn, n: nat, pool: seq<PoolValue>, nlocals: int, dst: u16, src: u16, m: Machine)
    requires n > 0 && 0 <= d.b <= 0xffff && 0 <= d.c <= 0xffff && (d.op == OP_LOADL ==> d.b < |pool|)
    requires dst != src && RetargetEffect(d, pool, nlocals, dst, src, n).keep == n - 1
    requires rec == EmissionRecord(RetargetEffect(d, pool, nlocals, dst, src, n).emit, 0, 0)
    ensures d.a == src && rec.a == dst
    ensures Emitted(RetargetEffect(d, pool, nlocals, dst, src, n).emit, pool) == [rec]
    ensures Fill(rec, m, pool) == Fill(d, m, pool) && SideEffect(d, m) == None && SideEffect(rec, m) == None
  {
    var e := RetargetEffect(d, pool, nlocals, dst, src, n);
    if IsRetarget1(d.op) {
      assert e.emit == Emit1(d.op, dst);
      FillOneOperand(d, rec, m, pool);
    } else if IsRetarget2(d.op) || (d.op == OP_HASH && d.b == 0) {
      assert e.emit == Emit2(d.op, dst, d.b as u16);
      FillByB(d, rec, m, pool);
    } else if d.op == OP_LOADI16 || d.op == OP_BLKPUSH {
      assert e.emit == Emit2S(d.op, dst, d.b as u16);
      FillByB(d, rec, m, pool);
    } else if d.op == OP_LOADI32 {
      assert e.emit == Emit2SS(d.op, dst, d.b * 0x1_0000 + d.c);
      FillByBC(d, rec, m, pool);
    } else if d.op == OP_ARRAY {
      FillArray(d, rec, m, pool, src);
    } else {
      assert d.op in {OP_ARRAY2, OP_AREF, OP_GETUPVAR};
      assert e.emit == Emit3(d.op, dst, d.b as u16, d.c as u16);
      FillByBC(d, rec, m, pool);
    }
  }

  lemma FillOneOperand(d: Insn, rec: Insn, m: Machine, pool: seq<PoolValue>)
    requires IsRetarget1(d.op) && rec.op == d.op
    ensures Fill(rec, m, pool) == Fill(d, m, pool) && SideEffect(d, m) == None && SideEffect(rec, m) == None
  {
  }

  lemma FillByB(d: Insn, rec: Insn, m: Machine, pool: seq<PoolValue>)
    requires IsRetarget2(d.op) || (d.op == OP_HASH && d.b == 0) || d.op == OP_LOADI16 || d.op == OP_BLKPUSH
    requires rec.op == d.op && rec.b == d.b
    ensures Fill(rec, m, pool) == Fill(d, m, pool) && SideEffect(d, m) == None && SideEffect(rec, m) == None
  {
  }

  /**
   * An ARRAY of fewer than 256 of src's registers is the empty ARRAY, or
   * an ARRAY2 naming them in its one-byte count (the only ARRAYs gen_move
   * retargets once corrected; see ArrayRetargetTruncates).
   */
  lemma FillArray(d: Insn, rec: Insn, m: Machine, pool: seq<PoolValue>, src: u16)
    requires d.op == OP_ARRAY && d.a == src && 0 <= d.b < 0x100
    requires (rec.op == OP_ARRAY && rec.b == 0 && d.b == 0) || (rec.op == OP_ARRAY2 && rec.b == src && rec.c == d.b)
    ensures Fill(rec, m, pool) == Fill(d, m, pool) && SideEffect(d, m) == None && SideEffect(rec, m) == None
  {
  }

  /**
   * gen_move as written retargets `ARRAY src n; MOVE dst src` to
   * `ARRAY2 dst src n` for any count n, but genop_3 writes only the low
   * byte of ARRAY2's count: for n >= 256 the array it builds holds the
   * first n mod 256 of the n values the ARRAY gathered.
   */
  lemma ArrayRetargetTruncates(src: u16, dst: u16, n: u16, m: Machine, pool: seq<PoolValue>)
    requires n >= 0x100 && Gather(m.regs, src as int, n as nat).Some?
    ensures var vs := Gather(m.regs, src as int, n as nat).value;
            |vs| == n as int
            && Fill(Insn(OP_ARRAY, src as int, n as int, 0, 0, 3), m, pool) == Some(Arr(vs))
            && Fill(Plain(Emit3(OP_ARRAY2, dst, src, n)), m, pool) == Some(Arr(vs[..n as int % 0x100]))
            && n as int % 0x100 < n as int
  {
    var d := Insn(OP_ARRAY, src as int, n as int, 0, 0, 3);
    var w := Plain(Emit3(OP_ARRAY2, dst, src, n));
    assert w.op == OP_ARRAY2 && w.b == src as int && w.c == n as int % 0x100;
    GatherPrefix(m.regs, src as int, n as nat, n as int % 0x100);
    FillArrayGathers(d, m, pool);
    FillArrayGathers(w, m, pool);
  }

  /** An ARRAY or ARRAY2 fills its register with the array of the registers it names. */
  lemma FillArrayGathers(d: Insn, m: Machine, pool: seq<PoolValue>)
    requires d.op == OP_ARRAY || d.op == OP_ARRAY2
    ensures var from := if d.op == OP_ARRAY then d.a else d.b;
            var n := if d.op == OP_ARRAY then d.b else Byte(d.c);
            n >= 0 && Gather(m.regs, from, n).Some? ==> Fill(d, m, pool) == Some(Arr(Gather(m.regs, from, n).value))
  {
    assert IntOperand(d, pool) == None;
    assert !IsFixedLoad(d.op) && !IsArith(d.op);
  }

  lemma FillByBC(d: Insn, rec: Insn, m: Machine, pool: seq<PoolValue>)
    requires d.op in {OP_LOADI32, OP_ARRAY2, OP_AREF, OP_GETUPVAR} && 0 <= d.c <= 0xffff
    requires rec.op == d.op && rec.b == d.b && (if d.op == OP_LOADI32 then rec.c == d.c else rec.c == d.c % 0x100)
    ensures Fill(rec, m, pool) == Fill(d, m, pool) && SideEffect(d, m) == None && SideEffect(rec, m) == None
  {
  }

  /**
   * gen_move as written retargets OP_BLKPUSH with genop_2, in the BB
   * format, but OP_BLKPUSH is a BS instruction with a 16-bit b.  With
   * one-byte operands the decoder then reads b one byte too far: at the
   * end of the code it finds no instruction, and before a next byte x it
   * reads b * 256 + x and an instruction one byte longer than was written.
   */
  lemma BlkpushRetargetAsWritten(pre: seq<byte>, dst: u16, b: u16, x: byte)
    requires dst <= 0xff && b <= 0xff
    ensures Decode(pre + Op2Bytes(OP_BLKPUSH, dst, b), |pre|) == None
    ensures Decode(pre + Op2Bytes(OP_BLKPUSH, dst, b) + [x], |pre|)
         == Some(Insn(OP_BLKPUSH, dst as int, b as int * 0x100 + x as int, 0, |pre|, 4))
    ensures |Op2Bytes(OP_BLKPUSH, dst, b)| == 3
  {
    var code := pre + Op2Bytes(OP_BLKPUSH, dst, b) + [x];
    assert code[|pre|] == OP_BLKPUSH && code[|pre| + 1] == dst && code[|pre| + 2] == b && code[|pre| + 3] == x;
  }

  /** `MOVE t dst; ADDI t n; MOVE dst t` is `ADDI dst n` for a temporary t (and SUBI alike). */
  lemma ImmPlainSound(d0: Insn, d: Insn, dst: u16, src: u16, mv: Insn, m: Machine, pool: seq<PoolValue>, nlocals: int)
    requires mv.op == OP_MOVE && mv.a == dst && mv.b == src
    requires d0.op == OP_MOVE && d0.a == src && d0.b == dst
    requires (d.op == OP_ADDI || d.op == OP_SUBI) && d.a == src && src >= nlocals && src != dst && 0 <= d.b <= 0xffff
    ensures Preserves([d0, d, mv], [Plain(Emit2(d.op, dst, d.b as u16))], m, pool, pool, nlocals, {dst as int})
  {
    var rec := Plain(Emit2(d.op, dst, d.b as u16));
    RunThree(d0, d, mv, m, pool);
    RunOne(rec, m, pool);
    if !m.done && dst in m.regs {
      var m1 := SetReg(m, src, m.regs[dst]);
      RunTwo(d, mv, m1, pool);
      if m.regs[dst].Int? {
        ImmPlainInt(d, dst, src, mv, m, pool, nlocals);
      } else {
        assert Step(d, m1, pool) == None;
      }
    } else if !m.done {
      assert Step(d0, m, pool) == None;
    } else {
      RunTwo(d, mv, m, pool);
    }
  }

  /** With an integer in dst, the immediate step on the copy and the move back leave what the plain step does. */
  lemma ImmPlainInt(d: Insn, dst: u16, src: u16, mv: Insn, m: Machine, pool: seq<PoolValue>, nlocals: int)
    requires mv.op == OP_MOVE && mv.a == dst && mv.b == src
    requires (d.op == OP_ADDI || d.op == OP_SUBI) && d.a == src && src >= nlocals && src != dst && 0 <= d.b <= 0xffff
    requires !m.done && dst in m.regs && m.regs[dst].Int?
    ensures var m1 := SetReg(m, src, m.regs[dst]);
            var rec := Plain(Emit2(d.op, dst, d.b as u16));
            Step(d, m1, pool).Some? && Step(mv, Step(d, m1, pool).value, pool).Some? && Step(rec, m, pool).Some?
            && Observed(Step(mv, Step(d, m1, pool).value, pool).value, Step(rec, m, pool).value, nlocals)
            && SameReg(Step(mv, Step(d, m1, pool).value, pool).value, Step(rec, m, pool).value, dst as int)
  {
    var m1 := SetReg(m, src, m.regs[dst]);
    var rec := Plain(Emit2(d.op, dst, d.b as u16));
    var v := Int(if d.op == OP_ADDI then m.regs[dst].i + d.b else m.regs[dst].i - d.b);
    var m2 := SetReg(m1, src, v);
    assert Step(d, m1, pool) == Some(m2);
    assert Step(mv, m2, pool) == Some(SetReg(m2, dst, v));
    assert Step(rec, m, pool) == Some(SetReg(m, dst, v));
    TempOnly(SetReg(m2, dst, v), SetReg(m, dst, v), src as int, nlocals, {dst as int});
  }

  /**
   * An integer load into dst before `MOVE t dst; ADDI t n; MOVE dst t` is
   * the single load of the sum.
   */
  lemma ImmFoldSound(d1: Insn, d0: Insn, d: Insn, rec: Insn, dst: u16, src: u16, mv: Insn, k: int, v: int,
                     m: Machine, pool: seq<PoolValue>, pool': seq<PoolValue>, nlocals: int)
    requires IntOperand(d1, pool) == Some(k) && d1.a == dst
    requires mv.op == OP_MOVE && mv.a == dst && mv.b == src
    requires d0.op == OP_MOVE && d0.a == src && d0.b == dst
    requires (d.op == OP_ADDI || d.op == OP_SUBI) && d.a == src && src >= nlocals && src != dst
    requires v == (if d.op == OP_ADDI then k + d.b else k - d.b)
    requires IntOperand(rec, pool') == Some(v) && rec.a == dst
    ensures Preserves([d1, d0, d, mv], [rec], m, pool, pool', nlocals, {dst as int})
  {
    assert [d1, d0, d, mv] == [d1] + [d0, d, mv];
    RunFirst(d1, [d0, d, mv], m, pool);
    RunOne(rec, m, pool');
    if !m.done {
      var m1 := SetReg(m, dst, Int(k));
      RunThree(d0, d, mv, m1, pool);
      var m2 := SetReg(m1, src, Int(k));
      RunTwo(d, mv, m2, pool);
      var m3 := SetReg(m2, src, Int(v));
      assert Step(d, m2, pool) == Some(m3);
      assert Step(mv, m3, pool) == Some(SetReg(m3, dst, Int(v)));
      TempOnly(SetReg(m3, dst, Int(v)), SetReg(m, dst, Int(v)), src as int, nlocals, {dst as int});
    } else {
      RunThree(d0, d, mv, m, pool);
      RunTwo(d, mv, m, pool);
    }
  }

  /** gen_move after ADDI / SUBI: the emitted instruction does what the records it replaces and the move did. */
  lemma ImmMoveSound(insns: seq<Insn>, lastlabel: nat, pool: seq<PoolValue>, nlocals: int, dst: u16, src: u16,
                     from: nat, m: Machine)
    requires |insns| > 0 && OperandBounds(insns) && PoolRefs(insns, |pool|) && |pool| < UINT16_MAX
    requires insns[|insns| - 1].op == OP_ADDI || insns[|insns| - 1].op == OP_SUBI
    requires dst != src && from <= ImmMoveEffect(insns, lastlabel, pool, nlocals, dst, src).keep
    ensures var e := ImmMoveEffect(insns, lastlabel, pool, nlocals, dst, src);
            Preserves(insns[from..] + [Mv(dst, src)], insns[from..e.keep] + Emitted(e.emit, pool),
                      m, pool, PoolAfter(e.emit, pool), nlocals, {dst as int})
  {
    var e := ImmMoveEffect(insns, lastlabel, pool, nlocals, dst, src);
    var n := |insns|;
    if e.keep == n {
      assert Emitted(e.emit, pool) == [Mv(dst, src)];
      assert insns[from..n] == insns[from..];
      PreservesRefl(insns[from..] + [Mv(dst, src)], m, pool, nlocals, {dst as int});
    } else if e.keep == n - 2 {
      ImmMoveCases(insns, lastlabel, pool, nlocals, dst, src);
      var d := insns[n - 1];
      var xs := insns[from..n - 2];
      SplitLast2(insns, from, Mv(dst, src));
      assert Emitted(e.emit, pool) == [Plain(Emit2(d.op, dst, d.b as u16))];
      PoolRefsSlice(insns, from, n - 2, |pool|);
      ImmPlainWindow(xs, insns[n - 2], d, dst, src, m, pool, nlocals);
    } else {
      ImmMoveCases(insns, lastlabel, pool, nlocals, dst, src);
      ImmFoldTail(insns, e, pool, nlocals, dst, src, from, m);
    }
  }

  /** What ImmMoveEffect rests on when it cuts records. */
  lemma ImmMoveCases(insns: seq<Insn>, lastlabel: nat, pool: seq<PoolValue>, nlocals: int, dst: u16, src: u16)
    requires |insns| > 0 && OperandBounds(insns)
    requires insns[|insns| - 1].op == OP_ADDI || insns[|insns| - 1].op == OP_SUBI
    ensures var e := ImmMoveEffect(insns, lastlabel, pool, nlocals, dst, src);
            var n := |insns|;
            var d := insns[n - 1];
            (e.keep == n ==> e.emit == Emit2(OP_MOVE, dst, src))
            && (e.keep < n ==>
                  n >= 2 && d.a == src && src >= nlocals
                  && insns[n - 2].op == OP_MOVE && insns[n - 2].a == src && insns[n - 2].b == dst)
            && (e.keep == n - 2 ==> e.emit == Emit2(d.op, dst, d.b as u16))
            && (e.keep == n - 3 ==>
                  n >= 3 && IntOperand(insns[n - 3], pool).Some? && insns[n - 3].a == dst
                  && e.emit == EmitInt(dst, var k := IntOperand(insns[n - 3], pool).value;
                                            if d.op == OP_ADDI then k + d.b else k - d.b))
  {
  }

  lemma ImmPlainWindow(xs: seq<Insn>, d0: Insn, d: Insn, dst: u16, src: u16, m: Machine, pool: seq<PoolValue>, nlocals: int)
    requires PoolRefs(xs, |pool|)
    requires d0.op == OP_MOVE && d0.a == src && d0.b == dst
    requires (d.op == OP_ADDI || d.op == OP_SUBI) && d.a == src && src >= nlocals && src != dst && 0 <= d.b <= 0xffff
    ensures Preserves(xs + [d0, d, Mv(dst, src)], xs + [Plain(Emit2(d.op, dst, d.b as u16))], m, pool, pool, nlocals, {dst as int})
  {
    var x := Run(xs, m, pool);
    if x.Some? {
      ImmPlainSound(d0, d, dst, src, Mv(dst, src), x.value, pool, nlocals);
    }
    SamePrefix(xs, [d0, d, Mv(dst, src)], [Plain(Emit2(d.op, dst, d.b as u16))], m, pool, pool, nlocals, {dst as int});
  }

  lemma ImmFoldWindow(xs: seq<Insn>, d1: Insn, d0: Insn, d: Insn, rec: Insn, dst: u16, src: u16, k: int, v: int,
                      m: Machine, pool: seq<PoolValue>, pool': seq<PoolValue>, nlocals: int)
    requires PoolRefs(xs, |pool|) && |pool| <= |pool'| && pool'[..|pool|] == pool
    requires IntOperand(d1, pool) == Some(k) && d1.a == dst
    requires d0.op == OP_MOVE && d0.a == src && d0.b == dst
    requires (d.op == OP_ADDI || d.op == OP_SUBI) && d.a == src && src >= nlocals && src != dst
    requires v == (if d.op == OP_ADDI then k + d.b else k - d.b)
    requires IntOperand(rec, pool') == Some(v) && rec.a == dst
    ensures Preserves(xs + [d1, d0, d, Mv(dst, src)], xs + [rec], m, pool, pool', nlocals, {dst as int})
  {
    var x := Run(xs, m, pool);
    if x.Some? {
      ImmFoldSound(d1, d0, d, rec, dst, src, Mv(dst, src), k, v, x.value, pool, pool', nlocals);
    }
    SamePrefix(xs, [d1, d0, d, Mv(dst, src)], [rec], m, pool, pool', nlocals, {dst as int});
  }

  lemma ImmFoldTail(insns: seq<Insn>, e: Effect, pool: seq<PoolValue>, nlocals: int, dst: u16, src: u16, from: nat, m: Machine)
    requires |insns| >= 3 && PoolRefs(insns, |pool|) && |pool| < UINT16_MAX
    requires from <= e.keep == |insns| - 3 && dst != src
    requires var n := |insns|;
             var d := insns[n - 1];
             (d.op == OP_ADDI || d.op == OP_SUBI) && d.a == src && src >= nlocals
             && insns[n - 2].op == OP_MOVE && insns[n - 2].a == src && insns[n - 2].b == dst
             && IntOperand(insns[n - 3], pool).Some? && insns[n - 3].a == dst
             && e.emit == EmitInt(dst, var k := IntOperand(insns[n - 3], pool).value;
                                       if d.op == OP_ADDI then k + d.b else k - d.b)
    ensures Preserves(insns[from..] + [Mv(dst, src)], insns[from..e.keep] + Emitted(e.emit, pool),
                      m, pool, PoolAfter(e.emit, pool), nlocals, {dst as int})
  {
    var n := |insns|;
    var d := insns[n - 1];
    var d1 := insns[n - 3];
    var k := IntOperand(d1, pool).value;
    var v := if d.op == OP_ADDI then k + d.b else k - d.b;
    var rec := EmissionRecord(e.emit, LitIndex(e.emit, pool), 0);
    var pool' := PoolAfter(e.emit, pool);
    assert Emitted(e.emit, pool) == [rec];
    IntLoadRoundTrip(v, dst, pool, 0, rec.size);
    var xs := insns[from..n - 3];
    SplitLast3(insns, from, Mv(dst, src));
    PoolRefsSlice(insns, from, n - 3, |pool|);
    assert |pool| <= |pool'| && pool'[..|pool|] == pool;
    ImmFoldWindow(xs, d1, insns[n - 2], d, rec, dst, src, k, v, m, pool, pool', nlocals);
  }

  /**
   * The first record gen_move's decision rests on: the last record for a
   * dropped `MOVE src dst`, the recursive call's window when a MOVE is
   * dropped and the move is made again, and otherwise the first record
   * the effect cuts (the end of the code when it cuts none).
   */
  function MoveWindow(noOpt: bool, insns: seq<Insn>, peep: bool, lastlabel: nat, pool: seq<PoolValue>,
                      nlocals: int, dst: u16, src: u16): (w: nat)
    requires peep ==> |insns| > 0
    requires OperandBounds(insns) && PoolRefs(insns, |pool|)
    ensures w <= MoveEffect(noOpt, insns, peep, lastlabel, pool, nlocals, dst, src).keep
    decreases |insns|
  {
    if NeedsRecursion(insns, peep, nlocals, dst, src) then
      var k := |insns| - 1;
      var d := insns[k];
      var src' := if d.a == src then d.b as u16 else src;
      MoveEffectUnfolds(noOpt, insns, lastlabel, pool, nlocals, dst, src);
      MoveWindow(noOpt, insns[..k], !noOpt && k > 0 && lastlabel != d.addr, lastlabel, pool, nlocals, dst, src')
    else if peep && dst != src && insns[|insns| - 1].op == OP_MOVE
            && insns[|insns| - 1].a == src && insns[|insns| - 1].b == dst then
      |insns| - 1
    else MoveEffect(noOpt, insns, peep, lastlabel, pool, nlocals, dst, src).keep
  }

  /**
   * gen_move keeps the meaning of the code: from any state at or before
   * the first record its decision rests on, running the code and then
   * `MOVE dst src` is observably running the rewritten code, and leaves
   * dst the same.  A literal gen_int adds is read from the grown pool.
   */
  lemma {:induction false} MoveEffectSound(noOpt: bool, insns: seq<Insn>, peep: bool, lastlabel: nat, pool: seq<PoolValue>,
                                           nlocals: int, dst: u16, src: u16, from: nat, m: Machine)
    requires peep ==> |insns| > 0
    requires OperandBounds(insns) && PoolRefs(insns, |pool|) && |pool| < UINT16_MAX
    requires from <= MoveWindow(noOpt, insns, peep, lastlabel, pool, nlocals, dst, src)
    ensures var e := MoveEffect(noOpt, insns, peep, lastlabel, pool, nlocals, dst, src);
            Preserves(insns[from..] + [Mv(dst, src)], insns[from..e.keep] + Emitted(e.emit, pool),
                      m, pool, PoolAfter(e.emit, pool), nlocals, {dst as int})
    decreases |insns|
  {
    var e := MoveEffect(noOpt, insns, peep, lastlabel, pool, nlocals, dst, src);
    var n := |insns|;
    if NeedsRecursion(insns, peep, nlocals, dst, src) {
      var k := n - 1;
      var d := insns[k];
      var src' := if d.a == src then d.b as u16 else src;
      var peep' := !noOpt && k > 0 && lastlabel != d.addr;
      MoveEffectUnfolds(noOpt, insns, lastlabel, pool, nlocals, dst, src);
      var inner := MoveEffect(noOpt, insns[..k], peep', lastlabel, pool, nlocals, dst, src');
      MoveEffectSound(noOpt, insns[..k], peep', lastlabel, pool, nlocals, dst, src', from, m);
      MoveRecCompose(insns, pool, nlocals, dst, src, src', inner, from, m);
      assert e.keep == inner.keep && e.emit == inner.emit;
    } else {
      MoveLeafSound(noOpt, insns, peep, lastlabel, pool, nlocals, dst, src, from, m);
    }
  }

  /** MoveEffectSound on a dropped MOVE, from the recursive call's effect inner. */
  lemma MoveRecCompose(insns: seq<Insn>, pool: seq<PoolValue>, nlocals: int, dst: u16, src: u16, src': u16,
                       inner: Effect, from: nat, m: Machine)
    requires |insns| > 0 && OperandBounds(insns) && PoolRefs(insns, |pool|)
    requires NeedsRecursion(insns, true, nlocals, dst, src)
    requires src' == if insns[|insns| - 1].a == src then insns[|insns| - 1].b as u16 else src
    requires from <= inner.keep < |insns|
    requires var k := |insns| - 1;
             Preserves(insns[..k][from..] + [Mv(dst, src')], insns[..k][from..inner.keep] + Emitted(inner.emit, pool),
                       m, pool, PoolAfter(inner.emit, pool), nlocals, {dst as int})
    ensures Preserves(insns[from..] + [Mv(dst, src)], insns[from..inner.keep] + Emitted(inner.emit, pool),
                      m, pool, PoolAfter(inner.emit, pool), nlocals, {dst as int})
  {
    var k := |insns| - 1;
    assert insns[..k][from..] == insns[from..k] && insns[..k][from..inner.keep] == insns[from..inner.keep];
    MoveThroughWindow(insns, from, dst, src, src', m, pool, nlocals);
    PreservesTrans(insns[from..] + [Mv(dst, src)], insns[from..k] + [Mv(dst, src')],
                   insns[from..inner.keep] + Emitted(inner.emit, pool), m, pool, PoolAfter(inner.emit, pool), nlocals, {dst as int});
  }

  /** MoveEffectSound where gen_move does not call itself again. */
  lemma MoveLeafSound(noOpt: bool, insns: seq<Insn>, peep: bool, lastlabel: nat, pool: seq<PoolValue>,
                      nlocals: int, dst: u16, src: u16, from: nat, m: Machine)
    requires peep ==> |insns| > 0
    requires OperandBounds(insns) && PoolRefs(insns, |pool|) && |pool| < UINT16_MAX
    requires !NeedsRecursion(insns, peep, nlocals, dst, src)
    requires from <= MoveWindow(noOpt, insns, peep, lastlabel, pool, nlocals, dst, src)
    ensures var e := MoveEffect(noOpt, insns, peep, lastlabel, pool, nlocals, dst, src);
            Preserves(insns[from..] + [Mv(dst, src)], insns[from..e.keep] + Emitted(e.emit, pool),
                      m, pool, PoolAfter(e.emit, pool), nlocals, {dst as int})
  {
    var e := MoveEffect(noOpt, insns, peep, lastlabel, pool, nlocals, dst, src);
    var n := |insns|;
    if !peep || e == Effect(n, Emit2(OP_MOVE, dst, src), false) {
      assert Emitted(e.emit, pool) == [Mv(dst, src)] && PoolAfter(e.emit, pool) == pool;
      assert insns[from..e.keep] == insns[from..];
      PreservesRefl(insns[from..] + [Mv(dst, src)], m, pool, nlocals, {dst as int});
    } else if dst == src {
      SelfWindow(insns, from, dst, m, pool, nlocals);
    } else if insns[n - 1].op == OP_MOVE {
      BackWindow(insns, from, dst, src, m, pool, nlocals);
    } else if insns[n - 1].op == OP_ADDI || insns[n - 1].op == OP_SUBI {
      ImmMoveSound(insns, lastlabel, pool, nlocals, dst, src, from, m);
    } else {
      RetargetWindow(insns, pool, nlocals, dst, src, from, m, e);
    }
  }

  lemma MoveThroughWindow(insns: seq<Insn>, from: nat, dst: u16, src: u16, src': u16, m: Machine,
                          pool: seq<PoolValue>, nlocals: int)
    requires from < |insns| && OperandBounds(insns) && PoolRefs(insns, |pool|)
    requires NeedsRecursion(insns, true, nlocals, dst, src)
    requires src' == if insns[|insns| - 1].a == src then insns[|insns| - 1].b as u16 else src
    ensures Preserves(insns[from..] + [Mv(dst, src)], insns[from..|insns| - 1] + [Mv(dst, src')],
                      m, pool, pool, nlocals, {dst as int})
  {
    var k := |insns| - 1;
    var d := insns[k];
    var xs := insns[from..k];
    SplitLast1(insns, from, Mv(dst, src));
    PoolRefsSlice(insns, from, k, |pool|);
    var x := Run(xs, m, pool);
    if x.Some? {
      MoveThrough(d, dst, src, src', x.value, pool, nlocals);
    }
    SamePrefix(xs, [d, Mv(dst, src)], [Mv(dst, src')], m, pool, pool, nlocals, {dst as int});
  }

  lemma SelfWindow(insns: seq<Insn>, from: nat, x: u16, m: Machine, pool: seq<PoolValue>, nlocals: int)
    requires from <= |insns| && PoolRefs(insns, |pool|)
    ensures Preserves(insns[from..] + [Mv(x, x)], insns[from..|insns|] + [], m, pool, pool, nlocals, {x as int})
  {
    var xs := insns[from..];
    assert insns[from..|insns|] + [] == xs + [];
    PoolRefsSlice(insns, from, |insns|, |pool|);
    var r := Run(xs, m, pool);
    if r.Some? {
      MoveSelf(x, r.value, pool, nlocals, {x as int});
    }
    SamePrefix(xs, [Mv(x, x)], [], m, pool, pool, nlocals, {x as int});
  }

  lemma BackWindow(insns: seq<Insn>, from: nat, dst: u16, src: u16, m: Machine, pool: seq<PoolValue>, nlocals: int)
    requires from < |insns| && PoolRefs(insns, |pool|)
    requires var d := insns[|insns| - 1]; d.op == OP_MOVE && d.a == src && d.b == dst
    ensures Preserves(insns[from..] + [Mv(dst, src)], insns[from..|insns|] + [], m, pool, pool, nlocals, {dst as int})
  {
    var k := |insns| - 1;
    var d := insns[k];
    var xs := insns[from..k];
    SplitLast1(insns, from, Mv(dst, src));
    PoolRefsSlice(insns, from, k, |pool|);
    var r := Run(xs, m, pool);
    if r.Some? {
      MoveBack(d, dst, src, r.value, pool, nlocals, {dst as int});
    }
    SamePrefix(xs, [d, Mv(dst, src)], [d], m, pool, pool, nlocals, {dst as int});
  }

  lemma RetargetWindow(insns: seq<Insn>, pool: seq<PoolValue>, nlocals: int, dst: u16, src: u16, from: nat, m: Machine, e: Effect)
    requires |insns| > 0 && OperandBounds(insns) && PoolRefs(insns, |pool|) && dst != src
    requires e == RetargetEffect(insns[|insns| - 1], pool, nlocals, dst, src, |insns|)
    requires from <= e.keep == |insns| - 1
    ensures Preserves(insns[from..] + [Mv(dst, src)], insns[from..e.keep] + Emitted(e.emit, pool),
                      m, pool, PoolAfter(e.emit, pool), nlocals, {dst as int})
  {
    var k := |insns| - 1;
    var d := insns[k];
    var xs := insns[from..k];
    SplitLast1(insns, from, Mv(dst, src));
    assert PoolAfter(e.emit, pool) == pool;
    PoolRefsSlice(insns, from, k, |pool|);
    var r := Run(xs, m, pool);
    if r.Some? {
      RetargetSound(d, |insns|, pool, nlocals, dst, src, r.value);
    }
    SamePrefix(xs, [d, Mv(dst, src)], Emitted(e.emit, pool), m, pool, pool, nlocals, {dst as int});
  }

  // ---------------------------------------------------------------------
  // The rewrites on one last instruction
  // ---------------------------------------------------------------------

  /** A rewrite of the last record and the instruction after it keeps its meaning after any prefix. */
  lemma CutLast(insns: seq<Insn>, from: nat, t: Insn, rep: seq<Insn>, m: Machine, pool: seq<PoolValue>,
                nlocals: int, extra: set<int>)
    requires from < |insns| && PoolRefs(insns, |pool|)
    requires var x := Run(insns[from..|insns| - 1], m, pool);
             x.Some? ==> Preserves([insns[|insns| - 1], t], rep, x.value, pool, pool, nlocals, extra)
    ensures Preserves(insns[from..] + [t], insns[from..|insns| - 1] + rep, m, pool, pool, nlocals, extra)
  {
    var k := |insns| - 1;
    SplitLast1(insns, from, t);
    PoolRefsSlice(insns, from, k, |pool|);
    SamePrefix(insns[from..k], [insns[k], t], rep, m, pool, pool, nlocals, extra);
  }

  /** An instruction that only reads register a: a store, an upvariable store or a return. */
  predicate ReadsA(op: byte) {
    IsVarStore(op) || op == OP_SETUPVAR || IsReturn(op)
  }

  /**
   * `MOVE t x` then an instruction reading only t is that instruction
   * reading x, when t is a temporary.
   */
  lemma ReadThroughMove(d: Insn, t: Insn, t': Insn, m: Machine, pool: seq<PoolValue>, nlocals: int)
    requires d.op == OP_MOVE && d.a >= nlocals
    requires ReadsA(t.op) && t.a == d.a && t'.op == t.op && t'.a == d.b && t'.b == t.b && t'.c == t.c
    ensures Preserves([d, t], [t'], m, pool, pool, nlocals, {})
  {
    RunTwo(d, t, m, pool);
    RunOne(t', m, pool);
    if !m.done && d.b in m.regs {
      ReadThroughMoved(d, t, t', m, pool, nlocals);
    } else if !m.done {
      assert Step(d, m, pool) == None;
    }
  }

  /** The store after the move reads the moved value, as the store of the source does. */
  lemma ReadThroughMoved(d: Insn, t: Insn, t': Insn, m: Machine, pool: seq<PoolValue>, nlocals: int)
    requires d.op == OP_MOVE && d.a >= nlocals && !m.done && d.b in m.regs
    requires ReadsA(t.op) && t.a == d.a && t'.op == t.op && t'.a == d.b && t'.b == t.b && t'.c == t.c
    ensures var m1 := SetReg(m, d.a, m.regs[d.b]);
            Step(d, m, pool) == Some(m1) && Step(t, m1, pool).Some? && Step(t', m, pool).Some?
            && Observed(Step(t, m1, pool).value, Step(t', m, pool).value, nlocals)
  {
    var m1 := SetReg(m, d.a, m.regs[d.b]);
    assert Fill(t, m1, pool) == None && Fill(t', m, pool) == None;
    var x := SideEffect(t, m1).value;
    var y := SideEffect(t', m).value;
    TempOnly(x, y, d.a, nlocals, {});
  }

  /** Nothing runs after a RETURN. */
  lemma AfterReturn(d: Insn, t: Insn, m: Machine, pool: seq<PoolValue>, nlocals: int, extra: set<int>)
    requires d.op == OP_RETURN
    ensures Preserves([d, t], [d], m, pool, pool, nlocals, extra)
  {
    RunTwo(d, t, m, pool);
    RunOne(d, m, pool);
  }

  /** GETUPVAR of the upvariable just stored from the same register changes nothing. */
  lemma UpvarReload(d: Insn, t: Insn, m: Machine, pool: seq<PoolValue>, nlocals: int)
    requires d.op == OP_SETUPVAR && t.op == OP_GETUPVAR && t.a == d.a && t.b == d.b && Byte(t.c) == Byte(d.c)
    ensures Preserves([d, t], [d], m, pool, pool, nlocals, {d.a})
  {
    RunTwo(d, t, m, pool);
    RunOne(d, m, pool);
    if !m.done && d.a in m.regs {
      var m1 := m.(upvars := m.upvars[(d.b, Byte(d.c)) := m.regs[d.a]]);
      assert Step(t, m1, pool) == Some(SetReg(m1, d.a, m.regs[d.a]));
      assert m1.regs[d.a := m.regs[d.a]] == m1.regs;
    }
  }

  /** STRING then INTERN of its register is the SYMBOL load of the same literal. */
  lemma InternString(d: Insn, t: Insn, rep: Insn, m: Machine, pool: seq<PoolValue>, nlocals: int)
    requires d.op == OP_STRING && t.op == OP_INTERN && t.a == d.a
    requires rep.op == OP_SYMBOL && rep.a == d.a && rep.b == d.b
    ensures Preserves([d, t], [rep], m, pool, pool, nlocals, {d.a})
  {
    RunTwo(d, t, m, pool);
    RunOne(rep, m, pool);
    if !m.done {
      var m1 := SetReg(m, d.a, Obj(OP_STRING, d.b, 0));
      assert Step(t, m1, pool) == Some(SetReg(m1, d.a, Interned(Obj(OP_STRING, d.b, 0))));
      assert m1.regs[d.a := Interned(Obj(OP_STRING, d.b, 0))] == m.regs[d.a := Interned(Obj(OP_STRING, d.b, 0))];
    }
  }

  /**
   * gen_return keeps the meaning of the code: returning a temporary just
   * moved from x returns x, and a return right after a RETURN is never
   * reached.
   */
  lemma ReturnSound(insns: seq<Insn>, peep: bool, op: byte, src: u16, pool: seq<PoolValue>, nlocals: int,
                    from: nat, m: Machine)
    requires peep ==> |insns| > 0
    requires OperandBounds(insns) && PoolRefs(insns, |pool|)
    requires IsReturn(op) && src >= nlocals && from + (if peep then 1 else 0) <= |insns|
    ensures var e := ReturnEffect(insns, peep, op, src);
            Preserves(insns[from..] + [Plain(Emit1(op, src))], insns[from..e.keep] + Emitted(e.emit, pool),
                      m, pool, pool, nlocals, {})
  {
    var e := ReturnEffect(insns, peep, op, src);
    var n := |insns|;
    var t := Plain(Emit1(op, src));
    if e.emit.NoEmit? {
      var d := insns[n - 1];
      assert peep && d.op == OP_RETURN && e.keep == n;
      assert insns[from..n - 1] + [d] == insns[from..e.keep] + Emitted(e.emit, pool);
      var x := Run(insns[from..n - 1], m, pool);
      if x.Some? {
        AfterReturn(d, t, x.value, pool, nlocals, {});
      }
      CutLast(insns, from, t, [d], m, pool, nlocals, {});
    } else if e.keep == n {
      assert Emitted(e.emit, pool) == [t] && insns[from..e.keep] == insns[from..];
    } else {
      var d := insns[n - 1];
      var t' := Plain(Emit1(op, d.b as u16));
      assert Emitted(e.emit, pool) == [t'];
      var x := Run(insns[from..n - 1], m, pool);
      if x.Some? {
        ReadThroughMove(d, t, t', x.value, pool, nlocals);
      }
      CutLast(insns, from, t, [t'], m, pool, nlocals, {});
    }
  }

  /** gen_setxv keeps the meaning of the code: storing a temporary just moved from x stores x. */
  lemma SetxvSound(insns: seq<Insn>, peep: bool, op: byte, dst: u16, idx: u16, pool: seq<PoolValue>, nlocals: int,
                   from: nat, m: Machine)
    requires peep ==> |insns| > 0
    requires OperandBounds(insns) && PoolRefs(insns, |pool|)
    requires IsVarStore(op) && dst >= nlocals && from + (if peep then 1 else 0) <= |insns|
    ensures var e := SetxvEffect(insns, peep, op, dst, idx);
            Preserves(insns[from..] + [Plain(Emit2(op, dst, idx))], insns[from..e.keep] + Emitted(e.emit, pool),
                      m, pool, pool, nlocals, {})
  {
    var e := SetxvEffect(insns, peep, op, dst, idx);
    var n := |insns|;
    var t := Plain(Emit2(op, dst, idx));
    if e.keep == n {
      assert e.emit == Emit2(op, dst, idx);
      assert Emitted(e.emit, pool) == [t] && insns[from..e.keep] == insns[from..];
    } else {
      var d := insns[n - 1];
      var t' := Plain(Emit2(op, d.b as u16, idx));
      assert Emitted(e.emit, pool) == [t'];
      var x := Run(insns[from..n - 1], m, pool);
      if x.Some? {
        ReadThroughMove(d, t, t', x.value, pool, nlocals);
      }
      CutLast(insns, from, t, [t'], m, pool, nlocals, {});
    }
  }

  /**
   * gen_setupvar keeps the meaning of the code: storing a temporary just
   * moved from x stores x.  When the caller wants the value in dst
   * afterwards (val), dst keeps it too.
   */
  lemma SetupvarSound(insns: seq<Insn>, peep: bool, val: bool, dst: u16, idx: nat, lv: nat, pool: seq<PoolValue>,
                      nlocals: int, from: nat, m: Machine)
    requires peep ==> |insns| > 0
    requires OperandBounds(insns) && PoolRefs(insns, |pool|)
    requires dst >= nlocals && from + (if peep then 1 else 0) <= |insns|
    ensures var e := SetupvarEffect(insns, !val && peep, dst, idx, lv);
            Preserves(insns[from..] + [Plain(Emit3(OP_SETUPVAR, dst, ToU16(idx), ToU16(lv)))],
                      insns[from..e.keep] + Emitted(e.emit, pool), m, pool, pool, nlocals,
                      if val then {dst as int} else {})
  {
    var e := SetupvarEffect(insns, !val && peep, dst, idx, lv);
    var n := |insns|;
    var t := Plain(Emit3(OP_SETUPVAR, dst, ToU16(idx), ToU16(lv)));
    if e.keep == n {
      assert e.emit == Emit3(OP_SETUPVAR, dst, ToU16(idx), ToU16(lv));
      assert Emitted(e.emit, pool) == [t] && insns[from..e.keep] == insns[from..];
      PreservesRefl(insns[from..] + [t], m, pool, nlocals, if val then {dst as int} else {});
    } else {
      SetupvarCut(insns, dst, idx, lv, pool, nlocals, from, m, e);
    }
  }

  /**
   * gen_setupvar as written drops a last `MOVE dst x` also when val is
   * set, as in gen_assignment, which pushes dst as the assignment's value
   * right after: x is stored, but dst no longer receives the value.
   */
  lemma SetupvarDropsValue(dst: u16, x: u16, idx: nat, lv: nat, pool: seq<PoolValue>, nlocals: int, v: Val)
    requires dst >= nlocals && x != dst
    ensures var insns := [Mv(dst, x)];
            var e := SetupvarEffect(insns, true, dst, idx, lv);
            e.keep == 0
            && !Preserves(insns + [Plain(Emit3(OP_SETUPVAR, dst, ToU16(idx), ToU16(lv)))], Emitted(e.emit, pool),
                          Start(map[x as int := v]), pool, pool, nlocals, {dst as int})
  {
    var t := Plain(Emit3(OP_SETUPVAR, dst, ToU16(idx), ToU16(lv)));
    var t' := Plain(Emit3(OP_SETUPVAR, x, ToU16(idx), ToU16(lv)));
    var m := Start(map[x as int := v]);
    assert Emitted(SetupvarEffect([Mv(dst, x)], true, dst, idx, lv).emit, pool) == [t'];
    RunTwo(Mv(dst, x), t, m, pool);
    RunOne(t', m, pool);
    var y := Run([t'], m, pool).value;
    assert dst as int !in y.regs;
  }

  /** The case where gen_setupvar drops the last MOVE and stores its source. */
  lemma SetupvarCut(insns: seq<Insn>, dst: u16, idx: nat, lv: nat, pool: seq<PoolValue>, nlocals: int,
                    from: nat, m: Machine, e: Effect)
    requires |insns| > 0 && OperandBounds(insns) && PoolRefs(insns, |pool|)
    requires dst >= nlocals && from < |insns|
    requires e == SetupvarEffect(insns, true, dst, idx, lv) && e.keep != |insns|
    ensures Preserves(insns[from..] + [Plain(Emit3(OP_SETUPVAR, dst, ToU16(idx), ToU16(lv)))],
                      insns[from..e.keep] + Emitted(e.emit, pool), m, pool, pool, nlocals, {})
  {
    var n := |insns|;
    var t := Plain(Emit3(OP_SETUPVAR, dst, ToU16(idx), ToU16(lv)));
    var d := insns[n - 1];
    var t' := Plain(Emit3(OP_SETUPVAR, d.b as u16, ToU16(idx), ToU16(lv)));
    assert Emitted(e.emit, pool) == [t'];
    var x := Run(insns[from..n - 1], m, pool);
    if x.Some? {
      ReadThroughMove(d, t, t', x.value, pool, nlocals);
    }
    CutLast(insns, from, t, [t'], m, pool, nlocals, {});
  }

  /** gen_getupvar keeps the meaning of the code: dst already holds the upvariable it just stored. */
  lemma GetupvarSound(insns: seq<Insn>, peep: bool, dst: u16, idx: nat, lv: nat, pool: seq<PoolValue>, nlocals: int,
                      from: nat, m: Machine)
    requires peep ==> |insns| > 0
    requires OperandBounds(insns) && PoolRefs(insns, |pool|)
    requires from + (if peep then 1 else 0) <= |insns|
    ensures var e := GetupvarEffect(insns, peep, dst, idx, lv);
            Preserves(insns[from..] + [Plain(Emit3(OP_GETUPVAR, dst, ToU16(idx), ToU16(lv)))],
                      insns[from..e.keep] + Emitted(e.emit, pool), m, pool, pool, nlocals, {dst as int})
  {
    var e := GetupvarEffect(insns, peep, dst, idx, lv);
    var n := |insns|;
    var t := Plain(Emit3(OP_GETUPVAR, dst, ToU16(idx), ToU16(lv)));
    if e.emit.NoEmit? {
      assert insns[from..e.keep] + Emitted(e.emit, pool) == insns[from..n];
      ReloadWindow(insns, from, t, m, pool, nlocals);
    } else {
      assert Emitted(e.emit, pool) == [t] && insns[from..e.keep] == insns[from..];
    }
  }

  /** A GETUPVAR right after the SETUPVAR of the same register and upvariable can go. */
  lemma ReloadWindow(insns: seq<Insn>, from: nat, t: Insn, m: Machine, pool: seq<PoolValue>, nlocals: int)
    requires from < |insns| && PoolRefs(insns, |pool|)
    requires var d := insns[|insns| - 1];
             d.op == OP_SETUPVAR && t.op == OP_GETUPVAR && t.a == d.a && t.b == d.b && Byte(t.c) == Byte(d.c)
    ensures Preserves(insns[from..] + [t], insns[from..|insns|], m, pool, pool, nlocals, {t.a})
  {
    var n := |insns|;
    var d := insns[n - 1];
    SplitLast1(insns, from, t);
    var x := Run(insns[from..n - 1], m, pool);
    if x.Some? {
      UpvarReload(d, t, x.value, pool, nlocals);
    }
    CutLast(insns, from, t, [d], m, pool, nlocals, {t.a});
  }

  /** gen_intern keeps the meaning of the code: a string just loaded and interned is its symbol. */
  lemma InternSound(insns: seq<Insn>, peep: bool, sp: u16, pool: seq<PoolValue>, nlocals: int, from: nat, m: Machine)
    requires peep ==> |insns| > 0
    requires OperandBounds(insns) && PoolRefs(insns, |pool|)
    requires from + (if peep then 1 else 0) <= |insns|
    ensures var e := InternEffect(insns, peep, sp);
            Preserves(insns[from..] + [Plain(Emit1(OP_INTERN, sp))], insns[from..e.keep] + Emitted(e.emit, pool),
                      m, pool, pool, nlocals, {sp as int})
  {
    var e := InternEffect(insns, peep, sp);
    var n := |insns|;
    var t := Plain(Emit1(OP_INTERN, sp));
    if e.keep == n {
      assert Emitted(e.emit, pool) == [t] && insns[from..e.keep] == insns[from..];
    } else {
      var d := insns[n - 1];
      var rep := Plain(Emit2(OP_SYMBOL, sp, d.b as u16));
      assert Emitted(e.emit, pool) == [rep];
      var x := Run(insns[from..n - 1], m, pool);
      if x.Some? {
        InternString(d, t, rep, x.value, pool, nlocals);
      }
      CutLast(insns, from, t, [rep], m, pool, nlocals, {sp as int});
    }
  }
}
