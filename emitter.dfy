/**
 * The instruction emitters genop_0 .. genop_W, check_no_ext_ops and
 * new_label (codegen.yarp.c lines 203-359).  Each appends one
 * instruction, records it, and points lastpc at it.  Each emitter takes
 * only opcodes of its own operand format, so that the record it keeps
 * is what mrb_decode_insn reads back from the bytes it wrote.
 */
module Emitter {
  import opened MachineInts
  import opened Opcodes
  import opened Encoding
  import opened Wrappers
  import opened Scope

  const EXT_PROHIBITED: string := "need OP_EXTs instruction (currently OP_EXTs are prohibited)"

  /** check_no_ext_ops: a wide operand is an error when OP_EXTs are prohibited. */
  function CheckNoExtOps(cxt: Context, a: u16, b: u16): (r: Outcome)
    ensures r.Error? <==> cxt.noExtOps && (a > 0xff || b > 0xff)
    ensures r.Error? ==> r.msg == EXT_PROHIBITED
  {
    if cxt.noExtOps && NeedsExt(a, b) then Error(EXT_PROHIBITED) else Pass
  }

  /** new_label: the current pc becomes the last label. */
  method NewLabel(s: CodegenScope) returns (pos: nat)
    requires s.Valid()
    modifies s`lastlabel
    ensures s.Valid() && pos == s.pc && s.lastlabel == s.pc
  {
    s.lastlabel := s.pc;
    pos := s.pc;
  }

  method Genop0(s: CodegenScope, i: byte)
    requires s.Valid() && FormatOf(i) == Z && !IsExtPrefix(i)
    modifies s`iseq, s`pc, s`lastpc, s`insns
    ensures s.Valid() && s.Appended(Op0Bytes(i), i, 0, 0, 0)
  {
    Op0RoundTrip(s.iseq, i);
    Emit(s, Op0Bytes(i), i, 0, 0, 0);
  }

  method Genop1(s: CodegenScope, i: byte, a: u16) returns (r: Outcome)
    requires s.Valid() && FormatOf(i) == B
    modifies s`iseq, s`pc, s`lastpc, s`insns
    ensures s.Valid()
    ensures r == CheckNoExtOps(s.cxt, a, 0)
    ensures r.Pass? ==> s.Appended(Op1Bytes(i, a), i, a, 0, 0)
    ensures r.Error? ==> s.CodeUnchanged()
  {
    r := CheckNoExtOps(s.cxt, a, 0);
    if r.Error? {
      return;
    }
    Op1RoundTrip(s.iseq, i, a);
    Emit(s, Op1Bytes(i, a), i, a, 0, 0);
  }

  method Genop2(s: CodegenScope, i: byte, a: u16, b: u16) returns (r: Outcome)
    requires s.Valid() && FormatOf(i) == BB
    requires i == OP_LOADL ==> b < |s.pool|
    modifies s`iseq, s`pc, s`lastpc, s`insns
    ensures s.Valid()
    ensures r == CheckNoExtOps(s.cxt, a, b)
    ensures r.Pass? ==> s.Appended(Op2Bytes(i, a, b), i, a, b, 0)
    ensures r.Error? ==> s.CodeUnchanged()
  {
    r := CheckNoExtOps(s.cxt, a, b);
    if r.Error? {
      return;
    }
    Op2RoundTrip(s.iseq, i, a, b);
    Emit(s, Op2Bytes(i, a, b), i, a, b, 0);
  }

  method Genop3(s: CodegenScope, i: byte, a: u16, b: u16, c: u16) returns (r: Outcome)
    requires s.Valid() && FormatOf(i) == BBB
    modifies s`iseq, s`pc, s`lastpc, s`insns
    ensures s.Valid()
    ensures r == CheckNoExtOps(s.cxt, a, b)
    ensures r.Pass? ==> s.Appended(Op3Bytes(i, a, b, c), i, a, b, c % 0x100)
    ensures r.Error? ==> s.CodeUnchanged()
  {
    r := CheckNoExtOps(s.cxt, a, b);
    if r.Error? {
      return;
    }
    Op3RoundTrip(s.iseq, i, a, b, c);
    Emit(s, Op3Bytes(i, a, b, c), i, a, b, c % 0x100);
  }

  method Genop2S(s: CodegenScope, i: byte, a: u16, b: u16) returns (r: Outcome)
    requires s.Valid() && FormatOf(i) == BS
    modifies s`iseq, s`pc, s`lastpc, s`insns
    ensures s.Valid()
    ensures r == CheckNoExtOps(s.cxt, a, 0)
    ensures r.Pass? ==> s.Appended(Op2SBytes(i, a, b), i, a, b, 0)
    ensures r.Error? ==> s.CodeUnchanged()
  {
    r := CheckNoExtOps(s.cxt, a, 0);
    if r.Error? {
      return;
    }
    Op2SRoundTrip(s.iseq, i, a, b);
    Emit(s, Op2SBytes(i, a, b), i, a, b, 0);
  }

  method Genop2SS(s: CodegenScope, i: byte, a: u16, b: u32) returns (r: Outcome)
    requires s.Valid() && FormatOf(i) == BSS
    modifies s`iseq, s`pc, s`lastpc, s`insns
    ensures s.Valid()
    ensures r == CheckNoExtOps(s.cxt, a, 0)
    ensures r.Pass? ==> s.Appended(Op2SSBytes(i, a, b), i, a, b / 0x1_0000, b % 0x1_0000)
    ensures r.Error? ==> s.CodeUnchanged()
  {
    r := CheckNoExtOps(s.cxt, a, 0);
    if r.Error? {
      return;
    }
    Op2SSRoundTrip(s.iseq, i, a, b);
    Emit(s, Op2SSBytes(i, a, b), i, a, b / 0x1_0000, b % 0x1_0000);
  }

  method GenopW(s: CodegenScope, i: byte, a: u32)
    requires s.Valid() && FormatOf(i) == W
    modifies s`iseq, s`pc, s`lastpc, s`insns
    ensures s.Valid()
    ensures s.Appended(OpWBytes(i, a), i, a % 0x100_0000, 0, 0)
  {
    OpWRoundTrip(s.iseq, i, a);
    Emit(s, OpWBytes(i, a), i, a % 0x100_0000, 0, 0);
  }
}
