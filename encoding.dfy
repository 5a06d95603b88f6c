/**
 * The instruction encoder (genop_0 .. genop_W and gen_S of codegen.yarp.c)
 * as byte-exact functions, and a decoder standing in for mrb_decode_insn,
 * which turns the bytes at an address back into a decoded record.
 */
module Encoding {
  import opened MachineInts
  import opened Opcodes
  import opened Wrappers

  /**
   * A decoded instruction (struct mrb_insn_data): opcode, operands, the
   * address it starts at (its EXT prefix, if any) and its length in bytes.
   */
  datatype Insn = Insn(op: byte, a: int, b: int, c: int, addr: nat, size: nat)

  /** gen_S / emit_S: a 16-bit operand, high byte first. */
  function SBytes(v: u16): (r: seq<byte>)
    ensures |r| == 2 && BE16(r[0], r[1]) == v
  {
    [Hi(v), Lo(v)]
  }

  /** genop_0: the opcode alone. */
  function Op0Bytes(i: byte): seq<byte> {
    [i]
  }

  /** genop_1: one operand, widened with OP_EXT1 when it exceeds a byte. */
  function Op1Bytes(i: byte, a: u16): (r: seq<byte>)
    ensures |r| == if a > 0xff then 4 else 2
  {
    if a > 0xff then [OP_EXT1, i] + SBytes(a) else [i, a]
  }

  /**
   * genop_2: two operands; OP_EXT3 widens both, OP_EXT2 only b, OP_EXT1
   * only a, and without a prefix both are single bytes.
   */
  function Op2Bytes(i: byte, a: u16, b: u16): (r: seq<byte>)
    ensures |r| == 3 + (if NeedsExt(a, b) then 1 else 0) + (if a > 0xff then 1 else 0) + (if b > 0xff then 1 else 0)
    ensures NeedsExt(a, b) ==> IsExtPrefix(r[0]) && r[1] == i
    ensures !NeedsExt(a, b) ==> r[0] == i
  {
    if a > 0xff && b > 0xff then [OP_EXT3, i] + SBytes(a) + SBytes(b)
    else if b > 0xff then [OP_EXT2, i, a] + SBytes(b)
    else if a > 0xff then [OP_EXT1, i] + SBytes(a) + [b]
    else [i, a, b]
  }

  /** genop_3: genop_2 followed by the low byte of c. */
  function Op3Bytes(i: byte, a: u16, b: u16, c: u16): seq<byte> {
    Op2Bytes(i, a, b) + [c % 0x100]
  }

  /** genop_2S: genop_1 followed by a 16-bit b. */
  function Op2SBytes(i: byte, a: u16, b: u16): seq<byte> {
    Op1Bytes(i, a) + SBytes(b)
  }

  /** genop_2SS: genop_1 followed by the two 16-bit halves of b. */
  function Op2SSBytes(i: byte, a: u16, b: u32): seq<byte> {
    Op1Bytes(i, a) + SBytes(b / 0x1_0000) + SBytes(b % 0x1_0000)
  }

  /** genjmp: the opcode followed by a 16-bit offset (genop_0 and gen_jmpdst). */
  function JmpBytes(i: byte, off: u16): seq<byte> {
    [i] + SBytes(off)
  }

  /** genop_W: the opcode and the low 24 bits of a, high byte first. */
  function OpWBytes(i: byte, a: u32): seq<byte> {
    [i, (a / 0x1_0000) % 0x100, (a / 0x100) % 0x100, a % 0x100]
  }

  // ---------------------------------------------------------------------
  // Decoding
  // ---------------------------------------------------------------------

  function Width(wide: bool): nat {
    if wide then 2 else 1
  }

  /** Byte widths of the a, b and c operands of a format (0 when absent),
   *  given which operands a prefix widened. */
  function Layout(f: Format, wa: bool, wb: bool): (nat, nat, nat) {
    match f
    case Z => (0, 0, 0)
    case B => (Width(wa), 0, 0)
    case BB => (Width(wa), Width(wb), 0)
    case BBB => (Width(wa), Width(wb), 1)
    case BS => (Width(wa), 2, 0)
    case BSS => (Width(wa), 2, 2)
    case S => (2, 0, 0)
    case W => (3, 0, 0)
  }

  /** The big-endian value of the w bytes at p (w at most 3). */
  function ReadN(code: seq<byte>, p: nat, w: nat): int
    requires w <= 3 && p + w <= |code|
  {
    if w == 0 then 0
    else if w == 1 then code[p] as int
    else if w == 2 then (code[p] as int) * 0x100 + code[p + 1] as int
    else (code[p] as int) * 0x1_0000 + (code[p + 1] as int) * 0x100 + code[p + 2] as int
  }

  /** mrb_decode_insn: the instruction that starts at pc, if the bytes hold one. */
  function Decode(code: seq<byte>, pc: nat): Option<Insn> {
    if pc >= |code| then None
    else
      var pre := code[pc];
      var start := if IsExtPrefix(pre) then pc + 1 else pc;
      var wa := pre == OP_EXT1 || pre == OP_EXT3;
      var wb := pre == OP_EXT2 || pre == OP_EXT3;
      if start >= |code| then None
      else
        var op := code[start];
        var (na, nb, nc) := Layout(FormatOf(op), wa, wb);
        var p := start + 1;
        if p + na + nb + nc > |code| then None
        else
          Some(Insn(op, ReadN(code, p, na), ReadN(code, p + na, nb), ReadN(code, p + na + nb, nc),
                    pc, p + na + nb + nc - pc))
  }

  // ---------------------------------------------------------------------
  // Round trips: decoding what each genop wrote yields its operands back
  // ---------------------------------------------------------------------

  lemma ShortAt(code: seq<byte>, q: nat, v: u16)
    requires q + 2 <= |code| && code[q] == Hi(v) && code[q + 1] == Lo(v)
    ensures ReadN(code, q, 2) == v
  {
  }

  lemma Op1RoundTrip(pre: seq<byte>, i: byte, a: u16)
    requires FormatOf(i) == B
    ensures Decode(pre + Op1Bytes(i, a), |pre|) == Some(Insn(i, a, 0, 0, |pre|, |Op1Bytes(i, a)|))
  {
    if a > 0xff {
      ShortAt(pre + Op1Bytes(i, a), |pre| + 2, a);
    }
  }

  lemma Op2RoundTrip(pre: seq<byte>, i: byte, a: u16, b: u16)
    requires FormatOf(i) == BB
    ensures Decode(pre + Op2Bytes(i, a, b), |pre|) == Some(Insn(i, a, b, 0, |pre|, |Op2Bytes(i, a, b)|))
  {
    var code := pre + Op2Bytes(i, a, b);
    var p := |pre|;
    if a > 0xff && b > 0xff {
      ShortAt(code, p + 2, a);
      ShortAt(code, p + 4, b);
    } else if b > 0xff {
      ShortAt(code, p + 3, b);
    } else if a > 0xff {
      ShortAt(code, p + 2, a);
    }
  }

  lemma Op0RoundTrip(pre: seq<byte>, i: byte)
    requires FormatOf(i) == Z && !IsExtPrefix(i)
    ensures Decode(pre + Op0Bytes(i), |pre|) == Some(Insn(i, 0, 0, 0, |pre|, 1))
  {
  }

  lemma Op3RoundTrip(pre: seq<byte>, i: byte, a: u16, b: u16, c: u16)
    requires FormatOf(i) == BBB
    ensures Decode(pre + Op3Bytes(i, a, b, c), |pre|)
         == Some(Insn(i, a, b, c % 0x100, |pre|, |Op3Bytes(i, a, b, c)|))
  {
    var code := pre + Op3Bytes(i, a, b, c);
    var p := |pre|;
    if a > 0xff && b > 0xff {
      ShortAt(code, p + 2, a);
      ShortAt(code, p + 4, b);
    } else if b > 0xff {
      ShortAt(code, p + 3, b);
    } else if a > 0xff {
      ShortAt(code, p + 2, a);
    }
  }

  lemma Op2SRoundTrip(pre: seq<byte>, i: byte, a: u16, b: u16)
    requires FormatOf(i) == BS
    ensures Decode(pre + Op2SBytes(i, a, b), |pre|) == Some(Insn(i, a, b, 0, |pre|, |Op2SBytes(i, a, b)|))
  {
    var code := pre + Op2SBytes(i, a, b);
    var p := |pre|;
    if a > 0xff {
      ShortAt(code, p + 2, a);
      ShortAt(code, p + 4, b);
    } else {
      ShortAt(code, p + 2, b);
    }
  }

  lemma Op2SSRoundTrip(pre: seq<byte>, i: byte, a: u16, b: u32)
    requires FormatOf(i) == BSS
    ensures Decode(pre + Op2SSBytes(i, a, b), |pre|)
         == Some(Insn(i, a, b / 0x1_0000, b % 0x1_0000, |pre|, |Op2SSBytes(i, a, b)|))
  {
    var code := pre + Op2SSBytes(i, a, b);
    var p := |pre|;
    if a > 0xff {
      ShortAt(code, p + 2, a);
      ShortAt(code, p + 4, b / 0x1_0000);
      ShortAt(code, p + 6, b % 0x1_0000);
    } else {
      ShortAt(code, p + 2, b / 0x1_0000);
      ShortAt(code, p + 4, b % 0x1_0000);
    }
  }

  lemma OpWRoundTrip(pre: seq<byte>, i: byte, a: u32)
    requires FormatOf(i) == W
    ensures Decode(pre + OpWBytes(i, a), |pre|) == Some(Insn(i, a % 0x100_0000, 0, 0, |pre|, 4))
  {
    ThreeBytes(a);
  }

  lemma ThreeBytes(a: u32)
    ensures ((a / 0x1_0000) % 0x100) * 0x1_0000 + ((a / 0x100) % 0x100) * 0x100 + a % 0x100 == a % 0x100_0000
  {
    var x := a % 0x100_0000;
    var q := a / 0x100_0000;
    assert a == q * 0x100_0000 + x;
    assert a / 0x1_0000 == q * 0x100 + x / 0x1_0000;
    assert (a / 0x1_0000) % 0x100 == x / 0x1_0000;
    assert a / 0x100 == q * 0x1_0000 + x / 0x100;
    assert (a / 0x100) % 0x100 == (x / 0x100) % 0x100;
    assert a % 0x100 == x % 0x100;
  }

  lemma JmpRoundTrip(pre: seq<byte>, i: byte, off: u16)
    requires FormatOf(i) == S
    ensures Decode(pre + JmpBytes(i, off), |pre|) == Some(Insn(i, off, 0, 0, |pre|, 3))
  {
    ShortAt(pre + JmpBytes(i, off), |pre| + 1, off);
  }
}
