/**
 * The mruby opcodes the generator emits or inspects, and their operand
 * formats.  The numbering follows the order of mruby/ops.h; no property of
 * this model depends on the particular numbers, only on their being
 * distinct bytes and on OP_LOADI_0 .. OP_LOADI_7 being consecutive.
 */
module Opcodes {
  import opened MachineInts

  const OP_NOP: byte := 0
  const OP_MOVE: byte := 1
  const OP_LOADL: byte := 2
  const OP_LOADI: byte := 3
  const OP_LOADINEG: byte := 4
  const OP_LOADI__1: byte := 5
  const OP_LOADI_0: byte := 6
  const OP_LOADI_7: byte := 13
  const OP_LOADI16: byte := 14
  const OP_LOADI32: byte := 15
  const OP_LOADSYM: byte := 16
  const OP_LOADNIL: byte := 17
  const OP_LOADSELF: byte := 18
  const OP_LOADT: byte := 19
  const OP_LOADF: byte := 20
  const OP_GETGV: byte := 21
  const OP_SETGV: byte := 22
  const OP_GETSV: byte := 23
  const OP_SETSV: byte := 24
  const OP_GETIV: byte := 25
  const OP_SETIV: byte := 26
  const OP_GETCV: byte := 27
  const OP_SETCV: byte := 28
  const OP_GETCONST: byte := 29
  const OP_SETCONST: byte := 30
  const OP_GETMCNST: byte := 31
  const OP_SETMCNST: byte := 32
  const OP_GETUPVAR: byte := 33
  const OP_SETUPVAR: byte := 34
  const OP_GETIDX: byte := 35
  const OP_SETIDX: byte := 36
  const OP_JMP: byte := 37
  const OP_JMPIF: byte := 38
  const OP_JMPNOT: byte := 39
  const OP_JMPNIL: byte := 40
  const OP_JMPUW: byte := 41
  const OP_SSEND: byte := 45
  const OP_SSENDB: byte := 46
  const OP_SEND: byte := 47
  const OP_SENDB: byte := 48
  const OP_ENTER: byte := 52
  const OP_RETURN: byte := 56
  const OP_RETURN_BLK: byte := 57
  const OP_BREAK: byte := 58
  const OP_BLKPUSH: byte := 59
  const OP_ADD: byte := 60
  const OP_ADDI: byte := 61
  const OP_SUB: byte := 62
  const OP_SUBI: byte := 63
  const OP_MUL: byte := 64
  const OP_DIV: byte := 65
  const OP_EQ: byte := 66
  const OP_LT: byte := 67
  const OP_LE: byte := 68
  const OP_GT: byte := 69
  const OP_GE: byte := 70
  const OP_ARRAY: byte := 71
  const OP_ARRAY2: byte := 72
  const OP_ARYCAT: byte := 73
  const OP_ARYPUSH: byte := 74
  const OP_AREF: byte := 76
  const OP_APOST: byte := 78
  const OP_INTERN: byte := 79
  const OP_SYMBOL: byte := 80
  const OP_STRING: byte := 81
  const OP_STRCAT: byte := 82
  const OP_HASH: byte := 83
  const OP_HASHADD: byte := 84
  const OP_HASHCAT: byte := 85
  const OP_LAMBDA: byte := 86
  const OP_BLOCK: byte := 87
  const OP_METHOD: byte := 88
  const OP_EXT1: byte := 102
  const OP_EXT2: byte := 103
  const OP_EXT3: byte := 104
  const OP_STOP: byte := 105

  /** `OP_LOADI_0 + n` for a small non-negative n. */
  function LoadISmall(n: int): (op: byte)
    requires 0 <= n < 8
    ensures OP_LOADI_0 <= op <= OP_LOADI_7
  {
    OP_LOADI_0 + n
  }

  predicate IsLoadISmall(op: byte) {
    OP_LOADI_0 <= op <= OP_LOADI_7
  }

  predicate IsExtPrefix(op: byte) {
    op == OP_EXT1 || op == OP_EXT2 || op == OP_EXT3
  }

  /** The conditional and unconditional jumps; no rewrite ever matches one. */
  predicate IsJump(op: byte) {
    op == OP_JMP || op == OP_JMPIF || op == OP_JMPNOT || op == OP_JMPNIL || op == OP_JMPUW
  }

  /**
   * Operand formats (the FETCH_* shapes of mruby/ops.h): B is one byte
   * operand, S a 16-bit operand, W a 24-bit operand.
   */
  datatype Format = Z | B | BB | BBB | BS | BSS | S | W

  function FormatOf(op: byte): Format {
    if op == OP_NOP || op == OP_STOP || op == OP_EXT1 || op == OP_EXT2 || op == OP_EXT3 then Z
    else if op == OP_LOADI__1 || op == OP_LOADNIL || op == OP_LOADSELF || op == OP_LOADT || op == OP_LOADF
         || op == OP_GETIDX || op == OP_SETIDX || op == OP_RETURN || op == OP_RETURN_BLK || op == OP_BREAK
         || op == OP_ADD || op == OP_SUB || op == OP_MUL || op == OP_DIV
         || op == OP_EQ || op == OP_LT || op == OP_LE || op == OP_GT || op == OP_GE
         || op == OP_ARYCAT || op == OP_INTERN || op == OP_STRCAT || op == OP_HASHCAT || IsLoadISmall(op) then B
    else if op == OP_GETUPVAR || op == OP_SETUPVAR || op == OP_SSEND || op == OP_SSENDB || op == OP_SEND
         || op == OP_SENDB || op == OP_ARRAY2 || op == OP_AREF || op == OP_APOST then BBB
    else if op == OP_LOADI16 || op == OP_JMPIF || op == OP_JMPNOT || op == OP_JMPNIL || op == OP_BLKPUSH then BS
    else if op == OP_LOADI32 then BSS
    else if op == OP_JMP || op == OP_JMPUW then S
    else if op == OP_ENTER then W
    else BB
  }

}
