/**
 * Fixed-width integers of the C code, written out on Dafny's unbounded
 * integers.  `mrb_int` is the 64-bit configuration (MRB_INT64).
 */
module MachineInts {

  type byte = x: int | 0 <= x < 0x100
  type u16 = x: int | 0 <= x < 0x1_0000
  type u32 = x: int | 0 <= x < 0x1_0000_0000

  const INT8_MIN: int := -0x80
  const INT8_MAX: int := 0x7f
  const INT16_MIN: int := -0x8000
  const INT16_MAX: int := 0x7fff
  const INT32_MIN: int := -0x8000_0000
  const INT32_MAX: int := 0x7fff_ffff
  const UINT16_MAX: int := 0xffff
  const UINT32_MAX: int := 0xffff_ffff
  const MRB_INT_MIN: int := -0x8000_0000_0000_0000
  const MRB_INT_MAX: int := 0x7fff_ffff_ffff_ffff

  /** A value representable as `mrb_int`. */
  predicate IsMrbInt(x: int) {
    MRB_INT_MIN <= x <= MRB_INT_MAX
  }

  predicate IsInt16(x: int) {
    INT16_MIN <= x <= INT16_MAX
  }

  /** The C conversion `(uint16_t)x`: reduction modulo 2^16. */
  function ToU16(x: int): (r: u16)
    ensures (r - x) % 0x1_0000 == 0
  {
    x % 0x1_0000
  }

  /** The C conversion `(uint32_t)x`: reduction modulo 2^32. */
  function ToU32(x: int): (r: u32)
    ensures (r - x) % 0x1_0000_0000 == 0
  {
    x % 0x1_0000_0000
  }

  lemma ToU32Small(x: int)
    requires 0 <= x <= UINT32_MAX
    ensures ToU32(x) == x
  {
  }

  /** The C conversion `(int16_t)v` of a 16-bit pattern (two's complement). */
  function Int16Of(v: u16): (r: int)
    ensures IsInt16(r)
    ensures ToU16(r) == v
  {
    if v <= INT16_MAX then v else v - 0x1_0000
  }

  /** Reading back a truncated value recovers every value of the int16 range. */
  lemma Int16RoundTrip(x: int)
    requires IsInt16(x)
    ensures Int16Of(ToU16(x)) == x
  {
  }

  /** The C conversion `(int32_t)v` of a 32-bit pattern (two's complement). */
  function Int32Of(v: u32): (r: int)
    ensures INT32_MIN <= r <= INT32_MAX
    ensures ToU32(r) == v
  {
    if v <= INT32_MAX then v else v - 0x1_0000_0000
  }

  /** High and low byte of a 16-bit value (`i>>8` and `i&0xff`). */
  function Hi(v: u16): byte { v / 0x100 }
  function Lo(v: u16): byte { v % 0x100 }

  /** The big-endian 16-bit value whose bytes are `hi` and `lo`. */
  function BE16(hi: byte, lo: byte): u16 {
    hi * 0x100 + lo
  }

  lemma BE16OfBytes(v: u16)
    ensures BE16(Hi(v), Lo(v)) == v
  {
  }

  lemma BytesOfBE16(hi: byte, lo: byte)
    ensures Hi(BE16(hi, lo)) == hi && Lo(BE16(hi, lo)) == lo
  {
  }

  /**
   * The "needs an extension prefix" test of check_no_ext_ops, `(a | b) > 0xff`
   * on two 16-bit operands, is the test that one of them exceeds a byte.
   */
  predicate NeedsExt(a: u16, b: u16) {
    a > 0xff || b > 0xff
  }

  // ---------------------------------------------------------------------
  // Division and remainder.  Dafny's / and % are Euclidean; C truncates
  // toward zero, and Ruby (mrb_div_int, Integer#%) floors.
  // ---------------------------------------------------------------------

  function Abs(x: int): nat { if x < 0 then -x else x }

  /** C's `n0 / n`, rounding toward zero. */
  function CDiv(n0: int, n: int): int
    requires n != 0
  {
    var q := Abs(n0) / Abs(n);
    if (n0 < 0) == (n < 0) then q else -q
  }

  /** C's `n0 % n`: the remainder of CDiv, with the sign of the dividend. */
  function CRem(n0: int, n: int): (r: int)
    requires n != 0
    ensures n0 == CDiv(n0, n) * n + r
    ensures Abs(r) < Abs(n)
    ensures r == 0 || (r < 0 <==> n0 < 0)
  {
    var q := Abs(n0) / Abs(n);
    var m := Abs(n0) % Abs(n);
    assert Abs(n0) == q * Abs(n) + m;
    if n0 < 0 then -m else m
  }

  /** Integer division rounding toward negative infinity. */
  function FloorDiv(n0: int, n: int): int
    requires n != 0
  {
    if n > 0 then n0 / n else (-n0) / (-n)
  }

  /** The remainder of FloorDiv, which has the sign of the divisor. */
  function FloorMod(n0: int, n: int): (r: int)
    requires n != 0
    ensures n0 == FloorDiv(n0, n) * n + r
    ensures Abs(r) < Abs(n)
    ensures r == 0 || (r < 0 <==> n < 0)
  {
    if n > 0 then n0 % n else -((-n0) % (-n))
  }

  // ---------------------------------------------------------------------
  // Bitwise operations on two's complement integers, defined bit by bit
  // (the lowest bit, then the rest of the number shifted right).
  // ---------------------------------------------------------------------

  datatype BitOp = And | Or | Xor

  function Bit(op: BitOp, p: int, q: int): int
    requires 0 <= p <= 1 && 0 <= q <= 1
  {
    match op
    case And => p * q
    case Or => if p + q > 0 then 1 else 0
    case Xor => (p + q) % 2
  }

  function Pow2(k: nat): (r: int)
    ensures r >= 1
  {
    if k == 0 then 1 else 2 * Pow2(k - 1)
  }

  /** `x & y`, `x | y`, `x ^ y` on the infinite two's complement expansions. */
  function Bitwise(op: BitOp, x: int, y: int): int
    decreases Abs(x) + Abs(y)
  {
    if (x == 0 || x == -1) && (y == 0 || y == -1) then
      -Bit(op, -x, -y)
    else
      assert Abs(x / 2) + Abs(y / 2) < Abs(x) + Abs(y);
      2 * Bitwise(op, x / 2, y / 2) + Bit(op, x % 2, y % 2)
  }

  /** A bitwise operation never leaves the k-bit signed range of its operands. */
  lemma {:induction false} BitwiseRange(op: BitOp, x: int, y: int, k: nat)
    requires -Pow2(k) <= x < Pow2(k) && -Pow2(k) <= y < Pow2(k)
    ensures -Pow2(k) <= Bitwise(op, x, y) < Pow2(k)
    decreases k
  {
    if (x == 0 || x == -1) && (y == 0 || y == -1) {
    } else if k == 0 {
      assert false;
    } else {
      BitwiseRange(op, x / 2, y / 2, k - 1);
    }
  }

  lemma {:induction false} Pow2Add(a: nat, b: nat)
    ensures Pow2(a + b) == Pow2(a) * Pow2(b)
    decreases a
  {
    if a > 0 {
      Pow2Add(a - 1, b);
    }
  }

  lemma MrbIntIsPow2Range()
    ensures Pow2(63) == MRB_INT_MAX + 1
  {
    Pow2Of32();
    Pow2Add(32, 16);
    assert Pow2(48) == 0x1_0000_0000_0000;
    Pow2Add(48, 8);
    assert Pow2(56) == 0x100_0000_0000_0000;
    Pow2Add(56, 4);
    assert Pow2(60) == 0x1000_0000_0000_0000;
    Pow2Add(60, 2);
    assert Pow2(62) == 0x4000_0000_0000_0000;
    Pow2Add(62, 1);
  }

  lemma Pow2Of32()
    ensures Pow2(32) == 0x1_0000_0000 && Pow2(16) == 0x1_0000 && Pow2(8) == 0x100 && Pow2(4) == 0x10
    ensures Pow2(2) == 4 && Pow2(1) == 2
  {
    assert Pow2(2) == 4;
    Pow2Add(2, 2);
    assert Pow2(4) == 0x10;
    Pow2Add(4, 4);
    assert Pow2(8) == 0x100;
    Pow2Add(8, 8);
    assert Pow2(16) == 0x1_0000;
    Pow2Add(16, 16);
  }

  /** `~n` on mrb_int: every bit flipped, which in two's complement is -n-1. */
  function Complement(n: int): (r: int)
    requires IsMrbInt(n)
    ensures IsMrbInt(r)
    ensures r == Bitwise(Xor, n, -1)
  {
    XorMinusOne(n);
    -n - 1
  }

  lemma {:induction false} XorMinusOne(n: int)
    ensures Bitwise(Xor, n, -1) == -n - 1
    decreases Abs(n)
  {
    if n == 0 || n == -1 {
    } else {
      XorMinusOne(n / 2);
    }
  }

  /** The folded value of `n0 & n`, `n0 | n` or `n0 ^ n` is again an mrb_int. */
  lemma BitwiseMrbInt(op: BitOp, x: int, y: int)
    requires IsMrbInt(x) && IsMrbInt(y)
    ensures IsMrbInt(Bitwise(op, x, y))
  {
    MrbIntIsPow2Range();
    BitwiseRange(op, x, y, 63);
  }
}
