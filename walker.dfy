/**
 * The tree walker's integer literal (codegen.yarp.c lines 3618-3637): the
 * literal's text is read with readint in base 10; a value that fits an
 * mrb_int is loaded with gen_int, one that does not goes to the pool as
 * a BIGINT entry of its digits and is loaded with OP_LOADL.  Either way
 * the value lands in the top register, which is then claimed.
 */
module Walker {
  import opened MachineInts
  import opened Opcodes
  import opened Encoding
  import opened Wrappers
  import opened Scope
  import opened Emitter
  import opened Pools
  import opened IntLoads
  import opened Registers
  import opened IntLiterals

  /** The characters of t up to its first NUL: what strlen counts from t's start. */
  function CString(t: string): (c: string)
    ensures |c| <= |t| && c == t[..|c|] && '\0' !in c
    ensures |c| < |t| ==> t[|c|] == '\0'
  {
    if |t| == 0 || t[0] == '\0' then []
    else
      var rest := CString(t[1..]);
      assert t[..1 + |rest|] == [t[0]] + t[1..][..|rest|];
      [t[0]] + rest
  }

  /**
   * The digits new_litbint stores for a literal at [start, end) of the
   * program text as written: it is handed the literal's start and measures
   * it with strlen, so it takes the rest of the text up to a NUL.
   */
  function LitbintTextAsWritten(src: string, start: nat): string
    requires start <= |src|
  {
    CString(src[start..])
  }

  /** A string without NUL is measured to its end. */
  lemma {:induction false} CStringWhole(t: string)
    requires '\0' !in t
    ensures CString(t) == t
    decreases |t|
  {
    if |t| > 0 {
      assert '\0' !in t[1..] by {
        forall k | 0 <= k < |t[1..]|
          ensures t[1..][k] != '\0'
        {
          assert t[1..][k] == t[k + 1];
        }
      }
      CStringWhole(t[1..]);
      assert t == [t[0]] + t[1..];
    }
  }

  /**
   * Whenever anything but a NUL follows the literal, new_litbint as
   * written is handed more than the literal's digits: all the program
   * text after it.
   */
  lemma LitbintOverruns(src: string, start: nat, end: nat)
    requires start <= end < |src| && '\0' !in src[start..]
    ensures LitbintTextAsWritten(src, start) == src[start..]
    ensures LitbintTextAsWritten(src, start) != src[start..end]
  {
    CStringWhole(src[start..]);
  }

  /**
   * `9223372036854775808`, the smallest literal that does not fit an
   * mrb_int, followed by 237 more characters of program: the literal has
   * 19 digits, but new_litbint is handed 256 characters and stops the
   * compilation with "integer too big".
   */
  lemma LitbintTooBig(src: string)
    requires |src| == 256 && '\0' !in src
    requires src[..19] == "9223372036854775808"
    ensures |LitbintTextAsWritten(src, 0)| > 255 && |src[0..19]| == 19
    ensures ReadIntSpec(src[0..19], 10, false) == Ok(Overflow)
  {
    CStringWhole(src[0..]);
    assert src[0..19] == src[..19];
    SmallestOverflow();
  }

  /** MRB_INT_MAX + 1 does not fit. */
  lemma SmallestOverflow()
    ensures ReadIntSpec("9223372036854775808", 10, false) == Ok(Overflow)
  {
    var t := "9223372036854775808";
    assert Unsigned(t) == t;
    EarlyMinDigits1();
    EarlyMinDigits2();
    EarlyMinDigits3();
    EarlyMinDigits4();
    assert t[..19] == t;
    FirstBadAt(t, 19);
  }

  /**
   * One record was appended, loading into dst; it reads back as v,
   * unless v went to the pool at an index past 16 bits.
   */
  predicate LoadsInt(insns0: seq<Insn>, insns: seq<Insn>, pool0: seq<PoolValue>, pool: seq<PoolValue>, dst: int, v: int) {
    |insns| == |insns0| + 1 && insns[..|insns0|] == insns0 && insns[|insns0|].a == dst
    && (IntIndex(pool0, v) <= UINT16_MAX ==> IntOperand(insns[|insns0|], pool) == Some(v))
  }

  /** One OP_LOADL into dst was appended; its entry, the first the scan accepts or a new one, holds these digits. */
  predicate LoadsBigInt(insns0: seq<Insn>, insns: seq<Insn>, pool0: seq<PoolValue>, pool: seq<PoolValue>, dst: int, digits: string) {
    var k := BigIntIndex(pool0, digits, 10);
    k < |pool| && pool[k].PBigInt? && pool[k].digits == digits
    && |insns| == |insns0| + 1 && insns[..|insns0|] == insns0
    && var d := insns[|insns0|];
    d.op == OP_LOADL && d.a == dst && d.b == ToU16(k) && d.c == 0
  }

  /** The pool after new_litbint stores the digits of a positive base-10 literal. */
  function AddBigInt(pool: seq<PoolValue>, digits: string): seq<PoolValue> {
    if BigIntIndex(pool, digits, 10) < |pool| then pool
    else pool + [PBigInt(SignedChar(|digits|), SignedChar(10), digits)]
  }

  /**
   * What loading the literal text into dst ends in: readint's error, then
   * new_litbint's, then check_no_ext_ops on the operands of the load.
   */
  function LiteralOutcome(cxt: Context, pool: seq<PoolValue>, text: string, dst: u16): Outcome {
    match ReadIntSpec(text, 10, false)
    case Fail(msg) => Error(msg)
    case Ok(Read(v)) => CheckNoExtOps(cxt, dst, LoadExtOperand(IntLoadForm(v), ToU16(IntIndex(pool, v))))
    case Ok(Overflow) =>
      if |text| > 255 then Error(INTEGER_TOO_BIG)
      else CheckNoExtOps(cxt, dst, ToU16(BigIntIndex(pool, text, 10)))
  }

  /** The pool after loading the literal text: the literal joins it when it needs an entry. */
  function LiteralPool(pool: seq<PoolValue>, text: string): seq<PoolValue> {
    match ReadIntSpec(text, 10, false)
    case Fail(_) => pool
    case Ok(Read(v)) => if IntLoadForm(v).FormLit? then AddInt(pool, v) else pool
    case Ok(Overflow) => if |text| > 255 then pool else AddBigInt(pool, text)
  }

  /**
   * The integer literal at [start, end) of the program text src, with the
   * digits new_litbint is handed cut at the literal's end.  Without val
   * nothing is emitted.  With val the literal is loaded into the top
   * register, which push then claims: the outcome is the load's, else
   * push's "too complex" when the register stack is full.  A value that
   * fits is loaded so that it reads back (when its pool index, if it needs
   * one, fits in 16 bits); a value that does not is loaded from a BIGINT
   * entry holding exactly the literal's digits.
   */
  method GenIntegerNode(s: CodegenScope, src: string, start: nat, end: nat, val: bool) returns (r: Outcome)
    requires s.Valid() && start <= end <= |src|
    modifies s`iseq, s`pc, s`lastpc, s`insns, s`pool, s`sp, s`nregs
    ensures s.Valid()
    ensures !val ==> r == Pass && s.CodeUnchanged() && s.pool == old(s.pool) && s.sp == old(s.sp)
    ensures r.Pass? ==> s.sp == old(s.sp) + (if val then 1 else 0)
    ensures r.Error? ==> s.sp == old(s.sp)
    ensures val ==>
              var text := src[start..end];
              var load := LiteralOutcome(s.cxt, old(s.pool), text, old(s.sp) as u16);
              s.pool == LiteralPool(old(s.pool), text)
              && r == (if load.Error? then load else if old(s.sp) + 1 >= 0xffff then Error(TOO_COMPLEX) else Pass)
              && (load.Error? ==> s.CodeUnchanged())
              && match ReadIntSpec(text, 10, false)
                 case Fail(_) => true
                 case Ok(Read(v)) =>
                   load.Pass? ==> LoadsInt(old(s.insns), s.insns, old(s.pool), s.pool, old(s.sp), v)
                 case Ok(Overflow) =>
                   load.Pass? ==> LoadsBigInt(old(s.insns), s.insns, old(s.pool), s.pool, old(s.sp), text)
  {
    if !val {
      return Pass;
    }
    r := LoadLiteral(s, src[start..end], s.sp as u16);
    if r.Error? {
      return;
    }
    r := PushN(s, 1);
  }

  /** The literal's text read in base 10 and loaded into dst, by its size. */
  method LoadLiteral(s: CodegenScope, text: string, dst: u16) returns (r: Outcome)
    requires s.Valid()
    modifies s`iseq, s`pc, s`lastpc, s`insns, s`pool
    ensures s.Valid()
    ensures r == LiteralOutcome(s.cxt, old(s.pool), text, dst)
    ensures s.pool == LiteralPool(old(s.pool), text)
    ensures r.Error? ==> s.CodeUnchanged()
    ensures match ReadIntSpec(text, 10, false)
            case Fail(msg) => r == Error(msg)
            case Ok(Read(v)) =>
              r.Pass? ==> LoadsInt(old(s.insns), s.insns, old(s.pool), s.pool, dst, v)
            case Ok(Overflow) =>
              (|text| > 255 ==> r == Error(INTEGER_TOO_BIG))
              && (r.Pass? ==> LoadsBigInt(old(s.insns), s.insns, old(s.pool), s.pool, dst, text))
  {
    var rd := ReadInt(text, 10, false);
    match rd {
      case Fail(msg) =>
        return Error(msg);
      case Ok(Overflow) =>
        r := LoadBigLiteral(s, text, dst);
      case Ok(Read(v)) =>
        r := LoadFitLiteral(s, v, dst);
    }
  }

  /** A literal too big for an mrb_int: its digits go to the pool, and OP_LOADL loads them. */
  method LoadBigLiteral(s: CodegenScope, text: string, dst: u16) returns (r: Outcome)
    requires s.Valid()
    modifies s`iseq, s`pc, s`lastpc, s`insns, s`pool
    ensures s.Valid()
    ensures r.Error? ==> s.CodeUnchanged()
    ensures |text| > 255 ==> r == Error(INTEGER_TOO_BIG) && s.pool == old(s.pool)
    ensures |text| <= 255 ==>
              s.pool == AddBigInt(old(s.pool), text)
              && r == CheckNoExtOps(s.cxt, dst, ToU16(BigIntIndex(old(s.pool), text, 10)))
    ensures r.Pass? ==> LoadsBigInt(old(s.insns), s.insns, old(s.pool), s.pool, dst, text)
  {
    ghost var pool0 := s.pool;
    var off := NewLitBint(s, text, 10, false);
    if off.Fail? {
      return Error(off.msg);
    }
    BigEntryAt(pool0, s.pool, text, off.value);
    r := GenLoadL(s, dst, off.value);
  }

  /** The entry new_litbint returns holds the digits, and its 16-bit truncation still names an entry. */
  lemma BigEntryAt(pool0: seq<PoolValue>, pool: seq<PoolValue>, digits: string, k: nat)
    requires k == BigIntIndex(pool0, digits, 10)
    requires pool == if k < |pool0| then pool0 else pool0 + [PBigInt(SignedChar(|digits|), SignedChar(10), digits)]
    ensures k < |pool| && pool[k].PBigInt? && pool[k].digits == digits && ToU16(k) < |pool|
    ensures pool == AddBigInt(pool0, digits)
  {
    assert ToU16(k) <= k;
  }

  /**
   * A literal that fits: gen_int loads it, a literal needing the pool
   * joins it, and reading the load back gives the value.
   */
  method LoadFitLiteral(s: CodegenScope, v: int, dst: u16) returns (r: Outcome)
    requires s.Valid()
    modifies s`iseq, s`pc, s`lastpc, s`insns, s`pool
    ensures s.Valid()
    ensures s.pool == if IntLoadForm(v).FormLit? then AddInt(old(s.pool), v) else old(s.pool)
    ensures r == CheckNoExtOps(s.cxt, dst, LoadExtOperand(IntLoadForm(v), ToU16(IntIndex(old(s.pool), v))))
    ensures r.Error? ==> s.CodeUnchanged()
    ensures r.Pass? ==> LoadsInt(old(s.insns), s.insns, old(s.pool), s.pool, dst, v)
  {
    ghost var pool0 := s.pool;
    ghost var pc0 := s.pc;
    r := GenInt(s, dst, v);
    if r.Pass? && IntIndex(pool0, v) <= UINT16_MAX {
      IntLoadRoundTrip(v, dst, pool0, pc0, s.pc - pc0);
    }
  }
}
