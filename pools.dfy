/**
 * The literal pool and the symbol table (new_lit_str, new_lit_int,
 * new_litbint and new_sym, codegen.yarp.c lines 1030-1193).  Both are
 * append-only tables deduplicated by a linear scan: an insert returns the
 * index of the first entry that the scan accepts, and otherwise appends
 * the value at the old length.
 */
module Pools {
  import opened MachineInts
  import opened Wrappers
  import opened Scope
  import Encoding

  const INTEGER_TOO_BIG: string := "integer too big"
  const TOO_MANY_SYMBOLS: string := "too many symbols"

  /** The most symbols one irep can hold: scapa doubles from 256 and may not exceed 0xffff. */
  const MAX_SYMS: nat := 0x8000

  // ---------------------------------------------------------------------
  // The tests the scans apply to an entry
  // ---------------------------------------------------------------------

  /** new_lit_int accepts an integer entry (IREP_TT_INT32 or IREP_TT_INT64) holding num. */
  predicate IntMatches(e: PoolValue, num: int) {
    e.PInt? && e.i == num
  }

  /**
   * new_lit_str accepts a string entry whose stored length equals len and
   * whose first len bytes are str.  The length is kept in the upper 30
   * bits of the 32-bit type tag (`(uint32_t)(len<<2)`), so it is the real
   * length modulo 2^30.
   */
  predicate StrMatches(e: PoolValue, str: seq<byte>) {
    e.PStr? && |str| == |e.str| % 0x4000_0000 && e.str[..|str|] == str
  }

  /** The C conversion `(char)x` to a signed char, and back to int. */
  function SignedChar(x: int): (r: int)
    ensures INT8_MIN <= r <= INT8_MAX && (r - x) % 0x100 == 0
  {
    var b := x % 0x100;
    if b <= INT8_MAX then b else b - 0x100
  }

  /**
   * new_litbint accepts a BIGINT entry whose first byte, read back as a
   * signed char and widened to size_t, equals the length, whose second
   * byte equals base, and whose digits are the same.  A negative first
   * byte widens to a huge size_t, which never equals a length of at most
   * 255.
   */
  predicate BigIntMatches(e: PoolValue, digits: string, base: int) {
    e.PBigInt? && e.len >= 0 && e.len == |digits| && e.base == base && e.digits == digits
  }

  // ---------------------------------------------------------------------
  // The index a scan returns: the first accepted entry, or the length
  // ---------------------------------------------------------------------

  function IntIndex(pool: seq<PoolValue>, num: int): (r: nat)
    ensures r <= |pool|
    ensures r < |pool| ==> IntMatches(pool[r], num)
    ensures forall j :: 0 <= j < r ==> !IntMatches(pool[j], num)
  {
    if |pool| == 0 then 0
    else if IntMatches(pool[0], num) then 0
    else 1 + IntIndex(pool[1..], num)
  }

  function StrIndex(pool: seq<PoolValue>, str: seq<byte>): (r: nat)
    ensures r <= |pool|
    ensures r < |pool| ==> StrMatches(pool[r], str)
    ensures forall j :: 0 <= j < r ==> !StrMatches(pool[j], str)
  {
    if |pool| == 0 then 0
    else if StrMatches(pool[0], str) then 0
    else 1 + StrIndex(pool[1..], str)
  }

  function BigIntIndex(pool: seq<PoolValue>, digits: string, base: int): (r: nat)
    ensures r <= |pool|
    ensures r < |pool| ==> BigIntMatches(pool[r], digits, base)
    ensures forall j :: 0 <= j < r ==> !BigIntMatches(pool[j], digits, base)
  {
    if |pool| == 0 then 0
    else if BigIntMatches(pool[0], digits, base) then 0
    else 1 + BigIntIndex(pool[1..], digits, base)
  }

  function SymIndex(syms: seq<Sym>, sym: Sym): (r: nat)
    ensures r <= |syms|
    ensures r < |syms| ==> syms[r] == sym
    ensures forall j :: 0 <= j < r ==> syms[j] != sym
  {
    if |syms| == 0 then 0
    else if syms[0] == sym then 0
    else 1 + SymIndex(syms[1..], sym)
  }

  /** The pool after new_lit_int: unchanged when num is found, num appended otherwise. */
  function AddInt(pool: seq<PoolValue>, num: int): seq<PoolValue> {
    if IntIndex(pool, num) < |pool| then pool else pool + [PInt(num)]
  }

  function AddSym(syms: seq<Sym>, sym: Sym): seq<Sym> {
    if SymIndex(syms, sym) < |syms| then syms else syms + [sym]
  }

  // ---------------------------------------------------------------------
  // The inserts
  // ---------------------------------------------------------------------

  /** Every LOADL record still names an entry of a pool that only grows. */
  lemma PoolRefsGrow(insns: seq<Encoding.Insn>, n: nat, n': nat)
    requires PoolRefs(insns, n) && n <= n'
    ensures PoolRefs(insns, n')
  {
  }

  /**
   * new_lit_str: the index of the first string entry the scan accepts, or a
   * new entry at the end.  `shared` stands for mrb_ro_data_p(str): a
   * read-only string is referenced (IREP_TT_SSTR), any other is copied
   * (IREP_TT_STR).
   */
  method NewLitStr(s: CodegenScope, str: seq<byte>, shared: bool) returns (idx: nat)
    requires s.Valid()
    modifies s`pool
    ensures s.Valid()
    ensures idx == StrIndex(old(s.pool), str)
    ensures s.pool == if idx < |old(s.pool)| then old(s.pool) else old(s.pool) + [PStr(str, shared)]
  {
    var i := 0;
    while i < |s.pool|
      invariant 0 <= i <= |s.pool|
      invariant forall j :: 0 <= j < i ==> !StrMatches(s.pool[j], str)
    {
      if StrMatches(s.pool[i], str) {
        return i;
      }
      i := i + 1;
    }
    PoolRefsGrow(s.insns, |s.pool|, |s.pool| + 1);
    s.pool := s.pool + [PStr(str, shared)];
    idx := i;
  }

  /** new_lit_int: the index of the first integer entry equal to num, or a new INT64 entry. */
  method NewLitInt(s: CodegenScope, num: int) returns (idx: nat)
    requires s.Valid()
    modifies s`pool
    ensures s.Valid()
    ensures idx == IntIndex(old(s.pool), num)
    ensures s.pool == AddInt(old(s.pool), num)
  {
    var i := 0;
    while i < |s.pool|
      invariant 0 <= i <= |s.pool|
      invariant forall j :: 0 <= j < i ==> !IntMatches(s.pool[j], num)
    {
      if IntMatches(s.pool[i], num) {
        return i;
      }
      i := i + 1;
    }
    PoolRefsGrow(s.insns, |s.pool|, |s.pool| + 1);
    s.pool := s.pool + [PInt(num)];
    idx := i;
  }

  /**
   * new_litbint: the digits of an integer literal too big for mrb_int.
   * More than 255 digits is an error; otherwise the index of the first
   * BIGINT entry the scan accepts, or a new entry whose first byte is the
   * length as a signed char and whose second byte is the base, negated for
   * a negative literal.
   */
  method NewLitBint(s: CodegenScope, digits: string, base: int, neg: bool) returns (r: Result<nat>)
    requires s.Valid()
    modifies s`pool
    ensures s.Valid()
    ensures r.Fail? <==> |digits| > 255
    ensures r.Fail? ==> r.msg == INTEGER_TOO_BIG && s.pool == old(s.pool)
    ensures r.Ok? ==> r.value == BigIntIndex(old(s.pool), digits, base)
    ensures r.Ok? ==>
              s.pool == if r.value < |old(s.pool)| then old(s.pool)
                        else old(s.pool) + [PBigInt(SignedChar(|digits|), SignedChar(if neg then -base else base), digits)]
  {
    if |digits| > 255 {
      return Fail(INTEGER_TOO_BIG);
    }
    var i := 0;
    while i < |s.pool|
      invariant 0 <= i <= |s.pool|
      invariant forall j :: 0 <= j < i ==> !BigIntMatches(s.pool[j], digits, base)
    {
      if BigIntMatches(s.pool[i], digits, base) {
        return Ok(i);
      }
      i := i + 1;
    }
    PoolRefsGrow(s.insns, |s.pool|, |s.pool| + 1);
    s.pool := s.pool + [PBigInt(SignedChar(|digits|), SignedChar(if neg then -base else base), digits)];
    r := Ok(i);
  }

  /**
   * new_sym: the index of sym in the symbol table, appending it when it is
   * new.  A full table doubles its capacity first, and a capacity above
   * 0xffff is an error; so the table holds at most 32768 symbols, and the
   * error comes exactly when a new symbol would be the 32769th.
   */
  method NewSym(s: CodegenScope, sym: Sym) returns (r: Result<nat>)
    requires s.Valid() && s.hasIrep
    modifies s`syms, s`scapa
    ensures s.Valid()
    ensures r.Fail? <==> SymIndex(old(s.syms), sym) == |old(s.syms)| && |old(s.syms)| == MAX_SYMS
    ensures r.Fail? ==> r.msg == TOO_MANY_SYMBOLS && s.syms == old(s.syms)
    ensures r.Ok? ==> r.value == SymIndex(old(s.syms), sym) && s.syms == AddSym(old(s.syms), sym)
    ensures r.Ok? ==> r.value < |s.syms| <= MAX_SYMS && s.syms[r.value] == sym
  {
    var len := |s.syms|;
    var i := 0;
    while i < len
      invariant 0 <= i <= len
      invariant forall j :: 0 <= j < i ==> s.syms[j] != sym
    {
      if s.syms[i] == sym {
        return Ok(i);
      }
      i := i + 1;
    }
    if |s.syms| >= s.scapa {
      var c := s.scapa * 2;
      if c > 0xffff {
        return Fail(TOO_MANY_SYMBOLS);
      }
      s.scapa := c;
    }
    s.syms := s.syms + [sym];
    r := Ok(len);
  }

  // ---------------------------------------------------------------------
  // What the inserts promise
  // ---------------------------------------------------------------------

  /**
   * Inserting an integer twice: the second insert finds the first one's
   * entry, returns the same index and leaves the pool as it was; the entry
   * at that index holds the integer.
   */
  lemma {:induction false} IntInsertIdempotent(pool: seq<PoolValue>, num: int)
    ensures var p1 := AddInt(pool, num);
            IntIndex(p1, num) == IntIndex(pool, num) && AddInt(p1, num) == p1
            && IntIndex(pool, num) < |p1| && p1[IntIndex(pool, num)] == PInt(num)
  {
    var r := IntIndex(pool, num);
    var p1 := AddInt(pool, num);
    if r == |pool| {
      assert p1 == pool + [PInt(num)];
      assert IntMatches(p1[r], num);
      assert forall j :: 0 <= j < r ==> p1[j] == pool[j];
      IndexOfFirstInt(p1, num, r);
    }
  }

  lemma IndexOfFirstInt(pool: seq<PoolValue>, num: int, r: nat)
    requires r < |pool| && IntMatches(pool[r], num)
    requires forall j :: 0 <= j < r ==> !IntMatches(pool[j], num)
    ensures IntIndex(pool, num) == r
  {
  }

  /**
   * Between strings shorter than 2^30 bytes the scan's test is equality.
   * (An entry of 2^30 bytes or more is accepted for any string that is a
   * prefix of it with the right length modulo 2^30.)
   */
  lemma StrMatchesIsEquality(e: PoolValue, str: seq<byte>)
    requires |str| < 0x4000_0000 && (e.PStr? ==> |e.str| < 0x4000_0000)
    ensures StrMatches(e, str) <==> e.PStr? && e.str == str
  {
    if e.PStr? && e.str == str {
      assert e.str[..|str|] == e.str;
    }
  }

  /**
   * Inserting a string twice returns the first insert's index, and the
   * entry there is one the scan accepts for the string.  A string of 2^30
   * bytes or more is not found again: its stored length differs from its
   * real one.
   */
  lemma {:induction false} StrInsertIdempotent(pool: seq<PoolValue>, str: seq<byte>, shared: bool)
    requires |str| < 0x4000_0000
    ensures var r := StrIndex(pool, str);
            var p1 := if r < |pool| then pool else pool + [PStr(str, shared)];
            StrIndex(p1, str) == r && r < |p1| && StrMatches(p1[r], str)
  {
    var r := StrIndex(pool, str);
    var p1 := if r < |pool| then pool else pool + [PStr(str, shared)];
    if r == |pool| {
      assert p1[r].str[..|str|] == str;
      assert |p1[r].str| % 0x4000_0000 == |str|;
      assert forall j :: 0 <= j < r ==> p1[j] == pool[j];
      IndexOfFirstStr(p1, str, r);
    }
  }

  lemma IndexOfFirstStr(pool: seq<PoolValue>, str: seq<byte>, r: nat)
    requires r < |pool| && StrMatches(pool[r], str)
    requires forall j :: 0 <= j < r ==> !StrMatches(pool[j], str)
    ensures StrIndex(pool, str) == r
  {
  }

  /** Interning a symbol twice returns the same index and leaves the table as it was. */
  lemma {:induction false} SymInsertIdempotent(syms: seq<Sym>, sym: Sym)
    ensures var t := AddSym(syms, sym);
            SymIndex(t, sym) == SymIndex(syms, sym) && AddSym(t, sym) == t
            && SymIndex(syms, sym) < |t| && t[SymIndex(syms, sym)] == sym
  {
    var r := SymIndex(syms, sym);
    var t := AddSym(syms, sym);
    if r == |syms| {
      assert t[r] == sym;
      assert forall j :: 0 <= j < r ==> t[j] == syms[j];
      IndexOfFirstSym(t, sym, r);
    }
  }

  lemma IndexOfFirstSym(syms: seq<Sym>, sym: Sym, r: nat)
    requires r < |syms| && syms[r] == sym
    requires forall j :: 0 <= j < r ==> syms[j] != sym
    ensures SymIndex(syms, sym) == r
  {
  }

  /**
   * The BIGINT scan finds a literal again only when it has at most 127
   * digits and is not negative: the stored length byte of a longer literal
   * reads back negative, and a negative literal stores its base negated.
   */
  lemma BigIntDedupLimits(digits: string, base: int, neg: bool)
    requires 2 <= base <= 16 && |digits| <= 255
    ensures BigIntMatches(PBigInt(SignedChar(|digits|), SignedChar(if neg then -base else base), digits), digits, base)
            <==> |digits| <= INT8_MAX && !neg
  {
  }
}
