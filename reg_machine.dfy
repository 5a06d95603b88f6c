/**
 * A reference meaning for the instructions the peephole rewrites remove
 * and emit: integer loads, MOVE, the four arithmetic instructions on R[a]
 * and R[a+1], ADDI / SUBI, array building, the loads the generator
 * retargets, upvariable and variable stores, INTERN / SYMBOL and the
 * returns.  It is the yardstick the rewrites are measured against.
 *
 * Integers are Ruby's unbounded integers, with floored division.  What a
 * load of self, a literal, a symbol, a variable or a constant yields is
 * taken as fixed for the few instructions a rewrite spans, so it is a
 * value naming the load.  A store to a global, special, instance or class
 * variable or a constant is an observable event; so is a return, after
 * which nothing more runs.  Instructions outside this fragment do not run.
 */
module RegMachine {
  import opened MachineInts
  import opened Opcodes
  import opened Encoding
  import opened Wrappers
  import opened Scope
  import opened IntLoads

  datatype Val =
    | Int(i: int)
    | Arr(elems: seq<Val>)
    | Obj(op: byte, b: int, c: int)   // the value a register-free load produces
    | Elem(of: Val, at: int)          // AREF: element `at` of `of`
    | Interned(of: Val)               // INTERN: the symbol of a string

  /** Register contents; a register outside the map holds no known value. */
  type Regs = map<int, Val>

  datatype Event =
    | Stored(op: byte, sym: int, v: Val)   // SETGV, SETSV, SETIV, SETCV, SETCONST
    | Returned(op: byte, v: Val)           // RETURN, RETURN_BLK, BREAK

  /** The registers, the upvariables (by index and level), what was observed, whether it returned. */
  datatype Machine = Machine(regs: Regs, upvars: map<(int, int), Val>, trace: seq<Event>, done: bool)

  /** Ruby's `x op y` on integers for the four arithmetic opcodes; None raises ZeroDivisionError. */
  function Arith(op: byte, x: int, y: int): Option<int>
    requires op == OP_ADD || op == OP_SUB || op == OP_MUL || op == OP_DIV
  {
    if op == OP_ADD then Some(x + y)
    else if op == OP_SUB then Some(x - y)
    else if op == OP_MUL then Some(x * y)
    else if y == 0 then None
    else Some(FloorDiv(x, y))
  }

  predicate IsArith(op: byte) {
    op == OP_ADD || op == OP_SUB || op == OP_MUL || op == OP_DIV
  }

  /** Loads whose value depends only on their b operand (integer loads aside). */
  predicate IsFixedLoad(op: byte) {
    op in {OP_LOADNIL, OP_LOADSELF, OP_LOADT, OP_LOADF, OP_LOADL, OP_LOADSYM, OP_GETGV, OP_GETSV,
           OP_GETIV, OP_GETCV, OP_GETCONST, OP_STRING, OP_LAMBDA, OP_BLOCK, OP_METHOD, OP_BLKPUSH}
  }

  /** The fixed loads that take no operand but their register. */
  predicate IsOneOperandLoad(op: byte) {
    op == OP_LOADNIL || op == OP_LOADSELF || op == OP_LOADT || op == OP_LOADF
  }

  predicate IsVarStore(op: byte) {
    op in {OP_SETGV, OP_SETSV, OP_SETIV, OP_SETCV, OP_SETCONST}
  }

  predicate IsReturn(op: byte) {
    op == OP_RETURN || op == OP_RETURN_BLK || op == OP_BREAK
  }

  /** The third operand of a three-operand instruction is one byte of code. */
  function Byte(c: int): int {
    c % 0x100
  }

  /** R[from], ..., R[from+n-1], if all are known. */
  function Gather(regs: Regs, from: int, n: nat): Option<seq<Val>>
    decreases n
  {
    if n == 0 then Some([])
    else if from + n - 1 !in regs then None
    else
      match Gather(regs, from, n - 1)
      case Some(vs) => Some(vs + [regs[from + n - 1]])
      case None => None
  }

  /** What Gather collects has n values, and gathering fewer collects a prefix of them. */
  lemma {:induction false} GatherPrefix(regs: Regs, from: int, n: nat, k: nat)
    requires k <= n && Gather(regs, from, n).Some?
    ensures |Gather(regs, from, n).value| == n
    ensures Gather(regs, from, k) == Some(Gather(regs, from, n).value[..k])
    decreases n
  {
    if n > 0 {
      var vs := Gather(regs, from, n - 1).value;
      assert Gather(regs, from, n).value == vs + [regs[from + n - 1]];
      if k < n {
        GatherPrefix(regs, from, n - 1, k);
        assert (vs + [regs[from + n - 1]])[..k] == vs[..k];
      } else {
        GatherPrefix(regs, from, n - 1, n - 1);
        assert Gather(regs, from, n).value[..k] == Gather(regs, from, n).value;
      }
    }
  }

  function SetReg(m: Machine, r: int, v: Val): Machine {
    m.(regs := m.regs[r := v])
  }

  /**
   * One instruction; None when it is outside the fragment or its operands
   * are unknown.  Once the machine has returned nothing changes.
   */
  function Step(d: Insn, m: Machine, pool: seq<PoolValue>): Option<Machine> {
    if m.done then Some(m)
    else
      match Fill(d, m, pool)
      case Some(v) => Some(SetReg(m, d.a, v))
      case None => SideEffect(d, m)
  }

  /** The value an instruction that fills register a puts there; None for the others. */
  function Fill(d: Insn, m: Machine, pool: seq<PoolValue>): Option<Val> {
    var regs := m.regs;
    match IntOperand(d, pool)
    case Some(v) => Some(Int(v))
    case None =>
      if d.op == OP_MOVE then
        if d.b in regs then Some(regs[d.b]) else None
      else if IsArith(d.op) then
        if d.a in regs && d.a + 1 in regs && regs[d.a].Int? && regs[d.a + 1].Int? then
          match Arith(d.op, regs[d.a].i, regs[d.a + 1].i)
          case Some(v) => Some(Int(v))
          case None => None
        else None
      else if d.op == OP_ADDI || d.op == OP_SUBI then
        if d.a in regs && regs[d.a].Int? then Some(Int(if d.op == OP_ADDI then regs[d.a].i + d.b else regs[d.a].i - d.b))
        else None
      else if IsFixedLoad(d.op) || (d.op == OP_HASH && d.b == 0) then
        Some(Obj(d.op, if IsOneOperandLoad(d.op) then 0 else d.b, 0))
      else if d.op == OP_ARRAY || d.op == OP_ARRAY2 then
        var from := if d.op == OP_ARRAY then d.a else d.b;
        var n := if d.op == OP_ARRAY then d.b else Byte(d.c);
        if n < 0 then None
        else
          match Gather(regs, from, n)
          case Some(vs) => Some(Arr(vs))
          case None => None
      else if d.op == OP_AREF then
        if d.b in regs then Some(Elem(regs[d.b], Byte(d.c))) else None
      else if d.op == OP_GETUPVAR then
        if (d.b, Byte(d.c)) in m.upvars then Some(m.upvars[(d.b, Byte(d.c))]) else None
      else if d.op == OP_INTERN then
        if d.a in regs then Some(Interned(regs[d.a])) else None
      else if d.op == OP_SYMBOL then Some(Interned(Obj(OP_STRING, d.b, 0)))
      else None
  }

  /** The instructions that store or return rather than fill a register. */
  function SideEffect(d: Insn, m: Machine): Option<Machine> {
    var regs := m.regs;
    if d.op == OP_SETUPVAR then
      if d.a in regs then Some(m.(upvars := m.upvars[(d.b, Byte(d.c)) := regs[d.a]])) else None
    else if IsVarStore(d.op) then
      if d.a in regs then Some(m.(trace := m.trace + [Stored(d.op, d.b, regs[d.a])])) else None
    else if IsReturn(d.op) then
      if d.a in regs then Some(m.(trace := m.trace + [Returned(d.op, regs[d.a])], done := true)) else None
    else None
  }

  /** A straight-line sequence of instructions, from the first. */
  function Run(ds: seq<Insn>, m: Machine, pool: seq<PoolValue>): Option<Machine>
    decreases |ds|
  {
    if |ds| == 0 then Some(m)
    else
      match Step(ds[0], m, pool)
      case Some(m1) => Run(ds[1..], m1, pool)
      case None => None
  }

  /** The machine with these registers and nothing else yet. */
  function Start(regs: Regs): Machine {
    Machine(regs, map[], [], false)
  }

  /** What register r holds after running ds, if anything. */
  function ValueAfter(ds: seq<Insn>, regs: Regs, pool: seq<PoolValue>, r: int): Option<Val> {
    match Run(ds, Start(regs), pool)
    case Some(out) => if r in out.regs then Some(out.regs[r]) else None
    case None => None
  }

  /** Running two sequences one after the other is running them joined. */
  lemma {:induction false} RunAppend(xs: seq<Insn>, ys: seq<Insn>, m: Machine, pool: seq<PoolValue>)
    ensures Run(xs + ys, m, pool)
            == match Run(xs, m, pool) case Some(m1) => Run(ys, m1, pool) case None => None
    decreases |xs|
  {
    if |xs| > 0 {
      assert (xs + ys)[0] == xs[0];
      assert (xs + ys)[1..] == xs[1..] + ys;
      match Step(xs[0], m, pool)
      case Some(m1) => RunAppend(xs[1..], ys, m1, pool);
      case None =>
    } else {
      assert xs + ys == ys;
    }
  }

  /** Running a sequence that starts with d. */
  lemma RunFirst(d: Insn, rest: seq<Insn>, m: Machine, pool: seq<PoolValue>)
    ensures Run([d] + rest, m, pool)
            == match Step(d, m, pool) case Some(m1) => Run(rest, m1, pool) case None => None
  {
    assert ([d] + rest)[1..] == rest;
  }

  /** Running one instruction is taking its step. */
  lemma RunOne(d: Insn, m: Machine, pool: seq<PoolValue>)
    ensures Run([d], m, pool) == Step(d, m, pool)
  {
    assert [d][1..] == [];
  }

  /** Appending to the pool changes no integer read from an entry that already existed. */
  lemma IntOperandPoolGrow(d: Insn, pool: seq<PoolValue>, ext: seq<PoolValue>)
    requires d.op == OP_LOADL ==> 0 <= d.b < |pool|
    ensures IntOperand(d, pool + ext) == IntOperand(d, pool)
  {
    if d.op == OP_LOADL {
      assert (pool + ext)[d.b] == pool[d.b];
    }
  }

  /** Appending to the pool changes no run whose LOADLs name existing entries. */
  lemma {:induction false} RunPoolGrow(ds: seq<Insn>, m: Machine, pool: seq<PoolValue>, ext: seq<PoolValue>)
    requires PoolRefs(ds, |pool|)
    ensures Run(ds, m, pool + ext) == Run(ds, m, pool)
    decreases |ds|
  {
    if |ds| > 0 {
      IntOperandPoolGrow(ds[0], pool, ext);
      assert PoolRefs(ds[1..], |pool|) by {
        forall k | 0 <= k < |ds[1..]| && ds[1..][k].op == OP_LOADL
          ensures 0 <= ds[1..][k].b < |pool|
        {
          assert ds[1..][k] == ds[k + 1];
        }
      }
      match Step(ds[0], m, pool)
      case Some(m1) => RunPoolGrow(ds[1..], m1, pool, ext);
      case None =>
    }
  }

  /** r holds the same in both machines, or nothing in either. */
  predicate SameReg(x: Machine, y: Machine, r: int) {
    (r in x.regs <==> r in y.regs) && (r in x.regs ==> x.regs[r] == y.regs[r])
  }

  /**
   * What the rest of the method can observe of a machine is the same: the
   * events so far, whether it returned, the upvariables and every local
   * variable (registers 0 to nlocals - 1: self, the arguments, the
   * locals).  The temporaries above them are the generator's own.
   */
  predicate Observed(x: Machine, y: Machine, nlocals: int) {
    x.trace == y.trace && x.done == y.done && x.upvars == y.upvars
    && forall r :: 0 <= r < nlocals ==> SameReg(x, y, r)
  }

  /**
   * Running after instead of before keeps what can be observed, and the
   * registers in extra: whenever before runs, after does too.  after may
   * read a pool that grew.
   */
  predicate Preserves(before: seq<Insn>, after: seq<Insn>, m: Machine, pool: seq<PoolValue>, pool': seq<PoolValue>,
                      nlocals: int, extra: set<int>) {
    var x := Run(before, m, pool);
    var y := Run(after, m, pool');
    x.Some? ==> y.Some? && Observed(x.value, y.value, nlocals) && forall r :: r in extra ==> SameReg(x.value, y.value, r)
  }
}
