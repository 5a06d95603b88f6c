/**
 * Finding local variables: lv_idx numbers a scope's locals from register
 * 1 (register 0 is self), and search_upvar walks out through the
 * enclosing scopes for a variable of a surrounding block (codegen.yarp.c
 * lines 1275-1340).
 */
module Locals {
  import opened Wrappers
  import opened Scope
  import opened Pools

  const NO_BLOCK_PARAM: string := "No anonymous block parameter"
  const NO_REST_PARAM: string := "No anonymous rest parameter"
  const NO_KWREST_PARAM: string := "No anonymous keyword rest parameter"
  const NO_LOCAL: string := "Can't find local variables"

  /**
   * lv_idx: the register of local id in s, counting from 1; 0 when s has
   * no local of that name.  A name declared twice gets its first register.
   */
  method LvIdx(s: CodegenScope, id: Sym) returns (n: nat)
    ensures n == 0 <==> id !in s.lv
    ensures n > 0 ==> n <= |s.lv| && s.lv[n - 1] == id && id !in s.lv[..n - 1]
    ensures n > 0 ==> n == SymIndex(s.lv, id) + 1
  {
    var i := 0;
    while i < |s.lv|
      invariant 0 <= i <= |s.lv| && id !in s.lv[..i]
    {
      if s.lv[i] == id {
        FirstIndex(s.lv, id, i);
        return i + 1;
      }
      assert s.lv[..i + 1] == s.lv[..i] + [s.lv[i]];
      i := i + 1;
    }
    assert s.lv[..i] == s.lv;
    return 0;
  }

  /** The scope k levels out from s: s itself for 0, its prev for 1, null past the outermost. */
  function Ancestor(s: CodegenScope, k: nat): (a: CodegenScope?)
    ensures k == 0 ==> a == s
    ensures k == 1 ==> a == s.prev
    decreases k
  {
    if k == 0 then s
    else if s.prev == null then null
    else Ancestor(s.prev, k - 1)
  }

  lemma {:induction false} AncestorStep(s: CodegenScope, k: nat)
    requires Ancestor(s, k) != null
    ensures Ancestor(s, k + 1) == Ancestor(s, k).prev
    decreases k
  {
    if k > 0 && s.prev != null {
      AncestorStep(s.prev, k - 1);
    }
  }

  /** An occurrence with none before it is the first occurrence. */
  lemma FirstIndex(xs: seq<Sym>, x: Sym, i: nat)
    requires i < |xs| && xs[i] == x && x !in xs[..i]
    ensures SymIndex(xs, x) == i
  {
  }

  /**
   * search_upvar's answer from scope up outwards, up being lv + 1 levels
   * out: the nearest scope declaring id, as (levels, register), or the
   * missing-local error.
   */
  function UpvarFrom(up: CodegenScope?, id: Sym, lv: nat): Result<(nat, nat)>
    requires up != null ==> up.Linked()
    decreases if up == null then 0 else up.depth + 1
  {
    if up == null then Fail(MissingLocalMessage(id))
    else if id in up.lv then Ok((lv, SymIndex(up.lv, id) + 1))
    else UpvarFrom(up.prev, id, lv + 1)
  }

  /** The message search_upvar raises for a name no enclosing scope declares. */
  function MissingLocalMessage(id: Sym): string {
    if id == "&" then NO_BLOCK_PARAM
    else if id == "*" then NO_REST_PARAM
    else if id == "**" then NO_KWREST_PARAM
    else NO_LOCAL
  }

  /**
   * search_upvar: the nearest enclosing scope declaring id.  The answer
   * is (lv, idx): the variable is local idx of the scope lv + 1 levels
   * out, as OP_GETUPVAR / OP_SETUPVAR address it, and no nearer enclosing
   * scope declares id.  Failing that, the error names the anonymous
   * parameter that is missing.
   */
  method SearchUpvar(s: CodegenScope, id: Sym) returns (r: Result<(nat, nat)>)
    requires s.Linked()
    ensures r == UpvarFrom(s.prev, id, 0)
    ensures r.Ok? ==>
              var up := Ancestor(s, r.value.0 + 1);
              up != null && 0 < r.value.1 <= |up.lv| && up.lv[r.value.1 - 1] == id && id !in up.lv[..r.value.1 - 1]
              && forall j :: 1 <= j <= r.value.0 ==> Ancestor(s, j) != null && id !in Ancestor(s, j).lv
    ensures r.Fail? ==>
              r.msg == MissingLocalMessage(id)
              && forall j :: 1 <= j ==> Ancestor(s, j) == null || id !in Ancestor(s, j).lv
  {
    var lv: nat := 0;
    var up := s.prev;
    while up != null
      invariant up == Ancestor(s, lv + 1)
      invariant up != null ==> up.Linked()
      invariant UpvarFrom(up, id, lv) == UpvarFrom(s.prev, id, 0)
      invariant forall j :: 1 <= j <= lv ==> Ancestor(s, j) != null && id !in Ancestor(s, j).lv
      decreases if up == null then 0 else up.depth + 1
    {
      var idx := LvIdx(up, id);
      if idx > 0 {
        return Ok((lv, idx));
      }
      AncestorStep(s, lv + 1);
      lv := lv + 1;
      up := up.prev;
    }
    NoneBeyond(s, lv + 1);
    return Fail(MissingLocalMessage(id));
  }

  /** Past the outermost scope there are no more scopes. */
  lemma {:induction false} NoneBeyond(s: CodegenScope, k: nat)
    requires Ancestor(s, k) == null
    ensures forall j :: j >= k ==> Ancestor(s, j) == null
  {
    forall j | j >= k
      ensures Ancestor(s, j) == null
    {
      NullAncestor(s, k, j);
    }
  }

  lemma {:induction false} NullAncestor(s: CodegenScope, k: nat, j: nat)
    requires Ancestor(s, k) == null && k <= j
    ensures Ancestor(s, j) == null
    decreases k
  {
    if k > 0 && s.prev != null {
      NullAncestor(s.prev, k - 1, j - 1);
    }
  }
}
