/**
 * Multiple assignment `t1, ..., *ts, ..., tn = e1, ..., em` whose right
 * side is an array literal without splats and whose value is not used
 * (codegen.yarp.c lines 3068-3129): the elements are evaluated into
 * consecutive registers rhs, rhs+1, ... and each target is then assigned
 * from one of them, from nil, or (the splat) from a new array of some of
 * them.  count_multi_write (lines 2228-2242) splits the targets around
 * the splat.
 *
 * A plan records, target by target in the order the generator visits
 * them, what each assignment reads.  Ruby's meaning is stated separately
 * by position: the targets before the splat take the first elements, the
 * ones after it the last elements, the splat what is left between, and a
 * target without an element gets nil.
 */
module MultiWrite {
  import opened Wrappers
  import opened Syntax

  /** What an assignment of the plan reads: register rhs + k, a fresh nil, or an array of registers. */
  datatype Source = Element(k: nat) | NilValue | Rest(from: nat, count: nat)

  datatype Assignment = Assignment(target: Node, src: Source)

  /** What a target is bound to, naming the right side's elements by position. */
  datatype Bound = Item(k: nat) | NilBound | Items(ks: seq<nat>)

  function Eval(src: Source): Bound {
    match src
    case Element(k) => Item(k)
    case NilValue => NilBound
    case Rest(from, count) => Items(seq(count, j => from + j))
  }

  /** The position of the first splat target, |targets| when there is none. */
  function FirstSplat(targets: seq<Node>): (f: nat)
    ensures f <= |targets| && (f < |targets| ==> targets[f].SplatNode?)
    ensures forall i :: 0 <= i < f ==> !targets[i].SplatNode?
  {
    if |targets| == 0 then 0
    else if targets[0].SplatNode? then 0
    else 1 + FirstSplat(targets[1..])
  }

  /** The targets that are not splats. */
  function NonSplats(targets: seq<Node>): nat {
    if |targets| == 0 then 0
    else NonSplats(targets[..|targets| - 1]) + if targets[|targets| - 1].SplatNode? then 0 else 1
  }

  lemma NonSplatsStep(targets: seq<Node>, i: nat)
    requires i < |targets|
    ensures NonSplats(targets[..i + 1]) == NonSplats(targets[..i]) + if targets[i].SplatNode? then 0 else 1
  {
    assert targets[..i + 1][..i] == targets[..i];
  }

  /** A target list holds at most one splat, as the parser makes it. */
  predicate AtMostOneSplat(targets: seq<Node>) {
    forall i, j :: 0 <= i < j < |targets| && targets[i].SplatNode? ==> !targets[j].SplatNode?
  }

  /**
   * count_multi_write: pre counts the targets before the first splat,
   * post the targets after it that are not splats, and splat is the last
   * splat (the position of the node the generator keeps).
   */
  method CountMultiWrite(targets: seq<Node>) returns (pre: nat, splat: Option<nat>, post: nat)
    ensures pre == FirstSplat(targets)
    ensures post == NonSplats(targets) - pre
    ensures splat.None? <==> forall i :: 0 <= i < |targets| ==> !targets[i].SplatNode?
    ensures splat.Some? ==>
              splat.value < |targets| && targets[splat.value].SplatNode?
              && forall j :: splat.value < j < |targets| ==> !targets[j].SplatNode?
  {
    pre, splat, post := 0, None, 0;
    var i := 0;
    while i < |targets|
      invariant 0 <= i <= |targets|
      invariant splat.None? <==> forall k :: 0 <= k < i ==> !targets[k].SplatNode?
      invariant splat.Some? ==>
                  splat.value < i && targets[splat.value].SplatNode?
                  && forall j :: splat.value < j < i ==> !targets[j].SplatNode?
      invariant splat.None? ==> pre == i && post == 0
      invariant splat.Some? ==> pre == FirstSplat(targets) < i
      invariant pre + post == NonSplats(targets[..i])
    {
      NonSplatsStep(targets, i);
      if splat.None? && targets[i].SplatNode? {
        FirstSplatAt(targets, i);
      }
      if targets[i].SplatNode? {
        splat := Some(i);
      } else if splat.Some? {
        post := post + 1;
      } else {
        pre := pre + 1;
      }
      i := i + 1;
    }
    assert targets[..i] == targets;
    if splat.None? {
      FirstSplatAt(targets, |targets|);
    }
  }

  /** The first splat is where the targets before are no splats and the one there is. */
  lemma {:induction false} FirstSplatAt(targets: seq<Node>, f: nat)
    requires f <= |targets| && (f < |targets| ==> targets[f].SplatNode?)
    requires forall i :: 0 <= i < f ==> !targets[i].SplatNode?
    ensures FirstSplat(targets) == f
    decreases f
  {
    if f > 0 {
      FirstSplatAt(targets[1..], f - 1);
    }
  }

  /**
   * With one splat at position f, pre is f and post the targets after
   * it; with none, every target is a pre target.
   */
  lemma CountsAroundSplat(targets: seq<Node>)
    requires AtMostOneSplat(targets)
    ensures var f := FirstSplat(targets);
            (f == |targets| ==> NonSplats(targets) == |targets|)
            && (f < |targets| ==> NonSplats(targets) - f == |targets| - f - 1)
  {
    var f := FirstSplat(targets);
    forall j | f < j < |targets|
      ensures !targets[j].SplatNode?
    {
    }
    NonSplatsCount(targets, f);
  }

  /** Only position f may hold a splat: every other target counts. */
  lemma {:induction false} NonSplatsCount(targets: seq<Node>, f: nat)
    requires forall j :: 0 <= j < |targets| && j != f ==> !targets[j].SplatNode?
    ensures NonSplats(targets) == if f < |targets| && targets[f].SplatNode? then |targets| - 1 else |targets|
    decreases |targets|
  {
    if |targets| > 0 {
      NonSplatsCount(targets[..|targets| - 1], f);
    }
  }

  /**
   * Ruby's meaning of target i of a multiple assignment from len values:
   * the pre targets take elements from the front, the post targets from
   * the back when there are enough values for both and otherwise straight
   * after the pre targets, the splat takes what lies between.
   */
  function RubyBinding(targets: seq<Node>, len: nat, i: nat): Bound
    requires i < |targets|
  {
    var f := FirstSplat(targets);
    if i < f then (if i < len then Item(i) else NilBound)
    else
      var pre := f;
      var post := |targets| - f - 1;
      var rn := if len >= pre + post then len - pre - post else 0;
      if i == f then Items(seq(rn, j => pre + j))
      else
        var at := if len >= pre + post then len - post + (i - f - 1) else pre + (i - f - 1);
        if at < len then Item(at) else NilBound
  }

  /** A plan that assigns every target once, in order, as Ruby means. */
  predicate MeansRuby(plan: seq<Assignment>, targets: seq<Node>, len: nat) {
    |plan| == |targets|
    && forall i :: 0 <= i < |plan| ==> plan[i].target == targets[i] && Eval(plan[i].src) == RubyBinding(targets, len, i)
  }

  /**
   * The fixed-rhs branch with the post loop starting after the splat, as
   * gen_massignment does for a right side of unknown length.  Every
   * target gets exactly Ruby's value.
   */
  method FixedMultiWrite(targets: seq<Node>, len: nat) returns (plan: seq<Assignment>)
    requires AtMostOneSplat(targets)
    ensures MeansRuby(plan, targets, len)
  {
    var pre, splat, post := CountMultiWrite(targets);
    CountsAroundSplat(targets);
    plan := [];
    var n := 0;
    var idx := 0;
    if pre > 0 {
      n := 0;
      while idx < pre
        invariant 0 <= idx <= pre && n == Min(idx, len) && |plan| == idx
        invariant forall i :: 0 <= i < idx ==> plan[i].target == targets[i] && Eval(plan[i].src) == RubyBinding(targets, len, i)
      {
        if n < len {
          plan := plan + [Assignment(targets[idx], Element(n))];
          n := n + 1;
        } else {
          plan := plan + [Assignment(targets[idx], NilValue)];
        }
        idx := idx + 1;
      }
    }
    if splat.Some? {
      plan := SplatAndPost(targets, len, plan, pre, post);
    }
  }

  /**
   * The splat and the targets after it, once the pre targets are planned:
   * the splat takes the elements the post targets leave, and they follow
   * from the position after the splat.
   */
  method SplatAndPost(targets: seq<Node>, len: nat, plan0: seq<Assignment>, pre: nat, post: nat) returns (plan: seq<Assignment>)
    requires AtMostOneSplat(targets) && pre == FirstSplat(targets) < |targets| && post == |targets| - pre - 1
    requires |plan0| == pre
    requires forall i :: 0 <= i < pre ==> plan0[i].target == targets[i] && Eval(plan0[i].src) == RubyBinding(targets, len, i)
    ensures MeansRuby(plan, targets, len)
  {
    var n := Min(pre, len);
    var idx := pre;
    var rn := if len < post + n then 0 else len - post - n;
    assert Eval(Rest(n, rn)) == RubyBinding(targets, len, idx);
    plan := plan0 + [Assignment(targets[idx], Rest(n, rn))];
    n := n + rn;
    idx := idx + 1;
    if post > 0 {
      while idx < |targets|
        invariant pre < idx <= |targets| && |plan| == idx
        invariant n == (if len >= pre + post then len - post else Min(pre, len)) + (idx - pre - 1)
        invariant forall i :: 0 <= i < idx ==> plan[i].target == targets[i] && Eval(plan[i].src) == RubyBinding(targets, len, i)
      {
        if n < len {
          plan := plan + [Assignment(targets[idx], Element(n))];
        } else {
          plan := plan + [Assignment(targets[idx], NilValue)];
        }
        idx := idx + 1;
        n := n + 1;
      }
    }
  }

  function Min(a: nat, b: nat): nat {
    if a < b then a else b
  }

  /**
   * The fixed-rhs branch as written: the post loop starts at the splat's
   * own position, so the splat is assigned a second time, from the first
   * element meant for the post targets, and every post target reads the
   * element meant for the next one.  A splat without a name is handed to
   * the assignment as a null node: None.  (Assigning the splat's name and
   * assigning the splat node are the same, lines 2029-2035.)
   */
  function FixedMultiWriteAsWritten(targets: seq<Node>, len: nat): Option<seq<Assignment>> {
    var f := FirstSplat(targets);
    var pre := f;
    var post := NonSplats(targets) - pre;
    var n := Min(pre, len);
    var prePlan := seq(pre, i requires 0 <= i < pre => Assignment(targets[i], if i < len then Element(i) else NilValue));
    if f == |targets| then Some(prePlan)
    else if targets[f].expression.None? then None
    else
      var rn := if len < post + n then 0 else len - post - n;
      var splatPlan := prePlan + [Assignment(targets[f], Rest(n, rn))];
      if post == 0 then Some(splatPlan)
      else Some(splatPlan + PostAsWritten(targets, f, n + rn, len))
  }

  /** The post loop as written, from position idx with n elements used. */
  function PostAsWritten(targets: seq<Node>, idx: nat, n: nat, len: nat): seq<Assignment>
    requires idx <= |targets|
    decreases |targets| - idx
  {
    if idx == |targets| then []
    else [Assignment(targets[idx], if n < len then Element(n) else NilValue)] + PostAsWritten(targets, idx + 1, n + 1, len)
  }

  /** Assigning to a splat target assigns to the name it carries. */
  function Key(t: Node): Option<Node> {
    if t.SplatNode? then t.expression else Some(t)
  }

  /** The binding each name has after the assignments of a plan, later ones winning. */
  function Final(plan: seq<Assignment>, name: Node): Option<Bound> {
    if |plan| == 0 then None
    else if Key(plan[|plan| - 1].target) == Some(name) then Some(Eval(plan[|plan| - 1].src))
    else Final(plan[..|plan| - 1], name)
  }

  /**
   * Without targets after the splat the branch as written means Ruby's
   * assignment: the defect needs post targets or a splat without a name.
   */
  lemma AsWrittenWithoutPost(targets: seq<Node>, len: nat)
    requires AtMostOneSplat(targets)
    requires var f := FirstSplat(targets); f == |targets| || (f == |targets| - 1 && targets[f].expression.Some?)
    ensures var p := FixedMultiWriteAsWritten(targets, len);
            p.Some? && |p.value| == |targets|
            && forall i :: 0 <= i < |targets| ==>
                 p.value[i].target == targets[i] && Eval(p.value[i].src) == RubyBinding(targets, len, i)
  {
    CountsAroundSplat(targets);
  }

  /**
   * `a, *b, c = 1, 2, 3` as a statement: b should be [2] and c should be
   * 3, but as written b ends up 3 and c nil.
   */
  lemma SplatReassigned()
    ensures var a := LocalVariableWriteNode("a", 0, None);
            var b := LocalVariableWriteNode("b", 0, None);
            var c := LocalVariableWriteNode("c", 0, None);
            var targets := [a, SplatNode(Some(b)), c];
            var p := FixedMultiWriteAsWritten(targets, 3);
            p.Some? && Final(p.value, b) == Some(Item(2)) && Final(p.value, c) == Some(NilBound)
            && RubyBinding(targets, 3, 1) == Items([1]) && RubyBinding(targets, 3, 2) == Item(2)
  {
    var a := LocalVariableWriteNode("a", 0, None);
    var b := LocalVariableWriteNode("b", 0, None);
    var c := LocalVariableWriteNode("c", 0, None);
    var targets := [a, SplatNode(Some(b)), c];
    assert FirstSplat(targets) == 1 by { FirstSplatAt(targets, 1); }
    assert NonSplats(targets) == 2 by { NonSplatsCount(targets, 1); }
    assert seq(1, j => 1 + j) == [1];
  }

  /** `a, * = 1, 2` as a statement hands the missing name of the splat to the assignment. */
  lemma AnonymousSplatNull()
    ensures FixedMultiWriteAsWritten([LocalVariableWriteNode("a", 0, None), SplatNode(None)], 2).None?
  {
    var targets := [LocalVariableWriteNode("a", 0, None), SplatNode(None)];
    assert FirstSplat(targets) == 1 by { FirstSplatAt(targets, 1); }
  }
}
