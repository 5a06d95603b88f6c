/**
 * The syntax tree the generator walks, restricted to the node kinds this
 * model uses (the YARP nodes of include/yarp/ast.h), and the small
 * questions the generator asks about it: whether a node is a literal of
 * known truth (true_always, false_always), whether an array literal has a
 * splat (nosplat), and how many destructuring patterns a parameter list
 * holds (count_destructured_parameters).
 */
module Syntax {
  import opened Wrappers

  datatype Node =
    | StatementsNode(body: seq<Node>)
    | IfNode(cond: Option<Node>, statements: Option<Node>, consequent: Option<Node>)
    | UnlessNode(cond: Option<Node>, statements: Option<Node>, consequent: Option<Node>)
    | AndNode(left: Node, right: Node)
    | OrNode(left: Node, right: Node)
    | WhileNode(test: Node, statements: Option<Node>)
    | UntilNode(test: Node, statements: Option<Node>)
    | CallNode(receiver: Option<Node>, name: string, arguments: seq<Node>)
    | ArrayNode(elements: seq<Node>)
    | SplatNode(expression: Option<Node>)
    | MultiWriteNode(targets: seq<Node>, rhs: Node)
    | LocalVariableReadNode(name: string, depth: nat)
    | LocalVariableWriteNode(name: string, depth: nat, value: Option<Node>)
    | GlobalVariableWriteNode(name: string, value: Option<Node>)
    | RequiredParameterNode(name: string)
    | RequiredDestructuredParameterNode(parameters: seq<Node>)
    | IntegerNode(start: nat, end: nat)   // the literal's location in the program text
    | StringNode(content: string)
    | SymbolNode(name: string)
    | SelfNode
    | NilNode
    | TrueNode
    | FalseNode
    | OtherNode                           // a node kind this model does not tell apart

  /** true_always: a literal the generator knows to be true; the then-branch is taken. */
  predicate TrueAlways(n: Node) {
    n.TrueNode? || n.IntegerNode? || n.StringNode? || n.SymbolNode?
  }

  /** false_always: a literal the generator knows to be false; the else-branch is taken. */
  predicate FalseAlways(n: Node) {
    n.FalseNode? || n.NilNode?
  }

  /** The class of value a literal node evaluates to; None for a node that is not a literal. */
  datatype LiteralClass = NilClass | FalseClass | TrueClass | IntegerClass | StringClass | SymbolClass

  function LiteralOf(n: Node): Option<LiteralClass> {
    match n
    case NilNode => Some(NilClass)
    case FalseNode => Some(FalseClass)
    case TrueNode => Some(TrueClass)
    case IntegerNode(_, _) => Some(IntegerClass)
    case StringNode(_) => Some(StringClass)
    case SymbolNode(_) => Some(SymbolClass)
    case _ => None
  }

  /** Ruby's truth: every value but nil and false is true. */
  predicate Truthy(c: LiteralClass) {
    c != NilClass && c != FalseClass
  }

  /**
   * true_always holds exactly of the literals whose value Ruby counts as
   * true, false_always exactly of those it counts as false; a node that is
   * not a literal (self included, which is nil inside NilClass) is neither.
   */
  lemma KnownTruth(n: Node)
    ensures TrueAlways(n) <==> LiteralOf(n).Some? && Truthy(LiteralOf(n).value)
    ensures FalseAlways(n) <==> LiteralOf(n).Some? && !Truthy(LiteralOf(n).value)
    ensures !(TrueAlways(n) && FalseAlways(n))
  {
  }

  /** nosplat: no element of an array literal is a splat. */
  method NoSplat(elements: seq<Node>) returns (b: bool)
    ensures b <==> forall i :: 0 <= i < |elements| ==> !elements[i].SplatNode?
  {
    var i := 0;
    while i < |elements|
      invariant 0 <= i <= |elements|
      invariant forall k :: 0 <= k < i ==> !elements[k].SplatNode?
    {
      if elements[i].SplatNode? {
        return false;
      }
      i := i + 1;
    }
    return true;
  }

  /** The destructuring patterns in a parameter list, nested ones included: each needs a local of its own. */
  function Destructured(ps: seq<Node>): nat
    decreases ps
  {
    if |ps| == 0 then 0
    else
      var p := ps[|ps| - 1];
      Destructured(ps[..|ps| - 1]) + if p.RequiredDestructuredParameterNode? then 1 + Destructured(p.parameters) else 0
  }

  /** The count over a list is the sum of the counts over its parts. */
  lemma {:induction false} DestructuredAppend(xs: seq<Node>, ys: seq<Node>)
    ensures Destructured(xs + ys) == Destructured(xs) + Destructured(ys)
    decreases |ys|
  {
    if |ys| == 0 {
      assert xs + ys == xs;
    } else {
      assert (xs + ys)[..|xs + ys| - 1] == xs + ys[..|ys| - 1];
      DestructuredAppend(xs, ys[..|ys| - 1]);
    }
  }

  /** A list without destructuring patterns adds no locals. */
  lemma {:induction false} NoneDestructured(ps: seq<Node>)
    requires forall i :: 0 <= i < |ps| ==> !ps[i].RequiredDestructuredParameterNode?
    ensures Destructured(ps) == 0
    decreases |ps|
  {
    if |ps| > 0 {
      NoneDestructured(ps[..|ps| - 1]);
    }
  }

  /**
   * count_destructured_parameters: adds to lvsize one for every
   * destructuring pattern in the list, descending into each pattern's own
   * parameters.
   */
  method CountDestructuredParameters(parameters: seq<Node>, lvsize: nat) returns (r: nat)
    ensures r == lvsize + Destructured(parameters)
    decreases parameters
  {
    r := lvsize;
    var i := 0;
    while i < |parameters|
      invariant 0 <= i <= |parameters|
      invariant r == lvsize + Destructured(parameters[..i])
    {
      var p := parameters[i];
      assert parameters[..i + 1][..i] == parameters[..i];
      if p.RequiredDestructuredParameterNode? {
        r := r + 1;
        r := CountDestructuredParameters(p.parameters, r);
      }
      i := i + 1;
    }
    assert parameters[..i] == parameters;
  }
}
