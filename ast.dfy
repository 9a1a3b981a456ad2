/**
 * The abstract syntax tree (header/ast.hpp). Every node owns its children
 * exclusively and never changes after construction, so the C++ class
 * hierarchy becomes inductive datatypes: finite trees by construction.
 */
module Ast {
  import opened Options
  import opened Tokens

  /** `ExprAST` and its subclasses. */
  datatype Expr =
    | Number(val: NumVal)
    | Variable(name: Text)
    | Binary(op: int, lhs: Expr, rhs: Expr)
    | If(cond: Expr, thenBranch: Expr, elseBranch: Expr)
    | For(varName: Text, start: Expr, endCond: Expr, step: Option<Expr>, body: Expr)
    | Call(callee: Text, args: seq<Expr>)

  /** `PrototypeAST`: a function's name and its argument names, in order. */
  datatype Prototype = Prototype(name: Text, args: seq<Text>)
  {
    /** `getName`. */
    function GetName(): (n: Text) { name }
  }

  /** `FunctionAST`: one prototype with one body expression. */
  datatype Function = Function(proto: Prototype, body: Expr)

  /** The number of nodes of an expression: every child is owned by its parent, so the tree is finite. */
  function Size(e: Expr): (n: nat)
    ensures n >= 1
    decreases e, 1
  {
    match e
    case Number(_) => 1
    case Variable(_) => 1
    case Binary(_, lhs, rhs) => 1 + Size(lhs) + Size(rhs)
    case If(c, t, f) => 1 + Size(c) + Size(t) + Size(f)
    case For(_, start, endCond, step, body) =>
      1 + Size(start) + Size(endCond) + (if step.Some? then Size(step.value) else 0) + Size(body)
    case Call(_, args) => 1 + SizeAll(args)
  }

  /** The number of nodes of a list of arguments. */
  function SizeAll(es: seq<Expr>): (n: nat)
    ensures n >= |es|
    decreases es, 0
  {
    if es == [] then 0 else Size(es[0]) + SizeAll(es[1..])
  }

  lemma {:induction false} ArgumentWithin(es: seq<Expr>, i: nat)
    requires i < |es|
    ensures Size(es[i]) <= SizeAll(es)
    decreases es
  {
    if i > 0 {
      ArgumentWithin(es[1..], i - 1);
    }
  }

  /** Every child of a node is a strictly smaller tree. */
  lemma ChildrenSmaller(e: Expr)
    ensures e.Binary? ==> Size(e.lhs) < Size(e) && Size(e.rhs) < Size(e)
    ensures e.If? ==> Size(e.cond) < Size(e) && Size(e.thenBranch) < Size(e) && Size(e.elseBranch) < Size(e)
    ensures e.For? ==>
      && Size(e.start) < Size(e) && Size(e.endCond) < Size(e) && Size(e.body) < Size(e)
      && (e.step.Some? ==> Size(e.step.value) < Size(e))
    ensures e.Call? ==> forall i :: 0 <= i < |e.args| ==> Size(e.args[i]) < Size(e)
  {
    if e.Call? {
      forall i | 0 <= i < |e.args|
        ensures Size(e.args[i]) < Size(e)
      {
        ArgumentWithin(e.args, i);
      }
    }
  }

}
