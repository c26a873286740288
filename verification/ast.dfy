/**
 * The abstract syntax tree of a QuickCalc statement.
 *
 * Every node owns its children exclusively, so a tree is finite and has no
 * sharing or cycles; a Dafny datatype has exactly these properties, and its
 * built-in equality is the structural comparison the parser tests rely on.
 */
module Ast {

  /** The unary operators, in the order of their enumerators. */
  datatype UnaryOperation = Not | Negate

  /** The binary operators, in the order of their enumerators. */
  datatype BinaryOperation = Add | Subtract | Multiply | Divide | And | Or | Xor

  /**
   * The three expression node kinds. The C++ accessors map onto destructors:
   * `ConstNode::value` is `value`, `UnaryOperationNode::operation`/`value` are
   * `unaryOp`/`operand`, `BinaryOperationNode::operation`/`lhs`/`rhs` are
   * `binaryOp`/`lhs`/`rhs`.
   */
  datatype Expr =
    | Const(value: real)
    | Unary(unaryOp: UnaryOperation, operand: Expr)
    | Binary(binaryOp: BinaryOperation, lhs: Expr, rhs: Expr)

  /** The only statement kind: an expression evaluated for its result. */
  datatype Stmt = ExprStmt(expression: Expr)

  /** Number of nodes in a tree. */
  function Size(e: Expr): (n: nat)
    ensures n >= 1
  {
    match e
    case Const(_) => 1
    case Unary(_, x) => 1 + Size(x)
    case Binary(_, l, r) => 1 + Size(l) + Size(r)
  }

  /** `s` occurs somewhere in `e` (possibly as `e` itself). */
  predicate Contains(e: Expr, s: Expr)
  {
    e == s ||
    match e
    case Const(_) => false
    case Unary(_, x) => Contains(x, s)
    case Binary(_, l, r) => Contains(l, s) || Contains(r, s)
  }

  /** The immediate children of a node, left to right. */
  function Children(e: Expr): seq<Expr>
  {
    match e
    case Const(_) => []
    case Unary(_, x) => [x]
    case Binary(_, l, r) => [l, r]
  }

  /**
   * Exclusive ownership: every subtree is no larger than the tree holding it,
   * and a tree never occurs inside one of its own children, so there are no
   * cycles.
   */
  lemma {:induction false} SubtreeIsSmaller(e: Expr, s: Expr)
    requires Contains(e, s)
    ensures Size(s) <= Size(e)
    ensures s != e ==> Size(s) < Size(e)
  {
    if s != e {
      match e
      case Const(_) =>
      case Unary(_, x) =>
        SubtreeIsSmaller(x, s);
      case Binary(_, l, r) =>
        if Contains(l, s) {
          SubtreeIsSmaller(l, s);
        } else {
          SubtreeIsSmaller(r, s);
        }
    }
  }

  /** No node is contained in any of its own children. */
  lemma NoCycles(e: Expr, i: nat)
    requires i < |Children(e)|
    ensures !Contains(Children(e)[i], e)
  {
    var c := Children(e)[i];
    if Contains(c, e) {
      SubtreeIsSmaller(c, e);
      assert Size(e) <= Size(c);
    }
  }

  /** Each accessor returns exactly what the constructor was given. */
  lemma AccessorsReturnConstructorArguments(v: real, u: UnaryOperation, b: BinaryOperation, x: Expr, y: Expr)
    ensures ExprStmt(x).expression == x
    ensures Const(v).value == v
    ensures Unary(u, x).unaryOp == u && Unary(u, x).operand == x
    ensures Binary(b, x, y).binaryOp == b && Binary(b, x, y).lhs == x && Binary(b, x, y).rhs == y
  {
  }

  /** Equality compares the node kind, then the payload, then the children in order. */
  lemma EqualityIsStructural(e1: Expr, e2: Expr)
    ensures e1.Const? && e2.Const? ==> (e1 == e2 <==> e1.value == e2.value)
    ensures e1.Unary? && e2.Unary? ==>
      (e1 == e2 <==> e1.unaryOp == e2.unaryOp && e1.operand == e2.operand)
    ensures e1.Binary? && e2.Binary? ==>
      (e1 == e2 <==> e1.binaryOp == e2.binaryOp && e1.lhs == e2.lhs && e1.rhs == e2.rhs)
    ensures e1.Const? != e2.Const? || e1.Unary? != e2.Unary? ==> e1 != e2
  {
  }
}
