/**
 * The executor: a visitor that walks the tree with an explicit value stack
 * and records the value of each statement in `lastResult`.
 *
 * Each expression node pushes exactly one value. A unary node pops its
 * operand's value; a binary node visits its left operand, then its right
 * one, then pops the right value first and the left value second, so the
 * operands keep their source order.
 */
module Execution {
  import opened Ast
  import opened Semantics

  /** The executor's state: the value stack (top at the end) and `_lastResult`. */
  datatype Executor = Executor(stack: seq<real>, lastResult: real)

  /** A visit either continues with a new state or leaves the model. */
  datatype Step = Running(state: Executor) | Stopped(reason: Reason)

  function Push(ex: Executor, v: real): (r: Executor)
    ensures |r.stack| == |ex.stack| + 1 && r.stack[|ex.stack|] == v
    ensures r.stack[..|ex.stack|] == ex.stack && r.lastResult == ex.lastResult
  {
    ex.(stack := ex.stack + [v])
  }

  /** Reading the top of an empty stack is undefined, hence the precondition. */
  function Pop(ex: Executor): (r: (real, Executor))
    requires |ex.stack| > 0
    ensures Push(r.1, r.0) == ex
  {
    var n := |ex.stack| - 1;
    (ex.stack[n], ex.(stack := ex.stack[..n]))
  }

  lemma PopUndoesPush(ex: Executor, v: real)
    ensures Pop(Push(ex, v)) == (v, ex)
  {
    assert (ex.stack + [v])[..|ex.stack|] == ex.stack;
  }

  /**
   * Visiting an expression pushes its value on top of the stack and changes
   * nothing else. This is what keeps every `pop` on a non-empty stack.
   */
  function Visit(e: Expr, ex: Executor): (r: Step)
    ensures Eval(e).Value? ==> r == Running(Push(ex, Eval(e).value))
    ensures Eval(e).OutsideModel? ==> r == Stopped(Eval(e).reason)
  {
    match e
    case Const(v) =>
      Running(Push(ex, v))
    case Unary(op, x) =>
      (match Visit(x, ex)
       case Stopped(why) => Stopped(why)
       case Running(afterOperand) =>
         var (value, rest) := Pop(afterOperand);
         (match ApplyUnary(op, value)
          case Value(v) => Running(Push(rest, v))
          case OutsideModel(why) => Stopped(why)))
    case Binary(op, l, r) =>
      (match Visit(l, ex)
       case Stopped(why) => Stopped(why)
       case Running(afterLeft) =>
         (match Visit(r, afterLeft)
          case Stopped(why) => Stopped(why)
          case Running(afterRight) =>
            var (rhs, withLeft) := Pop(afterRight);
            var (lhs, rest) := Pop(withLeft);
            (match ApplyBinary(op, lhs, rhs)
             case Value(v) => Running(Push(rest, v))
             case OutsideModel(why) => Stopped(why))))
  }

  /**
   * Executing an expression statement leaves the stack as it found it and
   * sets `lastResult` to the value of the expression.
   */
  function ExecuteStatement(ex: Executor, s: Stmt): (r: Step)
    ensures Eval(s.expression).Value? ==>
      r == Running(Executor(ex.stack, Eval(s.expression).value))
    ensures Eval(s.expression).OutsideModel? ==> r == Stopped(Eval(s.expression).reason)
  {
    match Visit(s.expression, ex)
    case Stopped(why) => Stopped(why)
    case Running(after) =>
      var (value, rest) := Pop(after);
      Running(rest.(lastResult := value))
  }

  function LastResult(ex: Executor): real
  {
    ex.lastResult
  }

  /** After a statement that has a value, `lastResult` returns that value. */
  lemma LastResultAfterStatement(ex: Executor, s: Stmt)
    requires Eval(s.expression).Value?
    ensures ExecuteStatement(ex, s).Running?
    ensures LastResult(ExecuteStatement(ex, s).state) == Eval(s.expression).value
  {
  }

  /**
   * Statements can be executed one after another on the same executor: the
   * stack is back to empty after each, and the last result is that of the
   * last statement.
   */
  lemma StatementsInSequence(ex: Executor, s1: Stmt, s2: Stmt)
    requires ex.stack == []
    requires Eval(s1.expression).Value? && Eval(s2.expression).Value?
    ensures ExecuteStatement(ex, s1).Running?
    ensures var mid := ExecuteStatement(ex, s1).state;
      && mid.stack == []
      && ExecuteStatement(mid, s2) == Running(Executor([], Eval(s2.expression).value))
  {
  }
}
