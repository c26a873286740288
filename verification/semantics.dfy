/**
 * What an expression evaluates to, defined directly on the tree. Values are
 * exact reals. Two things the C++ evaluator does on doubles are outside this
 * model and end evaluation instead: dividing by zero (an infinity or NaN in
 * the source) and a bitwise operand whose truncation does not fit in 32 bits
 * (undefined behaviour of the cast in the source).
 */
module Semantics {
  import opened Ast
  import Int32

  datatype Reason = DivisionByZero | CastOutOfRange

  datatype Outcome = Value(value: real) | OutsideModel(reason: Reason)

  /** A real that is a whole number in the signed 32-bit range. */
  predicate IsInt32(x: real)
  {
    x == x.Floor as real && Int32.InRange(x.Floor)
  }

  /**
   * Negation is total. `~` leaves the model exactly when its operand's
   * truncation does not fit in 32 bits, and otherwise gives a 32-bit integer.
   */
  function ApplyUnary(op: UnaryOperation, v: real): (r: Outcome)
    ensures op == Negate ==> r.Value? && r.value + v == 0.0
    ensures op == Not ==> (r.OutsideModel? <==> !Int32.Castable(v))
    ensures r.OutsideModel? ==> r.reason == CastOutOfRange
    ensures op == Not && r.Value? ==> IsInt32(r.value)
  {
    match op
    case Negate => Value(-v)
    case Not =>
      if Int32.Castable(v) then Value(Int32.Not(Int32.Truncate(v)) as real)
      else OutsideModel(CastOutOfRange)
  }

  function BitOperationOf(op: BinaryOperation): Int32.BitOperation
    requires op == And || op == Or || op == Xor
  {
    match op
    case And => Int32.AndBits
    case Or => Int32.OrBits
    case Xor => Int32.XorBits
  }

  /**
   * `+ - *` are total; `+` and `-` undo each other, as do `*` and `/` for a
   * non-zero divisor. Division leaves the model exactly for a zero divisor;
   * a bitwise operator exactly when an operand's truncation does not fit in
   * 32 bits, and otherwise it gives the 32-bit integer whose bits are the
   * truncated operands' bits combined by the operator.
   */
  function ApplyBinary(op: BinaryOperation, lhs: real, rhs: real): (r: Outcome)
    ensures op in {Add, Subtract, Multiply} ==> r.Value?
    ensures op == Add ==> r.value - rhs == lhs
    ensures op == Subtract ==> r.value + rhs == lhs
    ensures op == Multiply ==> (rhs != 0.0 ==> r.value / rhs == lhs) && (rhs == 0.0 ==> r.value == 0.0)
    ensures op == Divide ==> (r.OutsideModel? <==> rhs == 0.0)
    ensures op == Divide && r.Value? ==> r.value * rhs == lhs
    ensures op in {And, Or, Xor} ==>
      (r.OutsideModel? <==> !(Int32.Castable(lhs) && Int32.Castable(rhs)))
    ensures op in {And, Or, Xor} && Int32.Castable(lhs) && Int32.Castable(rhs) ==>
      r.Value? && IsInt32(r.value)
      && Int32.CombinesBits(BitOperationOf(op), Int32.Truncate(lhs), Int32.Truncate(rhs), r.value.Floor)
    ensures r.OutsideModel? ==> r.reason == (if op == Divide then DivisionByZero else CastOutOfRange)
  {
    match op
    case Add => Value(lhs + rhs)
    case Subtract => Value(lhs - rhs)
    case Multiply =>
      DivisionUndoesMultiplication(lhs, rhs);
      Value(lhs * rhs)
    case Divide =>
      if rhs == 0.0 then OutsideModel(DivisionByZero) else Value(lhs / rhs)
    case _ =>
      if Int32.Castable(lhs) && Int32.Castable(rhs) then
        Value(Int32.Apply(BitOperationOf(op), Int32.Truncate(lhs), Int32.Truncate(rhs)) as real)
      else
        OutsideModel(CastOutOfRange)
  }

  lemma DivisionUndoesMultiplication(a: real, b: real)
    ensures b != 0.0 ==> (a * b) / b == a
  {
  }

  /**
   * The value of an expression; the left operand is evaluated first. A tree
   * built from constants, negation, `+`, `-` and `*` always has a value.
   */
  function Eval(e: Expr): (r: Outcome)
    ensures !HasDivisionOrBitwise(e) ==> r.Value?
  {
    match e
    case Const(v) => Value(v)
    case Unary(op, x) =>
      (match Eval(x)
       case OutsideModel(why) => OutsideModel(why)
       case Value(v) => ApplyUnary(op, v))
    case Binary(op, l, r) =>
      (match Eval(l)
       case OutsideModel(why) => OutsideModel(why)
       case Value(a) =>
         (match Eval(r)
          case OutsideModel(why) => OutsideModel(why)
          case Value(b) => ApplyBinary(op, a, b)))
  }

  /** `~` on a value that fits is minus its truncation, minus one. */
  lemma NotSemantics(v: real)
    requires Int32.Castable(v)
    ensures ApplyUnary(Not, v) == Value((-Int32.Truncate(v) - 1) as real)
  {
    Int32.NotIsNegatePlusOne(Int32.Truncate(v));
  }

  /** A value outside the model only ever comes from one of the two causes, and only where they occur. */
  lemma {:induction false} OutsideModelHasACause(e: Expr)
    ensures Eval(e).OutsideModel? ==> HasDivisionOrBitwise(e)
  {
    match e
    case Const(_) =>
    case Unary(_, x) => OutsideModelHasACause(x);
    case Binary(_, l, r) =>
      OutsideModelHasACause(l);
      OutsideModelHasACause(r);
  }

  predicate HasDivisionOrBitwise(e: Expr)
  {
    match e
    case Const(_) => false
    case Unary(op, x) => op == Not || HasDivisionOrBitwise(x)
    case Binary(op, l, r) =>
      op !in {Add, Subtract, Multiply} || HasDivisionOrBitwise(l) || HasDivisionOrBitwise(r)
  }

  lemma TruncateOneAndThree()
    ensures Int32.Truncate(1.0) == 1 && Int32.Truncate(3.0) == 3
    ensures Int32.Castable(1.0) && Int32.Castable(3.0)
  {
  }

  /** The unit test's complement: `~1 = -2`. */
  lemma NotExample()
    ensures ApplyUnary(Not, 1.0) == Value(-2.0)
  {
    TruncateOneAndThree();
    NotSemantics(1.0);
  }

  /** The unit tests' binary bitwise cases: `1 & 3 = 1`, `1 | 3 = 3`, `1 ^ 3 = 2`. */
  lemma BitwiseExamples()
    ensures ApplyBinary(And, 1.0, 3.0) == Value(1.0)
    ensures ApplyBinary(Or, 1.0, 3.0) == Value(3.0)
    ensures ApplyBinary(Xor, 1.0, 3.0) == Value(2.0)
  {
    Int32.BitwiseOfOneAndThree();
    BinaryBitwiseExample(And, 1);
    BinaryBitwiseExample(Or, 3);
    BinaryBitwiseExample(Xor, 2);
  }

  lemma BinaryBitwiseExample(op: BinaryOperation, expected: int)
    requires op == And || op == Or || op == Xor
    requires Int32.Apply(BitOperationOf(op), 1, 3) == expected
    ensures ApplyBinary(op, 1.0, 3.0) == Value(expected as real)
  {
    TruncateOneAndThree();
  }
}
