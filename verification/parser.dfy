/**
 * The recursive-descent parser.
 *
 *   statement      := additive END_OF_STMT
 *   additive       := multiplicative (('+' | '-') additive)?
 *   multiplicative := expression (('*' | '/') multiplicative)?
 *   expression     := '(' brackets | '+' expression | '-' expression | NUMBER
 *   brackets       := additive ')'
 *
 * Both binary levels recurse on their right operand, so chains nest to the
 * right. The two levels react differently to a token they do not expect:
 * `additive` throws unless it sees '+', '-', ')' or END_OF_STMT (and it
 * consumes the END_OF_STMT), while `multiplicative` returns its left operand
 * and leaves the token for its caller.
 *
 * The parser reads a token list through a cursor (see `Tokens.ReadAt`); every
 * function takes the list and the read position and returns the position
 * after what it consumed. Termination: every self-recursion, and every entry
 * into `Brackets`, happens after a token has been read, so the measure is
 * the number of unread tokens, then the rank
 * brackets (3) > additive (2) > multiplicative (1) > expression (0).
 */
module Parser {
  import opened Wrappers
  import opened Ast
  import opened Tokens

  /** The exceptions the parser throws, one per message. */
  datatype ParseError =
    | TrailingTokens            // "Parsing terminated before end of statement"
    | UnexpectedToken           // "Unexpected token"
    | ExpectedOperand           // "Expected +, - or ("
    | ExpectedExpression        // "Expected expression"
    | ExpectedClosingBracket    // "Expected closing bracket"

  /** An expression and the read position after its tokens. */
  datatype Parsed = Parsed(expr: Expr, next: nat)

  /** A statement and the read position after its tokens. */
  datatype ParsedStmt = ParsedStmt(stmt: Stmt, next: nat)

  /**
   * The expressions the grammar can produce: no bitwise operator appears,
   * and `Not` never does either, because no rule builds them.
   */
  predicate Parsable(e: Expr)
  {
    match e
    case Const(_) => true
    case Unary(op, x) => op == Negate && Parsable(x)
    case Binary(op, l, r) =>
      (op == BinaryOperation.Add || op == BinaryOperation.Subtract
       || op == BinaryOperation.Multiply || op == BinaryOperation.Divide)
      && Parsable(l) && Parsable(r)
  }

  /** What every successful parse of `toks` from `pos` guarantees. */
  predicate WellParsed(toks: seq<Token>, pos: nat, r: Result<Parsed, ParseError>)
  {
    r.Success? ==>
      && pos <= r.value.next <= |toks|
      && Parsable(r.value.expr)
  }

  function ParseStatement(toks: seq<Token>, pos: nat): (r: Result<ParsedStmt, ParseError>)
    requires pos <= |toks|
    ensures r.Success? ==> pos <= r.value.next <= |toks| && Parsable(r.value.stmt.expression)
  {
    var lhs :- Additive(toks, pos);
    var (token, next) := ReadAt(toks, lhs.next);
    if token != EndOfStmt then Failure(TrailingTokens)
    else Success(ParsedStmt(ExprStmt(lhs.expr), next))
  }

  /** `Parser::parse` on a fresh token list. */
  function Parse(toks: seq<Token>): (r: Result<Stmt, ParseError>)
    ensures r.Success? ==> Parsable(r.value.expression)
  {
    var s :- ParseStatement(toks, 0);
    Success(s.stmt)
  }

  function Additive(toks: seq<Token>, pos: nat): (r: Result<Parsed, ParseError>)
    requires pos <= |toks|
    ensures WellParsed(toks, pos, r)
    decreases |toks| - pos, 2
  {
    var lhs :- Multiplicative(toks, pos);
    match PeekAt(toks, lhs.next)
    case SymbolToken(s) =>
      if s == Symbol.Add || s == Symbol.Subtract then
        var op := if s == Symbol.Add then BinaryOperation.Add else BinaryOperation.Subtract;
        var rhs :- Additive(toks, ReadAt(toks, lhs.next).1);
        Success(Parsed(Binary(op, lhs.expr, rhs.expr), rhs.next))
      else if s == Symbol.BracketClose then
        Success(lhs)
      else
        Failure(UnexpectedToken)
    case EndOfStmt =>
      Success(Parsed(lhs.expr, ReadAt(toks, lhs.next).1))
    case NumberToken(_) =>
      Failure(UnexpectedToken)
  }

  function Multiplicative(toks: seq<Token>, pos: nat): (r: Result<Parsed, ParseError>)
    requires pos <= |toks|
    ensures WellParsed(toks, pos, r)
    decreases |toks| - pos, 1
  {
    var lhs :- Expression(toks, pos);
    match PeekAt(toks, lhs.next)
    case SymbolToken(s) =>
      if s == Symbol.Multiply || s == Symbol.Divide then
        var op := if s == Symbol.Multiply then BinaryOperation.Multiply else BinaryOperation.Divide;
        var rhs :- Multiplicative(toks, ReadAt(toks, lhs.next).1);
        Success(Parsed(Binary(op, lhs.expr, rhs.expr), rhs.next))
      else
        Success(lhs)
    case _ =>
      Success(lhs)
  }

  function Expression(toks: seq<Token>, pos: nat): (r: Result<Parsed, ParseError>)
    requires pos <= |toks|
    ensures WellParsed(toks, pos, r)
    decreases |toks| - pos, 0
  {
    var (token, next) := ReadAt(toks, pos);
    match token
    case SymbolToken(s) =>
      if s == Symbol.BracketOpen then
        Brackets(toks, next)
      else if s == Symbol.Add then
        Expression(toks, next)
      else if s == Symbol.Subtract then
        var operand :- Expression(toks, next);
        Success(Parsed(Unary(Negate, operand.expr), operand.next))
      else
        Failure(ExpectedOperand)
    case NumberToken(v) =>
      Success(Parsed(Const(v), next))
    case EndOfStmt =>
      Failure(ExpectedExpression)
  }

  function Brackets(toks: seq<Token>, pos: nat): (r: Result<Parsed, ParseError>)
    requires pos <= |toks|
    ensures r.Success? ==>
      && pos < r.value.next <= |toks|
      && Parsable(r.value.expr)
    decreases |toks| - pos, 3
  {
    var inner :- Additive(toks, pos);
    var (token, next) := ReadAt(toks, inner.next);
    if token != SymbolToken(Symbol.BracketClose) then Failure(ExpectedClosingBracket)
    else Success(Parsed(inner.expr, next))
  }

  /* ---------------------------------------------------------------------
   * How each level reacts to the token after its left operand.
   * ------------------------------------------------------------------- */

  /** A statement is its additive when nothing but END_OF_STMT (or the end of the list) follows. */
  lemma StatementEnds(toks: seq<Token>, e: Expr, next: nat)
    requires Additive(toks, 0) == Success(Parsed(e, next))
    requires PeekAt(toks, next) == EndOfStmt
    ensures Parse(toks) == Success(ExprStmt(e))
  {
  }

  /** `additive` builds a right-nested node at '+' or '-'. */
  lemma AdditiveStep(toks: seq<Token>, pos: nat, op: BinaryOperation, l: Expr, mid: nat, r: Expr, end: nat)
    requires pos <= mid < |toks|
    requires Multiplicative(toks, pos) == Success(Parsed(l, mid))
    requires (op == BinaryOperation.Add && toks[mid] == SymbolToken(Symbol.Add))
          || (op == BinaryOperation.Subtract && toks[mid] == SymbolToken(Symbol.Subtract))
    requires Additive(toks, mid + 1) == Success(Parsed(r, end))
    ensures Additive(toks, pos) == Success(Parsed(Binary(op, l, r), end))
  {
  }

  /**
   * The read position after an additive operand that ends at `end`:
   * `additive` consumes an END_OF_STMT there, but leaves a ')' unread.
   */
  function Follow(toks: seq<Token>, end: nat): nat
    requires end <= |toks|
  {
    if PeekAt(toks, end) == EndOfStmt then ReadAt(toks, end).1 else end
  }

  /** `additive` returns its left operand at ')' or END_OF_STMT. */
  lemma AdditiveStops(toks: seq<Token>, pos: nat, l: Expr, end: nat)
    requires pos <= |toks| && Multiplicative(toks, pos) == Success(Parsed(l, end))
    requires PeekAt(toks, end) == SymbolToken(Symbol.BracketClose) || PeekAt(toks, end) == EndOfStmt
    ensures Additive(toks, pos) == Success(Parsed(l, Follow(toks, end)))
  {
  }

  /** `additive` throws on a NUMBER, or on any symbol but '+', '-' and ')', after its left operand. */
  lemma AdditiveRejects(toks: seq<Token>, pos: nat)
    requires pos <= |toks| && Multiplicative(toks, pos).Success?
    requires var t := PeekAt(toks, Multiplicative(toks, pos).value.next);
      || t.NumberToken?
      || (t.SymbolToken? && t.symbol != Symbol.Add && t.symbol != Symbol.Subtract && t.symbol != Symbol.BracketClose)
    ensures Additive(toks, pos) == Failure(UnexpectedToken)
  {
  }

  /** `multiplicative` builds a right-nested node at '*' or '/'. */
  lemma MultiplicativeStep(toks: seq<Token>, pos: nat, op: BinaryOperation, l: Expr, mid: nat, r: Expr, end: nat)
    requires pos <= mid < |toks|
    requires Expression(toks, pos) == Success(Parsed(l, mid))
    requires (op == BinaryOperation.Multiply && toks[mid] == SymbolToken(Symbol.Multiply))
          || (op == BinaryOperation.Divide && toks[mid] == SymbolToken(Symbol.Divide))
    requires Multiplicative(toks, mid + 1) == Success(Parsed(r, end))
    ensures Multiplicative(toks, pos) == Success(Parsed(Binary(op, l, r), end))
  {
  }

  /**
   * At any token other than '*' or '/', including a symbol `additive` would
   * reject, `multiplicative` returns its left operand without reading.
   */
  lemma MultiplicativeStops(toks: seq<Token>, pos: nat, l: Expr, end: nat)
    requires pos <= |toks| && Expression(toks, pos) == Success(Parsed(l, end))
    requires PeekAt(toks, end) != SymbolToken(Symbol.Multiply) && PeekAt(toks, end) != SymbolToken(Symbol.Divide)
    ensures Multiplicative(toks, pos) == Success(Parsed(l, end))
  {
  }

  /** A NUMBER is a constant operand. */
  lemma NumberStep(toks: seq<Token>, pos: nat, v: real)
    requires pos < |toks| && toks[pos] == NumberToken(v)
    ensures Expression(toks, pos) == Success(Parsed(Const(v), pos + 1))
  {
  }

  /** Unary '-' before an operand makes a negation node. */
  lemma NegationStep(toks: seq<Token>, pos: nat, x: Expr, end: nat)
    requires pos < |toks| && toks[pos] == SymbolToken(Symbol.Subtract)
    requires Expression(toks, pos + 1) == Success(Parsed(x, end))
    ensures Expression(toks, pos) == Success(Parsed(Unary(Negate, x), end))
  {
  }

  /** A bracketed additive is the additive itself, read up to and including the ')'. */
  lemma BracketsStep(toks: seq<Token>, pos: nat, e: Expr, end: nat)
    requires pos < |toks| && toks[pos] == SymbolToken(Symbol.BracketOpen)
    requires end < |toks| && toks[end] == SymbolToken(Symbol.BracketClose)
    requires Additive(toks, pos + 1) == Success(Parsed(e, end))
    ensures Expression(toks, pos) == Success(Parsed(e, end + 1))
  {
  }

  /** Unary '+' is skipped and creates no node. */
  lemma UnaryPlusIsDropped(toks: seq<Token>, pos: nat)
    requires pos < |toks| && toks[pos] == SymbolToken(Symbol.Add)
    ensures Expression(toks, pos) == Expression(toks, pos + 1)
  {
  }

  /** Unary '-' wraps the next unary expression in a negation. */
  lemma UnaryMinusNegates(toks: seq<Token>, pos: nat)
    requires pos < |toks| && toks[pos] == SymbolToken(Symbol.Subtract)
    ensures Expression(toks, pos).Success? <==> Expression(toks, pos + 1).Success?
    ensures Expression(toks, pos).Success? ==>
      var inner := Expression(toks, pos + 1).value;
      Expression(toks, pos) == Success(Parsed(Unary(Negate, inner.expr), inner.next))
  {
  }

  /** Brackets group: they create no node, and the ')' must follow the inner additive. */
  lemma BracketsOnlyGroup(toks: seq<Token>, pos: nat)
    requires pos < |toks| && toks[pos] == SymbolToken(Symbol.BracketOpen)
    ensures Expression(toks, pos) == Brackets(toks, pos + 1)
    ensures Brackets(toks, pos + 1).Success? <==>
      && Additive(toks, pos + 1).Success?
      && PeekAt(toks, Additive(toks, pos + 1).value.next) == SymbolToken(Symbol.BracketClose)
    ensures Brackets(toks, pos + 1).Success? ==>
      Brackets(toks, pos + 1).value.expr == Additive(toks, pos + 1).value.expr
  {
  }

  /** An empty list is END_OF_STMT at once, where an operand was expected. */
  lemma EmptyListHasNoExpression()
    ensures Parse([]) == Failure(ExpectedExpression)
  {
    assert Expression([], 0) == Failure(ExpectedExpression);
    assert Multiplicative([], 0) == Failure(ExpectedExpression);
    assert Additive([], 0) == Failure(ExpectedExpression);
  }

  /** A token that cannot start an operand is an error. */
  lemma ExpressionRejects(toks: seq<Token>, pos: nat)
    requires pos <= |toks|
    ensures PeekAt(toks, pos) == EndOfStmt ==> Expression(toks, pos) == Failure(ExpectedExpression)
    ensures var t := PeekAt(toks, pos);
      t.SymbolToken? && t.symbol !in {Symbol.BracketOpen, Symbol.Add, Symbol.Subtract} ==>
        Expression(toks, pos) == Failure(ExpectedOperand)
  {
  }
}
