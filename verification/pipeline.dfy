/**
 * The behaviour the unit and integration tests pin down, derived from the
 * model: parser trees for the tested token lists, executor results for the
 * tested trees, and the whole pipeline.
 */
module Pipeline {
  import opened Wrappers
  import opened Ast
  import opened Tokens
  import opened Parser
  import opened Printer
  import opened Semantics
  import opened Execution
  import Lexer

  function Num(v: real): Token { NumberToken(v) }

  function Sym(s: Symbol): Token { SymbolToken(s) }

  function AddNode(l: Expr, r: Expr): Expr { Binary(BinaryOperation.Add, l, r) }

  function SubNode(l: Expr, r: Expr): Expr { Binary(BinaryOperation.Subtract, l, r) }

  function MulNode(l: Expr, r: Expr): Expr { Binary(BinaryOperation.Multiply, l, r) }

  function DivNode(l: Expr, r: Expr): Expr { Binary(BinaryOperation.Divide, l, r) }

  /** `toks` parses to the statement holding `e`, checked through the renderer. */
  lemma ParsesTo(toks: seq<Token>, e: Expr)
    requires Parsable(e) && PrintAdditive(e) == toks
    ensures Parse(toks) == Success(ExprStmt(e))
  {
    ParseRoundTrip(e);
  }

  /* ---------------------------------------------------------------------
   * Parser.
   * ------------------------------------------------------------------- */

  lemma ParseNumber()
    ensures Parse([Num(1.0)]) == Success(ExprStmt(Const(1.0)))
  {
  }

  /** `1+2`. */
  lemma ParseAddition()
    ensures Parse([Num(1.0), Sym(Symbol.Add), Num(2.0)]) == Success(ExprStmt(AddNode(Const(1.0), Const(2.0))))
  {
    ParsesTo([Num(1.0), Sym(Symbol.Add), Num(2.0)], AddNode(Const(1.0), Const(2.0)));
  }

  /** `1-2`. */
  lemma ParseSubtraction()
    ensures Parse([Num(1.0), Sym(Symbol.Subtract), Num(2.0)]) == Success(ExprStmt(SubNode(Const(1.0), Const(2.0))))
  {
    ParsesTo([Num(1.0), Sym(Symbol.Subtract), Num(2.0)], SubNode(Const(1.0), Const(2.0)));
  }

  /** `1*2`. */
  lemma ParseMultiplication()
    ensures Parse([Num(1.0), Sym(Symbol.Multiply), Num(2.0)]) == Success(ExprStmt(MulNode(Const(1.0), Const(2.0))))
  {
    ParsesTo([Num(1.0), Sym(Symbol.Multiply), Num(2.0)], MulNode(Const(1.0), Const(2.0)));
  }

  /** `1/2`. */
  lemma ParseDivision()
    ensures Parse([Num(1.0), Sym(Symbol.Divide), Num(2.0)]) == Success(ExprStmt(DivNode(Const(1.0), Const(2.0))))
  {
    ParsesTo([Num(1.0), Sym(Symbol.Divide), Num(2.0)], DivNode(Const(1.0), Const(2.0)));
  }

  /** `1+2+3` nests to the right. */
  lemma AdditionChainNestsRight()
    ensures Parse([Num(1.0), Sym(Symbol.Add), Num(2.0), Sym(Symbol.Add), Num(3.0)])
      == Success(ExprStmt(AddNode(Const(1.0), AddNode(Const(2.0), Const(3.0)))))
  {
    ParsesTo([Num(1.0), Sym(Symbol.Add), Num(2.0), Sym(Symbol.Add), Num(3.0)],
      AddNode(Const(1.0), AddNode(Const(2.0), Const(3.0))));
  }

  /** `1-2-3` nests to the right too. */
  lemma SubtractionChainNestsRight()
    ensures Parse([Num(1.0), Sym(Symbol.Subtract), Num(2.0), Sym(Symbol.Subtract), Num(3.0)])
      == Success(ExprStmt(SubNode(Const(1.0), SubNode(Const(2.0), Const(3.0)))))
  {
    ParsesTo([Num(1.0), Sym(Symbol.Subtract), Num(2.0), Sym(Symbol.Subtract), Num(3.0)],
      SubNode(Const(1.0), SubNode(Const(2.0), Const(3.0))));
  }

  /** In `1+2*3`, `*` binds tighter than the `+` before it. */
  lemma MultiplicationAfterAddition()
    ensures Parse([Num(1.0), Sym(Symbol.Add), Num(2.0), Sym(Symbol.Multiply), Num(3.0)])
      == Success(ExprStmt(AddNode(Const(1.0), MulNode(Const(2.0), Const(3.0)))))
  {
    ParsesTo([Num(1.0), Sym(Symbol.Add), Num(2.0), Sym(Symbol.Multiply), Num(3.0)],
      AddNode(Const(1.0), MulNode(Const(2.0), Const(3.0))));
  }

  /** In `1*2+3`, `*` binds tighter than the `+` after it. */
  lemma MultiplicationBeforeAddition()
    ensures Parse([Num(1.0), Sym(Symbol.Multiply), Num(2.0), Sym(Symbol.Add), Num(3.0)])
      == Success(ExprStmt(AddNode(MulNode(Const(1.0), Const(2.0)), Const(3.0))))
  {
    ParsesTo([Num(1.0), Sym(Symbol.Multiply), Num(2.0), Sym(Symbol.Add), Num(3.0)],
      AddNode(MulNode(Const(1.0), Const(2.0)), Const(3.0)));
  }

  /** `1*(2+3)`. */
  lemma BracketedProduct()
    ensures Parse([Num(1.0), Sym(Symbol.Multiply), Sym(Symbol.BracketOpen), Num(2.0), Sym(Symbol.Add),
                   Num(3.0), Sym(Symbol.BracketClose)])
      == Success(ExprStmt(MulNode(Const(1.0), AddNode(Const(2.0), Const(3.0)))))
  {
    ParsesTo([Num(1.0), Sym(Symbol.Multiply), Sym(Symbol.BracketOpen), Num(2.0), Sym(Symbol.Add),
              Num(3.0), Sym(Symbol.BracketClose)],
      MulNode(Const(1.0), AddNode(Const(2.0), Const(3.0))));
  }

  /** `-1`. */
  lemma Negation()
    ensures Parse([Sym(Symbol.Subtract), Num(1.0)]) == Success(ExprStmt(Unary(Negate, Const(1.0))))
  {
    ParsesTo([Sym(Symbol.Subtract), Num(1.0)], Unary(Negate, Const(1.0)));
  }

  /** `-(1+2)`. */
  lemma BracketNegation()
    ensures Parse([Sym(Symbol.Subtract), Sym(Symbol.BracketOpen), Num(1.0), Sym(Symbol.Add), Num(2.0),
                   Sym(Symbol.BracketClose)])
      == Success(ExprStmt(Unary(Negate, AddNode(Const(1.0), Const(2.0)))))
  {
    ParsesTo([Sym(Symbol.Subtract), Sym(Symbol.BracketOpen), Num(1.0), Sym(Symbol.Add), Num(2.0),
              Sym(Symbol.BracketClose)],
      Unary(Negate, AddNode(Const(1.0), Const(2.0))));
  }

  /** Two adjacent numbers, a stray ')' and a missing ')' are rejected. */
  lemma ParseFailures()
    ensures Parse([Num(1.0), Num(2.0)]) == Failure(UnexpectedToken)
    ensures Parse([Num(1.0), Sym(Symbol.BracketClose)]) == Failure(TrailingTokens)
    ensures Parse([Sym(Symbol.BracketOpen), Num(1.0)]) == Failure(ExpectedClosingBracket)
  {
  }

  /**
   * `additive` reads the END_OF_STMT after its operand and `parse` reads one
   * more token, so an explicit terminator followed by the next statement's
   * first token fails, while a second terminator (or the end of the list)
   * succeeds.
   */
  lemma TerminatorIsReadTwice()
    ensures Parse([Num(1.0), EndOfStmt, Num(2.0)]) == Failure(TrailingTokens)
    ensures ParseStatement([Num(1.0), EndOfStmt, EndOfStmt], 0)
      == Success(ParsedStmt(ExprStmt(Const(1.0)), 3))
  {
  }

  /* ---------------------------------------------------------------------
   * Executor.
   * ------------------------------------------------------------------- */

  /** The statement holding `e`, run on an empty stack after a statement that left `previous`. */
  function Executed(e: Expr, previous: real): Step
  {
    ExecuteStatement(Executor([], previous), ExprStmt(e))
  }

  lemma ExecutorConstant(previous: real)
    ensures Executed(Const(1.0), previous) == Running(Executor([], 1.0))
  {
  }

  lemma ExecutorNegation(previous: real)
    ensures Executed(Unary(Negate, Const(1.0)), previous) == Running(Executor([], -1.0))
  {
  }

  lemma ExecutorAddition(previous: real)
    ensures Executed(AddNode(Const(1.0), Const(2.0)), previous) == Running(Executor([], 3.0))
  {
  }

  lemma ExecutorSubtraction(previous: real)
    ensures Executed(SubNode(Const(1.0), Const(2.0)), previous) == Running(Executor([], -1.0))
  {
  }

  lemma ExecutorMultiplication(previous: real)
    ensures Executed(MulNode(Const(1.0), Const(2.0)), previous) == Running(Executor([], 2.0))
  {
  }

  lemma ExecutorDivision(previous: real)
    ensures Executed(DivNode(Const(1.0), Const(2.0)), previous) == Running(Executor([], 0.5))
  {
  }

  lemma ExecutorNot(previous: real)
    ensures Executed(Unary(UnaryOperation.Not, Const(1.0)), previous) == Running(Executor([], -2.0))
  {
    NotExample();
  }

  lemma ExecutorAnd(previous: real)
    ensures Executed(Binary(BinaryOperation.And, Const(1.0), Const(3.0)), previous) == Running(Executor([], 1.0))
  {
    BitwiseExamples();
  }

  lemma ExecutorOr(previous: real)
    ensures Executed(Binary(BinaryOperation.Or, Const(1.0), Const(3.0)), previous) == Running(Executor([], 3.0))
  {
    BitwiseExamples();
  }

  lemma ExecutorXor(previous: real)
    ensures Executed(Binary(BinaryOperation.Xor, Const(1.0), Const(3.0)), previous) == Running(Executor([], 2.0))
  {
    BitwiseExamples();
  }

  /* ---------------------------------------------------------------------
   * The pipeline.
   * ------------------------------------------------------------------- */

  /** Parses a token list and executes it on an empty stack. */
  function Run(toks: seq<Token>, previous: real): Result<Step, ParseError>
  {
    var stmt :- Parse(toks);
    Success(ExecuteStatement(Executor([], previous), stmt))
  }

  /** `1-2-3` nests to the right and so evaluates to 2, not -4. */
  lemma SubtractionChainValue(previous: real)
    ensures Run([Num(1.0), Sym(Symbol.Subtract), Num(2.0), Sym(Symbol.Subtract), Num(3.0)], previous)
      == Success(Running(Executor([], 2.0)))
  {
    SubtractionChainNestsRight();
  }

  /** The tokens of `3*(1+3-2/4)`. */
  function BidmasTokens(): seq<Token>
  {
    [Num(3.0), Sym(Symbol.Multiply), Sym(Symbol.BracketOpen), Num(1.0), Sym(Symbol.Add),
     Num(3.0), Sym(Symbol.Subtract), Num(2.0), Sym(Symbol.Divide), Num(4.0), Sym(Symbol.BracketClose)]
  }

  /** Multiplication and division bind tighter than addition and subtraction, brackets tightest. */
  lemma BidmasTree()
    ensures Parse(BidmasTokens())
      == Success(ExprStmt(MulNode(Const(3.0), AddNode(Const(1.0), SubNode(Const(3.0), DivNode(Const(2.0), Const(4.0)))))))
  {
    ParsesTo(BidmasTokens(), MulNode(Const(3.0), AddNode(Const(1.0), SubNode(Const(3.0), DivNode(Const(2.0), Const(4.0))))));
  }

  /** `3*(1+3-2/4)` evaluates to 10.5. */
  lemma BidmasValue(previous: real)
    ensures Run(BidmasTokens(), previous) == Success(Running(Executor([], 10.5)))
  {
    BidmasTree();
    assert Eval(DivNode(Const(2.0), Const(4.0))) == Value(0.5);
    assert Eval(SubNode(Const(3.0), DivNode(Const(2.0), Const(4.0)))) == Value(2.5);
  }

  /** A single NUMBER is a constant statement. */
  lemma NumberTokenParses(v: real)
    ensures Parse([NumberToken(v)]) == Success(ExprStmt(Const(v)))
  {
    assert PrintUnary(Const(v)) == [NumberToken(v)];
    assert PrintMultiplicative(Const(v)) == [NumberToken(v)];
    ParsesTo([NumberToken(v)], Const(v));
  }

  /**
   * From text: the lexer yields at most one NUMBER, so a statement read
   * from characters that start with a digit is the number they start with.
   */
  lemma NumberText(input: seq<char>)
    requires Lexer.Fits(input, 0) && |input| > 0 && Lexer.IsDigit(input[0])
    ensures Parse(Lexer.Tokenize(input))
      == Success(ExprStmt(Const(Lexer.Strtod(input[..Lexer.RunLength(input, 0)]))))
  {
    Lexer.TokenizeNumber(input);
    NumberTokenParses(Lexer.Strtod(input[..Lexer.RunLength(input, 0)]));
  }

  /** Text that does not start with a digit has no expression. */
  lemma NonNumberText(input: seq<char>)
    requires Lexer.Fits(input, 0) && !(|input| > 0 && Lexer.IsDigit(input[0]))
    ensures Parse(Lexer.Tokenize(input)) == Failure(ExpectedExpression)
  {
    Lexer.TokenizeOther(input);
    EmptyListHasNoExpression();
  }

  /**
   * The integration tests' text: the lexer stops at the first operator, so
   * "1+2" and "3*(1+3-2/4)" each read as their leading number alone.
   */
  lemma OperatorTextReadsLeadingNumber()
    ensures Parse(Lexer.Tokenize("1+2")) == Success(ExprStmt(Const(1.0)))
    ensures Parse(Lexer.Tokenize("3*(1+3-2/4)")) == Success(ExprStmt(Const(3.0)))
  {
    LeadingNumberText("1+2", 1);
    LeadingNumberText("3*(1+3-2/4)", 3);
  }

  lemma LeadingNumberText(input: seq<char>, n: nat)
    requires 2 <= |input| && input[0] == Lexer.Digits(n)[0] && !Lexer.IsNumberChar(input[1])
    requires n < 10
    ensures Parse(Lexer.Tokenize(input)) == Success(ExprStmt(Const(n as real)))
  {
    assert Lexer.RunLength(input, 1) == 0;
    assert Lexer.RunLength(input, 0) == 1;
    assert input[..1] == Lexer.Digits(n);
    Lexer.StrtodOfDigits(n);
    NumberText(input);
  }
}
