/**
 * The inverse of the parser: an unparser that writes an expression as the
 * token list the parser reads back into the same tree.
 *
 * Right operands of '+', '-', '*', '/' need no brackets because both binary
 * levels nest to the right; a left operand, or an operand of unary '-', is
 * bracketed when it binds less tightly than its position allows. Bitwise
 * nodes, which the grammar cannot produce, are written with the symbol the
 * token vocabulary has for them, so that the printer is total; the round
 * trip is stated only for trees the grammar can build.
 */
module Printer {
  import opened Ast
  import opened Tokens
  import opened Wrappers
  import opened Parser

  predicate IsAdditive(e: Expr)
  {
    e.Binary? && (e.binaryOp == BinaryOperation.Add || e.binaryOp == BinaryOperation.Subtract)
  }

  predicate IsMultiplicative(e: Expr)
  {
    e.Binary? && (e.binaryOp == BinaryOperation.Multiply || e.binaryOp == BinaryOperation.Divide)
  }

  function OperatorSymbol(op: BinaryOperation): Symbol
  {
    match op
    case Add => Symbol.Add
    case Subtract => Symbol.Subtract
    case Multiply => Symbol.Multiply
    case Divide => Symbol.Divide
    case And => Symbol.And
    case Or => Symbol.Or
    case Xor => Symbol.Xor
  }

  /*
   * Measure shared by the printer and its round-trip lemmas: the expression,
   * then a rank. A call on the same expression only happens from the
   * additive level to the multiplicative one (for a non-additive node), from
   * the multiplicative level to the unary one (for a non-multiplicative
   * node), and from the unary level back to the additive one (for an
   * arithmetic node, which is then split at once).
   */

  function AdditiveRank(e: Expr): nat { 2 }

  function MultiplicativeRank(e: Expr): nat { if IsAdditive(e) then 4 else 1 }

  function UnaryRank(e: Expr): nat { if IsAdditive(e) || IsMultiplicative(e) then 3 else 0 }

  function PrintAdditive(e: Expr): seq<Token>
    decreases e, AdditiveRank(e)
  {
    if IsAdditive(e) then
      PrintMultiplicative(e.lhs) + [SymbolToken(OperatorSymbol(e.binaryOp))] + PrintAdditive(e.rhs)
    else
      PrintMultiplicative(e)
  }

  function PrintMultiplicative(e: Expr): seq<Token>
    decreases e, MultiplicativeRank(e)
  {
    if IsMultiplicative(e) then
      PrintUnary(e.lhs) + [SymbolToken(OperatorSymbol(e.binaryOp))] + PrintMultiplicative(e.rhs)
    else
      PrintUnary(e)
  }

  function PrintUnary(e: Expr): seq<Token>
    decreases e, UnaryRank(e)
  {
    match e
    case Const(v) => [NumberToken(v)]
    case Unary(Negate, x) => [SymbolToken(Symbol.Subtract)] + PrintUnary(x)
    case Unary(Not, x) => [SymbolToken(Symbol.Not)] + PrintUnary(x)
    case Binary(op, l, r) =>
      if IsAdditive(e) || IsMultiplicative(e) then
        [SymbolToken(Symbol.BracketOpen)] + PrintAdditive(e) + [SymbolToken(Symbol.BracketClose)]
      else
        PrintUnary(l) + [SymbolToken(OperatorSymbol(op))] + PrintUnary(r)
  }

  /** The token list of a statement. */
  function Print(s: Stmt): seq<Token>
  {
    PrintAdditive(s.expression)
  }

  /* ---------------------------------------------------------------------
   * Round trip.
   * ------------------------------------------------------------------- */

  /** `piece` occurs in `toks` starting at `pos`. */
  predicate At(toks: seq<Token>, pos: nat, piece: seq<Token>)
  {
    pos + |piece| <= |toks| && Matches(toks, pos, piece)
  }

  /** Token by token, `toks` from `pos` on begins with `piece`. */
  predicate Matches(toks: seq<Token>, pos: nat, piece: seq<Token>)
    decreases |piece|
  {
    if |piece| == 0 then true
    else pos < |toks| && toks[pos] == piece[0] && Matches(toks, pos + 1, piece[1..])
  }

  /** Every suffix of a list occurs in it where it starts. */
  lemma {:induction false} AtSuffix(toks: seq<Token>, pos: nat)
    requires pos <= |toks|
    ensures At(toks, pos, toks[pos..])
    decreases |toks| - pos
  {
    if pos < |toks| {
      AtSuffix(toks, pos + 1);
      assert toks[pos..][1..] == toks[pos + 1..];
    }
  }

  lemma {:induction false} AtConcat(toks: seq<Token>, pos: nat, a: seq<Token>, b: seq<Token>)
    requires At(toks, pos, a + b)
    ensures At(toks, pos, a) && At(toks, pos + |a|, b)
    decreases |a|
  {
    if |a| == 0 {
      assert a + b == b;
    } else {
      assert (a + b)[0] == a[0];
      assert (a + b)[1..] == a[1..] + b;
      AtConcat(toks, pos + 1, a[1..], b);
    }
  }

  lemma AtSingle(toks: seq<Token>, pos: nat, t: Token)
    requires At(toks, pos, [t])
    ensures pos < |toks| && toks[pos] == t
  {
  }

  predicate IsMulDivToken(t: Token)
  {
    t == SymbolToken(Symbol.Multiply) || t == SymbolToken(Symbol.Divide)
  }

  /** A binary rendering splits into its left part, the operator token and its right part. */
  lemma AtOperator(toks: seq<Token>, pos: nat, left: seq<Token>, op: BinaryOperation, right: seq<Token>)
    requires At(toks, pos, left + [SymbolToken(OperatorSymbol(op))] + right)
    ensures At(toks, pos, left)
    ensures pos + |left| < |toks| && toks[pos + |left|] == SymbolToken(OperatorSymbol(op))
    ensures At(toks, pos + |left| + 1, right)
  {
    var sym := [SymbolToken(OperatorSymbol(op))];
    AtConcat(toks, pos, left + sym, right);
    AtConcat(toks, pos, left, sym);
    AtSingle(toks, pos + |left|, sym[0]);
  }

  /** A bracketed rendering splits into '(', the inner part and ')'. */
  lemma AtBracketed(toks: seq<Token>, pos: nat, inner: seq<Token>)
    requires At(toks, pos, [SymbolToken(Symbol.BracketOpen)] + inner + [SymbolToken(Symbol.BracketClose)])
    ensures pos < |toks| && toks[pos] == SymbolToken(Symbol.BracketOpen)
    ensures At(toks, pos + 1, inner)
    ensures pos + 1 + |inner| < |toks| && toks[pos + 1 + |inner|] == SymbolToken(Symbol.BracketClose)
  {
    var open := [SymbolToken(Symbol.BracketOpen)];
    var close := [SymbolToken(Symbol.BracketClose)];
    AtConcat(toks, pos, open + inner, close);
    AtConcat(toks, pos, open, inner);
    AtSingle(toks, pos, open[0]);
    AtSingle(toks, pos + 1 + |inner|, close[0]);
  }

  /*
   * The round-trip lemmas recurse along the printer's measure; each node
   * case is a lemma of its own one step below its dispatcher.
   */

  /** A unary-level rendering is parsed back by `expression`. */
  lemma {:induction false} UnaryRoundTrip(e: Expr, toks: seq<Token>, pos: nat)
    requires Parsable(e) && At(toks, pos, PrintUnary(e))
    ensures Expression(toks, pos) == Success(Parsed(e, pos + |PrintUnary(e)|))
    decreases e, UnaryRank(e), 1
  {
    match e
    case Const(v) =>
      assert PrintUnary(e) == [NumberToken(v)];
      AtSingle(toks, pos, NumberToken(v));
      NumberStep(toks, pos, v);
    case Unary(_, _) =>
      NegationRoundTrip(e, toks, pos);
    case Binary(_, _, _) =>
      BracketedRoundTrip(e, toks, pos);
  }

  lemma {:induction false} NegationRoundTrip(e: Expr, toks: seq<Token>, pos: nat)
    requires e.Unary? && Parsable(e) && At(toks, pos, PrintUnary(e))
    ensures Expression(toks, pos) == Success(Parsed(e, pos + |PrintUnary(e)|))
    decreases e, UnaryRank(e), 0
  {
    var operand := PrintUnary(e.operand);
    assert PrintUnary(e) == [SymbolToken(Symbol.Subtract)] + operand;
    AtConcat(toks, pos, [SymbolToken(Symbol.Subtract)], operand);
    AtSingle(toks, pos, SymbolToken(Symbol.Subtract));
    UnaryRoundTrip(e.operand, toks, pos + 1);
    NegationStep(toks, pos, e.operand, pos + 1 + |operand|);
  }

  lemma {:induction false} BracketedRoundTrip(e: Expr, toks: seq<Token>, pos: nat)
    requires e.Binary? && Parsable(e) && At(toks, pos, PrintUnary(e))
    ensures Expression(toks, pos) == Success(Parsed(e, pos + |PrintUnary(e)|))
    decreases e, UnaryRank(e), 0
  {
    var inner := PrintAdditive(e);
    assert PrintUnary(e) == [SymbolToken(Symbol.BracketOpen)] + inner + [SymbolToken(Symbol.BracketClose)];
    AtBracketed(toks, pos, inner);
    var end := pos + 1 + |inner|;
    assert PeekAt(toks, end) == SymbolToken(Symbol.BracketClose);
    AdditiveRoundTrip(e, toks, pos + 1);
    assert Follow(toks, end) == end;
    BracketsStep(toks, pos, e, end);
    assert pos + |PrintUnary(e)| == end + 1;
  }

  /**
   * A multiplicative-level rendering is parsed back by `multiplicative`,
   * provided the token after it is not '*' or '/'.
   */
  lemma {:induction false} MultiplicativeRoundTrip(e: Expr, toks: seq<Token>, pos: nat)
    requires Parsable(e) && At(toks, pos, PrintMultiplicative(e))
    requires !IsMulDivToken(PeekAt(toks, pos + |PrintMultiplicative(e)|))
    ensures Multiplicative(toks, pos) == Success(Parsed(e, pos + |PrintMultiplicative(e)|))
    decreases e, MultiplicativeRank(e), 1
  {
    if IsMultiplicative(e) {
      ProductRoundTrip(e, toks, pos);
    } else {
      assert PrintMultiplicative(e) == PrintUnary(e);
      UnaryRoundTrip(e, toks, pos);
      MultiplicativeStops(toks, pos, e, pos + |PrintUnary(e)|);
    }
  }

  lemma {:induction false} ProductRoundTrip(e: Expr, toks: seq<Token>, pos: nat)
    requires IsMultiplicative(e) && Parsable(e) && At(toks, pos, PrintMultiplicative(e))
    requires !IsMulDivToken(PeekAt(toks, pos + |PrintMultiplicative(e)|))
    ensures Multiplicative(toks, pos) == Success(Parsed(e, pos + |PrintMultiplicative(e)|))
    decreases e, MultiplicativeRank(e), 0
  {
    var left := PrintUnary(e.lhs);
    var right := PrintMultiplicative(e.rhs);
    assert PrintMultiplicative(e) == left + [SymbolToken(OperatorSymbol(e.binaryOp))] + right;
    AtOperator(toks, pos, left, e.binaryOp, right);
    var mid := pos + |left|;
    var end := mid + 1 + |right|;
    UnaryRoundTrip(e.lhs, toks, pos);
    MultiplicativeRoundTrip(e.rhs, toks, mid + 1);
    MultiplicativeStep(toks, pos, e.binaryOp, e.lhs, mid, e.rhs, end);
    assert Binary(e.binaryOp, e.lhs, e.rhs) == e;
  }

  /**
   * An additive-level rendering followed by ')' or END_OF_STMT is parsed
   * back by `additive`, which consumes the END_OF_STMT but not the ')'.
   */
  lemma {:induction false} AdditiveRoundTrip(e: Expr, toks: seq<Token>, pos: nat)
    requires Parsable(e) && At(toks, pos, PrintAdditive(e))
    requires var follow := PeekAt(toks, pos + |PrintAdditive(e)|);
      follow == SymbolToken(Symbol.BracketClose) || follow == EndOfStmt
    ensures Additive(toks, pos) == Success(Parsed(e, Follow(toks, pos + |PrintAdditive(e)|)))
    decreases e, AdditiveRank(e), 1
  {
    if IsAdditive(e) {
      SumRoundTrip(e, toks, pos);
    } else {
      assert PrintAdditive(e) == PrintMultiplicative(e);
      MultiplicativeRoundTrip(e, toks, pos);
      AdditiveStops(toks, pos, e, pos + |PrintMultiplicative(e)|);
    }
  }

  lemma {:induction false} SumRoundTrip(e: Expr, toks: seq<Token>, pos: nat)
    requires IsAdditive(e) && Parsable(e) && At(toks, pos, PrintAdditive(e))
    requires var follow := PeekAt(toks, pos + |PrintAdditive(e)|);
      follow == SymbolToken(Symbol.BracketClose) || follow == EndOfStmt
    ensures Additive(toks, pos) == Success(Parsed(e, Follow(toks, pos + |PrintAdditive(e)|)))
    decreases e, AdditiveRank(e), 0
  {
    var mid := pos + |PrintMultiplicative(e.lhs)|;
    SplitSum(e, toks, pos);
    var end := Follow(toks, pos + |PrintAdditive(e)|);
    MultiplicativeRoundTrip(e.lhs, toks, pos);
    AdditiveRoundTrip(e.rhs, toks, mid + 1);
    AdditiveStep(toks, pos, e.binaryOp, e.lhs, mid, e.rhs, end);
    assert Binary(e.binaryOp, e.lhs, e.rhs) == e;
  }

  /** Where the parts of a sum's rendering lie, and that the same token follows it and its right operand. */
  lemma SplitSum(e: Expr, toks: seq<Token>, pos: nat)
    requires IsAdditive(e) && At(toks, pos, PrintAdditive(e))
    ensures var mid := pos + |PrintMultiplicative(e.lhs)|;
      && At(toks, pos, PrintMultiplicative(e.lhs))
      && mid < |toks|
      && ((e.binaryOp == BinaryOperation.Add && toks[mid] == SymbolToken(Symbol.Add))
          || (e.binaryOp == BinaryOperation.Subtract && toks[mid] == SymbolToken(Symbol.Subtract)))
      && At(toks, mid + 1, PrintAdditive(e.rhs))
      && mid + 1 + |PrintAdditive(e.rhs)| == pos + |PrintAdditive(e)|
  {
    var left := PrintMultiplicative(e.lhs);
    var right := PrintAdditive(e.rhs);
    assert PrintAdditive(e) == left + [SymbolToken(OperatorSymbol(e.binaryOp))] + right;
    AtOperator(toks, pos, left, e.binaryOp, right);
  }

  /** A rendering on its own parses back: the end of the list reads as END_OF_STMT. */
  lemma RenderingParses(e: Expr)
    requires Parsable(e)
    ensures Parse(PrintAdditive(e)) == Success(ExprStmt(e))
  {
    var toks := PrintAdditive(e);
    assert At(toks, 0, toks) by {
      AtSuffix(toks, 0);
    }
    AdditiveRoundTrip(e, toks, 0);
    StatementEnds(toks, e, |toks|);
  }

  /** A rendering followed by an explicit END_OF_STMT parses back too. */
  lemma TerminatedRenderingParses(e: Expr)
    requires Parsable(e)
    ensures Parse(PrintAdditive(e) + [EndOfStmt]) == Success(ExprStmt(e))
  {
    var toks := PrintAdditive(e) + [EndOfStmt];
    var n := |PrintAdditive(e)|;
    assert At(toks, 0, PrintAdditive(e)) by {
      AtSuffix(toks, 0);
      AtConcat(toks, 0, PrintAdditive(e), [EndOfStmt]);
    }
    assert PeekAt(toks, n) == EndOfStmt;
    AdditiveRoundTrip(e, toks, 0);
    StatementEnds(toks, e, n + 1);
  }

  /**
   * Every expression the grammar can produce is parsed back from its
   * rendering, with or without an explicit END_OF_STMT after it.
   */
  lemma ParseRoundTrip(e: Expr)
    requires Parsable(e)
    ensures Parse(PrintAdditive(e)) == Success(ExprStmt(e))
    ensures Parse(PrintAdditive(e) + [EndOfStmt]) == Success(ExprStmt(e))
  {
    RenderingParses(e);
    TerminatedRenderingParses(e);
  }

  /**
   * The parser's results are exactly the parsable expressions: every parse
   * yields one, and every one is the result of parsing its rendering. So a
   * parsed statement can be rendered and parsed again without change.
   */
  lemma ParserImageIsParsable(toks: seq<Token>)
    ensures Parse(toks).Success? ==> Parse(Print(Parse(toks).value)) == Parse(toks)
  {
    if Parse(toks).Success? {
      ParseRoundTrip(Parse(toks).value.expression);
    }
  }
}
