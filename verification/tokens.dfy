/**
 * Tokens passed from the lexer to the parser.
 *
 * A C++ token is a kind tag plus a variant payload; the kind decides which
 * payload alternative is present. Here each kind carries its own payload, so
 * a token whose tag and payload disagree cannot be built.
 */
module Tokens {

  /**
   * The nine symbols of the lexer header's `Symbol` enum, plus the two
   * brackets that the parser and its tests use as symbols.
   */
  datatype Symbol =
    | Add | Subtract | Multiply | Divide | Exponent
    | And | Or | Xor | Not
    | BracketOpen | BracketClose

  datatype Token =
    | EndOfStmt                        // END_OF_STMT, empty payload
    | SymbolToken(symbol: Symbol)      // SYMBOL
    | NumberToken(value: real)         // NUMBER

  /*
   * A token list read through a cursor, as the parser tests feed the parser:
   * at the end of the list both operations yield END_OF_STMT, and reading
   * there does not move the cursor.
   */

  function PeekAt(toks: seq<Token>, pos: nat): (t: Token)
    requires pos <= |toks|
    ensures t == (toks + [EndOfStmt])[pos]
  {
    if pos == |toks| then EndOfStmt else toks[pos]
  }

  function ReadAt(toks: seq<Token>, pos: nat): (r: (Token, nat))
    requires pos <= |toks|
    ensures r.0 == PeekAt(toks, pos)
    ensures r.1 <= |toks|
    ensures pos < |toks| ==> r.1 == pos + 1
    ensures pos == |toks| ==> r.1 == pos
  {
    if pos == |toks| then (EndOfStmt, pos) else (toks[pos], pos + 1)
  }

  /** The tokens returned by `k` successive reads starting at `pos`. */
  function ReadsAt(toks: seq<Token>, pos: nat, k: nat): (r: seq<Token>)
    requires pos <= |toks|
    ensures |r| == k
    decreases k
  {
    if k == 0 then [] else
      var (t, next) := ReadAt(toks, pos);
      [t] + ReadsAt(toks, next, k - 1)
  }

  /** Reading past the end of the list yields END_OF_STMT every time. */
  lemma {:induction false} ReadsPastEnd(toks: seq<Token>, k: nat)
    ensures forall i :: 0 <= i < k ==> ReadsAt(toks, |toks|, k)[i] == EndOfStmt
  {
    if k > 0 {
      ReadsPastEnd(toks, k - 1);
      assert ReadsAt(toks, |toks|, k) == [EndOfStmt] + ReadsAt(toks, |toks|, k - 1);
    }
  }
}
