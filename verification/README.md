# QuickCalc core in Dafny

QuickCalc is a small calculator. A lexer turns characters into tokens. A
recursive-descent parser turns the tokens of one statement into a syntax
tree. An executor, a node visitor with an explicit value stack, evaluates the
tree and records the statement's value as its last result. This project
models those four parts and proves what each promises.

| file | module | models |
|---|---|---|
| wrappers.dfy | `Wrappers` | `Option` and `Result`: a parser error is a `Failure` value instead of an exception |
| ast.dfy | `Ast` | the node classes and operator enums as one datatype family; accessors, ownership and equality |
| visitors.dfy | `Visitors` | the forwarding base `NodeVisitor` (`_next` chaining) |
| tokens.dfy | `Tokens` | tokens, and a token list read through a cursor, as the parser's unit tests feed it |
| lexer.dfy | `Lexer` | `Lexer`: the constructor, `read`, `peek`, `readToken` and the fixed-buffer number scan |
| parser.dfy | `Parser` | `Parser::parse`, `additive`, `multiplicative`, `expression`, `brackets` |
| printer.dfy | `Printer` | the parser's inverse, an unparser, plus the round-trip proof |
| int32.dfy | `Int32` | `static_cast<int32_t>` truncation and 32-bit two's-complement `~ & \| ^` |
| semantics.dfy | `Semantics` | a reference evaluator defined directly on the tree |
| execution.dfy | `Execution` | `Executor::visit` for the four node kinds, plus `push`, `pop` and `lastResult` |
| pipeline.dfy | `Pipeline` | the unit and integration tests' cases, derived from the model |

Design of the model:

- **Tokens.** A token is a sum type: `END_OF_STMT`, `SYMBOL` with a symbol, or
  `NUMBER` with a value. A token whose kind and payload disagree cannot be
  built, so `std::bad_variant_access` cannot happen. src/lexer.cpp uses the
  kinds END_OF_STMT and NUMBER of `TokenType` in include/lexer.hpp:18-25.
  The kind `SYMBOL` and the symbols `BRACKET_OPEN` and `BRACKET_CLOSE` appear
  only in src/parser.cpp and test/parser.cpp; include/lexer.hpp:18-25 lists
  `UNARY_OPERATOR`, `BINARY_OPERATOR`, `BRACKET_OPEN` and `BRACKET_CLOSE` as
  kinds instead. The other nine symbols are the `Symbol` enum of
  include/lexer.hpp:6-16; the parser uses four of them (`ADD`, `SUBTRACT`,
  `MULTIPLY`, `DIVIDE`).
- **Token source.** The parser reads a `seq<Token>` through a position, as the
  mock lexer of test/parser.cpp:8-28 does. At the end of the list, `peek` and
  `read` yield END_OF_STMT, and `read` does not advance.
  `Lexer.LexerReadsTokenList` proves that the real lexer behaves as such a
  list.
- **Parser.** Each parser function takes the list and a position. It returns
  the tree and the position after it, or one of the five error messages.
  Termination is proved with the measure (unread tokens, rank), where the
  ranks are brackets > additive > multiplicative > expression.
- **Parser inverse (printer).** The printer writes a tree as tokens. The round-trip
  theorem `Printer.ParseRoundTrip` says every tree the grammar can build
  (`Parser.Parsable`) is parsed back from its rendering. The parser's results
  are always `Parsable`, so the two together characterise the parser's image.
- **Values.** Values are exact reals; IEEE-754 rounding is not modelled.
  Two operations have results the model does not represent: division by zero
  (an infinity or NaN in C++) and a bitwise operand whose truncation does not
  fit in 32 bits (undefined behaviour of the cast). Both end evaluation with
  `Semantics.OutsideModel` carrying the reason. Neither is a precondition,
  so the evaluator is total.
- **Reference evaluator.** The executor's stack machine (`Execution.Visit`) is
  proved equal to the reference evaluator (`Semantics.Eval`) for every tree.
  The proof shows each expression pushes exactly one value onto an otherwise
  unchanged stack, so `pop` is never reached on an empty stack.
- **Lexer.**
  - The lexer in src/lexer.cpp recognises only numbers. A digit starts a
    maximal run of digits and `.`. The end of the input, and every other
    character (operators, brackets, whitespace, `;`), yields END_OF_STMT
    without being consumed.
  - Symbols, names, keywords, exponents, line and column tracking, and lexing
    errors do not exist in that code.
  - So text yields at most one token (`Lexer.Tokenize`). The operator test
    cases are therefore stated from token lists, as the parser tests state
    them. For example, `Pipeline.BidmasValue` starts from the tokens of
    `3*(1+3-2/4)`.

## Model

| member | source | states |
|---|---|---|
| Ast.SubtreeIsSmaller | include/ast.hpp:71-82 | a subtree reached through owned children is never larger than the tree holding it, and strictly smaller unless it is that tree |
| Ast.NoCycles | include/ast.hpp:49-59 | no node occurs anywhere inside one of its own children: the tree has no cycles |
| Ast.AccessorsReturnConstructorArguments | src/ast.cpp:5-55 | `expression`, `value`, `operation`, `lhs`, `rhs` return exactly the constructor's arguments |
| Ast.EqualityIsStructural | include/ast.hpp:11 | two trees are equal iff they have the same node kind, the same operator or value, and pairwise equal children; different kinds are never equal |
| Visitors.ChainDecomposes | src/ast.cpp:57-61 | every visitor is some number of forwarding base visitors in front of either an overriding visitor or a base visitor without `_next` |
| Visitors.ForwardingIsTransparent | src/ast.cpp:63-85 | a node handed to any chain of forwarding visitors reaches the same handler as one handed to the chain's end |
| Visitors.Dispatch | src/ast.cpp:63-85 | a node is handled by the overriding visitor at the end of the `_next` chain, and is dropped exactly when the chain ends in a base visitor without `_next` |
| Visitors.DispatchReachesLast | src/ast.cpp:63-85 | a node is handled by an overriding visitor exactly when the chain ends in one, and is dropped exactly when the chain ends in a base visitor without `_next` |
| Tokens.PeekAt | test/parser.cpp:22-27 | a peek behaves as indexing the list with an END_OF_STMT sentinel appended: the token at the cursor, or END_OF_STMT at the end |
| Tokens.ReadAt | test/parser.cpp:15-20 | a read returns the token a peek would, advances by one before the end of the list, and stays put at the end |
| Tokens.ReadsPastEnd | test/parser.cpp:15-27 | any number of reads at the end of the list all yield END_OF_STMT |
| Lexer.RunLength | src/lexer.cpp:52-55 | the scanned run consists of digits and `.` only, and it is maximal: the character after it is not a digit or `.` |
| Lexer.Natural | src/lexer.cpp:56 | a string of `k` decimal digits denotes a number below `10^k` |
| Lexer.Strtod | src/lexer.cpp:56 | the result is at least the value of the leading digits and less than that value plus one, so the fraction adds less than one; a string of digits alone converts to exactly its value |
| Lexer.NaturalOfDigits | src/lexer.cpp:56 | converting the decimal rendering of any natural number gives that number back |
| Lexer.StrtodOfDigits | src/lexer.cpp:56 | `strtod` applied to the digits of any natural number returns that number |
| Lexer.NextToken | src/lexer.cpp:44-60 | NUMBER iff the cursor is at a digit, carrying the converted value of the maximal run, which fits the 328-character buffer; otherwise END_OF_STMT with nothing consumed |
| Lexer.ScanNumber | src/lexer.cpp:48-57 | copying the run into the zero-filled buffer and reading up to the first zero gives exactly the maximal run, and the scan stops right after it |
| Lexer.ReadToken | src/lexer.cpp:44-60 | the buffer-based scan returns the same token and position as the maximal-run definition |
| Lexer.New | src/lexer.cpp:15-17 | the constructor leaves the first scanned token pending before any read or peek |
| Lexer.Read | src/lexer.cpp:24-28 | a read returns the pending token, and the new pending token is the next one scanned from the input |
| Lexer.BlankInputIsEnd | src/lexer.cpp:44-47 | an empty input lexes to END_OF_STMT |
| Lexer.Peek | src/lexer.cpp:35-37 | on a valid lexer a peek returns exactly the token the next read returns, and a single read yields just that token |
| Lexer.PeekDoesNotAdvance | src/lexer.cpp:35-37 | a peek returns what the next read returns, so peeking consumes nothing |
| Lexer.ExhaustedStaysAtEnd | src/lexer.cpp:59 | a lexer whose pending token is END_OF_STMT, and whose cursor is not at a digit, returns END_OF_STMT on every later read |
| Lexer.AfterFirstReadExhausted | src/lexer.cpp:52-59 | after the first read the lexer is exhausted, because a number run is maximal |
| Lexer.Tokenize | src/lexer.cpp:44-60 | the lexer produces at most one token from any input |
| Lexer.TokenizeNumber | src/lexer.cpp:48-57 | text starting with a digit yields the single NUMBER of its leading run |
| Lexer.TokenizeOther | src/lexer.cpp:59 | text not starting with a digit yields no token |
| Lexer.LexerReadsTokenList | src/lexer.cpp:15-37 | for every number of reads, the lexer returns the same tokens as the list `Tokenize(input)` read through a cursor |
| Lexer.TestedIntegers | test/lexer.cpp:16-34 | "1" and "10" lex to NUMBER 1.0 and NUMBER 10.0 |
| Lexer.TestedDecimal | test/lexer.cpp:36-44 | "3.14" lexes to NUMBER 3.14 |
| Lexer.StrtodOfDecimal | src/lexer.cpp:56 | the conversion of "3.14" is exactly 3.14: whole part 3 plus fraction 14/100 |
| Parser.ParseStatement | src/parser.cpp:8-15 | a successful statement ends within the list and its tree is one the grammar can build |
| Parser.Parse | src/parser.cpp:8-15 | every tree `parse` returns contains only negation and the four arithmetic operators |
| Parser.Additive | src/parser.cpp:17-40 | a successful additive ends within the list and builds only grammar trees |
| Parser.Multiplicative | src/parser.cpp:42-59 | a successful multiplicative ends within the list and builds only grammar trees |
| Parser.Expression | src/parser.cpp:61-80 | a successful expression ends within the list and builds only grammar trees |
| Parser.Brackets | src/parser.cpp:82-89 | a successful bracket group consumes at least its `)` and builds only grammar trees |
| Parser.StatementEnds | src/parser.cpp:8-15 | when the additive is followed by END_OF_STMT or the end of the list, `parse` returns exactly that additive as the statement |
| Parser.AdditiveStep | src/parser.cpp:23-29 | after its left operand, `+` or `-` makes `additive` build a node whose right operand is the next additive, nesting to the right |
| Parser.AdditiveStops | src/parser.cpp:31-38 | at `)` `additive` returns its left operand without reading; at END_OF_STMT it returns the operand and consumes the END_OF_STMT |
| Parser.AdditiveRejects | src/parser.cpp:20-35 | after its left operand, a NUMBER or any symbol other than `+`, `-`, `)` makes `additive` fail with "Unexpected token" |
| Parser.MultiplicativeStep | src/parser.cpp:47-54 | after its left operand, `*` or `/` makes `multiplicative` build a node whose right operand is the next multiplicative |
| Parser.MultiplicativeStops | src/parser.cpp:45-58 | at any token other than `*` and `/`, `multiplicative` returns its left operand without reading |
| Parser.NumberStep | src/parser.cpp:75-76 | a NUMBER is a constant operand, and one token is consumed |
| Parser.NegationStep | src/parser.cpp:70-71 | a `-` before an operand gives a NEGATE node over that operand |
| Parser.BracketsStep | src/parser.cpp:82-89 | `(`, an additive, then `)` give the additive's own tree and consume the `)` |
| Parser.UnaryPlusIsDropped | src/parser.cpp:68-69 | a unary `+` is skipped: the result is that of the expression after it |
| Parser.UnaryMinusNegates | src/parser.cpp:70-71 | a unary `-` succeeds iff the expression after it does, and wraps that expression in NEGATE |
| Parser.BracketsOnlyGroup | src/parser.cpp:82-89 | `(` succeeds iff the inner additive succeeds and is followed by `)`; the result is the inner tree, with no node added |
| Parser.EmptyListHasNoExpression | src/parser.cpp:77-78 | an empty token list fails with "Expected expression" |
| Parser.ExpressionRejects | src/parser.cpp:72-78 | END_OF_STMT where an operand is expected fails with "Expected expression"; any symbol but `(`, `+`, `-` fails with "Expected +, - or (" |
| Printer.UnaryRoundTrip | src/parser.cpp:61-80 | wherever a unary-level rendering of a grammar tree occurs in a list, `expression` parses exactly that tree and stops right after it |
| Printer.NegationRoundTrip | src/parser.cpp:70-71 | a rendered negation parses back to the same NEGATE node |
| Printer.BracketedRoundTrip | src/parser.cpp:82-89 | a bracketed rendering of a binary node parses back to that node, consuming the `)` |
| Printer.MultiplicativeRoundTrip | src/parser.cpp:42-59 | a multiplicative-level rendering that is not followed by `*` or `/` is parsed back by `multiplicative` exactly |
| Printer.ProductRoundTrip | src/parser.cpp:47-54 | a rendered product or quotient parses back to the same right-nested node |
| Printer.AdditiveRoundTrip | src/parser.cpp:17-40 | an additive-level rendering followed by `)` or END_OF_STMT is parsed back by `additive` exactly, consuming an END_OF_STMT but not a `)` |
| Printer.SumRoundTrip | src/parser.cpp:23-29 | a rendered sum or difference parses back to the same right-nested node |
| Printer.RenderingParses | src/parser.cpp:8-15 | `parse` of the rendering of any grammar tree returns that tree |
| Printer.TerminatedRenderingParses | src/parser.cpp:8-15 | the same holds with an explicit END_OF_STMT after the rendering |
| Printer.ParseRoundTrip | src/parser.cpp:8-89 | every tree the grammar can build is parsed back from its rendering, with or without a trailing END_OF_STMT |
| Printer.ParserImageIsParsable | src/parser.cpp:8-15 | whatever `parse` returns, rendering it and parsing again gives the same statement |
| Int32.Truncate | src/executor.cpp:29 | the cast to an integer rounds toward zero: down for non-negative values, up for negative ones |
| Int32.ComplementIsSubtraction | src/executor.cpp:29 | flipping the low `width` bits of a pattern is subtracting it from all ones |
| Int32.NotIsNegatePlusOne | src/executor.cpp:29 | 32-bit `~a` is `-a - 1` for every representable `a` |
| Int32.UnsignedRoundTrip | src/executor.cpp:54-60 | two's-complement encoding and decoding are inverse on the 32-bit range |
| Int32.AndPlusOr | src/executor.cpp:53-58 | for any width-bit operands, bitwise `and` plus bitwise `or` equals the sum of the operands |
| Int32.XorIsOrMinusAnd | src/executor.cpp:53-61 | bitwise `xor` is `or` minus `and` |
| Int32.BitwiseWidens | src/executor.cpp:53-61 | operands that fit in fewer bits combine the same in any wider width |
| Int32.AndAllOnes | src/executor.cpp:53-55 | `and` with all ones in `width` bits gives back the other width-bit operand |
| Int32.XorAllOnes | src/executor.cpp:56-61 | with all ones in `width` bits, `or` gives all ones and `xor` flips every bit of the other width-bit operand |
| Int32.BitwiseBits | src/executor.cpp:53-61 | for every width and every bit position below it, the bit of the combined pattern is the operator applied to the operands' bits there |
| Int32.BitsDetermine | src/executor.cpp:53-61 | two width-bit patterns with the same bits in every position are equal |
| Int32.Not | src/executor.cpp:29 | the 32-bit complement of a representable value is representable |
| Int32.Apply | src/executor.cpp:53-61 | `&`, `\|` and `^` of two representable values give a representable value, each of whose 32 bits is the operator applied to the operands' bits in that position |
| Int32.ApplyIsTheBitwiseCombination | src/executor.cpp:53-61 | a 32-bit value has the operands' bits combined by the operator in every position if and only if it is the result of `Apply` |
| Int32.MinusOneOperand | src/executor.cpp:53-61 | for every 32-bit `b`: `-1 & b = b`, `-1 \| b = -1` and `-1 ^ b = ~b = -b - 1`, because `-1` is all ones in two's complement |
| Int32.MinusOneExamples | src/executor.cpp:53-61 | `-1 & 5 = 5` and `-1 ^ 1 = -2` |
| Int32.ApplyNarrow | src/executor.cpp:53-61 | small non-negative operands combine in 32 bits as in their own width |
| Int32.BitwiseOfFiveAndThree | src/executor.cpp:53-61 | `5 & 3 = 1`, `5 \| 3 = 7` and `5 ^ 3 = 6` |
| Int32.BitwiseOfOneAndThree | test/executor.cpp:85-116 | `1 & 3 = 1`, `1 \| 3 = 3` and `1 ^ 3 = 2` in 32 bits |
| Semantics.ApplyUnary | src/executor.cpp:21-31 | negation always has a value, the operand's additive inverse; NOT leaves the model exactly when the operand's truncation does not fit in 32 bits, and otherwise gives a whole number in the 32-bit range |
| Semantics.ApplyBinary | src/executor.cpp:34-62 | `+ - *` always have a value; addition and subtraction undo each other, and so do multiplication and division by a non-zero divisor, while a product by zero is zero; division leaves the model exactly for a zero divisor; a bitwise operator leaves it exactly when an operand's truncation does not fit in 32 bits, and otherwise gives the 32-bit whole number whose bits are the truncated operands' bits combined by the operator; the reason names the cause |
| Semantics.Eval | src/executor.cpp:17-64 | a tree built only from constants, negation, `+`, `-` and `*` always has a value |
| Semantics.NotSemantics | src/executor.cpp:28-30 | NOT of a castable value is minus its truncation, minus one |
| Semantics.OutsideModelHasACause | src/executor.cpp:21-64 | evaluation leaves the model only for a tree containing a division, NOT or a bitwise operator |
| Semantics.NotExample | test/executor.cpp:31-39 | `~1 = -2` |
| Semantics.BitwiseExamples | test/executor.cpp:85-116 | AND, OR and XOR of 1.0 and 3.0 give 1.0, 3.0 and 2.0 |
| Execution.Push | src/executor.cpp:70-72 | the value lands on top of the stack; the rest of the stack and the last result are unchanged |
| Execution.Pop | src/executor.cpp:74-78 | pop returns the top value and a state that pushing that value back restores |
| Execution.PopUndoesPush | src/executor.cpp:70-78 | popping right after a push returns the pushed value and the state before it |
| Execution.Visit | src/executor.cpp:17-64 | visiting any expression pushes exactly its reference value on top of an otherwise unchanged stack, or stops with the reference evaluator's reason |
| Execution.ExecuteStatement | src/executor.cpp:12-15 | executing a statement restores the stack and sets the last result to the expression's value |
| Execution.LastResultAfterStatement | src/executor.cpp:66-68 | after a statement whose expression has a value, `lastResult` returns that value |
| Execution.StatementsInSequence | src/executor.cpp:12-15 | two statements in a row on one executor leave an empty stack and the second statement's value as the last result |
| Pipeline.ParseNumber | test/parser.cpp:42-51 | a lone NUMBER 1 parses to a constant statement |
| Pipeline.ParseAddition | test/parser.cpp:53-68 | `1+2` parses to ADD(1, 2) |
| Pipeline.ParseSubtraction | test/parser.cpp:70-85 | `1-2` parses to SUBTRACT(1, 2) |
| Pipeline.ParseMultiplication | test/parser.cpp:87-102 | `1*2` parses to MULTIPLY(1, 2) |
| Pipeline.ParseDivision | test/parser.cpp:104-119 | `1/2` parses to DIVIDE(1, 2) |
| Pipeline.AdditionChainNestsRight | test/parser.cpp:121-142 | `1+2+3` parses to ADD(1, ADD(2, 3)) |
| Pipeline.SubtractionChainNestsRight | src/parser.cpp:27-29 | `1-2-3` parses to SUBTRACT(1, SUBTRACT(2, 3)) |
| Pipeline.MultiplicationAfterAddition | test/parser.cpp:144-165 | `1+2*3` parses to ADD(1, MULTIPLY(2, 3)) |
| Pipeline.MultiplicationBeforeAddition | test/parser.cpp:167-188 | `1*2+3` parses to ADD(MULTIPLY(1, 2), 3) |
| Pipeline.BracketedProduct | test/parser.cpp:190-213 | `1*(2+3)` parses to MULTIPLY(1, ADD(2, 3)) |
| Pipeline.Negation | test/parser.cpp:215-228 | `-1` parses to NEGATE(1) |
| Pipeline.BracketNegation | test/parser.cpp:230-251 | `-(1+2)` parses to NEGATE(ADD(1, 2)) |
| Pipeline.ParseFailures | test/parser.cpp:253-275 | `1 2`, `1)` and `(1` are rejected, with "Unexpected token", "Parsing terminated before end of statement" and "Expected closing bracket" |
| Pipeline.TerminatorIsReadTwice | src/parser.cpp:36-38 | `additive` consumes the END_OF_STMT and `parse` reads another token, so `1 END 2` fails while `1 END END` succeeds |
| Pipeline.ExecutorConstant | test/executor.cpp:14-19 | a constant statement leaves 1.0 as the last result |
| Pipeline.ExecutorNegation | test/executor.cpp:21-29 | NEGATE(1) gives -1.0 |
| Pipeline.ExecutorNot | test/executor.cpp:31-39 | NOT(1) gives -2.0 |
| Pipeline.ExecutorAddition | test/executor.cpp:41-50 | ADD(1, 2) gives 3.0 |
| Pipeline.ExecutorSubtraction | test/executor.cpp:52-61 | SUBTRACT(1, 2) gives -1.0: the operands keep their order |
| Pipeline.ExecutorMultiplication | test/executor.cpp:63-72 | MULTIPLY(1, 2) gives 2.0 |
| Pipeline.ExecutorDivision | test/executor.cpp:74-83 | DIVIDE(1, 2) gives 0.5: the operands keep their order |
| Pipeline.ExecutorAnd | test/executor.cpp:85-94 | AND(1, 3) gives 1.0 |
| Pipeline.ExecutorOr | test/executor.cpp:96-105 | OR(1, 3) gives 3.0 |
| Pipeline.ExecutorXor | test/executor.cpp:107-116 | XOR(1, 3) gives 2.0 |
| Pipeline.SubtractionChainValue | src/executor.cpp:44-46 | the tokens `1-2-3` evaluate to 2, because subtraction nests to the right |
| Pipeline.BidmasTree | test/integration.cpp:61-67 | the tokens of `3*(1+3-2/4)` parse to MULTIPLY(3, ADD(1, SUBTRACT(3, DIVIDE(2, 4)))) |
| Pipeline.BidmasValue | test/integration.cpp:61-67 | the tokens of `3*(1+3-2/4)` evaluate to 10.5 |
| Pipeline.NumberTokenParses | src/parser.cpp:75-76 | a single NUMBER token parses to a constant statement of its value |
| Pipeline.NumberText | src/lexer.cpp:48-57 | text starting with a digit parses to the constant its leading number run converts to |
| Pipeline.NonNumberText | src/lexer.cpp:59 | text not starting with a digit yields no token, so parsing fails with "Expected expression" |
| Pipeline.OperatorTextReadsLeadingNumber | test/integration.cpp:29-67 | read from text, `1+2` and `3*(1+3-2/4)` parse to the constants 1.0 and 3.0: the lexer stops at the first operator |

## Left out

- src/main.cpp (the input loop and printing) is I/O and is not modelled.
- src/concepts.cpp is not part of this model. It calls an evaluator interface that include/executor.hpp does not declare.
- Executor state, `let`, function definitions, calls, closures and `hasResult` are not modelled. The integration tests use them, but include/executor.hpp declares no such members and src/executor.cpp implements none of them.
- The text-based integration tests `Addition`, `Subtraction`, `Multiplication`, `Division` and `FollowsBIDMAS` (test/integration.cpp:29-67) are not reproduced from text. Because the lexer stops at the first operator, `Pipeline.NumberText` implies that `"1+2"`, `"1-2"`, `"1*2"` and `"1/2"` parse to the constant 1.0, and `"3*(1+3-2/4)"` parses to the constant 3.0, not to the tests' 3.0, -1.0, 2.0, 0.5 and 10.5. `Pipeline.OperatorTextReadsLeadingNumber` proves this for `"1+2"` and `"3*(1+3-2/4)"`. `Pipeline.BidmasTree` and `Pipeline.BidmasValue` state the BIDMAS case from its tokens instead.
- `MultiStatement` in test/integration.cpp is not modelled from text. The lexer in src/lexer.cpp yields END_OF_STMT at `+` and `;`, so it cannot produce that test's tokens. `Execution.StatementsInSequence` covers running two statements in a row.
- Lexer.Strtod: it computes the exact decimal value of the leading digits, optionally followed by `.` and more digits. `strtod`'s rounding to the nearest double is not modelled. Neither are its exponent, hexadecimal and infinity forms, which the scanned run (digits and `.`) cannot contain anyway.
- Semantics.ApplyBinary: floating-point rounding of `+ - * /` is not modelled; values are exact reals. Division by zero gives `OutsideModel(DivisionByZero)` instead of an infinity or NaN.
- Semantics.ApplyUnary and Semantics.ApplyBinary: a bitwise operand whose truncation does not fit in 32 bits gives `OutsideModel(CastOutOfRange)`. The C++ cast has undefined behaviour there.
- Lexer.Fits: a number run longer than 327 characters overflows the buffer in the source, which is undefined behaviour. The lexer functions require runs that fit.
- Execution.Pop requires a non-empty stack, because `top()` on an empty `std::stack` is undefined. `Execution.Visit` proves the executor never pops an empty stack.
- `_lastResult` is uninitialised until the first statement runs. The model gives the executor an arbitrary starting value; the `Pipeline` lemmas hold for every such `previous` value.
- Virtual dispatch through `accept` is replaced by a `match` on the node kind. `BinaryOperationNode::accept` is declared but never defined in src/ast.cpp, so it is not modelled as a separate member.
- `operator==` on nodes is declared in include/ast.hpp but defined nowhere. Dafny's structural datatype equality, which the parser tests assume, stands in for it.
- Token line and column fields appear only in the test mock's token initialisers. The parser never reads them, so they are left out.
- Cyclic `_next` chains: a `Visitors.Visitor` chain is a finite datatype, so chains are acyclic. In C++ a chain that loops back on itself is possible, and `visit` then recurses without end (src/ast.cpp:63-85); the model does not represent it.
- The `Executor(NodeVisitor *next)` constructor is covered only through `Visitors`. The executor overrides every `visit`, so it never forwards.
