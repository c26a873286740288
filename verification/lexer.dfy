/**
 * The lexer: an input character stream, a read position, and one cached
 * token (`_pending`) that gives the parser one token of lookahead.
 *
 * The scanner recognises exactly two things. A digit starts a number: the
 * maximal run of digits and '.' is copied into a fixed, zero-filled buffer of
 * 328 characters and converted with `strtod`. The end of the input, and any
 * other character, yield END_OF_STMT without consuming anything.
 */
module Lexer {
  import opened Tokens

  /** Size of the number buffer, terminator included. */
  const BufferSize: nat := 328

  /** Longest run that leaves the zero terminator of the buffer intact. */
  const MaxLexemeLength: nat := BufferSize - 1

  predicate IsDigit(c: char)
  {
    '0' <= c <= '9'
  }

  predicate IsNumberChar(c: char)
  {
    IsDigit(c) || c == '.'
  }

  /** Length of the maximal run of number characters starting at `pos`. */
  function RunLength(input: seq<char>, pos: nat): (n: nat)
    requires pos <= |input|
    ensures pos + n <= |input|
    ensures forall i :: pos <= i < pos + n ==> IsNumberChar(input[i])
    ensures pos + n == |input| || !IsNumberChar(input[pos + n])
    decreases |input| - pos
  {
    if pos == |input| || !IsNumberChar(input[pos]) then 0
    else 1 + RunLength(input, pos + 1)
  }

  /* ---------------------------------------------------------------------
   * `strtod` on a lexeme: the exact decimal value of its longest prefix of
   * the form digits, optionally followed by '.' and more digits. A second
   * '.' ends the conversion, as it does for `strtod`.
   * ------------------------------------------------------------------- */

  function DigitValue(c: char): nat
    requires IsDigit(c)
  {
    c as int - '0' as int
  }

  predicate AllDigits(s: seq<char>)
  {
    forall i :: 0 <= i < |s| ==> IsDigit(s[i])
  }

  /** Length of the longest all-digit prefix. */
  function LeadingDigits(s: seq<char>): (n: nat)
    ensures n <= |s|
    ensures AllDigits(s[..n])
    ensures n == |s| || !IsDigit(s[n])
  {
    if |s| == 0 || !IsDigit(s[0]) then 0
    else
      var n := 1 + LeadingDigits(s[1..]);
      assert s[..n] == [s[0]] + s[1..][..n - 1];
      n
  }

  /** The value of a string of decimal digits, most significant first. */
  function Natural(ds: seq<char>): (n: nat)
    requires AllDigits(ds)
    ensures n < Pow10(|ds|)
  {
    if |ds| == 0 then 0
    else Natural(ds[..|ds| - 1]) * 10 + DigitValue(ds[|ds| - 1])
  }

  function Pow10(n: nat): (p: nat)
    ensures p >= 1
  {
    if n == 0 then 1 else 10 * Pow10(n - 1)
  }

  /**
   * The integer part is the value of the leading digits, and the fraction
   * adds less than one; a string of digits alone converts to its value.
   */
  function Strtod(s: seq<char>): (r: real)
    ensures var whole := Natural(s[..LeadingDigits(s)]) as real;
      whole <= r < whole + 1.0
    ensures AllDigits(s) ==> r == Natural(s) as real
  {
    var k := LeadingDigits(s);
    var whole := Natural(s[..k]) as real;
    assert AllDigits(s) ==> s[..k] == s;
    if k < |s| && s[k] == '.' then
      var fraction := s[k + 1..];
      var f := LeadingDigits(fraction);
      var digits := Natural(fraction[..f]);
      FractionBelowOne(digits, Pow10(f));
      whole + digits as real / Pow10(f) as real
    else
      whole
  }

  lemma FractionBelowOne(n: nat, d: nat)
    requires n < d
    ensures 0.0 <= n as real / d as real < 1.0
  {
  }

  /** The decimal rendering of a natural number, with no leading zeros. */
  function Digits(n: nat): (s: seq<char>)
    ensures |s| >= 1 && AllDigits(s)
  {
    var last := ['0' + (n % 10) as char];
    if n < 10 then last else Digits(n / 10) + last
  }

  /** Converting the decimal rendering of `n` gives back `n` exactly. */
  lemma {:induction false} NaturalOfDigits(n: nat)
    ensures Natural(Digits(n)) == n
  {
    var s := Digits(n);
    if n >= 10 {
      NaturalOfDigits(n / 10);
      assert s[..|s| - 1] == Digits(n / 10);
    }
  }

  lemma StrtodOfDigits(n: nat)
    ensures Strtod(Digits(n)) == n as real
  {
    var s := Digits(n);
    assert LeadingDigits(s) == |s|;
    assert s[..|s|] == s;
    NaturalOfDigits(n);
  }

  /* ---------------------------------------------------------------------
   * Scanning one token.
   * ------------------------------------------------------------------- */

  /**
   * The number run starting at `cursor`, if any, fits the buffer with its
   * terminator. A longer run would write past the end of the buffer (or
   * over its terminator), which has undefined behaviour in the source.
   */
  predicate Fits(input: seq<char>, cursor: nat)
    requires cursor <= |input|
  {
    cursor < |input| && IsDigit(input[cursor]) ==> RunLength(input, cursor) <= MaxLexemeLength
  }

  /** The token scanned at `cursor` and the read position after it. */
  function NextToken(input: seq<char>, cursor: nat): (r: (Token, nat))
    requires cursor <= |input| && Fits(input, cursor)
    ensures cursor <= r.1 <= |input| && Fits(input, r.1)
    ensures r.0.NumberToken? || r.0 == EndOfStmt
    ensures r.0.NumberToken? <==> cursor < |input| && IsDigit(input[cursor])
    ensures r.0 == EndOfStmt ==> r.1 == cursor
    ensures r.0.NumberToken? ==>
      && cursor < r.1 <= cursor + MaxLexemeLength
      && (forall i :: cursor <= i < r.1 ==> IsNumberChar(input[i]))
      && (r.1 == |input| || !IsNumberChar(input[r.1]))
      && r.0.value == Strtod(input[cursor..r.1])
  {
    if cursor == |input| then
      (EndOfStmt, cursor)
    else if IsDigit(input[cursor]) then
      var next := cursor + RunLength(input, cursor);
      (NumberToken(Strtod(input[cursor..next])), next)
    else
      (EndOfStmt, cursor)
  }

  /**
   * The number scan as the source performs it: characters are copied one by
   * one into a zero-filled buffer of `BufferSize` characters, and the lexeme
   * handed to `strtod` is the buffer up to its first zero character.
   */
  method ScanNumber(input: seq<char>, pos: nat) returns (lexeme: seq<char>, next: nat)
    requires pos < |input| && IsDigit(input[pos])
    requires RunLength(input, pos) <= MaxLexemeLength
    ensures next == pos + RunLength(input, pos)
    ensures lexeme == input[pos..next]
  {
    var buffer := new char[BufferSize]((_) => '\0');
    var offset := 0;
    next := pos;
    while next < |input| && IsNumberChar(input[next])
      invariant pos <= next <= pos + RunLength(input, pos)
      invariant offset == next - pos
      invariant forall i :: 0 <= i < offset ==> buffer[i] == input[pos + i]
      invariant forall i :: offset <= i < buffer.Length ==> buffer[i] == '\0'
    {
      buffer[offset] := input[next];
      offset := offset + 1;
      next := next + 1;
    }
    // The terminator at `offset` is intact; `strtod` stops there.
    var contents := buffer[..];
    assert contents[..offset] == input[pos..next] by {
      assert forall i :: 0 <= i < offset ==> contents[..offset][i] == input[pos..next][i];
    }
    assert contents[offset] == '\0';
    var length := 0;
    while length < |contents| && contents[length] != '\0'
      invariant length <= offset
    {
      length := length + 1;
    }
    assert length == offset;
    lexeme := contents[..length];
  }

  /** `readToken` with the buffer-based number scan. */
  method ReadToken(input: seq<char>, cursor: nat) returns (token: Token, next: nat)
    requires cursor <= |input| && Fits(input, cursor)
    ensures (token, next) == NextToken(input, cursor)
  {
    if cursor == |input| {
      return EndOfStmt, cursor;
    } else if IsDigit(input[cursor]) {
      var lexeme;
      lexeme, next := ScanNumber(input, cursor);
      return NumberToken(Strtod(lexeme)), next;
    }
    return EndOfStmt, cursor;
  }

  /* ---------------------------------------------------------------------
   * The lexer object.
   * ------------------------------------------------------------------- */

  datatype Lexer = Lexer(input: seq<char>, cursor: nat, pending: Token)

  predicate Valid(lx: Lexer)
  {
    lx.cursor <= |lx.input| && Fits(lx.input, lx.cursor)
  }

  /** The constructor scans the first token before any read or peek. */
  function New(input: seq<char>): (lx: Lexer)
    requires Fits(input, 0)
    ensures Valid(lx) && lx.input == input
    ensures (lx.pending, lx.cursor) == NextToken(input, 0)
  {
    var (token, next) := NextToken(input, 0);
    Lexer(input, next, token)
  }

  /** The token the next read returns; nothing is consumed. */
  function Peek(lx: Lexer): (t: Token)
    ensures Valid(lx) ==> t == Read(lx).0 && Reads(lx, 1) == [t]
  {
    lx.pending
  }

  /** Returns the pending token and scans the one after it. */
  function Read(lx: Lexer): (r: (Token, Lexer))
    requires Valid(lx)
    ensures r.0 == lx.pending
    ensures Valid(r.1) && r.1.input == lx.input
    ensures (r.1.pending, r.1.cursor) == NextToken(lx.input, lx.cursor)
  {
    var (token, next) := NextToken(lx.input, lx.cursor);
    (lx.pending, Lexer(lx.input, next, token))
  }

  /** The tokens returned by `k` successive reads. */
  function Reads(lx: Lexer, k: nat): (r: seq<Token>)
    requires Valid(lx)
    ensures |r| == k
    decreases k
  {
    if k == 0 then [] else
      var (token, after) := Read(lx);
      [token] + Reads(after, k - 1)
  }

  /** An empty input lexes to END_OF_STMT. */
  lemma BlankInputIsEnd()
    ensures Read(New([])).0 == EndOfStmt
  {
  }

  /**
   * Peeking neither consumes input nor changes the pending token, so a read
   * after any number of peeks returns the peeked token.
   */
  lemma PeekDoesNotAdvance(lx: Lexer)
    requires Valid(lx)
    ensures Read(lx).0 == Peek(lx)
    ensures Reads(lx, 1) == [Peek(lx)]
  {
  }

  /**
   * A lexer that is out of tokens (its pending token is END_OF_STMT and its
   * cursor is at the end or at a character that does not start a number)
   * stays where it is and keeps returning END_OF_STMT.
   */
  predicate Exhausted(lx: Lexer)
  {
    && lx.cursor <= |lx.input|
    && lx.pending == EndOfStmt
    && (lx.cursor == |lx.input| || !IsDigit(lx.input[lx.cursor]))
  }

  lemma {:induction false} ExhaustedStaysAtEnd(lx: Lexer, k: nat)
    requires Exhausted(lx)
    ensures Valid(lx)
    ensures forall i :: 0 <= i < k ==> Reads(lx, k)[i] == EndOfStmt
  {
    if k > 0 {
      assert Read(lx) == (EndOfStmt, lx);
      ExhaustedStaysAtEnd(lx, k - 1);
      assert Reads(lx, k) == [EndOfStmt] + Reads(lx, k - 1);
    }
  }

  /**
   * After the first read the lexer is exhausted: a number run is maximal, so
   * the character after it never starts another number.
   */
  lemma AfterFirstReadExhausted(input: seq<char>)
    requires Fits(input, 0)
    ensures Exhausted(Read(New(input)).1)
  {
  }

  /**
   * The tokens the lexer produces for an input: a single NUMBER when the
   * input starts with a digit, and none otherwise.
   */
  function Tokenize(input: seq<char>): (toks: seq<Token>)
    requires Fits(input, 0)
    ensures |toks| <= 1
  {
    var token := NextToken(input, 0).0;
    if token.NumberToken? then [token] else []
  }

  /** Text starting with a digit gives the one NUMBER of its leading run. */
  lemma TokenizeNumber(input: seq<char>)
    requires Fits(input, 0) && |input| > 0 && IsDigit(input[0])
    ensures Tokenize(input) == [NumberToken(Strtod(input[..RunLength(input, 0)]))]
  {
    assert input[0..RunLength(input, 0)] == input[..RunLength(input, 0)];
  }

  /** Text that does not start with a digit gives no token at all. */
  lemma TokenizeOther(input: seq<char>)
    requires Fits(input, 0) && !(|input| > 0 && IsDigit(input[0]))
    ensures Tokenize(input) == []
  {
  }

  /**
   * The lexer behaves as the token list `Tokenize(input)` read through a
   * cursor: every sequence of reads returns the same tokens.
   */
  lemma {:induction false} LexerReadsTokenList(input: seq<char>, k: nat)
    requires Fits(input, 0)
    ensures Reads(New(input), k) == ReadsAt(Tokenize(input), 0, k)
  {
    var lx := New(input);
    var toks := Tokenize(input);
    if k > 0 {
      var after := Read(lx).1;
      AfterFirstReadExhausted(input);
      ExhaustedStaysAtEnd(after, k - 1);
      ReadsPastEnd(toks, k - 1);
      var tail := ReadAt(toks, 0).1;
      if toks == [] {
        assert Reads(lx, k) == [EndOfStmt] + Reads(after, k - 1);
        assert ReadsAt(toks, 0, k) == [EndOfStmt] + ReadsAt(toks, 0, k - 1);
      } else {
        assert tail == |toks|;
        assert Reads(lx, k) == [lx.pending] + Reads(after, k - 1);
        assert ReadsAt(toks, 0, k) == [toks[0]] + ReadsAt(toks, |toks|, k - 1);
      }
    }
  }

  /** The tested inputs: "1", "10" and "3.14". */
  lemma TestedIntegers()
    ensures Read(New("1")).0 == NumberToken(1.0)
    ensures Read(New("10")).0 == NumberToken(10.0)
  {
    assert Digits(1) == "1";
    StrtodOfDigits(1);
    assert RunLength("1", 0) == 1;
    assert Digits(10) == "10";
    StrtodOfDigits(10);
    assert RunLength("10", 0) == 2;
    assert "10"[0..2] == "10";
  }

  lemma TestedDecimal()
    ensures Read(New("3.14")).0 == NumberToken(3.14)
  {
    var s := "3.14";
    assert RunLength(s, 0) == 4;
    assert s[0..4] == s;
    StrtodOfDecimal();
  }

  /** `strtod("3.14")`: the whole part 3, then the fraction 14/100. */
  lemma StrtodOfDecimal()
    ensures Strtod("3.14") == 3.14
  {
    var s := "3.14";
    assert LeadingDigits(s) == 1;
    assert s[..1] == "3";
    assert Natural("3") == 3;
    var fraction := s[2..];
    assert fraction == "14";
    assert LeadingDigits(fraction) == 2;
    assert fraction[..2] == "14" && "14"[..1] == "1";
    assert Natural("14") == 14;
  }
}
