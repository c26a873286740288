/**
 * Signed 32-bit integers as the evaluator's bitwise operators use them: a
 * value is truncated toward zero (`static_cast<int32_t>`), combined bit by
 * bit as a 32-bit two's-complement pattern, and widened back.
 */
module Int32 {

  const Width: nat := 32
  const Min: int := -0x8000_0000
  const Max: int := 0x7fff_ffff
  const Modulus: int := 0x1_0000_0000

  predicate InRange(i: int)
  {
    Min <= i <= Max
  }

  /** Conversion toward zero, as a C++ cast from floating point does it. */
  function Truncate(x: real): (i: int)
    ensures 0.0 <= x ==> i as real <= x < i as real + 1.0
    ensures x < 0.0 ==> i as real - 1.0 < x <= i as real
  {
    if x >= 0.0 then x.Floor else -((-x).Floor)
  }

  /**
   * The cast is defined only when the truncated value is representable;
   * otherwise its behaviour is undefined.
   */
  predicate Castable(x: real)
  {
    InRange(Truncate(x))
  }

  function Pow2(n: nat): (p: nat)
    ensures p >= 1
  {
    if n == 0 then 1 else 2 * Pow2(n - 1)
  }

  lemma Pow2Width()
    ensures Pow2(Width) == Modulus
    ensures Pow2(Width - 1) == Max + 1
  {
    assert Pow2(8) == 256;
    assert Pow2(16) == 256 * 256 by { Pow2Add(8, 8); }
    assert Pow2(31) == Pow2(16) * Pow2(15) by { Pow2Add(16, 15); }
    assert Pow2(32) == 2 * Pow2(31);
  }

  lemma {:induction false} Pow2Add(m: nat, n: nat)
    ensures Pow2(m + n) == Pow2(m) * Pow2(n)
  {
    if m > 0 {
      Pow2Add(m - 1, n);
    }
  }

  lemma {:induction false} Pow2Monotone(m: nat, n: nat)
    requires m <= n
    ensures Pow2(m) <= Pow2(n)
  {
    if m < n {
      Pow2Monotone(m, n - 1);
    }
  }

  /* ---------------------------------------------------------------------
   * Unsigned bit patterns of a given width, least significant bit first.
   * ------------------------------------------------------------------- */

  datatype BitOperation = AndBits | OrBits | XorBits

  function Bit(op: BitOperation, x: nat, y: nat): nat
    requires x <= 1 && y <= 1
  {
    match op
    case AndBits => if x + y == 2 then 1 else 0
    case OrBits => if x + y > 0 then 1 else 0
    case XorBits => if x != y then 1 else 0
  }

  /**
   * The low `width` bits of `x` and `y` combined pairwise by `op`. Every
   * operation maps two zero bits to zero, so the recursion stops as soon as
   * both operands have run out of set bits.
   */
  function Bitwise(op: BitOperation, x: nat, y: nat, width: nat): (r: nat)
    ensures r < Pow2(width)
  {
    if width == 0 || (x == 0 && y == 0) then 0
    else Bitwise(op, x / 2, y / 2, width - 1) * 2 + Bit(op, x % 2, y % 2)
  }

  /** The low `width` bits of `x`, each one flipped. */
  function Complement(x: nat, width: nat): (r: nat)
    ensures r < Pow2(width)
  {
    if width == 0 then 0
    else Complement(x / 2, width - 1) * 2 + (1 - x % 2)
  }

  /** Flipping every bit of a pattern is subtracting it from all ones. */
  lemma {:induction false} ComplementIsSubtraction(x: nat, width: nat)
    requires x < Pow2(width)
    ensures Complement(x, width) == Pow2(width) - 1 - x
  {
    if width > 0 {
      ComplementIsSubtraction(x / 2, width - 1);
    }
  }

  /** One step of `Bitwise`: the low bit, then the rest shifted right. */
  lemma BitwiseStep(op: BitOperation, x: nat, y: nat, width: nat)
    requires width > 0
    ensures Bitwise(op, x, y, width) == Bitwise(op, x / 2, y / 2, width - 1) * 2 + Bit(op, x % 2, y % 2)
  {
  }

  /** Bitwise, `and` plus `or` is the sum of the operands. */
  lemma {:induction false} AndPlusOr(x: nat, y: nat, width: nat)
    requires x < Pow2(width) && y < Pow2(width)
    ensures Bitwise(AndBits, x, y, width) + Bitwise(OrBits, x, y, width) == x + y
  {
    if width > 0 {
      AndPlusOr(x / 2, y / 2, width - 1);
      BitwiseStep(AndBits, x, y, width);
      BitwiseStep(OrBits, x, y, width);
      assert Bit(AndBits, x % 2, y % 2) + Bit(OrBits, x % 2, y % 2) == x % 2 + y % 2;
    }
  }

  /** Bitwise, `xor` is `or` without the bits of `and`. */
  lemma {:induction false} XorIsOrMinusAnd(x: nat, y: nat, width: nat)
    ensures Bitwise(XorBits, x, y, width) == Bitwise(OrBits, x, y, width) - Bitwise(AndBits, x, y, width)
  {
    if width > 0 {
      XorIsOrMinusAnd(x / 2, y / 2, width - 1);
      BitwiseStep(XorBits, x, y, width);
      BitwiseStep(OrBits, x, y, width);
      BitwiseStep(AndBits, x, y, width);
      assert Bit(XorBits, x % 2, y % 2) == Bit(OrBits, x % 2, y % 2) - Bit(AndBits, x % 2, y % 2);
    }
  }

  /**
   * Operands that fit in `narrow` bits combine the same in any wider width:
   * the extra high bits are zero on both sides and stay zero.
   */
  lemma {:induction false} BitwiseWidens(op: BitOperation, x: nat, y: nat, narrow: nat, width: nat)
    requires narrow <= width && x < Pow2(narrow) && y < Pow2(narrow)
    ensures Bitwise(op, x, y, width) == Bitwise(op, x, y, narrow)
  {
    if narrow > 0 && width > 0 {
      BitwiseWidens(op, x / 2, y / 2, narrow - 1, width - 1);
    }
  }

  /** Bit `i` of `x`, counting from the least significant bit. */
  function BitAt(x: nat, i: nat): (b: nat)
    ensures b <= 1
  {
    if i == 0 then x % 2 else BitAt(x / 2, i - 1)
  }

  /** Each bit of the result is `op` applied to the operands' bits in that position. */
  lemma {:induction false} BitwiseBits(op: BitOperation, x: nat, y: nat, width: nat, i: nat)
    requires i < width
    ensures BitAt(Bitwise(op, x, y, width), i) == Bit(op, BitAt(x, i), BitAt(y, i))
  {
    BitwiseStep(op, x, y, width);
    var rest := Bitwise(op, x / 2, y / 2, width - 1);
    var z := Bitwise(op, x, y, width);
    assert z / 2 == rest && z % 2 == Bit(op, x % 2, y % 2);
    if i > 0 {
      BitwiseBits(op, x / 2, y / 2, width - 1, i - 1);
    }
  }

  /** A pattern of `width` bits is determined by its bits. */
  lemma {:induction false} BitsDetermine(x: nat, y: nat, width: nat)
    requires x < Pow2(width) && y < Pow2(width)
    requires forall i :: 0 <= i < width ==> BitAt(x, i) == BitAt(y, i)
    ensures x == y
  {
    if width > 0 {
      assert BitAt(x, 0) == BitAt(y, 0);
      forall i | 0 <= i < width - 1
        ensures BitAt(x / 2, i) == BitAt(y / 2, i)
      {
        assert BitAt(x, i + 1) == BitAt(y, i + 1);
      }
      BitsDetermine(x / 2, y / 2, width - 1);
    }
  }

  /* ---------------------------------------------------------------------
   * Signed values.
   * ------------------------------------------------------------------- */

  /** The two's-complement bit pattern of an in-range integer. */
  function ToUnsigned(i: int): (u: nat)
    requires InRange(i)
    ensures u < Modulus
  {
    if i >= 0 then i else i + Modulus
  }

  /** The signed value of a bit pattern. */
  function FromUnsigned(u: nat): (i: int)
    requires u < Modulus
    ensures InRange(i)
  {
    if u <= Max then u else u - Modulus
  }

  lemma UnsignedRoundTrip(i: int, u: nat)
    requires InRange(i) && u < Modulus
    ensures FromUnsigned(ToUnsigned(i)) == i
    ensures ToUnsigned(FromUnsigned(u)) == u
  {
  }

  function Not(a: int): (r: int)
    requires InRange(a)
    ensures InRange(r)
  {
    Pow2Width();
    FromUnsigned(Complement(ToUnsigned(a), Width))
  }

  /**
   * `r` is `a op b` bit by bit: each of the 32 bits of its two's-complement
   * pattern is `op` applied to the operands' bits in that position.
   */
  predicate CombinesBits(op: BitOperation, a: int, b: int, r: int)
    requires InRange(a) && InRange(b) && InRange(r)
  {
    forall i :: 0 <= i < Width ==>
      BitAt(ToUnsigned(r), i) == Bit(op, BitAt(ToUnsigned(a), i), BitAt(ToUnsigned(b), i))
  }

  function Apply(op: BitOperation, a: int, b: int): (r: int)
    requires InRange(a) && InRange(b)
    ensures InRange(r)
    ensures CombinesBits(op, a, b, r)
  {
    Pow2Width();
    var u := Bitwise(op, ToUnsigned(a), ToUnsigned(b), Width);
    assert ToUnsigned(FromUnsigned(u)) == u;
    forall i | 0 <= i < Width
      ensures BitAt(u, i) == Bit(op, BitAt(ToUnsigned(a), i), BitAt(ToUnsigned(b), i))
    {
      BitwiseBits(op, ToUnsigned(a), ToUnsigned(b), Width, i);
    }
    FromUnsigned(u)
  }

  /** `Apply` is the only 32-bit value whose bits are the operands' bits combined by `op`. */
  lemma ApplyIsTheBitwiseCombination(op: BitOperation, a: int, b: int, r: int)
    requires InRange(a) && InRange(b) && InRange(r)
    ensures CombinesBits(op, a, b, r) <==> r == Apply(op, a, b)
  {
    if CombinesBits(op, a, b, r) {
      var s := Apply(op, a, b);
      Pow2Width();
      assert forall i :: 0 <= i < Width ==> BitAt(ToUnsigned(r), i) == BitAt(ToUnsigned(s), i);
      BitsDetermine(ToUnsigned(r), ToUnsigned(s), Width);
      UnsignedRoundTrip(r, 0);
      UnsignedRoundTrip(s, 0);
    }
  }

  /** Bitwise complement in two's complement is `-a - 1`. */
  lemma NotIsNegatePlusOne(a: int)
    requires InRange(a)
    ensures Not(a) == -a - 1
  {
    Pow2Width();
    ComplementIsSubtraction(ToUnsigned(a), Width);
  }

  /** All ones in `width` bits: a set low bit above all ones in `width - 1` bits. */
  lemma AllOnesStep(width: nat)
    requires width > 0
    ensures (Pow2(width) - 1) / 2 == Pow2(width - 1) - 1
    ensures (Pow2(width) - 1) % 2 == 1
  {
    var half := Pow2(width - 1);
    assert Pow2(width) - 1 == 2 * (half - 1) + 1;
  }

  /** `and` with all ones in `width` bits keeps the other operand. */
  lemma {:induction false} AndAllOnes(y: nat, width: nat)
    requires y < Pow2(width)
    ensures Bitwise(AndBits, Pow2(width) - 1, y, width) == y
  {
    if width > 0 {
      var ones := Pow2(width) - 1;
      AllOnesStep(width);
      AndAllOnes(y / 2, width - 1);
      BitwiseStep(AndBits, ones, y, width);
    }
  }

  /**
   * With all ones, `and` keeps the other operand and `or` is all ones, so
   * `xor`, which is `or` without the bits of `and`, flips every bit.
   */
  lemma XorAllOnes(y: nat, width: nat)
    requires y < Pow2(width)
    ensures Bitwise(OrBits, Pow2(width) - 1, y, width) == Pow2(width) - 1
    ensures Bitwise(XorBits, Pow2(width) - 1, y, width) == Complement(y, width)
  {
    var ones := Pow2(width) - 1;
    AndAllOnes(y, width);
    AndPlusOr(ones, y, width);
    XorIsOrMinusAnd(ones, y, width);
    ComplementIsSubtraction(y, width);
  }

  /**
   * Negative operands: `-1` is all ones in two's complement, so `-1 & b` is
   * `b`, `-1 | b` is `-1`, and `-1 ^ b` is `~b`, that is `-b - 1`.
   */
  lemma MinusOneOperand(b: int)
    requires InRange(b)
    ensures Apply(AndBits, -1, b) == b
    ensures Apply(OrBits, -1, b) == -1
    ensures Apply(XorBits, -1, b) == Not(b) == -b - 1
  {
    Pow2Width();
    var ones, u := Modulus - 1, ToUnsigned(b);
    assert ToUnsigned(-1) == ones;
    AndAllOnes(u, Width);
    XorAllOnes(u, Width);
    NotIsNegatePlusOne(b);
  }

  /** Operands that fit in a narrow width combine as in that width. */
  lemma ApplyNarrow(op: BitOperation, a: nat, b: nat, narrow: nat)
    requires narrow < Width && a < Pow2(narrow) && b < Pow2(narrow)
    ensures InRange(a) && InRange(b) && Apply(op, a, b) == Bitwise(op, a, b, narrow)
  {
    Pow2Width();
    Pow2Monotone(narrow, Width - 1);
    BitwiseWidens(op, a, b, narrow, Width);
  }

  /** Two negative cases: `-1 & 5 = 5` and `-1 ^ 1 = -2`. */
  lemma MinusOneExamples()
    ensures Apply(AndBits, -1, 5) == 5
    ensures Apply(XorBits, -1, 1) == -2
  {
    MinusOneOperand(5);
    MinusOneOperand(1);
  }

  /** Operands with bits that differ both ways: 5 (101) and 3 (011). */
  lemma BitwiseOfFiveAndThree()
    ensures Apply(AndBits, 5, 3) == 1
    ensures Apply(OrBits, 5, 3) == 7
    ensures Apply(XorBits, 5, 3) == 6
  {
    assert Pow2(3) == 8;
    assert Bitwise(AndBits, 5, 3, 3) == 1;
    assert Bitwise(OrBits, 5, 3, 3) == 7;
    assert Bitwise(XorBits, 5, 3, 3) == 6;
    ApplyNarrow(AndBits, 5, 3, 3);
    ApplyNarrow(OrBits, 5, 3, 3);
    ApplyNarrow(XorBits, 5, 3, 3);
  }

  /** The unit tests' operands: 1 and 3 (binary 01 and 11). */
  lemma BitwiseOfOneAndThree()
    ensures Apply(AndBits, 1, 3) == 1
    ensures Apply(OrBits, 1, 3) == 3
    ensures Apply(XorBits, 1, 3) == 2
  {
    assert Pow2(2) == 4;
    ApplyNarrow(AndBits, 1, 3, 2);
    ApplyNarrow(OrBits, 1, 3, 2);
    ApplyNarrow(XorBits, 1, 3, 2);
  }
}
