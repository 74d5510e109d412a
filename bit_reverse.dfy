/**
 * Bit reversal of 8-bit and 32-bit words, as used by the reflected CRC-32
 * of the UART CRC demos (reflect8 / reflect32).
 *
 * The source builds the reversed word one bit per loop iteration:
 * iteration k ORs bit k of the input into bit (width - 1 - k) of `res`.
 * ReflectPrefix8 / ReflectPrefix32 give `res` after n iterations, and
 * BitReverse8 / BitReverse32 give it after the last one. The lemmas
 * characterise the result bit by bit and prove that reversal is an
 * involution. (The long unrolled forms exist because the solver works well
 * on bit-vector expressions whose shift distances are literals.)
 */
module BitReverse {

  /** Bit i of an 8-bit word, extracted as the source does: (x >> i) & 1. */
  predicate Bit8(x: bv8, i: nat)
    requires i < 8
  {
    (x >> i) & 1 == 1
  }

  /** Bit i of a 32-bit word. */
  predicate Bit32(x: bv32, i: nat)
    requires i < 32
  {
    (x >> i) & 1 == 1
  }

  /** `res` of reflect8 after n iterations. */
  function ReflectPrefix8(x: bv8, n: nat): bv8
    requires n <= 8
  {
    if n == 0 then 0 else ReflectPrefix8(x, n - 1) | (((x >> (n - 1)) & 1) << (8 - n))
  }

  /** `res` of reflect32 after n iterations. */
  function ReflectPrefix32(x: bv32, n: nat): bv32
    requires n <= 32
  {
    if n == 0 then 0 else ReflectPrefix32(x, n - 1) | (((x >> (n - 1)) & 1) << (32 - n))
  }

  /** The value reflect8 returns. */
  function BitReverse8(x: bv8): bv8
  {
    ReflectPrefix8(x, 8)
  }

  /** The value reflect32 returns. */
  function BitReverse32(x: bv32): bv32
  {
    ReflectPrefix32(x, 32)
  }

  /** All eight iterations of reflect8, with literal shift distances. */
  function Unrolled8(x: bv8): bv8
  {
      0 | (((x >> 0) & 1) << 7) | (((x >> 1) & 1) << 6) | (((x >> 2) & 1) << 5)
      | (((x >> 3) & 1) << 4) | (((x >> 4) & 1) << 3) | (((x >> 5) & 1) << 2) | (((x >> 6) & 1) << 1)
      | (((x >> 7) & 1) << 0)
  }

  /** All thirty-two iterations of reflect32, with literal shift distances. */
  function Unrolled32(x: bv32): bv32
  {
      0 | (((x >> 0) & 1) << 31) | (((x >> 1) & 1) << 30) | (((x >> 2) & 1) << 29)
      | (((x >> 3) & 1) << 28) | (((x >> 4) & 1) << 27) | (((x >> 5) & 1) << 26) | (((x >> 6) & 1) << 25)
      | (((x >> 7) & 1) << 24) | (((x >> 8) & 1) << 23) | (((x >> 9) & 1) << 22) | (((x >> 10) & 1) << 21)
      | (((x >> 11) & 1) << 20) | (((x >> 12) & 1) << 19) | (((x >> 13) & 1) << 18) | (((x >> 14) & 1) << 17)
      | (((x >> 15) & 1) << 16) | (((x >> 16) & 1) << 15) | (((x >> 17) & 1) << 14) | (((x >> 18) & 1) << 13)
      | (((x >> 19) & 1) << 12) | (((x >> 20) & 1) << 11) | (((x >> 21) & 1) << 10) | (((x >> 22) & 1) << 9)
      | (((x >> 23) & 1) << 8) | (((x >> 24) & 1) << 7) | (((x >> 25) & 1) << 6) | (((x >> 26) & 1) << 5)
      | (((x >> 27) & 1) << 4) | (((x >> 28) & 1) << 3) | (((x >> 29) & 1) << 2) | (((x >> 30) & 1) << 1)
      | (((x >> 31) & 1) << 0)
  }

  lemma BitReverse8IsUnrolled(x: bv8)
    ensures BitReverse8(x) == Unrolled8(x)
  {
    assert ReflectPrefix8(x, 1) == ReflectPrefix8(x, 0) | (((x >> 0) & 1) << 7);
    assert ReflectPrefix8(x, 2) == ReflectPrefix8(x, 1) | (((x >> 1) & 1) << 6);
    assert ReflectPrefix8(x, 3) == ReflectPrefix8(x, 2) | (((x >> 2) & 1) << 5);
    assert ReflectPrefix8(x, 4) == ReflectPrefix8(x, 3) | (((x >> 3) & 1) << 4);
    assert ReflectPrefix8(x, 5) == ReflectPrefix8(x, 4) | (((x >> 4) & 1) << 3);
    assert ReflectPrefix8(x, 6) == ReflectPrefix8(x, 5) | (((x >> 5) & 1) << 2);
    assert ReflectPrefix8(x, 7) == ReflectPrefix8(x, 6) | (((x >> 6) & 1) << 1);
  }

  /** Iteration i of reflect8 extends the accumulator `res` by bit i. */
  lemma ReflectPrefix8Next(x: bv8, i: nat, res: bv8)
    requires i < 8 && res == ReflectPrefix8(x, i)
    ensures ReflectPrefix8(x, i + 1) == res | (((x >> i) & 1) << (7 - i))
  {
  }

  /** Iteration i of reflect32 extends the accumulator `res` by bit i. */
  lemma ReflectPrefix32Next(x: bv32, i: nat, res: bv32)
    requires i < 32 && res == ReflectPrefix32(x, i)
    ensures ReflectPrefix32(x, i + 1) == res | (((x >> i) & 1) << (31 - i))
  {
  }

  /** One loop iteration of reflect32, taken at a call site where n is a literal. */
  lemma ReflectPrefix32Step(x: bv32, n: nat)
    requires 1 <= n <= 32
    ensures ReflectPrefix32(x, n) == ReflectPrefix32(x, n - 1) | (((x >> (n - 1)) & 1) << (32 - n))
  {
  }

  /** Iterations 0..7 of reflect32. */
  lemma ReflectPrefix32Byte0(x: bv32)
    ensures ReflectPrefix32(x, 8) ==
      0 | (((x >> 0) & 1) << 31) | (((x >> 1) & 1) << 30)
      | (((x >> 2) & 1) << 29) | (((x >> 3) & 1) << 28) | (((x >> 4) & 1) << 27)
      | (((x >> 5) & 1) << 26) | (((x >> 6) & 1) << 25) | (((x >> 7) & 1) << 24)
  {
    ReflectPrefix32Step(x, 1); ReflectPrefix32Step(x, 2); ReflectPrefix32Step(x, 3); ReflectPrefix32Step(x, 4);
    ReflectPrefix32Step(x, 5); ReflectPrefix32Step(x, 6); ReflectPrefix32Step(x, 7); ReflectPrefix32Step(x, 8);
  }

  /** Iterations 8..15 of reflect32. */
  lemma ReflectPrefix32Byte1(x: bv32)
    ensures ReflectPrefix32(x, 16) ==
      ReflectPrefix32(x, 8) | (((x >> 8) & 1) << 23) | (((x >> 9) & 1) << 22)
      | (((x >> 10) & 1) << 21) | (((x >> 11) & 1) << 20) | (((x >> 12) & 1) << 19)
      | (((x >> 13) & 1) << 18) | (((x >> 14) & 1) << 17) | (((x >> 15) & 1) << 16)
  {
    ReflectPrefix32Step(x, 9); ReflectPrefix32Step(x, 10); ReflectPrefix32Step(x, 11); ReflectPrefix32Step(x, 12);
    ReflectPrefix32Step(x, 13); ReflectPrefix32Step(x, 14); ReflectPrefix32Step(x, 15); ReflectPrefix32Step(x, 16);
  }

  /** Iterations 16..23 of reflect32. */
  lemma ReflectPrefix32Byte2(x: bv32)
    ensures ReflectPrefix32(x, 24) ==
      ReflectPrefix32(x, 16) | (((x >> 16) & 1) << 15) | (((x >> 17) & 1) << 14)
      | (((x >> 18) & 1) << 13) | (((x >> 19) & 1) << 12) | (((x >> 20) & 1) << 11)
      | (((x >> 21) & 1) << 10) | (((x >> 22) & 1) << 9) | (((x >> 23) & 1) << 8)
  {
    ReflectPrefix32Step(x, 17); ReflectPrefix32Step(x, 18); ReflectPrefix32Step(x, 19); ReflectPrefix32Step(x, 20);
    ReflectPrefix32Step(x, 21); ReflectPrefix32Step(x, 22); ReflectPrefix32Step(x, 23); ReflectPrefix32Step(x, 24);
  }

  /** Iterations 24..31 of reflect32. */
  lemma ReflectPrefix32Byte3(x: bv32)
    ensures ReflectPrefix32(x, 32) ==
      ReflectPrefix32(x, 24) | (((x >> 24) & 1) << 7) | (((x >> 25) & 1) << 6)
      | (((x >> 26) & 1) << 5) | (((x >> 27) & 1) << 4) | (((x >> 28) & 1) << 3)
      | (((x >> 29) & 1) << 2) | (((x >> 30) & 1) << 1) | (((x >> 31) & 1) << 0)
  {
    ReflectPrefix32Step(x, 25); ReflectPrefix32Step(x, 26); ReflectPrefix32Step(x, 27); ReflectPrefix32Step(x, 28);
    ReflectPrefix32Step(x, 29); ReflectPrefix32Step(x, 30); ReflectPrefix32Step(x, 31); ReflectPrefix32Step(x, 32);
  }

  lemma BitReverse32IsUnrolled(x: bv32)
    ensures BitReverse32(x) == Unrolled32(x)
  {
    ReflectPrefix32Byte0(x);
    ReflectPrefix32Byte1(x);
    ReflectPrefix32Byte2(x);
    ReflectPrefix32Byte3(x);
  }

  lemma Unrolled32Bits(x: bv32, i: nat)
    requires i < 32
    ensures Bit32(Unrolled32(x), i) == Bit32(x, 31 - i)
  {
    if i == 0 { assert Bit32(Unrolled32(x), 0) == Bit32(x, 31); }
    else if i == 1 { assert Bit32(Unrolled32(x), 1) == Bit32(x, 30); }
    else if i == 2 { assert Bit32(Unrolled32(x), 2) == Bit32(x, 29); }
    else if i == 3 { assert Bit32(Unrolled32(x), 3) == Bit32(x, 28); }
    else if i == 4 { assert Bit32(Unrolled32(x), 4) == Bit32(x, 27); }
    else if i == 5 { assert Bit32(Unrolled32(x), 5) == Bit32(x, 26); }
    else if i == 6 { assert Bit32(Unrolled32(x), 6) == Bit32(x, 25); }
    else if i == 7 { assert Bit32(Unrolled32(x), 7) == Bit32(x, 24); }
    else if i == 8 { assert Bit32(Unrolled32(x), 8) == Bit32(x, 23); }
    else if i == 9 { assert Bit32(Unrolled32(x), 9) == Bit32(x, 22); }
    else if i == 10 { assert Bit32(Unrolled32(x), 10) == Bit32(x, 21); }
    else if i == 11 { assert Bit32(Unrolled32(x), 11) == Bit32(x, 20); }
    else if i == 12 { assert Bit32(Unrolled32(x), 12) == Bit32(x, 19); }
    else if i == 13 { assert Bit32(Unrolled32(x), 13) == Bit32(x, 18); }
    else if i == 14 { assert Bit32(Unrolled32(x), 14) == Bit32(x, 17); }
    else if i == 15 { assert Bit32(Unrolled32(x), 15) == Bit32(x, 16); }
    else if i == 16 { assert Bit32(Unrolled32(x), 16) == Bit32(x, 15); }
    else if i == 17 { assert Bit32(Unrolled32(x), 17) == Bit32(x, 14); }
    else if i == 18 { assert Bit32(Unrolled32(x), 18) == Bit32(x, 13); }
    else if i == 19 { assert Bit32(Unrolled32(x), 19) == Bit32(x, 12); }
    else if i == 20 { assert Bit32(Unrolled32(x), 20) == Bit32(x, 11); }
    else if i == 21 { assert Bit32(Unrolled32(x), 21) == Bit32(x, 10); }
    else if i == 22 { assert Bit32(Unrolled32(x), 22) == Bit32(x, 9); }
    else if i == 23 { assert Bit32(Unrolled32(x), 23) == Bit32(x, 8); }
    else if i == 24 { assert Bit32(Unrolled32(x), 24) == Bit32(x, 7); }
    else if i == 25 { assert Bit32(Unrolled32(x), 25) == Bit32(x, 6); }
    else if i == 26 { assert Bit32(Unrolled32(x), 26) == Bit32(x, 5); }
    else if i == 27 { assert Bit32(Unrolled32(x), 27) == Bit32(x, 4); }
    else if i == 28 { assert Bit32(Unrolled32(x), 28) == Bit32(x, 3); }
    else if i == 29 { assert Bit32(Unrolled32(x), 29) == Bit32(x, 2); }
    else if i == 30 { assert Bit32(Unrolled32(x), 30) == Bit32(x, 1); }
    else { assert Bit32(Unrolled32(x), 31) == Bit32(x, 0); }
  }

  /** reflect8 reverses bit order: bit i of the result is bit 7 - i of the input. */
  lemma BitReverse8Bits(x: bv8, i: nat)
    requires i < 8
    ensures Bit8(BitReverse8(x), i) == Bit8(x, 7 - i)
  {
    BitReverse8IsUnrolled(x);
  }

  lemma BitReverse8AllBits(x: bv8)
    ensures forall i :: 0 <= i < 8 ==> Bit8(BitReverse8(x), i) == Bit8(x, 7 - i)
  {
    forall i | 0 <= i < 8
      ensures Bit8(BitReverse8(x), i) == Bit8(x, 7 - i)
    {
      BitReverse8Bits(x, i);
    }
  }

  /** reflect8 applied twice gives back its input. */
  lemma BitReverse8Involution(x: bv8)
    ensures BitReverse8(BitReverse8(x)) == x
  {
    BitReverse8IsUnrolled(x);
    BitReverse8IsUnrolled(BitReverse8(x));
  }

  /** reflect32 reverses bit order: bit i of the result is bit 31 - i of the input. */
  lemma BitReverse32Bits(x: bv32, i: nat)
    requires i < 32
    ensures Bit32(BitReverse32(x), i) == Bit32(x, 31 - i)
  {
    BitReverse32IsUnrolled(x);
    Unrolled32Bits(x, i);
  }

  lemma BitReverse32AllBits(x: bv32)
    ensures forall i :: 0 <= i < 32 ==> Bit32(BitReverse32(x), i) == Bit32(x, 31 - i)
  {
    forall i | 0 <= i < 32
      ensures Bit32(BitReverse32(x), i) == Bit32(x, 31 - i)
    {
      BitReverse32Bits(x, i);
    }
  }

  /** reflect32 applied twice gives back its input. */
  lemma BitReverse32Involution(x: bv32)
    ensures BitReverse32(BitReverse32(x)) == x
  {
    BitReverse32IsUnrolled(x);
    BitReverse32IsUnrolled(BitReverse32(x));
    assert Unrolled32(Unrolled32(x)) == x;
  }

  /** The all-ones word is its own reversal. */
  lemma BitReverse32AllOnes()
    ensures BitReverse32(0xFFFF_FFFF) == 0xFFFF_FFFF
  {
    BitReverse32IsUnrolled(0xFFFF_FFFF);
  }
}
