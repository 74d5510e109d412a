/**
 * The textbook reflected CRC-32 of IEEE 802.3 (the FCS CRC): the register is
 * shifted right, the input byte is XORed into the low eight bits, and the
 * bit-reversed polynomial 0xEDB88320 is XORed in when bit 0 falls out.
 *
 * The UART CRC demos compute the same CRC the other way round, shifting left
 * and reversing bits explicitly. The lemmas here prove that the two agree on
 * every input: the source's register, bit-reversed, is the textbook register.
 */
module CrcReference {
  import opened BitReverse
  import opened CrcSpec

  const REFLECTED_POLYNOMIAL: bv32 := 0xEDB8_8320

  /** One right-shifting round of the reflected algorithm. */
  function RefRound(crc: bv32): bv32
  {
    if crc & 1 != 0 then (crc >> 1) ^ REFLECTED_POLYNOMIAL else crc >> 1
  }

  function RefRounds(crc: bv32, k: nat): bv32
  {
    if k == 0 then crc else RefRound(RefRounds(crc, k - 1))
  }

  /** One byte of the reflected algorithm: XOR it into the low byte, then eight rounds. */
  function RefUpdate(crc: bv32, b: bv8): bv32
  {
    RefRounds(crc ^ (b as bv32), 8)
  }

  function RefFold(crc: bv32, bs: seq<bv8>): bv32
  {
    if bs == [] then crc else RefUpdate(RefFold(crc, bs[..|bs| - 1]), bs[|bs| - 1])
  }

  /** CRC-32 of IEEE 802.3: initial value and final XOR 0xFFFFFFFF. */
  function RefCrc32(bs: seq<bv8>): bv32
  {
    RefFold(0xFFFF_FFFF, bs) ^ 0xFFFF_FFFF
  }

  /** Reversing the polynomial gives the reflected polynomial. */
  lemma PolynomialReflected()
    ensures BitReverse32(POLYNOMIAL) == REFLECTED_POLYNOMIAL
  {
    BitReverse32IsUnrolled(POLYNOMIAL);
  }

  lemma UnrolledShiftLeft(x: bv32)
    ensures Unrolled32(x << 1) == Unrolled32(x) >> 1
  {
  }

  lemma UnrolledXor(x: bv32, y: bv32)
    ensures Unrolled32(x ^ y) == Unrolled32(x) ^ Unrolled32(y)
  {
  }

  lemma UnrolledTopBit(x: bv32)
    ensures (x & 0x8000_0000 != 0) == (Unrolled32(x) & 1 != 0)
  {
  }

  lemma UnrolledShiftRound(crc: bv32)
    ensures Unrolled32(ShiftRound(crc)) == RefRound(Unrolled32(crc))
  {
    UnrolledShiftLeft(crc);
    UnrolledTopBit(crc);
    if crc & 0x8000_0000 != 0 {
      UnrolledXor(crc << 1, POLYNOMIAL);
      assert Unrolled32(POLYNOMIAL) == REFLECTED_POLYNOMIAL;
    }
  }

  /** A left-shifting round, seen through bit reversal, is a right-shifting round. */
  lemma ShiftRoundReflected(crc: bv32)
    ensures BitReverse32(ShiftRound(crc)) == RefRound(BitReverse32(crc))
  {
    BitReverse32IsUnrolled(crc);
    BitReverse32IsUnrolled(ShiftRound(crc));
    UnrolledShiftRound(crc);
  }

  lemma {:induction false} ShiftRoundsReflected(crc: bv32, k: nat)
    ensures BitReverse32(ShiftRounds(crc, k)) == RefRounds(BitReverse32(crc), k)
  {
    if k > 0 {
      ShiftRoundsReflected(crc, k - 1);
      ShiftRoundReflected(ShiftRounds(crc, k - 1));
    }
  }

  lemma UnrolledAbsorb(crc: bv32, b: bv8)
    ensures Unrolled32(crc ^ ((Unrolled8(b) as bv32) << 24)) == Unrolled32(crc) ^ (b as bv32)
  {
  }

  /** Absorbing the reflected byte at the top is absorbing the plain byte at the bottom. */
  lemma AbsorbReflected(crc: bv32, b: bv8)
    ensures BitReverse32(Absorb(crc, b)) == BitReverse32(crc) ^ (b as bv32)
  {
    BitReverse8IsUnrolled(b);
    BitReverse32IsUnrolled(crc);
    BitReverse32IsUnrolled(Absorb(crc, b));
    UnrolledAbsorb(crc, b);
  }

  /** update_crc32, seen through bit reversal, is one byte of the reflected algorithm. */
  lemma UpdateReflected(crc: bv32, b: bv8)
    ensures BitReverse32(UpdateCrc(crc, b)) == RefUpdate(BitReverse32(crc), b)
  {
    AbsorbReflected(crc, b);
    ShiftRoundsReflected(Absorb(crc, b), 8);
  }

  lemma {:induction false} FoldReflected(crc: bv32, bs: seq<bv8>)
    ensures BitReverse32(FoldCrc(crc, bs)) == RefFold(BitReverse32(crc), bs)
  {
    if bs != [] {
      FoldReflected(crc, bs[..|bs| - 1]);
      UpdateReflected(FoldCrc(crc, bs[..|bs| - 1]), bs[|bs| - 1]);
    }
  }

  /** calc_crc32 is the IEEE 802.3 CRC-32 on every input. */
  lemma Crc32IsReflectedCrc32(bs: seq<bv8>)
    ensures Crc32(bs) == RefCrc32(bs)
  {
    FoldReflected(INIT_CRC, bs);
    BitReverse32AllOnes();
  }
}
