/**
 * The C routines reflect8, reflect32, update_crc32 and calc_crc32, as the
 * loops they are. Both demos carry identical copies of reflect8, reflect32
 * and calc_crc32; update_crc32 exists only in the DMA demo.
 *
 * Each method is proved against the functions of CrcSpec,
 * and states outright the property its caller relies on: a bit reversal,
 * one byte of the IEEE 802.3 CRC-32, the CRC-32 of a buffer prefix.
 */
module CrcRoutines {
  import opened BitReverse
  import opened CrcSpec
  import opened CrcReference

  /** One more shift round: the register after j + 1 rounds from the one after j. */
  lemma ShiftRoundsNext(crc: bv32, j: nat, r: bv32)
    requires r == ShiftRounds(crc, j)
    ensures ShiftRounds(crc, j + 1) == ShiftRound(r)
  {
  }

  /** ShiftRound spelled as the conditional the C loop body writes. */
  lemma ShiftRoundUnfold(r: bv32)
    ensures ShiftRound(r) == if r & 0x8000_0000 != 0 then (r << 1) ^ POLYNOMIAL else r << 1
  {
  }

  /** reflect8: reverse the bit order of a byte. */
  method Reflect8(data: bv8) returns (res: bv8)
    ensures res == BitReverse8(data)
  {
    res := 0;
    for i := 0 to 8
      invariant res == ReflectPrefix8(data, i)
    {
      ReflectPrefix8Next(data, i, res);
      res := res | (((data >> i) & 1) << (7 - i));
    }
  }

  /** reflect32: reverse the bit order of a 32-bit word. */
  method Reflect32(data: bv32) returns (res: bv32)
    ensures res == BitReverse32(data)
  {
    res := 0;
    for i := 0 to 32
      invariant res == ReflectPrefix32(data, i)
    {
      ReflectPrefix32Next(data, i, res);
      res := res | (((data >> i) & 1) << (31 - i));
    }
  }

  /**
   * update_crc32: fold one byte into a running (not yet finalised) register.
   * Through bit reversal this is exactly one byte of the textbook reflected
   * CRC-32.
   */
  method UpdateCrc32(crc: bv32, data: bv8) returns (r: bv32)
    ensures r == UpdateCrc(crc, data)
  {
    var reflected := Reflect8(data);
    r := crc ^ ((reflected as bv32) << 24);
    ghost var absorbed := r;
    for j := 0 to 8
      invariant r == ShiftRounds(absorbed, j)
    {
      ShiftRoundsNext(absorbed, j, r);
      ShiftRoundUnfold(r);
      r := if r & 0x8000_0000 != 0 then (r << 1) ^ POLYNOMIAL else r << 1;
    }
  }

  /**
   * calc_crc32: the CRC-32 of the first len bytes of a buffer, which is the
   * IEEE 802.3 CRC-32 of those bytes.
   */
  method CalcCrc32(data: array<bv8>, len: nat) returns (r: bv32)
    requires len <= data.Length
    ensures r == Crc32(data[..len])
    ensures r == RefCrc32(data[..len])
  {
    var crc := INIT_CRC;
    for i := 0 to len
      invariant crc == FoldCrc(INIT_CRC, data[..i])
    {
      ghost var before := crc;
      var reflected := Reflect8(data[i]);
      crc := crc ^ ((reflected as bv32) << 24);
      ghost var absorbed := crc;
      for j := 0 to 8
        invariant crc == ShiftRounds(absorbed, j)
      {
        ShiftRoundsNext(absorbed, j, crc);
        ShiftRoundUnfold(crc);
        crc := if crc & 0x8000_0000 != 0 then (crc << 1) ^ POLYNOMIAL else crc << 1;
      }
      assert data[..i + 1][..i] == data[..i];
    }
    var reflectedCrc := Reflect32(crc);
    r := reflectedCrc ^ FINAL_XOR;
    Crc32IsReflectedCrc32(data[..len]);
  }
}
