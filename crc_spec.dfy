/**
 * The CRC-32 of the UART CRC demos, as the source computes it: the
 * IEEE 802.3 polynomial 0x04C11DB7 processed most-significant-bit first,
 * with each input byte bit-reversed on the way in (reflect8) and the final
 * register bit-reversed on the way out (reflect32), initial value and final
 * XOR 0xFFFFFFFF.
 *
 * UpdateCrc is one call of update_crc32 (and one outer iteration of
 * calc_crc32); FoldCrc folds it over a byte sequence in arrival order;
 * Finalize is the `reflect32(crc) ^ FINAL_XOR` step; Crc32 is what
 * calc_crc32 returns.
 */
module CrcSpec {
  import opened BitReverse

  const POLYNOMIAL: bv32 := 0x04C1_1DB7
  const INIT_CRC: bv32 := 0xFFFF_FFFF
  const FINAL_XOR: bv32 := 0xFFFF_FFFF

  /** One of the eight shift rounds: shift left, XOR the polynomial if bit 31 fell out. */
  function ShiftRound(crc: bv32): bv32
  {
    if crc & 0x8000_0000 != 0 then (crc << 1) ^ POLYNOMIAL else crc << 1
  }

  /** The register after k shift rounds. */
  function ShiftRounds(crc: bv32, k: nat): bv32
  {
    if k == 0 then crc else ShiftRound(ShiftRounds(crc, k - 1))
  }

  /** XOR the reflected input byte into the top eight bits of the register. */
  function Absorb(crc: bv32, b: bv8): bv32
  {
    crc ^ ((BitReverse8(b) as bv32) << 24)
  }

  /** update_crc32: absorb one byte, then eight shift rounds. */
  function UpdateCrc(crc: bv32, b: bv8): bv32
  {
    ShiftRounds(Absorb(crc, b), 8)
  }

  /** The register after feeding `bs` to UpdateCrc one byte at a time, first byte first. */
  function FoldCrc(crc: bv32, bs: seq<bv8>): bv32
  {
    if bs == [] then crc else UpdateCrc(FoldCrc(crc, bs[..|bs| - 1]), bs[|bs| - 1])
  }

  /** Turn a running register into the reported CRC value. */
  function Finalize(crc: bv32): bv32
  {
    BitReverse32(crc) ^ FINAL_XOR
  }

  /** calc_crc32 over a whole buffer. */
  function Crc32(bs: seq<bv8>): bv32
  {
    Finalize(FoldCrc(INIT_CRC, bs))
  }

  /**
   * Incremental equals batch: feeding a stream in two pieces, carrying the
   * register across, gives the register of the whole stream.
   */
  lemma {:induction false} FoldCrcAppend(crc: bv32, xs: seq<bv8>, ys: seq<bv8>)
    ensures FoldCrc(crc, xs + ys) == FoldCrc(FoldCrc(crc, xs), ys)
  {
    if ys == [] {
      assert xs + ys == xs;
    } else {
      var zs := xs + ys;
      assert zs[..|zs| - 1] == xs + ys[..|ys| - 1];
      assert zs[|zs| - 1] == ys[|ys| - 1];
      FoldCrcAppend(crc, xs, ys[..|ys| - 1]);
    }
  }

  /** The left-to-right fold, first byte first: update with the head, then fold the rest. */
  lemma FoldCrcCons(crc: bv32, b: bv8, bs: seq<bv8>)
    ensures FoldCrc(crc, [b] + bs) == FoldCrc(UpdateCrc(crc, b), bs)
  {
    FoldCrcAppend(crc, [b], bs);
    assert [b][..0] == [];
  }

  /** An empty buffer finalises the untouched initial register, which gives 0. */
  lemma Crc32Empty()
    ensures Crc32([]) == 0
  {
    BitReverse32AllOnes();
  }

  /** The standard check input: the nine ASCII bytes of "123456789". */
  const CHECK_INPUT: seq<bv8> := [0x31, 0x32, 0x33, 0x34, 0x35, 0x36, 0x37, 0x38, 0x39]

  /** update_crc32 on the bytes of the check input, one at a time. */
  lemma CheckInputUpdatesA()
    ensures UpdateCrc(0xFFFF_FFFF, 0x31) == 0x1208_C43E
    ensures UpdateCrc(0x1208_C43E, 0x32) == 0x4CDD_350D
    ensures UpdateCrc(0x4CDD_350D, 0x33) == 0xB439_EDEE
  {
  }

  lemma CheckInputUpdatesB()
    ensures UpdateCrc(0xB439_EDEE, 0x34) == 0x3AF8_3826
    ensures UpdateCrc(0x3AF8_3826, 0x35) == 0xC7A3_502C
    ensures UpdateCrc(0xC7A3_502C, 0x36) == 0x7934_B16F
  {
  }

  lemma CheckInputUpdatesC()
    ensures UpdateCrc(0x7934_B16F, 0x37) == 0x0669_3FF5
    ensures UpdateCrc(0x0669_3FF5, 0x38) == 0x0AA4_F8A6
    ensures UpdateCrc(0x0AA4_F8A6, 0x39) == 0x9B63_D02C
  {
  }

  /** The register after the check input. */
  lemma CheckInputRegister()
    ensures FoldCrc(INIT_CRC, CHECK_INPUT) == 0x9B63_D02C
  {
    var s := CHECK_INPUT;
    CheckInputUpdatesA();
    CheckInputUpdatesB();
    CheckInputUpdatesC();
    assert FoldCrc(INIT_CRC, s[..1]) == 0x1208_C43E;
    assert s[..2][..1] == s[..1];
    assert FoldCrc(INIT_CRC, s[..2]) == 0x4CDD_350D;
    assert s[..3][..2] == s[..2];
    assert FoldCrc(INIT_CRC, s[..3]) == 0xB439_EDEE;
    assert s[..4][..3] == s[..3];
    assert FoldCrc(INIT_CRC, s[..4]) == 0x3AF8_3826;
    assert s[..5][..4] == s[..4];
    assert FoldCrc(INIT_CRC, s[..5]) == 0xC7A3_502C;
    assert s[..6][..5] == s[..5];
    assert FoldCrc(INIT_CRC, s[..6]) == 0x7934_B16F;
    assert s[..7][..6] == s[..6];
    assert FoldCrc(INIT_CRC, s[..7]) == 0x0669_3FF5;
    assert s[..8][..7] == s[..7];
    assert FoldCrc(INIT_CRC, s[..8]) == 0x0AA4_F8A6;
    assert s[..9] == s && s[..9][..8] == s[..8];
  }

  /** The standard CRC-32 check value of "123456789" is 0xCBF43926. */
  lemma Crc32CheckValue()
    ensures Crc32(CHECK_INPUT) == 0xCBF4_3926
  {
    CheckInputRegister();
    BitReverse32IsUnrolled(0x9B63_D02C);
  }

  /**
   * A non-empty window can leave the register at its initial value: after
   * these four bytes it is 0xFFFFFFFF again. So "no byte absorbed" implies
   * "register is 0xFFFFFFFF", but not the other way round.
   */
  lemma RegisterCanReturnToInit()
    ensures FoldCrc(INIT_CRC, [0x9D, 0x0A, 0xD9, 0x6D]) == INIT_CRC
  {
    var s: seq<bv8> := [0x9D, 0x0A, 0xD9, 0x6D];
    var r1 := UpdateCrc(0xFFFF_FFFF, 0x9D);
    var r2 := UpdateCrc(r1, 0x0A);
    var r3 := UpdateCrc(r2, 0xD9);
    assert FoldCrc(INIT_CRC, s[..1]) == r1;
    assert s[..2][..1] == s[..1];
    assert FoldCrc(INIT_CRC, s[..2]) == r2;
    assert s[..3][..2] == s[..2];
    assert FoldCrc(INIT_CRC, s[..3]) == r3;
    assert s[..4] == s && s[..4][..3] == s[..3];
  }
}
