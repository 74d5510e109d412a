/**
 * The DMA demo's windowed CRC accumulator: the globals crc_value, rx_count,
 * systemTick and crc_formatBuffer, driven by two events. A DMA block-transfer
 * completion in the main loop absorbs one received byte into the running
 * register; the 1 ms RTI compare-0 tick closes the window after 5000 ticks,
 * reporting either the previous CRC again (no byte arrived) or the
 * finalised CRC of the window's bytes.
 *
 * Each handler is one atomic step. The ghost fields record what the C
 * program leaves implicit: the bytes of the open window, the CRC reported
 * for every closed window, and everything sent over the UART.
 */
module DmaCrcWindow {
  import opened BitReverse
  import opened CrcSpec
  import opened HexFormat
  import opened CrcRoutines
  import opened ReportText

  const IDLE_TIMEOUT_MS: nat := 5000
  /** rx_count is a uint32_t. */
  const RX_COUNT_LIMIT: nat := 0xFFFF_FFFF

  /**
   * What holds between events, apart from the tick counter: the register and
   * the count describe the open window (the count fits in a uint32_t), and
   * crc_formatBuffer holds the digits of the last reported CRC, empty before
   * the first report.
   */
  ghost predicate WindowInvariant(crcValue: bv32, rxCount: nat, formatBuffer: string,
                                  window: seq<bv8>, reported: seq<bv32>)
  {
    && rxCount == |window| <= RX_COUNT_LIMIT
    && crcValue == FoldCrc(INIT_CRC, window)
    && formatBuffer == LastReportText(reported)
  }

  /** Absorbing one byte keeps the invariant. */
  lemma ByteKeepsInvariant(crcValue: bv32, rxCount: nat, formatBuffer: string,
                           window: seq<bv8>, reported: seq<bv32>, b: bv8)
    requires WindowInvariant(crcValue, rxCount, formatBuffer, window, reported)
    requires rxCount < RX_COUNT_LIMIT
    ensures WindowInvariant(UpdateCrc(crcValue, b), rxCount + 1, formatBuffer, window + [b], reported)
  {
    var w := window + [b];
    assert w[..|w| - 1] == window;
  }

  /** Closing a window: its register finalises to its CRC-32, and a new window opens. */
  lemma CloseKeepsInvariant(crcValue: bv32, rxCount: nat, formatBuffer: string,
                            window: seq<bv8>, reported: seq<bv32>)
    requires WindowInvariant(crcValue, rxCount, formatBuffer, window, reported)
    ensures Finalize(crcValue) == Crc32(window)
    ensures WindowInvariant(INIT_CRC, 0, Format08X(Crc32(window)), [], reported + [Crc32(window)])
  {
  }

  class DmaWindow {
    var crcValue: bv32
    var rxCount: nat
    var systemTick: nat
    /** The C string in crc_formatBuffer (characters before its NUL). */
    var formatBuffer: string

    /** Bytes absorbed since the window opened. */
    ghost var window: seq<bv8>
    /** The CRC reported for each closed window, oldest first. */
    ghost var reported: seq<bv32>
    /** Every character sent over the UART by the tick handler. */
    ghost var output: string

    ghost predicate Valid()
      reads this
    {
      systemTick < IDLE_TIMEOUT_MS && Consistent()
    }

    /** Valid() except for the tick counter, which may have reached the timeout. */
    ghost predicate Consistent()
      reads this
    {
      WindowInvariant(crcValue, rxCount, formatBuffer, window, reported)
    }

    /** The globals as the C program initialises them. */
    constructor ()
      ensures Valid()
      ensures crcValue == INIT_CRC && rxCount == 0 && systemTick == 0 && formatBuffer == ""
      ensures window == [] && reported == [] && output == ""
    {
      crcValue := INIT_CRC;
      rxCount := 0;
      systemTick := 0;
      formatBuffer := "";
      window := [];
      reported := [];
      output := "";
    }

    /** An empty window leaves the register at its initial value. */
    lemma EmptyWindowRegister()
      requires Valid() && rxCount == 0
      ensures crcValue == INIT_CRC
    {
    }

    /**
     * crc_formatBuffer, which the idle report resends, holds the "%08X" digits
     * of the last reported CRC, and they read back as that CRC.
     */
    lemma FormatBufferIsLastReport()
      requires Valid() && reported != []
      ensures formatBuffer == Format08X(reported[|reported| - 1])
      ensures IsUpperHex(formatBuffer) && ParseHex(formatBuffer) == reported[|reported| - 1] as nat
    {
      LastReportTextParses(reported);
    }

    /** The DMA completion branch of the main loop: absorb rx_byte, count it. */
    method OnByte(rxByte: bv8)
      requires Valid()
      requires rxCount < RX_COUNT_LIMIT
      modifies this
      ensures Valid()
      ensures crcValue == UpdateCrc(old(crcValue), rxByte)
      ensures rxCount == old(rxCount) + 1
      ensures window == old(window) + [rxByte]
      ensures systemTick == old(systemTick) && formatBuffer == old(formatBuffer)
      ensures reported == old(reported) && output == old(output)
    {
      ByteKeepsInvariant(crcValue, rxCount, formatBuffer, window, reported, rxByte);
      crcValue := UpdateCrc32(crcValue, rxByte);
      rxCount := rxCount + 1;
      window := window + [rxByte];
    }

    /**
     * rtiNotification: count the tick if it comes from RTI1 compare 0, then
     * close the window if 5000 ticks have passed.
     */
    method OnTick(fromCompare0: bool)
      requires Valid()
      modifies this
      ensures Valid()
      // Not yet expired: only the tick counter moves.
      ensures old(systemTick) + (if fromCompare0 then 1 else 0) < IDLE_TIMEOUT_MS ==>
        && systemTick == old(systemTick) + (if fromCompare0 then 1 else 0)
        && crcValue == old(crcValue) && rxCount == old(rxCount) && formatBuffer == old(formatBuffer)
        && window == old(window) && reported == old(reported) && output == old(output)
      // Idle expiry: resend the previous text, restart the timer, nothing else.
      ensures old(systemTick) + (if fromCompare0 then 1 else 0) >= IDLE_TIMEOUT_MS && old(rxCount) == 0 ==>
        && systemTick == 0
        && crcValue == old(crcValue) && rxCount == 0 && formatBuffer == old(formatBuffer)
        && window == old(window) && reported == old(reported)
        && output == old(output) + IdleReport(old(formatBuffer))
      // Data expiry: report the CRC-32 of the window's bytes and open a new window.
      ensures old(systemTick) + (if fromCompare0 then 1 else 0) >= IDLE_TIMEOUT_MS && old(rxCount) != 0 ==>
        && systemTick == 0
        && crcValue == INIT_CRC && rxCount == 0 && window == []
        && formatBuffer == Format08X(Crc32(old(window)))
        && reported == old(reported) + [Crc32(old(window))]
        && output == old(output) + ByteCountReport(old(rxCount)) + UpdatedReport(Crc32(old(window)))
    {
      if fromCompare0 {
        systemTick := systemTick + 1;
      }
      if IDLE_TIMEOUT_MS <= systemTick && rxCount == 0 {
        ReportIdle();
      } else if IDLE_TIMEOUT_MS <= systemTick && rxCount != 0 {
        ReportWindow();
      }
    }

    /** The idle branch of rtiNotification: resend crc_formatBuffer, restart the timer. */
    method ReportIdle()
      requires Consistent()
      modifies this
      ensures Consistent()
      ensures systemTick == 0 && output == old(output) + IdleReport(old(formatBuffer))
      ensures crcValue == old(crcValue) && rxCount == old(rxCount) && formatBuffer == old(formatBuffer)
      ensures window == old(window) && reported == old(reported)
    {
      output := output + IdleReport(formatBuffer);
      systemTick := 0;
    }

    /**
     * The data branch of rtiNotification: finalise the register, render it
     * with "%08X", send the report, restart the timer and open a new window.
     */
    method ReportWindow()
      requires Consistent()
      modifies this
      ensures Consistent()
      ensures systemTick == 0 && crcValue == INIT_CRC && rxCount == 0 && window == []
      ensures formatBuffer == Format08X(Crc32(old(window)))
      ensures reported == old(reported) + [Crc32(old(window))]
      ensures output == old(output) + ByteCountReport(old(rxCount)) + UpdatedReport(Crc32(old(window)))
    {
      CloseKeepsInvariant(crcValue, rxCount, formatBuffer, window, reported);
      output := output + ByteCountReport(rxCount);
      var reflected := Reflect32(crcValue);
      assert reflected ^ FINAL_XOR == Finalize(crcValue);
      crcValue := reflected ^ FINAL_XOR;
      formatBuffer := Format08X(crcValue);
      output := output + UpdatedReport(crcValue);
      reported := reported + [crcValue];
      systemTick := 0;
      rxCount := 0;
      crcValue := INIT_CRC;
      window := [];
    }
  }
}
