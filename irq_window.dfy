/**
 * The interrupt demo's windowed CRC accumulator. sciNotification stores each
 * received byte into the fixed buffer rx_data (6144 bytes) while there is
 * room, and drops it otherwise; the 1 ms RTI compare-0 tick closes the
 * window after 5000 ticks, reporting either the previous CRC again (no byte
 * arrived) or calc_crc32 over the stored bytes.
 *
 * Unlike the DMA demo there is no running register: crc_value only ever
 * holds the last reported CRC (0xFFFFFFFF before the first report), and
 * rx_data is never cleared, only overwritten from index 0 by the next window.
 *
 * Each handler is one atomic step. The ghost fields record every byte that
 * arrived in the open window (stored or dropped), the CRC reported for every
 * closed window, and everything sent over the UART.
 */
module IrqCrcWindow {
  import opened CrcSpec
  import opened HexFormat
  import opened CrcRoutines
  import opened ReportText

  const MAX_DATA_LEN: nat := 6144
  const IDLE_TIMEOUT_MS: nat := 5000

  /** The bytes of a window that fit in rx_data: the first 6144 that arrived. */
  function Captured(arrived: seq<bv8>): (kept: seq<bv8>)
    ensures |kept| <= MAX_DATA_LEN
    ensures |arrived| <= MAX_DATA_LEN ==> kept == arrived
    ensures |arrived| > MAX_DATA_LEN ==> |kept| == MAX_DATA_LEN
    ensures kept <= arrived
  {
    if |arrived| <= MAX_DATA_LEN then arrived else arrived[..MAX_DATA_LEN]
  }

  /** One more byte: stored when there is room, dropped when the buffer is full. */
  lemma CapturedAppend(arrived: seq<bv8>, b: bv8)
    ensures |arrived| < MAX_DATA_LEN ==> Captured(arrived + [b]) == Captured(arrived) + [b]
    ensures |arrived| >= MAX_DATA_LEN ==> Captured(arrived + [b]) == Captured(arrived)
  {
    if |arrived| >= MAX_DATA_LEN {
      assert (arrived + [b])[..MAX_DATA_LEN] == arrived[..MAX_DATA_LEN];
    }
  }

  /**
   * Once 6144 bytes have arrived, whatever arrives later in the same window
   * leaves the stored bytes, and so the reported CRC, as they are.
   */
  lemma LateBytesIgnored(arrived: seq<bv8>, late: seq<bv8>)
    requires |arrived| >= MAX_DATA_LEN
    ensures Captured(arrived + late) == Captured(arrived) == arrived[..MAX_DATA_LEN]
    ensures Crc32(Captured(arrived + late)) == Crc32(arrived[..MAX_DATA_LEN])
  {
    assert (arrived + late)[..MAX_DATA_LEN] == arrived[..MAX_DATA_LEN];
  }

  /**
   * rx_data (its whole contents `stored`) and rx_count against the bytes
   * that arrived in the open window: rx_data[0..rx_count) holds the ones kept.
   */
  ghost predicate BufferInvariant(stored: seq<bv8>, rxCount: nat, arrived: seq<bv8>)
  {
    && |stored| == MAX_DATA_LEN
    && rxCount == |Captured(arrived)|
    && stored[..rxCount] == Captured(arrived)
  }

  /** crc_value holds the last reported CRC (0xFFFFFFFF before any), crc_formatBuffer its digits. */
  ghost predicate ReportInvariant(crcValue: bv32, formatBuffer: string, reported: seq<bv32>)
  {
    && crcValue == (if reported == [] then INIT_CRC else reported[|reported| - 1])
    && formatBuffer == LastReportText(reported)
  }

  /** sciNotification keeps the buffer invariant, whether it stores the byte or drops it. */
  lemma StoreKeepsInvariant(stored: seq<bv8>, rxCount: nat, arrived: seq<bv8>, b: bv8)
    requires BufferInvariant(stored, rxCount, arrived)
    ensures rxCount < MAX_DATA_LEN ==> BufferInvariant(stored[rxCount := b], rxCount + 1, arrived + [b])
    ensures rxCount >= MAX_DATA_LEN ==> BufferInvariant(stored, rxCount, arrived + [b])
  {
    CapturedAppend(arrived, b);
    if rxCount < MAX_DATA_LEN {
      assert stored[rxCount := b][..rxCount + 1] == stored[..rxCount] + [b];
    }
  }

  class IrqWindow {
    /** rx_data: the receive buffer, never cleared. */
    const rxData: array<bv8>
    var rxCount: nat
    var systemTick: nat
    var crcValue: bv32
    /** The C string in crc_formatBuffer (characters before its NUL). */
    var formatBuffer: string

    /** Every byte that arrived since the window opened, stored or dropped. */
    ghost var arrived: seq<bv8>
    /** The CRC reported for each closed window, oldest first. */
    ghost var reported: seq<bv32>
    /** Every character sent over the UART by the tick handler. */
    ghost var output: string

    ghost predicate Valid()
      reads this, rxData
    {
      systemTick < IDLE_TIMEOUT_MS && Consistent()
    }

    /**
     * Valid() except for the tick counter: rx_data[0..rx_count) holds the
     * stored bytes of the window, crc_value the last reported CRC and
     * crc_formatBuffer its digits.
     */
    ghost predicate Consistent()
      reads this, rxData
    {
      && BufferInvariant(rxData[..], rxCount, arrived)
      && ReportInvariant(crcValue, formatBuffer, reported)
    }

    /** The globals as the C program initialises them (rx_data zero-filled). */
    constructor ()
      ensures Valid()
      ensures fresh(rxData) && rxData[..] == seq(MAX_DATA_LEN, _ => 0)
      ensures crcValue == INIT_CRC && rxCount == 0 && systemTick == 0 && formatBuffer == ""
      ensures arrived == [] && reported == [] && output == ""
    {
      rxData := new bv8[MAX_DATA_LEN](_ => 0);
      crcValue := INIT_CRC;
      rxCount := 0;
      systemTick := 0;
      formatBuffer := "";
      arrived := [];
      reported := [];
      output := "";
    }

    /** rx_count never exceeds the buffer size. */
    lemma CountBounded()
      requires Consistent()
      ensures rxCount <= rxData.Length == MAX_DATA_LEN
      ensures rxCount == if |arrived| < MAX_DATA_LEN then |arrived| else MAX_DATA_LEN
    {
    }

    /** sciNotification: store temp_byte at rx_data[rx_count] if there is room. */
    method OnByte(tempByte: bv8)
      requires Valid()
      modifies this, rxData
      ensures Valid()
      ensures arrived == old(arrived) + [tempByte]
      // Room left: the byte goes in at rx_data[old rx_count].
      ensures old(rxCount) < MAX_DATA_LEN ==>
        rxCount == old(rxCount) + 1 && rxData[old(rxCount)] == tempByte
      // Buffer full: the byte is dropped.
      ensures old(rxCount) >= MAX_DATA_LEN ==> rxCount == old(rxCount)
      // No other cell of rx_data changes.
      ensures forall i :: 0 <= i < rxData.Length && i != old(rxCount) ==> rxData[i] == old(rxData[i])
      ensures systemTick == old(systemTick) && crcValue == old(crcValue) && formatBuffer == old(formatBuffer)
      ensures reported == old(reported) && output == old(output)
    {
      StoreKeepsInvariant(rxData[..], rxCount, arrived, tempByte);
      if rxCount < MAX_DATA_LEN {
        rxData[rxCount] := tempByte;
        rxCount := rxCount + 1;
      }
      arrived := arrived + [tempByte];
    }

    /**
     * rtiNotification: count the tick if it comes from RTI1 compare 0, then
     * close the window if 5000 ticks have passed.
     */
    method OnTick(fromCompare0: bool)
      requires Valid()
      modifies this
      ensures Valid()
      ensures rxData[..] == old(rxData[..])
      // Not yet expired: only the tick counter moves.
      ensures old(systemTick) + (if fromCompare0 then 1 else 0) < IDLE_TIMEOUT_MS ==>
        && systemTick == old(systemTick) + (if fromCompare0 then 1 else 0)
        && crcValue == old(crcValue) && rxCount == old(rxCount) && formatBuffer == old(formatBuffer)
        && arrived == old(arrived) && reported == old(reported) && output == old(output)
      // Idle expiry: resend the previous text, restart the timer, nothing else.
      ensures old(systemTick) + (if fromCompare0 then 1 else 0) >= IDLE_TIMEOUT_MS && old(rxCount) == 0 ==>
        && systemTick == 0
        && crcValue == old(crcValue) && rxCount == 0 && formatBuffer == old(formatBuffer)
        && arrived == old(arrived) && reported == old(reported)
        && output == old(output) + IdleReport(old(formatBuffer))
      // Data expiry: report the CRC-32 of the stored bytes and open a new window.
      ensures old(systemTick) + (if fromCompare0 then 1 else 0) >= IDLE_TIMEOUT_MS && old(rxCount) != 0 ==>
        && systemTick == 0 && rxCount == 0 && arrived == []
        && crcValue == Crc32(Captured(old(arrived)))
        && formatBuffer == Format08X(crcValue)
        && reported == old(reported) + [crcValue]
        && output == old(output) + UpdatedReport(crcValue)
    {
      if fromCompare0 {
        systemTick := systemTick + 1;
      }
      if IDLE_TIMEOUT_MS <= systemTick && rxCount == 0 {
        ReportIdle();
      } else if IDLE_TIMEOUT_MS <= systemTick && rxCount != 0 {
        ReportData();
      }
    }

    /** The idle branch of rtiNotification: resend crc_formatBuffer, restart the timer. */
    method ReportIdle()
      requires Consistent()
      modifies this
      ensures Consistent()
      ensures systemTick == 0 && output == old(output) + IdleReport(old(formatBuffer))
      ensures crcValue == old(crcValue) && rxCount == old(rxCount) && formatBuffer == old(formatBuffer)
      ensures arrived == old(arrived) && reported == old(reported)
    {
      output := output + IdleReport(formatBuffer);
      systemTick := 0;
    }

    /**
     * The data branch of rtiNotification: calc_crc32 over the stored bytes,
     * render it with "%08X", send the report, restart the timer and the count.
     */
    method ReportData()
      requires Consistent()
      modifies this
      ensures Consistent()
      ensures systemTick == 0 && rxCount == 0 && arrived == []
      ensures crcValue == Crc32(Captured(old(arrived)))
      ensures formatBuffer == Format08X(crcValue)
      ensures reported == old(reported) + [crcValue]
      ensures output == old(output) + UpdatedReport(crcValue)
    {
      crcValue := CalcCrc32(rxData, rxCount);
      formatBuffer := Format08X(crcValue);
      output := output + UpdatedReport(crcValue);
      reported := reported + [crcValue];
      systemTick := 0;
      rxCount := 0;
      arrived := [];
    }
  }
}
