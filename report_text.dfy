/**
 * The text the tick handler sends over the UART when a window expires.
 * Each report is the concatenation of the strings handed to consecutive
 * sciDisplayText calls; sciDisplayText sends every character before the
 * terminating NUL, so a zero-initialised crc_formatBuffer contributes no
 * characters.
 */
module ReportText {
  import opened HexFormat

  const IDLE_PREFIX: string := "No Data Received, Last Calculated CRC in Hex is : 0x"
  const UPDATED_PREFIX: string := "Updated CRC in Hex is : 0x"
  const CRLF: string := "\r\n"

  /** Idle expiry: the prefix, whatever crc_formatBuffer holds, then CR LF. */
  function IdleReport(formatBuffer: string): (s: string)
    ensures |s| == |IDLE_PREFIX| + |formatBuffer| + 2
    ensures s[..|IDLE_PREFIX|] == IDLE_PREFIX
    ensures s[|IDLE_PREFIX|..|IDLE_PREFIX| + |formatBuffer|] == formatBuffer
    ensures s[|IDLE_PREFIX| + |formatBuffer|..] == CRLF
  {
    IDLE_PREFIX + formatBuffer + CRLF
  }

  /** Data expiry: the prefix, the "%08X" rendering of the CRC, then CR LF. */
  function UpdatedReport(crc: bv32): (s: string)
    ensures |s| == |UPDATED_PREFIX| + 10
    ensures s[..|UPDATED_PREFIX|] == UPDATED_PREFIX
    ensures IsUpperHex(s[|UPDATED_PREFIX|..|UPDATED_PREFIX| + 8])
    ensures s[|UPDATED_PREFIX| + 8..] == CRLF
  {
    UPDATED_PREFIX + Format08X(crc) + CRLF
  }

  /** debug_byteCount: "\r\nBytes received: %lu\r\n". */
  function ByteCountReport(count: nat): (s: string)
    ensures |s| >= 21 && s[..18] == "\r\nBytes received: " && s[|s| - 2..] == CRLF
    ensures forall i :: 18 <= i < |s| - 2 ==> '0' <= s[i] <= '9'
  {
    "\r\nBytes received: " + DecimalText(count) + CRLF
  }

  /** crc_formatBuffer after the given reports: empty, or the last one's "%08X". */
  function LastReportText(reported: seq<bv32>): string
  {
    if reported == [] then "" else Format08X(reported[|reported| - 1])
  }

  /**
   * crc_formatBuffer is empty before the first report; afterwards it is eight
   * upper-case hex digits that read back as the last reported CRC.
   */
  lemma LastReportTextParses(reported: seq<bv32>)
    ensures reported == [] ==> LastReportText(reported) == ""
    ensures reported != [] ==>
      var s := LastReportText(reported);
      |s| == 8 && IsUpperHex(s) && ParseHex(s) == reported[|reported| - 1] as nat
  {
    if reported != [] {
      Format08XRoundTrip(reported[|reported| - 1]);
    }
  }

  /** The hex field of an update report reads back as the CRC it reports. */
  lemma UpdatedReportRoundTrip(crc: bv32)
    ensures ParseHex(UpdatedReport(crc)[|UPDATED_PREFIX|..|UPDATED_PREFIX| + 8]) == crc as nat
  {
    var s := UpdatedReport(crc);
    assert s[|UPDATED_PREFIX|..|UPDATED_PREFIX| + 8] == Format08X(crc);
    Format08XRoundTrip(crc);
  }

  /** Two update reports are the same text exactly when they report the same CRC. */
  lemma UpdatedReportInjective(crc: bv32, other: bv32)
    ensures UpdatedReport(crc) == UpdatedReport(other) <==> crc == other
  {
    if UpdatedReport(crc) == UpdatedReport(other) {
      UpdatedReportRoundTrip(crc);
      UpdatedReportRoundTrip(other);
      assert crc == (crc as nat) as bv32;
      assert other == (other as nat) as bv32;
    }
  }
}
