# Windowed CRC-32 accumulator of the TMS570 UART CRC demos

This project models the core of two TMS570LC43 demo programs. Both read bytes from a UART. They fold the bytes into a CRC-32, and every 5000 ticks of the 1 ms RTI timer they send the result back as eight upper-case hex digits:

- **DMA variant** (`uart-crc32-dma`): the main loop absorbs each byte into a running register `crc_value` with `update_crc32`. The tick handler finalises the register with `reflect32(crc) ^ 0xFFFFFFFF`.
- **Interrupt variant** (`uart-crc32-interrupt`): `sciNotification` appends each byte to the 6144-byte buffer `rx_data` while there is room. The tick handler runs `calc_crc32` over the stored bytes.

When a window expires with no byte received, both variants resend the previous text. Before the first report that text is empty, because `crc_formatBuffer` is zero-initialised.

The modules:

- `BitReverse` (`bit_reverse.dfy`): what `reflect8` and `reflect32` compute. It proves the bit-by-bit reversal, the involution, and that the all-ones word is its own reversal.
- `CrcSpec` (`crc_spec.dfy`): the CRC as the source computes it.
  - It shifts MSB-first with polynomial 0x04C11DB7, reflects each input byte, and starts from 0xFFFFFFFF.
  - The output is reflected and XORed with 0xFFFFFFFF.
  - It proves that folding in pieces equals folding at once, and the check vectors.
- `CrcReference` (`crc_reference.dfy`): the textbook right-shifting CRC-32 of IEEE 802.3 with polynomial 0xEDB88320. It proves that the source's CRC equals it on every input.
- `CrcRoutines` (`crc_routines.dfy`): `reflect8`, `reflect32`, `update_crc32` and `calc_crc32` as the loops they are. Each is proved against the functions of `CrcSpec` and `BitReverse`.
- `HexFormat` (`hex_format.dfy`): `sprintf("%08X")` and `sprintf("%lu")`. It proves that the hex rendering parses back to the value and is injective.
- `ReportText` (`report_text.dfy`): the report lines the tick handler sends, and the text `crc_formatBuffer` holds.
- `DmaCrcWindow` (`dma_window.dfy`): the DMA variant's globals as the class `DmaWindow`, with one method per event.
- `IrqCrcWindow` (`irq_window.dfy`): the interrupt variant's globals as the class `IrqWindow`. `rx_data` is an array.

Each handler is one atomic step on its class. A tick carries a flag saying whether it came from RTI1 compare 0. That tick is the one `rtiCompare0Interrupt` delivers (uart-crc32-interrupt-largefiles/source/HL_rti.c:792).

Ghost fields record what the C program leaves implicit:

- the bytes of the open window (in the interrupt variant, including the dropped ones);
- the CRC reported for each closed window;
- every character sent by the tick handler, as a text trace.

### Two facts about the register

- The CRC of zero bytes is 0, since `reflect32(0xFFFFFFFF) ^ 0xFFFFFFFF == 0` (`CrcSpec.Crc32Empty`). The code never reports an empty window: an idle expiry resends `crc_formatBuffer`, which is empty text before the first data window.
- In the DMA variant, `rx_count == 0` implies `crc_value == 0xFFFFFFFF` (`DmaCrcWindow.DmaWindow.EmptyWindowRegister`), but not conversely: the four bytes 9D 0A D9 6D return the register to 0xFFFFFFFF (`CrcSpec.RegisterCanReturnToInit`). The tick handler decides between the idle and the data branch by `rx_count`, not by the register.
- The tick counter advances only for RTI1 compare 0. The expiry check runs on every notification.

## Model

| member | source | states |
|---|---|---|
| BitReverse.BitReverse8 | uart-crc32-dma/source/uart_dma_crc_main.c:196-203 | defines reflect8(x) as the eight bits of x in mirrored order, built one bit per loop step |
| BitReverse.BitReverse32 | uart-crc32-dma/source/uart_dma_crc_main.c:206-213 | defines reflect32(x) as the 32 bits of x in mirrored order, built one bit per loop step |
| BitReverse.BitReverse8Bits | uart-crc32-dma/source/uart_dma_crc_main.c:196-203 | bit i of reflect8(x) is bit 7 - i of x |
| BitReverse.BitReverse8AllBits | uart-crc32-dma/source/uart_dma_crc_main.c:196-203 | the reversal holds for all eight bits at once |
| BitReverse.BitReverse8Involution | uart-crc32-dma/source/uart_dma_crc_main.c:196-203 | reflect8 applied twice gives back its input |
| BitReverse.BitReverse8IsUnrolled | uart-crc32-dma/source/uart_dma_crc_main.c:200-201 | the eight loop iterations give the OR of every bit moved to its mirrored position |
| BitReverse.BitReverse32Bits | uart-crc32-dma/source/uart_dma_crc_main.c:206-213 | bit i of reflect32(x) is bit 31 - i of x |
| BitReverse.BitReverse32AllBits | uart-crc32-dma/source/uart_dma_crc_main.c:206-213 | the reversal holds for all 32 bits at once |
| BitReverse.BitReverse32Involution | uart-crc32-dma/source/uart_dma_crc_main.c:206-213 | reflect32 applied twice gives back its input |
| BitReverse.BitReverse32AllOnes | uart-crc32-dma/source/uart_dma_crc_main.c:206-213 | reflect32(0xFFFFFFFF) == 0xFFFFFFFF |
| BitReverse.BitReverse32IsUnrolled | uart-crc32-dma/source/uart_dma_crc_main.c:210-211 | the 32 loop iterations give the OR of every bit moved to its mirrored position |
| CrcSpec.UpdateCrc | uart-crc32-dma/source/uart_dma_crc_main.c:229-235 | defines update_crc32: XOR reflect8(b) into the top byte, then eight MSB-first shift rounds with polynomial 0x04C11DB7 |
| CrcSpec.FoldCrc | uart-crc32-dma/source/uart_dma_crc_main.c:220-224 | defines the register after feeding a byte stream to update_crc32 in order, from a given start value |
| CrcSpec.Finalize | uart-crc32-dma/source/uart_dma_crc_main.c:164 | defines the finalisation reflect32(crc) ^ 0xFFFFFFFF |
| CrcSpec.Crc32 | uart-crc32-dma/source/uart_dma_crc_main.c:216-226 | defines calc_crc32: fold from 0xFFFFFFFF, then finalise |
| CrcSpec.FoldCrcAppend | uart-crc32-dma/source/uart_dma_crc_main.c:229-235 | feeding a stream to update_crc32 in two pieces, carrying the register across, gives the register of the whole stream |
| CrcSpec.FoldCrcCons | uart-crc32-dma/source/uart_dma_crc_main.c:229-235 | the fold takes the first byte first: update with the head, then fold the rest |
| CrcSpec.Crc32Empty | uart-crc32-dma/source/uart_dma_crc_main.c:216-226 | calc_crc32 of zero bytes is 0x00000000 |
| CrcSpec.CheckInputUpdatesA | uart-crc32-dma/source/uart_dma_crc_main.c:229-235 | update_crc32 on "1", "2", "3" from 0xFFFFFFFF gives the listed registers |
| CrcSpec.CheckInputUpdatesB | uart-crc32-dma/source/uart_dma_crc_main.c:229-235 | update_crc32 on "4", "5", "6" gives the listed registers |
| CrcSpec.CheckInputUpdatesC | uart-crc32-dma/source/uart_dma_crc_main.c:229-235 | update_crc32 on "7", "8", "9" gives the listed registers |
| CrcSpec.CheckInputRegister | uart-crc32-dma/source/uart_dma_crc_main.c:218-224 | the register after "123456789" is 0x9B63D02C |
| CrcSpec.Crc32CheckValue | uart-crc32-dma/source/uart_dma_crc_main.c:216-226 | calc_crc32("123456789") is the CRC-32 check value 0xCBF43926 |
| CrcSpec.RegisterCanReturnToInit | uart-crc32-dma/source/uart_dma_crc_main.c:120-133 | a non-empty window (9D 0A D9 6D) can leave crc_value at 0xFFFFFFFF |
| CrcReference.PolynomialReflected | uart-crc32-dma/source/uart_dma_crc_main.c:48 | 0x04C11DB7 bit-reversed is 0xEDB88320 |
| CrcReference.ShiftRoundReflected | uart-crc32-dma/source/uart_dma_crc_main.c:223 | one left-shifting round, seen through reflect32, is one right-shifting round with the reflected polynomial |
| CrcReference.ShiftRoundsReflected | uart-crc32-dma/source/uart_dma_crc_main.c:222-223 | the same for any number of rounds |
| CrcReference.AbsorbReflected | uart-crc32-dma/source/uart_dma_crc_main.c:221 | XORing reflect8(b) into the top byte is, seen through reflect32, XORing b into the bottom byte |
| CrcReference.UpdateReflected | uart-crc32-dma/source/uart_dma_crc_main.c:229-235 | update_crc32, seen through reflect32, is one byte of the textbook reflected CRC-32 |
| CrcReference.FoldReflected | uart-crc32-dma/source/uart_dma_crc_main.c:220-224 | the byte loop of calc_crc32, seen through reflect32, is the textbook reflected fold |
| CrcReference.Crc32IsReflectedCrc32 | uart-crc32-interrupt/source/uart_crc32_interrupt_main.c:207-217 | calc_crc32 equals the IEEE 802.3 reflected CRC-32 (init and final XOR 0xFFFFFFFF) on every input |
| CrcRoutines.Reflect8 | uart-crc32-dma/source/uart_dma_crc_main.c:196-203 | the loop returns the bit reversal of its input |
| CrcRoutines.Reflect32 | uart-crc32-dma/source/uart_dma_crc_main.c:206-213 | the loop returns the bit reversal of its input |
| CrcRoutines.UpdateCrc32 | uart-crc32-dma/source/uart_dma_crc_main.c:229-235 | the loop returns one byte of the CRC fold: absorb the reflected byte, then eight shift rounds |
| CrcRoutines.CalcCrc32 | uart-crc32-dma/source/uart_dma_crc_main.c:216-226 | the nested loops return the CRC-32 of data[0..len), both as the finalised update_crc32 fold and as the IEEE 802.3 CRC-32 |
| HexFormat.Format08X | uart-crc32-dma/source/uart_dma_crc_main.c:167 | the "%08X" text of a 32-bit value: exactly eight characters, all upper-case hex digits |
| HexFormat.HexText | uart-crc32-dma/source/uart_dma_crc_main.c:167 | the rendering has exactly `width` characters, all upper-case hex digits |
| HexFormat.ParseHexText | uart-crc32-dma/source/uart_dma_crc_main.c:167 | reading the rendering back gives the value modulo 16^width |
| HexFormat.Format08XRoundTrip | uart-crc32-dma/source/uart_dma_crc_main.c:167 | the "%08X" text reads back as the 32-bit value |
| HexFormat.Format08XInjective | uart-crc32-dma/source/uart_dma_crc_main.c:167 | two CRCs render the same exactly when they are equal |
| HexFormat.DecimalText | uart-crc32-dma/source/uart_dma_crc_main.c:315 | "%lu" gives a non-empty string of decimal digits with no leading zero unless the value is 0 |
| ReportText.IdleReport | uart-crc32-dma/source/uart_dma_crc_main.c:153-155 | the idle report is the prefix, then the buffer text unchanged, then CR LF |
| ReportText.UpdatedReport | uart-crc32-dma/source/uart_dma_crc_main.c:166-169 | the update report is the prefix, then eight upper-case hex digits, then CR LF |
| ReportText.ByteCountReport | uart-crc32-dma/source/uart_dma_crc_main.c:312-317 | the debug line is "\r\nBytes received: ", then decimal digits, then CR LF |
| ReportText.LastReportText | uart-crc32-dma/source/uart_dma_crc_main.c:62 | defines the text in crc_formatBuffer from the CRCs reported so far: empty before the first, else the "%08X" text of the last |
| ReportText.LastReportTextParses | uart-crc32-dma/source/uart_dma_crc_main.c:62 | crc_formatBuffer is empty before any report; afterwards it is eight hex digits that read back as the last reported CRC |
| ReportText.UpdatedReportRoundTrip | uart-crc32-dma/source/uart_dma_crc_main.c:166-168 | the hex field of an update report reads back as the reported CRC |
| ReportText.UpdatedReportInjective | uart-crc32-dma/source/uart_dma_crc_main.c:166-168 | two update reports are the same text exactly when they report the same CRC |
| DmaCrcWindow.ByteKeepsInvariant | uart-crc32-dma/source/uart_dma_crc_main.c:123-126 | absorbing a byte keeps the register equal to the fold over the window, one byte longer |
| DmaCrcWindow.CloseKeepsInvariant | uart-crc32-dma/source/uart_dma_crc_main.c:164-175 | finalising the register gives the CRC-32 of the window's bytes; the reset state satisfies the invariant again |
| DmaCrcWindow.DmaWindow.constructor | uart-crc32-dma/source/uart_dma_crc_main.c:56-62 | initial globals: register 0xFFFFFFFF, count 0, tick 0, empty buffer text; the invariant holds |
| DmaCrcWindow.DmaWindow.EmptyWindowRegister | uart-crc32-dma/source/uart_dma_crc_main.c:160-176 | rx_count == 0 implies crc_value == 0xFFFFFFFF in every reachable state |
| DmaCrcWindow.DmaWindow.FormatBufferIsLastReport | uart-crc32-dma/source/uart_dma_crc_main.c:167 | after a report, crc_formatBuffer is the "%08X" text of the last reported CRC and reads back as it |
| DmaCrcWindow.DmaWindow.OnByte | uart-crc32-dma/source/uart_dma_crc_main.c:120-133 | crc_value becomes update_crc32 of the old value and the byte; rx_count grows by one; tick, buffer text and trace are unchanged |
| DmaCrcWindow.DmaWindow.OnTick | uart-crc32-dma/source/uart_dma_crc_main.c:143-181 | below 5000 ticks only the counter moves, and only for compare 0; an idle expiry resends the old text and resets only the tick; a data expiry reports the CRC-32 of the window's bytes, sends the byte-count and update lines, and resets tick, count and register |
| DmaCrcWindow.DmaWindow.ReportIdle | uart-crc32-dma/source/uart_dma_crc_main.c:150-158 | sends the idle line with the current buffer text and resets the tick; nothing else changes |
| DmaCrcWindow.DmaWindow.ReportWindow | uart-crc32-dma/source/uart_dma_crc_main.c:160-176 | stores and sends the "%08X" text of the window's CRC-32, then opens an empty window with register 0xFFFFFFFF |
| IrqCrcWindow.Captured | uart-crc32-interrupt/source/uart_crc32_interrupt_main.c:126-130 | the stored bytes are the arrived bytes when at most 6144 arrived, otherwise their first 6144 |
| IrqCrcWindow.CapturedAppend | uart-crc32-interrupt/source/uart_crc32_interrupt_main.c:126-130 | a byte is kept while fewer than 6144 are stored and dropped afterwards |
| IrqCrcWindow.LateBytesIgnored | uart-crc32-interrupt/source/uart_crc32_interrupt_main.c:126-130 | bytes after the 6144th change neither the stored bytes nor their CRC |
| IrqCrcWindow.StoreKeepsInvariant | uart-crc32-interrupt/source/uart_crc32_interrupt_main.c:126-130 | storing or dropping a byte keeps rx_data[0..rx_count) equal to the kept bytes |
| IrqCrcWindow.IrqWindow.constructor | uart-crc32-interrupt/source/uart_crc32_interrupt_main.c:63-71 | initial globals: zeroed 6144-byte buffer, count 0, crc_value 0xFFFFFFFF, empty buffer text; the invariant holds |
| IrqCrcWindow.IrqWindow.CountBounded | uart-crc32-interrupt/source/uart_crc32_interrupt_main.c:126-130 | rx_count <= 6144, and it is the number of arrived bytes capped at 6144 |
| IrqCrcWindow.IrqWindow.OnByte | uart-crc32-interrupt/source/uart_crc32_interrupt_main.c:123-133 | with room, the byte goes to rx_data[rx_count] and the count grows; when full, the count stays; no other cell and no other global changes |
| IrqCrcWindow.IrqWindow.OnTick | uart-crc32-interrupt/source/uart_crc32_interrupt_main.c:137-172 | below 5000 ticks only the counter moves, and only for compare 0; an idle expiry resends the old text; a data expiry reports the CRC-32 of the first min(n, 6144) bytes and resets tick and count; rx_data is never cleared |
| IrqCrcWindow.IrqWindow.ReportIdle | uart-crc32-interrupt/source/uart_crc32_interrupt_main.c:144-152 | sends the idle line with the current buffer text and resets the tick; nothing else changes |
| IrqCrcWindow.IrqWindow.ReportData | uart-crc32-interrupt/source/uart_crc32_interrupt_main.c:154-167 | crc_value becomes the CRC-32 of the stored bytes, crc_formatBuffer its "%08X" text, which is sent; tick and count reset |

## Left out

- `sciDisplayText`, `sciSendByte` and the busy-wait on the UART flag register are not modelled as I/O. What they send is appended to the ghost `output` trace, one string per report.
- DMA and SCI setup (`setup_dma`, `start_reception`, `sciReceive`), `_enable_interrupt_`, `main`'s start-up and banner text, and the vendor driver HL_rti.c (beyond its call of `rtiNotification` for compare 0) are peripheral plumbing with no computable logic. The uart-dma echo demo is not part of this model.
- `debug_receivedData` is not modelled: it is never called on the reporting path. `debug_byteCount`'s line is recorded in the DMA trace through `ReportText.ByteCountReport`.
- Interleaving of the byte handler and the tick handler is not modelled: each handler is one atomic step. Preemption and races are not sequential properties.
- DmaCrcWindow.DmaWindow.OnByte: the 32-bit wrap-around of `rx_count` is not modelled. The method requires `rx_count < 0xFFFFFFFF` instead.
- The tick counter is unbounded in the model. It is reset at 5000 long before a 32-bit `systemTick` could wrap.
- The interrupt variant's copies of `reflect8`, `reflect32` and `calc_crc32` (uart-crc32-interrupt/source/uart_crc32_interrupt_main.c:187-217) are identical to the DMA variant's. They are modelled once, in `CrcRoutines`.
- CrcRoutines.UpdateCrc32: the method's contract states only the MSB-first fold. Its agreement with the textbook reflected CRC-32 is the separate lemma `CrcReference.UpdateReflected`.
- `crc_formatBuffer` is modelled as the text before its terminating NUL. The nine-byte array and its NUL are not modelled.
