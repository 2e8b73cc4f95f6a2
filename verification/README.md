# NEO430 I2C EEPROM driver and MAC/IP bootstrap, in Dafny

This project models the firmware that runs on the NEO430 soft processor inside
an IPbus endpoint. At power-up that firmware sets the endpoint's network identity.
It drives an OpenCores-style I2C master core through five byte-wide Wishbone registers
(prescale low and high, control, data, command/status).
Through that core it reads a 48-bit unique identifier and a 32-bit IP address out of an I2C EEPROM.
It then programs the MAC address, the IP address and the RARP flag into the IPbus core,
holding that core's reset while it does so.

The model covers these parts:

- **The command and status vocabulary of the I2C core** (`I2CDefs`).
  This is the constants of `neo430_i2c.h`.
  Bit tests are written as arithmetic on integer bytes.
  For example, `w & 0x80` clear is `w < 0x80`, and `(addr & 0x7f) << 1 | 1` is `(addr % 0x80) * 2 + 1`.
- **The register transport** (`Transport`).
  Every register write, and every write to the IPbus identity registers, is appended to a trace of events.
  Busy-waits and register reads go to a separate list of waits.
  What the hardware answers is not computed. It is a parameter: a script of status words for the
  command/status register and a script of bytes for the data register.
  `Acks` turns the status script into the ACK outcomes of the transfers it completes.
  A poll that reports "in progress" is skipped; each word that does not report it ends one transfer.
- **The transaction layer** (`Protocol`, `Engine`):
  - `checkack`;
  - `write_i2c_address` and `read_i2c_address`;
  - `setup_i2c` and `zero_buffer`.
  `Protocol` gives, as pure functions of the ACK outcomes, the number a write returns and the frame of register writes it issues.
  `Engine` holds the methods that model the C functions statement by statement and are proved to agree with those descriptions.
- **The EEPROM layer** (`PromModel`, `Identity`).
  `read_i2c_prom` stages the memory address in the shared buffer. It writes that address without a STOP and then reads.
  Above it sit `read_UID`, `read_Prom`, `read_PromGPO`, `write_Prom`, `write_PromGPO` and `dump_Prom`.
  The reference description works at the ACK level. A `Port` holds three things: the ACK outcomes still to come, the bytes still to arrive, and the buffer.
  Each access is described twice:
  - by what it leaves in the port (`PromRead`, `AfterAccess`, `ReadEach` for a run of one-byte reads);
  - by the register writes it issues (`PromFrames`, `SweepFrames`).
  The methods in `Identity` are proved equal to these descriptions.
- **Number and text conversions** (`Words`, `TextCodec`):
  - big-endian byte assembly and splitting;
  - `hex_str_to_uint32` and `hex_str_to_uint16`;
  - `uint8_to_decimal_str`.
- **`setMacIP`** of the address-terminal program (`Bootstrap`).
  `Settle` says what the three identity values become.
  `SetFrames` says which register writes are issued.
  `Downstream` picks out the writes that reach the IPbus core, and `SetFramesDownstream` proves they are exactly
  reset on, MAC, IP (unless RARP is forced), RARP flag, reset off.

Facts about the driver that the proofs bring out:

- A refused address write does not stop `read_i2c_prom` from reading (`PromReadAfterRefusedWrite`).
- When no EEPROM answers at all, the staged memory address stays in the buffer.
  Each access then sends two STOPs (`PromReadAbsent`, `PromFramesAbsent`).
  So `read_UID` returns `0xFAFBFCFDFEFF`, made of its own six memory addresses, instead of 0 (`AbsentUid`).
  As a result, the dummy-MAC fallback in `setMacIP` does not fire for a missing EEPROM (`SettleAbsent`).
  With the default one address byte and a zeroed buffer, the IP address comes out 0, so RARP is used.

## Model

| member | source | states |
|---|---|---|
| I2CDefs.CommandWords | components/neo430_wrapper/software/lib/include/neo430_i2c.h:57-63 | START+WRITE is 0x90, READ+ACK+STOP is 0x68, enable is 0x80; of the command words only STOP and READ+ACK+STOP carry the STOP bit |
| I2CDefs.InProgressBit | components/neo430_wrapper/software/lib/source/neo430_i2c.c:30 | for every 8-bit status word, checkack's in-progress test holds exactly when `w & INPROGRESS` (0x02) is not 0 |
| I2CDefs.AckReceivedBit | components/neo430_wrapper/software/lib/include/neo430_i2c.h:65 | for every 8-bit status word, an acknowledge was received exactly when `w & 0x80` is 0 (RECVDACK is active low) |
| I2CDefs.HasStopBit | components/neo430_wrapper/software/lib/include/neo430_i2c.h:59 | for every 8-bit command word, it carries STOP exactly when `w & 0x40` is not 0 |
| I2CDefs.RegisterOffsets | components/neo430_wrapper/software/lib/include/neo430_i2c.h:75-85 | the byte offsets of the five registers are four times the legacy word offsets, in the same order |
| I2CDefs.WriteAddressByte | components/neo430_wrapper/software/lib/source/neo430_i2c.c:172-173 | the write address byte has R/W bit 0 and the 7-bit device address above it |
| I2CDefs.ReadAddressByte | components/neo430_wrapper/software/lib/source/neo430_i2c.c:120-122 | the read address byte has R/W bit 1, the same 7-bit address, and is one more than the write address byte |
| I2CDefs.WriteAddressBits | components/neo430_wrapper/software/lib/source/neo430_i2c.c:172-173 | for every byte `a`, the write address byte equals the bitwise `(a & 0x7f) << 1` |
| I2CDefs.ReadAddressBits | components/neo430_wrapper/software/lib/source/neo430_i2c.c:120-122 | for every byte `a`, the read address byte equals the bitwise `((a & 0x7f) << 1) \| 0x1` |
| Engine.CheckAck | components/neo430_wrapper/software/lib/source/neo430_i2c.c:18-39 | polls (one delay, then one status read) until a word without INPROGRESS; the result is that word's acknowledge bit, which is the next outcome of `Acks`; nothing is written and no data byte is consumed |
| Engine.SendBytes | components/neo430_wrapper/software/lib/source/neo430_i2c.c:194-206 | sends data bytes until the first refused one and returns how many were acknowledged; the trace holds a data write and a WRITE command for each byte sent, up to and including the refused one |
| Engine.WriteI2CAddress | components/neo430_wrapper/software/lib/source/neo430_i2c.c:166-219 | returns -1 exactly when the device refuses its address, otherwise the count of data bytes acknowledged before the first refusal; issues `WriteFrame` and adds exactly one STOP when a byte was refused or STOP was asked for, and none otherwise |
| Protocol.WriteOutcome | components/neo430_wrapper/software/lib/source/neo430_i2c.c:166-219 | -1 iff the address is refused; otherwise every byte up to the result was acknowledged and, if fewer than all, the next one was refused |
| Protocol.WriteFrameStops | components/neo430_wrapper/software/lib/source/neo430_i2c.c:184-217 | a write frame carries one STOP if a byte was refused or STOP was requested, otherwise none |
| Engine.ReceiveBytes | components/neo430_wrapper/software/lib/source/neo430_i2c.c:132-157 | the first `n` data bytes become the next `n` received bytes and the rest of the array is unchanged; only the last READ carries ACK and STOP |
| Engine.ReadI2CAddress | components/neo430_wrapper/software/lib/source/neo430_i2c.c:109-161 | if the address is refused: one STOP, result 0, array unchanged; otherwise result `n`, the array's first `n` bytes are the bytes received, whatever the per-byte outcomes; one STOP on the bus when the address is refused or `n` > 0, none otherwise |
| Protocol.ReadFrameStops | components/neo430_wrapper/software/lib/source/neo430_i2c.c:123-139 | a read frame carries one STOP when its address is refused or it reads at least one byte |
| Engine.SetupI2C | components/neo430_wrapper/software/lib/source/neo430_i2c.c:66-103 | the EEPROM's bus address is the low byte of the GPIO input; the core is disabled, loaded with the prescale (high byte * 256 + low byte = 0x0400) and enabled, and one settle delay of 1000 is recorded |
| Engine.ZeroBuffer | components/neo430_wrapper/software/lib/source/neo430_i2c.c:54-61 | the first `elements` bytes become 0, the rest is unchanged, and it returns `elements` |
| PromModel.PromReadAllAcked | components/neo430_wrapper/software/lib/source/neo430_i2c.c:274-308 | when every transfer is acknowledged the buffer's first `n` bytes are the bytes the EEPROM sent, the rest keeps the staged address, and all `2 + nAddr + n` outcomes and `n` bytes are used |
| PromModel.PromFramesAllAcked | components/neo430_wrapper/software/lib/source/neo430_i2c.c:274-308 | when every transfer is acknowledged, the memory-address write ends without STOP, so the read's STOP is the only one |
| PromModel.PromReadAbsent | components/neo430_wrapper/software/lib/source/neo430_i2c.c:274-308 | when neither address byte is acknowledged, the buffer holds the staged memory address (its first byte is the start address) and no data byte is consumed |
| PromModel.PromFramesAbsent | components/neo430_wrapper/software/lib/source/neo430_i2c.c:274-308 | when nothing answers, an access uses two outcomes and sends two STOPs |
| PromModel.PromReadAfterRefusedWrite | components/neo430_wrapper/software/lib/source/neo430_i2c.c:290-297 | the read is attempted even after the address write was refused, and if it is acknowledged the data arrive |
| Identity.ReadI2CProm | components/neo430_wrapper/software/lib/source/neo430_i2c.c:274-308 | returns 0; the port it leaves is `AfterAccess` and its register writes are `PromFrames` |
| Identity.ReadOffsets | components/neo430_wrapper/software/lib/source/neo430_i2c.c:378-390 | one-byte reads at each offset in turn, keeping the first buffer byte each time, agree with `ReadEach` and `SweepFrames` |
| PromModel.ReadEachAllAcked | components/neo430_wrapper/software/lib/source/neo430_i2c.c:378-390 | with every outcome acknowledged, a run of one-byte reads returns exactly the bytes the EEPROM sent, in order, one per address |
| PromModel.ReadEachAckedSpends | components/neo430_wrapper/software/lib/source/neo430_i2c.c:378-390 | with every outcome acknowledged, the run uses exactly its whole budget of outcomes |
| PromModel.ReadEachKeepsTail | components/neo430_wrapper/software/lib/source/neo430_i2c.c:378-390 | a run of one-byte reads leaves the buffer beyond the address bytes untouched |
| PromModel.ReadEachAbsent | components/neo430_wrapper/software/lib/source/neo430_i2c.c:378-390 | with nothing answering, each one-byte read returns its own memory address |
| PromModel.SweepFramesAllAcked | components/neo430_wrapper/software/lib/source/neo430_i2c.c:378-390 | with everything acknowledged, a run of `k` reads sends exactly `k` STOPs |
| PromModel.SweepFramesAbsent | components/neo430_wrapper/software/lib/source/neo430_i2c.c:378-390 | with nothing answering, a run of `k` reads sends `2k` STOPs |
| PromModel.AbsentUid | components/neo430_wrapper/software/lib/source/neo430_i2c.c:378-394 | with no EEPROM answering, the identifier is 0xFAFBFCFDFEFF, not 0 |
| PromModel.AckedUid | components/neo430_wrapper/software/lib/source/neo430_i2c.c:378-394 | with everything acknowledged, the identifier is the six received bytes, first byte most significant |
| Identity.ReadUID | components/neo430_wrapper/software/lib/source/neo430_i2c.c:358-398 | six one-byte reads at 0xFA..0xFF assembled into an identifier below 2^48 |
| Identity.ReadProm | components/neo430_wrapper/software/lib/source/neo430_i2c.c:404-417 | one four-byte access at 0x00; the word is the buffer's first four bytes, first byte most significant |
| PromModel.AckedWord | components/neo430_wrapper/software/lib/source/neo430_i2c.c:404-417 | with everything acknowledged, read_Prom's four bytes are the four received bytes |
| PromModel.AbsentWord | components/neo430_wrapper/software/lib/source/neo430_i2c.c:404-417 | with nothing answering, the word read is built from the staged address and stale buffer bytes |
| Identity.ReadPromGPO | components/neo430_wrapper/software/lib/source/neo430_i2c.c:453-466 | one two-byte access at 0x10; the value is the buffer's first two bytes, first byte most significant |
| Identity.WriteProm | components/neo430_wrapper/software/lib/source/neo430_i2c.c:420-447 | the buffer starts with the address byte(s) 0x00 and then the parsed word, most significant byte first; the rest of the buffer is unchanged; the status is what write_i2c_address reports for those `4 + nAddr` bytes, with STOP |
| PromModel.PromImageRoundTrip | components/neo430_wrapper/software/lib/source/neo430_i2c.c:434-441 | the data bytes of write_Prom's image, reassembled as read_Prom does it, give back the word written |
| PromModel.ReadBackWord | components/neo430_wrapper/software/lib/source/neo430_i2c.c:404-447 | if the EEPROM acknowledges and returns write_Prom's data bytes, read_Prom returns the word that was written |
| Identity.WritePromGPO | components/neo430_wrapper/software/lib/source/neo430_i2c.c:472-494 | the buffer holds 0x10 and then the parsed 16-bit value, most significant byte first (always one address byte); status as write_i2c_address reports for three bytes, with STOP |
| PromModel.GpoImageRoundTrip | components/neo430_wrapper/software/lib/source/neo430_i2c.c:484-488 | the data bytes of write_PromGPO's image, reassembled as read_PromGPO does it, give back the value written |
| PromModel.ReadBackGpo | components/neo430_wrapper/software/lib/source/neo430_i2c.c:453-494 | on an EEPROM with one address byte, if it acknowledges and returns write_PromGPO's data bytes, read_PromGPO returns the value written |
| PromModel.GpoTwoAddressBytes | components/neo430_wrapper/software/lib/source/neo430_i2c.c:484-490 | with two address bytes, write_PromGPO's image addresses 0x10 followed by the high data byte and carries only the low data byte; that address is read_PromGPO's 0x10 0x10 exactly when the high byte is 0x10 |
| Identity.DumpProm | components/neo430_wrapper/software/lib/source/neo430_i2c.c:496-513 | one-byte reads of memory addresses 0 to 31 in order, agreeing with `ReadEach` and `SweepFrames` |
| Words.AssembleSplit | components/neo430_wrapper/software/lib/source/neo430_i2c.c:439-441 | splitting a value below 256^k into k big-endian bytes and assembling them gives the value back |
| Words.PackWord | components/neo430_wrapper/software/lib/source/neo430_i2c.c:439-441 | a buffer whose positions nAddr+k-1-i hold byte i of the value, for every i below k, carries the value's k big-endian bytes right after the nAddr address bytes |
| Words.SplitAssemble | components/neo430_wrapper/software/lib/source/neo430_i2c.c:413 | assembling bytes and splitting the result into as many bytes gives the bytes back |
| Words.Assemble6 | components/neo430_wrapper/software/lib/source/neo430_i2c.c:394 | the assembled value of six bytes is the sum of each byte shifted by 8 times its distance from the end |
| TextCodec.ParseHex | components/neo430_wrapper/software/lib/source/neo430_i2c.c:521-543 | the result is the hexadecimal value of the characters before the first NUL, and is below 16 to the power of that length |
| TextCodec.HexStrToUint32 | components/neo430_wrapper/software/lib/source/neo430_i2c.c:521-543 | for strings of at most eight characters the 32-bit result is the string's hexadecimal value |
| TextCodec.HexStrToUint16 | components/neo430_wrapper/software/lib/source/neo430_i2c.c:551-573 | for strings of at most four characters the 16-bit result is the string's hexadecimal value |
| TextCodec.ParsePrinted | components/neo430_wrapper/software/lib/source/neo430_i2c.c:527-540 | parsing the k upper-case hex digits of a value below 16^k gives the value back |
| TextCodec.PrintParsed | components/neo430_wrapper/software/lib/source/neo430_i2c.c:527-540 | printing the parsed value of an upper-case hex string with as many digits gives the string back |
| TextCodec.HexDigitIgnoresCase | components/neo430_wrapper/software/lib/source/neo430_i2c.c:530-535 | a lower-case hex letter has the same value as its upper-case form |
| TextCodec.HexIgnoresTail | components/neo430_wrapper/software/lib/source/neo430_i2c.c:523 | whatever follows the first NUL does not affect the characters parsed |
| TextCodec.NonHexIsZero | components/neo430_wrapper/software/lib/source/neo430_i2c.c:536-537 | in every string, replacing a character that is not a hex digit by '0' leaves the value unchanged: such a character counts as 0 and keeps its place |
| TextCodec.HexExampleJunk | components/neo430_wrapper/software/lib/source/neo430_i2c.c:536-537 | example: "0g00z1" parses as 1, and the empty string as 0 |
| TextCodec.HexExampleCase | components/neo430_wrapper/software/lib/source/neo430_i2c.c:532-535 | example: "ff" and "FF" both parse as 0xff |
| TextCodec.StrlenExample | components/neo430_wrapper/software/lib/source/neo430_i2c.c:523 | example: the length the parse uses stops at the first NUL ("0A" then two NULs has length 2), and the empty string has length 0 |
| TextCodec.HexExampleIp | components/neo430_wrapper/software/lib/source/neo430_i2c.c:521-543 | example: "0A000001" parses as 0x0A000001, the address 10.0.0.1 |
| TextCodec.Uint8ToDecimalStr | components/neo430_wrapper/software/lib/source/neo430_i2c.c:581-625 | the buffer holds three decimal digits, hundreds first, whose value is the input, followed by a NUL |
| TextCodec.Uint8ToDecimalStr16 | components/neo430_wrapper/software/lib/source/neo430_i2c.c:598-618 | with 16-bit `int` the comparison never fails and every input gives ":::" and a NUL |
| TextCodec.ColonsSpellNothing | components/neo430_wrapper/software/lib/source/neo430_i2c.c:609 | that 16-bit result is not the decimal spelling of any value |
| Bootstrap.ChooseMac | components/neo430_wrapper/software/neo430_ipbus_address_terminal/main.c:62 | the MAC address is never 0; it is the identifier read whenever that is not 0, and 0x020ddba11644 when it is 0 |
| Bootstrap.RarpExamples | components/neo430_wrapper/software/neo430_ipbus_address_terminal/main.c:74 | examples of the RARP decision: addresses 0 and 0xFFFFFFFF use RARP; 0x0A000001 does not, unless RARP is forced |
| Bootstrap.Settle | components/neo430_wrapper/software/neo430_ipbus_address_terminal/main.c:52-85 | the MAC is never 0; RARP is used iff the IP address is all ones, zero, or RARP is forced; with RARP forced the IP address keeps its earlier value |
| Bootstrap.SettleAcked | components/neo430_wrapper/software/neo430_ipbus_address_terminal/main.c:60-70 | with everything acknowledged, the MAC comes from the first six received bytes and the IP address from the next four |
| Bootstrap.SettleAbsent | components/neo430_wrapper/software/neo430_ipbus_address_terminal/main.c:60-74 | with no EEPROM answering, the MAC is 0xFAFBFCFDFEFF, not the dummy; the IP address comes from the staged address and stale buffer bytes, and is 0 with RARP used when those bytes are zero |
| Bootstrap.SetMacIP | components/neo430_wrapper/software/neo430_ipbus_address_terminal/main.c:52-85 | returns 0; the globals become `Settle`'s values (the GPO is left alone); its register writes are `SetFrames`; without forced RARP it reads the identifier and then the IP word, with it only the identifier |
| Bootstrap.SetFramesDownstream | components/neo430_wrapper/software/neo430_ipbus_address_terminal/main.c:56-82 | the writes that reach the IPbus core are exactly: reset on, MAC, IP address unless RARP is forced, RARP flag, reset off |

## Left out

- The unbounded polling of `checkack` is not modelled as a loop that may not end.
  The status script must complete enough transfers, which every `requires` on `|Acks(...)|` states.
  A device that never finishes a transfer is not modelled.
- `delay` is recorded as one `Delay(cycles)` wait, not as its counting loop.
- Printing over the UART is left out, because it has no effect on the I2C bus or the IPbus core.
  This covers every `neo430_uart_*` message as well as `print_IP_address`, `print_MAC_address` and `print_GPO`.
- The `DEBUG` blocks are left out. They are compiled out by default.
  This includes the prescale read-back in `setup_i2c` and the `zero_buffer` call inside `read_i2c_prom`.
- `PROMNADDRBYTES` and `FORCE_RARP` are compile-time switches. They are modelled as parameters: `nAddr`, restricted to 1 or 2, and `forceRarp`.
- `eepromAddress` is a parameter (`dev`) rather than a global set by `setup_i2c`.
- The GPIO input read by `neo430_gpio_port_get` is a parameter of `SetupI2C`.
- The shared `buffer` global is threaded through as a value of length `MAX_N`.
- The console input that `write_Prom` and `write_PromGPO` read with `neo430_uart_scan` is a string parameter.
  - Identity.WriteProm: requires at most eight characters before the NUL. This is the limit the scan call enforces in the source.
  - Identity.WritePromGPO: requires at most four characters before the NUL, for the same reason.
- TextCodec.HexStrToUint32 requires at most eight characters. A ninth character is shifted by 32 bits or more, which C leaves undefined. Its only caller scans at most eight characters.
- TextCodec.HexStrToUint16 requires at most four characters. A fifth character is shifted by 16 bits or more. That is undefined where `int` has 16 bits, as on the NEO430. On a 32-bit host it is defined for five to seven characters, and the result is cut to 16 bits. Its only caller scans at most four characters.
- PromModel.ReadBackGpo: promises the round trip only for an EEPROM with one address byte. write_PromGPO always sends one address byte, so on a two-address-byte part it writes to a different cell than read_PromGPO reads. The source marks both functions as broken for such parts. GpoTwoAddressBytes states the mismatch.
- `wake_ax3_ATSHA204A` and `config_i2c_switch` are left out. Neither is called on the path modelled here.
  The switch configuration in `setMacIP` is commented out.
- The read of the general-purpose output in `setMacIP` is commented out in the source, so the model does not read it and leaves `gpo` unchanged.
- The command loop of `main` in the address-terminal program and the UART set-up are left out.
- `neo430_cmd_buffer.h` is not part of this model, apart from agreeing on `MAX_N` = 16.

## Findings

| source | as written | input that shows it | evidently intended | confidence | as-written member | corrected member |
|---|---|---|---|---|---|---|
| components/neo430_wrapper/software/lib/source/neo430_i2c.c:609 | On the NEO430, `int` has 16 bits. So `trialValue + delta` (two `uint16_t`) is `unsigned int`, the subtraction from `value` is unsigned, and `>= 0` always holds. Each digit is then incremented ten times. | any value, e.g. 0, yields the characters ":::" and a NUL | three decimal digits whose value is the input, then a NUL | high; not executed | TextCodec.Uint8ToDecimalStr16 | TextCodec.Uint8ToDecimalStr |
