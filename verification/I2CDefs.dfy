/**
 Constants of the OpenCores I2C master as the NEO430 driver sees it
 (lib/include/neo430_i2c.h): command and status bits, register offsets,
 the prescale default, the EEPROM memory map and the staging-buffer size.

 The C macros are written `0x1 << 7` without parentheses; every use in the
 driver combines them with `|` or `&`, where `<<` binds tighter, so each is
 its plain value here.

 Bytes are integers in 0..255. The driver's bit operations on them are
 written as arithmetic: testing a one-bit mask `m` is `(w / m) % 2 == 1`,
 OR-ing masks with no bit in common is their sum, `& 0x7f` is `% 0x80` and
 `<< 1` on a 7-bit value is `* 2`.
 */
module I2CDefs {

  /** An unsigned byte, as the driver's `uint8_t`: data, register words and counts. */
  type uint8 = x: int | 0 <= x < 0x100

  /** The driver's wider unsigned words, as mathematical integers in range. */
  type uint16 = x: int | 0 <= x < 0x1_0000
  type uint32 = x: int | 0 <= x < 0x1_0000_0000
  type uint64 = x: int | 0 <= x < 0x1_0000_0000_0000_0000

  // Command register, write side
  const ENABLECORE: uint8 := 0x80
  const STARTCMD: uint8 := 0x80
  const STOPCMD: uint8 := 0x40
  const READCMD: uint8 := 0x20
  const WRITECMD: uint8 := 0x10
  const ACK: uint8 := 0x08
  const INTACK: uint8 := 0x01

  // Status register, read side
  const RECVDACK: uint8 := 0x80
  const BUSY: uint8 := 0x40
  const ARBLOST: uint8 := 0x20
  const INPROGRESS: uint8 := 0x02
  const INTERRUPT: uint8 := 0x01

  /** The command words the driver actually issues: OR of bits that do not overlap. */
  const START_WRITE: uint8 := STARTCMD + WRITECMD
  const READ_ACK_STOP: uint8 := READCMD + ACK + STOPCMD

  /** Ratio of the processor clock to the SCL clock. */
  const I2C_PRESCALE: uint16 := 0x0400

  // Register offsets: byte addresses of 32-bit Wishbone words
  const ADDR_PRESCALE_LOW: nat := 0x0
  const ADDR_PRESCALE_HIGH: nat := 0x4
  const ADDR_CTRL: nat := 0x8
  const ADDR_DATA: nat := 0xC
  const ADDR_CMD_STAT: nat := 0x10

  /** The same five registers in the older one-byte-per-register layout. */
  const LEGACY_OFFSETS: seq<nat> := [0x0, 0x1, 0x2, 0x3, 0x4]

  /** Busy-wait length between status polls. */
  const DELAYVAL: nat := 512
  /** Busy-wait after enabling the core (at least 100us). */
  const SETTLE_DELAY: nat := 1000

  /** Size of the shared staging buffer `buffer[MAX_N]`. */
  const MAX_N: nat := 16

  // EEPROM memory map
  const PROMMEMORYADDR: uint8 := 0x00
  const PROMMEMORY_GPO_ADDR: uint8 := 0x10
  const PROMUIDADDR: uint8 := 0xFA
  const DEFAULT_PROMNADDRBYTES: nat := 1

  /** The EEPROM parts the driver knows need one or two address bytes. */
  predicate ValidAddrBytes(n: nat) {
    n == 1 || n == 2
  }

  /** Whether a word has bit 6, the STOP command bit, set. */
  predicate HasStop(w: uint8) {
    (w / 0x40) % 2 == 1
  }

  /** A status word whose transfer has not finished: bit 1, INPROGRESS, set. */
  predicate InProgress(w: uint8) {
    (w / 0x02) % 2 == 1
  }

  /** A status word reporting that the receiver acknowledged: bit 7, RECVDACK, clear (it is active low). */
  predicate AckReceived(w: uint8) {
    w < 0x80
  }

  /** Bus address byte for a write: 7-bit address followed by R/W = 0 (UM10204, section 3.1.10). */
  function WriteAddressByte(addr: uint8): (b: uint8)
    ensures b % 2 == 0
    ensures b / 2 == addr % 0x80
  {
    (addr % 0x80) * 2
  }

  /** Bus address byte for a read: the same 7-bit address followed by R/W = 1. */
  function ReadAddressByte(addr: uint8): (b: uint8)
    ensures b % 2 == 1
    ensures b / 2 == addr % 0x80
    ensures b == WriteAddressByte(addr) + 1
  {
    (addr % 0x80) * 2 + 1
  }

  /** The command words and which of them carry STOP. */
  lemma CommandWords()
    ensures START_WRITE == 0x90 && READ_ACK_STOP == 0x68 && ENABLECORE == 0x80
    ensures HasStop(READ_ACK_STOP) && HasStop(STOPCMD)
    ensures !HasStop(START_WRITE) && !HasStop(WRITECMD) && !HasStop(READCMD)
  {
  }

  /** The in-progress test looks at INPROGRESS, bit 1, and at nothing else, for every status word. */
  lemma InProgressBit(w: bv8)
    ensures InProgress(w as int) <==> w & 0x02 != 0
  {
    assert (w >> 1) as int == w as int / 2;
    assert ((w >> 1) & 1) as int == (w as int / 2) % 2;
  }

  /** The acknowledge test looks at RECVDACK, bit 7, which is active low, and at nothing else. */
  lemma AckReceivedBit(w: bv8)
    ensures AckReceived(w as int) <==> w & 0x80 == 0
  {
  }

  /** A command word sends STOP exactly when STOPCMD, bit 6, is set. */
  lemma HasStopBit(w: bv8)
    ensures HasStop(w as int) <==> w & 0x40 != 0
  {
    assert (w >> 6) as int == w as int / 0x40;
    assert ((w >> 6) & 1) as int == (w as int / 0x40) % 2;
  }

  /** The write address byte agrees with the driver's `(addr & 0x7f) << 1` on every byte. */
  lemma WriteAddressBits(a: bv8)
    ensures WriteAddressByte(a as int) == ((a & 0x7f) << 1) as int
  {
    var lo := (a & 0x7f) as int;
    assert a as int == (a >> 7) as int * 0x80 + lo;
    assert ((a & 0x7f) << 1) as int == lo * 2;
  }

  /** The read address byte agrees with the driver's `((addr & 0x7f) << 1) | 0x1` on every byte. */
  lemma ReadAddressBits(a: bv8)
    ensures ReadAddressByte(a as int) == (((a & 0x7f) << 1) | 1) as int
  {
    var lo := (a & 0x7f) as int;
    assert a as int == (a >> 7) as int * 0x80 + lo;
    assert (((a & 0x7f) << 1) | 1) as int == lo * 2 + 1;
  }

  lemma RegisterOffsets()
    ensures [ADDR_PRESCALE_LOW, ADDR_PRESCALE_HIGH, ADDR_CTRL, ADDR_DATA, ADDR_CMD_STAT]
         == seq(5, k requires 0 <= k < 5 => 4 * LEGACY_OFFSETS[k])
  {
  }
}
