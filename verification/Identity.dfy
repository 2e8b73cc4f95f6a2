/**
 The EEPROM operations of lib/source/neo430_i2c.c at register level:
 read_i2c_prom and the word reads and writes built on it (read_UID,
 read_Prom, read_PromGPO, write_Prom, write_PromGPO, dump_Prom). The
 shared staging buffer `buffer[MAX_N]` is passed in and returned; the
 EEPROM's bus address (set by setup_i2c) and the number of memory-address
 bytes the part takes (the build switch PROMNADDRBYTES) are parameters.
 Each method is proved to do what the ACK-level reference of module
 PromModel says.
 */
module Identity {
  import opened I2CDefs
  import opened Transport
  import opened Protocol
  import opened Words
  import opened TextCodec
  import opened Engine
  import opened PromModel

  /**
   read_i2c_prom: stage the memory address, write it without STOP, then read
   `n` bytes into the buffer. Always returns 0.
   */
  method ReadI2CProm(bus: Bus, dev: uint8, nAddr: nat, start: uint8, n: uint8, buffer: seq<uint8>)
    returns (status: int, buffer': seq<uint8>, bus': Bus)
    requires |buffer| == MAX_N && n <= MAX_N && CanAccess(PortOf(bus, buffer), nAddr, n)
    ensures status == 0
    ensures PortOf(bus', buffer') == AfterAccess(PortOf(bus, buffer), nAddr, start, n)
    ensures bus'.trace == bus.trace + PromFrames(Acks(bus.status), dev, nAddr, start, n)
  {
    var staged := StageAddress(buffer, start, nAddr);
    var w;
    w, bus' := WriteI2CAddress(bus, dev, nAddr, staged, false);
    ghost var mid := bus';
    var count;
    count, buffer', bus' := ReadI2CAddress(bus', dev, n, staged);
    ComposeAccess(Acks(bus.status), bus.rx, buffer, dev, nAddr, start, n, w, Acks(mid.status), Acks(bus'.status),
                  bus'.rx, buffer', bus.trace, mid.trace, bus'.trace);
    status := 0;
  }

  /** The first one-byte read of a sweep, leaving enough of the bus for the rest. */
  method ReadHead(bus: Bus, dev: uint8, nAddr: nat, offsets: seq<uint8>, buffer: seq<uint8>)
    returns (staged: seq<uint8>, bus1: Bus)
    requires |buffer| == MAX_N && offsets != [] && CanSweep(PortOf(bus, buffer), nAddr, |offsets|)
    ensures PortOf(bus1, staged) == AfterAccess(PortOf(bus, buffer), nAddr, offsets[0], 1)
    ensures |staged| == MAX_N && CanSweep(PortOf(bus1, staged), nAddr, |offsets| - 1)
    ensures bus1.trace == bus.trace + PromFrames(Acks(bus.status), dev, nAddr, offsets[0], 1)
  {
    var status;
    status, staged, bus1 := ReadI2CProm(bus, dev, nAddr, offsets[0], 1, buffer);
    ComposeSweep(PortOf(bus, buffer), nAddr, offsets, PortOf(bus1, staged), [], PortOf(bus1, staged));
  }

  /**
   A run of one-byte read_i2c_prom calls at each memory address of
   `offsets` in turn, keeping the first buffer byte after each: the body of
   read_UID (six addresses) and of dump_Prom (thirty-two).
   */
  method ReadOffsets(bus: Bus, dev: uint8, nAddr: nat, offsets: seq<uint8>, buffer: seq<uint8>)
    returns (bytes: seq<uint8>, buffer': seq<uint8>, bus': Bus)
    requires |buffer| == MAX_N && CanSweep(PortOf(bus, buffer), nAddr, |offsets|)
    ensures var s := ReadEach(PortOf(bus, buffer), nAddr, offsets);
      bytes == s.bytes && PortOf(bus', buffer') == s.port
    ensures bus'.trace == bus.trace + SweepFrames(Acks(bus.status), dev, nAddr, offsets)
    decreases |offsets|
  {
    if offsets == [] {
      bytes, buffer', bus' := [], buffer, bus;
      return;
    }
    var staged, bus1 := ReadHead(bus, dev, nAddr, offsets, buffer);
    var rest;
    rest, buffer', bus' := ReadOffsets(bus1, dev, nAddr, offsets[1..], staged);
    bytes := [staged[0]] + rest;
    ComposeSweep(PortOf(bus, buffer), nAddr, offsets, PortOf(bus1, staged), rest, PortOf(bus', buffer'));
    ComposeSweepFrames(Acks(bus.status), dev, nAddr, offsets, bus.trace, bus1.trace, bus'.trace);
  }

  /** read_UID: six one-byte reads at PROMUIDADDR onwards, assembled most significant byte first into a 48-bit identifier. */
  method ReadUID(bus: Bus, dev: uint8, nAddr: nat, buffer: seq<uint8>) returns (uid: uint64, buffer': seq<uint8>, bus': Bus)
    requires |buffer| == MAX_N && CanSweep(PortOf(bus, buffer), nAddr, 6)
    ensures var s := ReadEach(PortOf(bus, buffer), nAddr, UidOffsets);
      uid == Assemble(s.bytes) && PortOf(bus', buffer') == s.port
    ensures uid < 0x1_0000_0000_0000
    ensures bus'.trace == bus.trace + SweepFrames(Acks(bus.status), dev, nAddr, UidOffsets)
  {
    var b;
    b, buffer', bus' := ReadOffsets(bus, dev, nAddr, UidOffsets, buffer);
    Assemble6(b);
    uid := b[5] as int + b[4] as int * 0x100 + b[3] as int * 0x1_0000 + b[2] as int * 0x100_0000
      + b[1] as int * 0x1_0000_0000 + b[0] as int * 0x100_0000_0000;
  }

  /** read_Prom: read four bytes from PROMMEMORYADDR and assemble them most significant byte first. */
  method ReadProm(bus: Bus, dev: uint8, nAddr: nat, buffer: seq<uint8>) returns (word: uint32, buffer': seq<uint8>, bus': Bus)
    requires |buffer| == MAX_N && CanAccess(PortOf(bus, buffer), nAddr, 4)
    ensures PortOf(bus', buffer') == AfterAccess(PortOf(bus, buffer), nAddr, PROMMEMORYADDR, 4)
    ensures word == Assemble(buffer'[..4])
    ensures bus'.trace == bus.trace + PromFrames(Acks(bus.status), dev, nAddr, PROMMEMORYADDR, 4)
  {
    var status;
    status, buffer', bus' := ReadI2CProm(bus, dev, nAddr, PROMMEMORYADDR, 4, buffer);
    Assemble4(buffer'[..4]);
    word := buffer'[3] as int + buffer'[2] as int * 0x100 + buffer'[1] as int * 0x1_0000 + buffer'[0] as int * 0x100_0000;
  }

  /** read_PromGPO: read two bytes from PROMMEMORY_GPO_ADDR and assemble them most significant byte first. */
  method ReadPromGPO(bus: Bus, dev: uint8, nAddr: nat, buffer: seq<uint8>) returns (gpo: uint16, buffer': seq<uint8>, bus': Bus)
    requires |buffer| == MAX_N && CanAccess(PortOf(bus, buffer), nAddr, 2)
    ensures PortOf(bus', buffer') == AfterAccess(PortOf(bus, buffer), nAddr, PROMMEMORY_GPO_ADDR, 2)
    ensures gpo == Assemble(buffer'[..2])
    ensures bus'.trace == bus.trace + PromFrames(Acks(bus.status), dev, nAddr, PROMMEMORY_GPO_ADDR, 2)
  {
    var status;
    status, buffer', bus' := ReadI2CProm(bus, dev, nAddr, PROMMEMORY_GPO_ADDR, 2, buffer);
    Assemble2(buffer'[..2]);
    gpo := buffer'[1] as int + buffer'[0] as int * 0x100;
  }

  /**
   write_Prom: parse the operator's hexadecimal text into a 32-bit word, stage
   the memory address and the word most significant byte first, and send it
   all in one write transaction that ends with STOP. Returns the write's
   outcome.
   */
  method WriteProm(bus: Bus, dev: uint8, nAddr: nat, command: seq<char>, buffer: seq<uint8>)
    returns (status: int, buffer': seq<uint8>, bus': Bus)
    requires ValidAddrBytes(nAddr) && |buffer| == MAX_N && Strlen(command) <= 8
    requires |Acks(bus.status)| >= 5 + nAddr
    ensures |buffer'| == MAX_N
    ensures status == WriteOutcome(Acks(bus.status), 4 + nAddr)
    ensures var data := HexValue(command[..Strlen(command)]);
      && buffer'[..4 + nAddr] == PromImage(nAddr, data)
      && buffer'[4 + nAddr..] == buffer[4 + nAddr..]
      && bus'.trace == bus.trace + WriteFrame(dev, PromImage(nAddr, data), status, true)
    ensures Acks(bus'.status) == Acks(bus.status)[AcksUsed(status, 4 + nAddr)..] && bus'.rx == bus.rx
    ensures StopCount(bus'.trace) == StopCount(bus.trace) + 1
  {
    var data := HexStrToUint32(command);
    buffer' := buffer[0 := PROMMEMORYADDR];
    if nAddr == 2 {
      buffer' := buffer'[1 := PROMMEMORYADDR];
    }
    var i: nat := 0;
    while i < 4
      invariant i <= 4 && |buffer'| == MAX_N
      invariant buffer'[..nAddr] == AddressBytes(PROMMEMORYADDR, nAddr)
      invariant forall j :: 0 <= j < i ==> buffer'[4 - j + nAddr - 1] == ByteOf(data, j)
      invariant buffer'[4 + nAddr..] == buffer[4 + nAddr..]
    {
      buffer' := buffer'[4 - i + nAddr - 1 := ByteOf(data, i)];
      i := i + 1;
    }
    PackWord(buffer', nAddr, data, 4);
    assert buffer'[..4 + nAddr] == buffer'[..nAddr] + buffer'[nAddr..nAddr + 4];
    status, bus' := WriteI2CAddress(bus, dev, (4 + nAddr) as uint8, buffer', true);
  }

  /**
   write_PromGPO: parse the operator's hexadecimal text into a 16-bit word and
   write it at PROMMEMORY_GPO_ADDR, most significant byte first, ending with
   STOP. It always sends a single memory-address byte.
   */
  method WritePromGPO(bus: Bus, dev: uint8, command: seq<char>, buffer: seq<uint8>)
    returns (status: int, buffer': seq<uint8>, bus': Bus)
    requires |buffer| == MAX_N && Strlen(command) <= 4
    requires |Acks(bus.status)| >= 4
    ensures |buffer'| == MAX_N
    ensures status == WriteOutcome(Acks(bus.status), 3)
    ensures var data := HexValue(command[..Strlen(command)]);
      && buffer'[..3] == GpoImage(data)
      && buffer'[3..] == buffer[3..]
      && bus'.trace == bus.trace + WriteFrame(dev, GpoImage(data), status, true)
    ensures Acks(bus'.status) == Acks(bus.status)[AcksUsed(status, 3)..] && bus'.rx == bus.rx
    ensures StopCount(bus'.trace) == StopCount(bus.trace) + 1
  {
    var data := HexStrToUint16(command);
    buffer' := buffer[0 := PROMMEMORY_GPO_ADDR];
    var i: nat := 0;
    while i < 2
      invariant i <= 2 && |buffer'| == MAX_N
      invariant buffer'[0] == PROMMEMORY_GPO_ADDR
      invariant forall j :: 0 <= j < i ==> buffer'[2 - j + 1 - 1] == ByteOf(data, j)
      invariant buffer'[3..] == buffer[3..]
    {
      buffer' := buffer'[2 - i := ByteOf(data, i)];
      i := i + 1;
    }
    PackWord(buffer', 1, data, 2);
    assert buffer'[..3] == [buffer'[0]] + buffer'[1..3];
    status, bus' := WriteI2CAddress(bus, dev, 3, buffer', true);
  }

  /** dump_Prom: one-byte reads of memory addresses 0 to 31; the bytes are what it prints after each address. */
  method DumpProm(bus: Bus, dev: uint8, nAddr: nat, buffer: seq<uint8>) returns (bytes: seq<uint8>, buffer': seq<uint8>, bus': Bus)
    requires |buffer| == MAX_N && CanSweep(PortOf(bus, buffer), nAddr, 32)
    ensures var s := ReadEach(PortOf(bus, buffer), nAddr, DumpOffsets);
      bytes == s.bytes && PortOf(bus', buffer') == s.port
    ensures bus'.trace == bus.trace + SweepFrames(Acks(bus.status), dev, nAddr, DumpOffsets)
  {
    bytes, buffer', bus' := ReadOffsets(bus, dev, nAddr, DumpOffsets, buffer);
  }
}
