/**
 The bus-level shape of one I2C transaction as the driver frames it, stated
 independently of the polling loop: which register writes a write or a read
 transaction issues, given the ACK outcomes the bus reported, and how many
 ACK polls it spends. The engine's methods are proved to produce exactly these.
 */
module Protocol {
  import opened I2CDefs
  import opened Transport

  function Min(a: int, b: int): int {
    if a <= b then a else b
  }

  const StopWrite: Event := RegWrite(ADDR_CMD_STAT, STOPCMD)

  /** Load the address byte, then START + WRITE (0x90). */
  function AddressPhase(b: uint8): seq<Event> {
    [RegWrite(ADDR_DATA, b), RegWrite(ADDR_CMD_STAT, START_WRITE)]
  }

  /** Each payload byte: load it, then WRITE (0x10). */
  function DataPhase(bytes: seq<uint8>): (t: seq<Event>)
    ensures |t| == 2 * |bytes|
  {
    if bytes == [] then []
    else DataPhase(bytes[..|bytes| - 1]) + [RegWrite(ADDR_DATA, bytes[|bytes| - 1]), RegWrite(ADDR_CMD_STAT, WRITECMD)]
  }

  /** Byte i of the payload is loaded at position 2i and sent by the WRITE at 2i + 1. */
  lemma {:induction false} DataPhaseAt(bytes: seq<uint8>, i: nat)
    requires i < |bytes|
    ensures DataPhase(bytes)[2 * i] == RegWrite(ADDR_DATA, bytes[i])
    ensures DataPhase(bytes)[2 * i + 1] == RegWrite(ADDR_CMD_STAT, WRITECMD)
    decreases |bytes|
  {
    if i < |bytes| - 1 {
      DataPhaseAt(bytes[..|bytes| - 1], i);
    }
  }

  /** READ (0x20) for every byte but the last, READ|ACK|STOP (0x68) for the last. */
  function ReadCommands(n: nat): (t: seq<Event>)
    ensures |t| == n
  {
    seq(n, i requires 0 <= i < n => RegWrite(ADDR_CMD_STAT, if i < n - 1 then READCMD else READ_ACK_STOP))
  }

  /** The least k < n at which `acks` reports a refusal, or n when there is none. */
  function FirstRefused(acks: seq<bool>, n: nat): (k: nat)
    requires n <= |acks|
    ensures k <= n
    ensures forall j :: 0 <= j < k ==> acks[j]
    ensures k < n ==> !acks[k]
  {
    if n == 0 || !acks[0] then 0 else 1 + FirstRefused(acks[1..], n - 1)
  }

  /**
   write_i2c_address's return value for a transaction of `n` data bytes, when
   the bus reports `acks` in turn (the address byte first): -1 when the address
   is refused, k when data byte k is refused, n when every byte is accepted.
   */
  function WriteOutcome(acks: seq<bool>, n: nat): (r: int)
    requires |acks| >= 1 + n
    ensures -1 <= r <= n
    ensures r == -1 <==> !acks[0]
    ensures forall j :: 1 <= j <= r ==> acks[j]
    ensures 0 <= r < n ==> !acks[1 + r]
  {
    if !acks[0] then -1 else FirstRefused(acks[1..], n)
  }

  /** ACK polls a write transaction of `n` bytes spends when it returns `r`. */
  function AcksUsed(r: int, n: nat): (used: nat)
    requires -1 <= r <= n
    ensures 1 <= used <= n + 1
  {
    if r == -1 then 1 else if r < n then r + 2 else n + 1
  }

  /**
   The register writes of a write transaction that returned `r`: the address
   phase; then, unless the address was refused, every data byte up to and
   including a refused one; then STOP on a refusal or when `stop` is asked for.
   */
  function WriteFrame(addr: uint8, bytes: seq<uint8>, r: int, stop: bool): seq<Event>
    requires -1 <= r <= |bytes|
  {
    AddressPhase(WriteAddressByte(addr))
    + (if r == -1 then [StopWrite]
       else DataPhase(bytes[..Min(r + 1, |bytes|)]) + (if r < |bytes| || stop then [StopWrite] else []))
  }

  /** The register writes of a read transaction of `n` bytes whose address was (or was not) acknowledged. */
  function ReadFrame(addr: uint8, n: nat, acked: bool): seq<Event> {
    AddressPhase(ReadAddressByte(addr)) + (if acked then ReadCommands(n) else [StopWrite])
  }

  lemma DataPhaseSendsNoStop(bytes: seq<uint8>)
    ensures StopCount(DataPhase(bytes)) == 0
  {
    CommandWords();
    var t := DataPhase(bytes);
    forall i | 0 <= i < |t|
      ensures !IssuesStop(t[i])
    {
      DataPhaseAt(bytes, i / 2);
      if i % 2 == 0 {
        assert t[2 * (i / 2)] == RegWrite(ADDR_DATA, bytes[i / 2]);
      } else {
        assert t[2 * (i / 2) + 1] == RegWrite(ADDR_CMD_STAT, WRITECMD);
      }
    }
    NoStopInside(t);
  }

  lemma ReadCommandsStops(n: nat)
    ensures StopCount(ReadCommands(n)) == (if n > 0 then 1 else 0)
  {
    CommandWords();
    if n > 0 {
      var t := ReadCommands(n);
      assert t == t[..n - 1] + [t[n - 1]];
      NoStopInside(t[..n - 1]);
      OneStop(t[n - 1]);
      StopCountAppend(t[..n - 1], [t[n - 1]]);
    }
  }

  /**
   A write transaction sends STOP exactly once when a byte is refused or when
   `stop` is asked for, and never otherwise (the bus is left held).
   */
  lemma WriteFrameStops(addr: uint8, bytes: seq<uint8>, r: int, stop: bool)
    requires -1 <= r <= |bytes|
    ensures StopCount(WriteFrame(addr, bytes, r, stop)) == (if r < |bytes| || stop then 1 else 0)
  {
    var a := AddressPhase(WriteAddressByte(addr));
    CommandWords();
    NoStopInside(a);
    OneStop(StopWrite);
    if r == -1 {
      StopCountAppend(a, [StopWrite]);
    } else {
      var d := DataPhase(bytes[..Min(r + 1, |bytes|)]);
      var s: seq<Event> := if r < |bytes| || stop then [StopWrite] else [];
      DataPhaseSendsNoStop(bytes[..Min(r + 1, |bytes|)]);
      StopCountAppend(d, s);
      StopCountAppend(a, d + s);
      assert WriteFrame(addr, bytes, r, stop) == a + (d + s);
    }
  }

  /**
   A read transaction sends one STOP when its address is refused, one STOP (in
   READ|ACK|STOP) when it reads at least one byte, and none when it reads none.
   */
  lemma ReadFrameStops(addr: uint8, n: nat, acked: bool)
    ensures StopCount(ReadFrame(addr, n, acked)) == (if !acked || n > 0 then 1 else 0)
  {
    var a := AddressPhase(ReadAddressByte(addr));
    CommandWords();
    NoStopInside(a);
    if acked {
      ReadCommandsStops(n);
      StopCountAppend(a, ReadCommands(n));
    } else {
      OneStop(StopWrite);
      StopCountAppend(a, [StopWrite]);
    }
  }
}
