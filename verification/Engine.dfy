/**
 The I2C transaction engine of lib/source/neo430_i2c.c: polling for the end
 of a transfer, addressed writes and reads, core setup and buffer clearing.
 Each operation takes the transport state and returns the new one; its
 contract ties the result to the ACK outcomes of the status script and the
 register writes to the frames of module Protocol.
 */
module Engine {
  import opened I2CDefs
  import opened Transport
  import opened Protocol

  /** Dropping a run of in-progress words leaves the ACK outcomes unchanged. */
  lemma {:induction false} AcksSkip(status: seq<uint8>, j: nat)
    requires j <= |status|
    requires forall i :: 0 <= i < j ==> InProgress(status[i])
    ensures Acks(status) == Acks(status[j..])
    decreases j
  {
    if j > 0 {
      assert status[1..][j - 1..] == status[j..];
      AcksSkip(status[1..], j - 1);
    }
  }

  /**
   checkack: busy-wait, read the status word, and repeat while INPROGRESS is
   set; the answer is whether the last word read had RECVDACK clear.
   */
  method CheckAck(bus: Bus, delayVal: nat) returns (ack: bool, bus': Bus)
    requires |Acks(bus.status)| > 0
    ensures var k := |bus.status| - |bus'.status|;
      && 1 <= k <= |bus.status|
      && bus'.status == bus.status[k..]
      && (forall j :: 0 <= j < k - 1 ==> InProgress(bus.status[j]))
      && !InProgress(bus.status[k - 1])
      && ack == AckReceived(bus.status[k - 1])
      && bus'.waits == bus.waits + Polls(k, delayVal)
    ensures bus'.trace == bus.trace && bus'.rx == bus.rx
    ensures ack == Acks(bus.status)[0]
    ensures Acks(bus'.status) == Acks(bus.status)[1..]
  {
    var inprogress := true;
    ack := false;
    bus' := bus;
    ghost var i := 0;
    while inprogress
      invariant 0 <= i <= |bus.status|
      invariant bus'.status == bus.status[i..] && bus'.rx == bus.rx && bus'.trace == bus.trace
      invariant bus'.waits == bus.waits + Polls(i, delayVal)
      invariant inprogress ==> forall j :: 0 <= j < i ==> InProgress(bus.status[j])
      invariant inprogress ==> Acks(bus'.status) == Acks(bus.status)
      invariant !inprogress ==> 1 <= i && !InProgress(bus.status[i - 1]) && ack == AckReceived(bus.status[i - 1])
      invariant !inprogress ==> forall j :: 0 <= j < i - 1 ==> InProgress(bus.status[j])
      decreases |bus'.status|
    {
      bus' := bus'.Spin(delayVal);
      var cmdStat;
      cmdStat, bus' := Read8(bus', ADDR_CMD_STAT);
      inprogress := InProgress(cmdStat);
      ack := AckReceived(cmdStat);
      i := i + 1;
    }
    AcksSkip(bus.status, i - 1);
    assert bus.status[i - 1..][1..] == bus.status[i..];
  }

  /**
   One transfer as the driver issues it: load the data register (when a byte
   is given), write the command word, then wait for the transfer to finish.
   */
  method Transfer(bus: Bus, load: seq<uint8>, cmd: uint8) returns (ack: bool, bus': Bus)
    requires |load| <= 1
    requires |Acks(bus.status)| > 0
    ensures ack == Acks(bus.status)[0]
    ensures Acks(bus'.status) == Acks(bus.status)[1..]
    ensures bus'.rx == bus.rx
    ensures bus'.trace == bus.trace
      + (if load == [] then [] else [RegWrite(ADDR_DATA, load[0])]) + [RegWrite(ADDR_CMD_STAT, cmd)]
  {
    bus' := bus;
    if load != [] {
      bus' := bus'.Write8(ADDR_DATA, load[0]);
    }
    bus' := bus'.Write8(ADDR_CMD_STAT, cmd);
    ack, bus' := CheckAck(bus', DELAYVAL);
  }

  lemma DataPhaseSnoc(bytes: seq<uint8>, i: nat)
    requires i < |bytes|
    ensures DataPhase(bytes[..i + 1])
         == DataPhase(bytes[..i]) + [RegWrite(ADDR_DATA, bytes[i]), RegWrite(ADDR_CMD_STAT, WRITECMD)]
  {
    assert bytes[..i + 1][..i] == bytes[..i];
  }

  /** One data byte of the write phase: load it, issue WRITE, poll for the ACK. */
  method SendByte(bus: Bus, b: uint8) returns (ack: bool, bus': Bus)
    requires |Acks(bus.status)| > 0
    ensures ack == Acks(bus.status)[0]
    ensures Acks(bus'.status) == Acks(bus.status)[1..]
    ensures bus'.rx == bus.rx
    ensures bus'.trace == bus.trace + [RegWrite(ADDR_DATA, b), RegWrite(ADDR_CMD_STAT, WRITECMD)]
  {
    ack, bus' := Transfer(bus, [b % 0x100], WRITECMD);
  }

  /**
   The data-byte loop of write_i2c_address: send bytes in turn until one is
   refused or all are sent. Returns how many were accepted.
   */
  method SendBytes(bus: Bus, bytes: seq<uint8>) returns (sent: nat, bus': Bus)
    requires |Acks(bus.status)| >= |bytes|
    ensures sent == FirstRefused(Acks(bus.status), |bytes|)
    ensures Acks(bus'.status) == Acks(bus.status)[Min(sent + 1, |bytes|)..]
    ensures bus'.rx == bus.rx
    ensures bus'.trace == bus.trace + DataPhase(bytes[..Min(sent + 1, |bytes|)])
  {
    ghost var acks := Acks(bus.status);
    bus' := bus;
    sent := 0;
    while sent < |bytes|
      invariant sent <= |bytes|
      invariant forall j :: 0 <= j < sent ==> acks[j]
      invariant Acks(bus'.status) == acks[sent..]
      invariant bus'.rx == bus.rx
      invariant bus'.trace == bus.trace + DataPhase(bytes[..sent])
    {
      var ack;
      ack, bus' := SendByte(bus', bytes[sent]);
      DataPhaseSnoc(bytes, sent);
      Assoc(bus.trace, DataPhase(bytes[..sent]), [RegWrite(ADDR_DATA, bytes[sent]), RegWrite(ADDR_CMD_STAT, WRITECMD)]);
      assert bus'.trace == bus.trace + DataPhase(bytes[..sent + 1]);
      SliceSlice(acks, sent, 1);
      assert Acks(bus'.status) == acks[sent + 1..];
      if !ack {
        FirstRefusedAt(acks, |bytes|, sent);
        assert Min(sent + 1, |bytes|) == sent + 1;
        return;
      }
      sent := sent + 1;
    }
    FirstRefusedAt(acks, |bytes|, sent);
    assert Min(sent + 1, |bytes|) == sent;
  }

  /** FirstRefused is the first refusal: its value is pinned by the ACKs before it and the one at it. */
  lemma {:induction false} FirstRefusedAt(acks: seq<bool>, n: nat, k: nat)
    requires k <= n <= |acks|
    requires forall j :: 0 <= j < k ==> acks[j]
    requires k < n ==> !acks[k]
    ensures FirstRefused(acks, n) == k
    decreases k
  {
    if k > 0 {
      FirstRefusedAt(acks[1..], n - 1, k - 1);
    }
  }

  /**
   write_i2c_address: send the write address byte, then the first `nToWrite`
   bytes of `data`, checking the ACK after each; STOP on the first refusal,
   otherwise STOP only when `stop` is set. `data` is an input only.
   */
  method WriteI2CAddress(bus: Bus, addr: uint8, nToWrite: uint8, data: seq<uint8>, stop: bool)
    returns (nwritten: int, bus': Bus)
    requires nToWrite <= |data|
    requires |Acks(bus.status)| >= 1 + nToWrite
    ensures nwritten == WriteOutcome(Acks(bus.status), nToWrite)
    ensures Acks(bus'.status) == Acks(bus.status)[AcksUsed(nwritten, nToWrite)..]
    ensures bus'.rx == bus.rx
    ensures bus'.trace == bus.trace + WriteFrame(addr, data[..nToWrite], nwritten, stop)
    ensures StopCount(bus'.trace) == StopCount(bus.trace) + (if nwritten < nToWrite || stop then 1 else 0)
  {
    ghost var acks := Acks(bus.status);
    var bytes := data[..nToWrite];
    ghost var head := AddressPhase(WriteAddressByte(addr));
    nwritten := -1;
    var a := addr % 0x80;
    a := a * 2;
    var ack;
    ack, bus' := Transfer(bus, [a], STARTCMD + WRITECMD);
    assert bus'.trace == bus.trace + head;
    if !ack {
      bus' := bus'.Write8(ADDR_CMD_STAT, STOPCMD);
      Concat3(bus.trace, head, [], [StopWrite]);
    } else {
      ghost var mid := bus'.trace;
      var sent;
      sent, bus' := SendBytes(bus', bytes);
      assert acks[1..][Min(sent + 1, nToWrite)..] == acks[AcksUsed(sent, nToWrite)..];
      nwritten := sent;
      ghost var tail: seq<Event> := if sent < nToWrite || stop then [StopWrite] else [];
      if sent < nToWrite || stop {
        bus' := bus'.Write8(ADDR_CMD_STAT, STOPCMD);
      }
      Concat3(bus.trace, head, DataPhase(bytes[..Min(sent + 1, nToWrite)]), tail);
    }
    WriteFrameStops(addr, bytes, nwritten, stop);
    StopCountAppend(bus.trace, WriteFrame(addr, bytes, nwritten, stop));
  }

  /**
   The data loop of read_i2c_address: one READ per byte (READ|ACK|STOP for the
   last), each followed by a read of the data register, stored in order.
   */
  method ReceiveBytes(bus: Bus, n: nat, data: seq<uint8>) returns (data': seq<uint8>, bus': Bus)
    requires n <= |data|
    requires |Acks(bus.status)| >= n
    requires |bus.rx| >= n
    ensures data' == bus.rx[..n] + data[n..]
    ensures bus'.rx == bus.rx[n..]
    ensures Acks(bus'.status) == Acks(bus.status)[n..]
    ensures bus'.trace == bus.trace + ReadCommands(n)
  {
    ghost var acks := Acks(bus.status);
    data', bus' := data, bus;
    var i: nat := 0;
    while i < n
      invariant i <= n
      invariant |data'| == |data| && data'[..i] == bus.rx[..i] && data'[i..] == data[i..]
      invariant bus'.rx == bus.rx[i..]
      invariant Acks(bus'.status) == acks[i..]
      invariant bus'.trace == bus.trace + ReadCommands(n)[..i]
    {
      var cmd: uint8 := if i < n - 1 then READCMD else READCMD + ACK + STOPCMD;
      assert ReadCommands(n)[..i + 1] == ReadCommands(n)[..i] + [RegWrite(ADDR_CMD_STAT, cmd)];
      var ack;
      ack, bus' := Transfer(bus', [], cmd);
      SliceSlice(acks, i, 1);
      var val;
      val, bus' := Read8(bus', ADDR_DATA);
      SliceSlice(bus.rx, i, 1);
      data' := data'[i := val % 0x100];
      assert data'[..i + 1] == bus.rx[..i + 1];
      i := i + 1;
    }
    assert ReadCommands(n)[..i] == ReadCommands(n);
    assert data' == data'[..n] + data'[n..];
  }

  /**
   read_i2c_address: send the read address byte; when it is refused, STOP and
   return 0 with `data` untouched. Otherwise issue one READ per byte (the last
   one with ACK and STOP), store each received byte, and return `n`. The ACK
   outcome of the data phase is polled for but not used.
   */
  method ReadI2CAddress(bus: Bus, addr: uint8, n: uint8, data: seq<uint8>)
    returns (count: int, data': seq<uint8>, bus': Bus)
    requires n <= |data|
    requires |Acks(bus.status)| >= 1 + n
    requires |bus.rx| >= n
    ensures |data'| == |data|
    ensures var acks := Acks(bus.status);
      && (!acks[0] ==> count == 0 && data' == data && bus'.rx == bus.rx && Acks(bus'.status) == acks[1..])
      && (acks[0] ==> count == n && data' == bus.rx[..n] + data[n..] && bus'.rx == bus.rx[n..]
                      && Acks(bus'.status) == acks[1 + n..])
      && bus'.trace == bus.trace + ReadFrame(addr, n, acks[0])
      && StopCount(bus'.trace) == StopCount(bus.trace) + (if !acks[0] || n > 0 then 1 else 0)
  {
    ghost var acks := Acks(bus.status);
    ghost var head := AddressPhase(ReadAddressByte(addr));
    var a := addr % 0x80;
    a := a * 2;
    a := a + 0x1;
    var ack;
    ack, bus' := Transfer(bus, [a], STARTCMD + WRITECMD);
    assert bus'.trace == bus.trace + head;
    if !ack {
      bus' := bus'.Write8(ADDR_CMD_STAT, STOPCMD);
      count, data' := 0, data;
      Concat3(bus.trace, head, [], [StopWrite]);
    } else {
      data', bus' := ReceiveBytes(bus', n, data);
      assert acks[1..][n..] == acks[1 + n..];
      count := n;
      Concat3(bus.trace, head, ReadCommands(n), []);
    }
    ReadFrameStops(addr, n, ack);
    StopCountAppend(bus.trace, ReadFrame(addr, n, ack));
  }

  /**
   setup_i2c: take the EEPROM's bus address from the low byte of the GPIO
   input, disable the core, write the prescale low and high bytes, re-enable
   the core, then wait for it to settle.
   */
  method SetupI2C(bus: Bus, gpio: uint16) returns (eepromAddress: uint8, bus': Bus)
    ensures eepromAddress == gpio % 0x100
    ensures |bus'.trace| == |bus.trace| + 4
    ensures var w := bus'.trace[|bus.trace|..];
      && bus'.trace[..|bus.trace|] == bus.trace
      && w[0] == RegWrite(ADDR_CTRL, 0)
      && w[1].RegWrite? && w[1].reg == ADDR_PRESCALE_LOW
      && w[2].RegWrite? && w[2].reg == ADDR_PRESCALE_HIGH
      && w[3] == RegWrite(ADDR_CTRL, ENABLECORE)
      && w[2].value * 0x100 + w[1].value == I2C_PRESCALE
    ensures bus'.waits == bus.waits + [Delay(SETTLE_DELAY)]
    ensures bus'.status == bus.status && bus'.rx == bus.rx
  {
    var prescale: uint16 := I2C_PRESCALE;
    eepromAddress := gpio % 0x100;
    bus' := bus.Write8(ADDR_CTRL, 0);
    bus' := bus'.Write8(ADDR_PRESCALE_LOW, prescale % 0x100);
    bus' := bus'.Write8(ADDR_PRESCALE_HIGH, (prescale / 0x100) % 0x100);
    bus' := bus'.Write8(ADDR_CTRL, ENABLECORE);
    bus' := bus'.Spin(SETTLE_DELAY);
  }

  /** zero_buffer: clear `buffer[0..elements)`, keep the rest, and return `elements`. */
  method ZeroBuffer(buffer: seq<uint8>, elements: nat) returns (r: nat, buffer': seq<uint8>)
    requires elements <= |buffer|
    ensures r == elements
    ensures |buffer'| == |buffer|
    ensures forall i :: 0 <= i < elements ==> buffer'[i] == 0
    ensures buffer'[elements..] == buffer[elements..]
  {
    buffer' := buffer;
    var i := 0;
    while i < elements
      invariant i <= elements && |buffer'| == |buffer|
      invariant forall j :: 0 <= j < i ==> buffer'[j] == 0
      invariant buffer'[i..] == buffer[i..]
    {
      buffer' := buffer'[i := 0];
      i := i + 1;
    }
    r := elements;
  }
}
