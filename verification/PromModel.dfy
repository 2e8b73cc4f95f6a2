/**
 The EEPROM accesses of lib/source/neo430_i2c.c at the level of ACK
 outcomes: what read_i2c_prom leaves in the staging buffer, how many
 outcomes and received bytes it uses and which register writes it issues,
 given the outcomes the bus reports and the bytes the EEPROM returns; and
 the same for a sweep of one-byte reads over a list of memory addresses, as
 read_UID and dump_Prom perform. The register-level methods of module
 Identity are proved to behave exactly so.
 */
module PromModel {
  import opened I2CDefs
  import opened Transport
  import opened Protocol
  import opened Words

  /**
   The staging buffer with the memory address loaded: the start address in
   byte 0 and, for parts with two address bytes, in byte 1 as well.
   */
  function StageAddress(buffer: seq<uint8>, start: uint8, nAddr: nat): (b: seq<uint8>)
    requires ValidAddrBytes(nAddr) && nAddr <= |buffer|
    ensures |b| == |buffer|
    ensures forall i :: 0 <= i < nAddr ==> b[i] == start
    ensures b[nAddr..] == buffer[nAddr..]
  {
    if nAddr == 1 then buffer[0 := start] else buffer[0 := start][1 := start]
  }

  /** The memory address as the write phase sends it: the start address once per address byte. */
  function AddressBytes(start: uint8, nAddr: nat): (b: seq<uint8>)
    ensures |b| == nAddr
  {
    seq(nAddr, _ => start)
  }

  lemma StagedAddressBytes(buffer: seq<uint8>, start: uint8, nAddr: nat)
    requires ValidAddrBytes(nAddr) && nAddr <= |buffer|
    ensures StageAddress(buffer, start, nAddr)[..nAddr] == AddressBytes(start, nAddr)
  {
  }

  /** The first `end` staged bytes: the address bytes, then the buffer's own bytes up to `end`. */
  lemma StagedWindow(buffer: seq<uint8>, start: uint8, nAddr: nat, end: nat)
    requires ValidAddrBytes(nAddr) && nAddr <= end <= |buffer|
    ensures StageAddress(buffer, start, nAddr)[..end] == AddressBytes(start, nAddr) + buffer[nAddr..end]
  {
    var s := StageAddress(buffer, start, nAddr);
    StagedAddressBytes(buffer, start, nAddr);
    SameWindow(s, buffer, nAddr, end);
    assert s[..end] == s[..nAddr] + s[nAddr..end];
  }

  /** What one EEPROM access leaves behind: the buffer, and how many ACK outcomes and received bytes it used. */
  datatype Access = Access(buffer: seq<uint8>, acksUsed: nat, rxUsed: nat)

  /** The ACK outcomes an access of `n` bytes can use at most: the write's address and memory-address bytes, the read's address and data bytes. */
  function AccessBudget(nAddr: nat, n: nat): nat {
    2 + nAddr + n
  }

  /**
   The ACK outcomes one access uses: those of the address write, then the
   read's address byte and, when that is acknowledged, one per data byte.
   */
  function AcksSpent(acks: seq<bool>, nAddr: nat, n: nat): (c: nat)
    requires ValidAddrBytes(nAddr) && |acks| >= AccessBudget(nAddr, n)
    ensures 2 <= c <= AccessBudget(nAddr, n)
  {
    var u := AcksUsed(WriteOutcome(acks, nAddr), nAddr);
    u + 1 + (if acks[u] then n else 0)
  }

  /**
   read_i2c_prom: write the memory address without STOP (so the read that
   follows is a repeated START), ignoring the outcome, then read `n` bytes
   into the buffer. The read is attempted whatever the write reported; when
   its address is refused the buffer keeps the staged address bytes.
   */
  function PromRead(acks: seq<bool>, rx: seq<uint8>, buffer: seq<uint8>, nAddr: nat, start: uint8, n: nat): (t: Access)
    requires ValidAddrBytes(nAddr) && nAddr <= |buffer| && n <= |buffer|
    requires |acks| >= AccessBudget(nAddr, n) && |rx| >= n
    ensures |t.buffer| == |buffer|
    ensures t.acksUsed <= AccessBudget(nAddr, n) && t.rxUsed <= n
  {
    var staged := StageAddress(buffer, start, nAddr);
    var acked := acks[AcksUsed(WriteOutcome(acks, nAddr), nAddr)];
    Access(if acked then rx[..n] + staged[n..] else staged, AcksSpent(acks, nAddr, n), if acked then n else 0)
  }

  /** The register writes of that access: the memory-address write, left without STOP, then the read. */
  function PromFrames(acks: seq<bool>, dev: uint8, nAddr: nat, start: uint8, n: nat): seq<Event>
    requires ValidAddrBytes(nAddr) && |acks| >= AccessBudget(nAddr, n)
  {
    var w := WriteOutcome(acks, nAddr);
    WriteFrame(dev, AddressBytes(start, nAddr), w, false) + ReadFrame(dev, n, acks[AcksUsed(w, nAddr)])
  }

  /**
   When the EEPROM acknowledges everything, the first `n` buffer bytes are
   the bytes it sent and the rest keep the staged contents.
   */
  lemma PromReadAllAcked(acks: seq<bool>, rx: seq<uint8>, buffer: seq<uint8>, nAddr: nat, start: uint8, n: nat)
    requires ValidAddrBytes(nAddr) && nAddr <= |buffer| && n <= |buffer|
    requires |acks| >= AccessBudget(nAddr, n) && |rx| >= n
    requires forall j :: 0 <= j < AccessBudget(nAddr, n) ==> acks[j]
    ensures var t := PromRead(acks, rx, buffer, nAddr, start, n);
      && t.buffer[..n] == rx[..n]
      && t.buffer[n..] == StageAddress(buffer, start, nAddr)[n..]
      && t.acksUsed == AccessBudget(nAddr, n) && t.rxUsed == n
  {
    FirstRefusedAll(acks[1..], nAddr);
  }

  /** When the EEPROM acknowledges everything, an access uses its whole budget of outcomes and the only STOP on the bus is the one that ends the read. */
  lemma PromFramesAllAcked(acks: seq<bool>, dev: uint8, nAddr: nat, start: uint8, n: nat)
    requires ValidAddrBytes(nAddr) && |acks| >= AccessBudget(nAddr, n)
    requires forall j :: 0 <= j < AccessBudget(nAddr, n) ==> acks[j]
    ensures AcksSpent(acks, nAddr, n) == AccessBudget(nAddr, n)
    ensures StopCount(PromFrames(acks, dev, nAddr, start, n)) == (if n > 0 then 1 else 0)
  {
    var w := WriteOutcome(acks, nAddr);
    FirstRefusedAll(acks[1..], nAddr);
    assert w == nAddr;
    WriteFrameStops(dev, AddressBytes(start, nAddr), w, false);
    ReadFrameStops(dev, n, true);
    StopCountAppend(WriteFrame(dev, AddressBytes(start, nAddr), w, false), ReadFrame(dev, n, true));
  }

  lemma {:induction false} FirstRefusedAll(acks: seq<bool>, n: nat)
    requires n <= |acks|
    requires forall j :: 0 <= j < n ==> acks[j]
    ensures FirstRefused(acks, n) == n
    decreases n
  {
    if n > 0 {
      FirstRefusedAll(acks[1..], n - 1);
    }
  }

  /**
   When no device answers, both transactions are refused at their address
   byte, so the buffer is left holding the staged memory address.
   */
  lemma PromReadAbsent(acks: seq<bool>, rx: seq<uint8>, buffer: seq<uint8>, nAddr: nat, start: uint8, n: nat)
    requires ValidAddrBytes(nAddr) && nAddr <= |buffer| && n <= |buffer|
    requires |acks| >= AccessBudget(nAddr, n) && |rx| >= n
    requires !acks[0] && !acks[1]
    ensures var t := PromRead(acks, rx, buffer, nAddr, start, n);
      && t.buffer == StageAddress(buffer, start, nAddr)
      && t.buffer[0] == start
      && t.acksUsed == 2 && t.rxUsed == 0
  {
  }

  /** When no device answers, an access uses two outcomes and sends two STOPs, one per refused address byte. */
  lemma PromFramesAbsent(acks: seq<bool>, dev: uint8, nAddr: nat, start: uint8, n: nat)
    requires ValidAddrBytes(nAddr) && |acks| >= AccessBudget(nAddr, n)
    requires !acks[0] && !acks[1]
    ensures AcksSpent(acks, nAddr, n) == 2
    ensures StopCount(PromFrames(acks, dev, nAddr, start, n)) == 2
  {
    WriteFrameStops(dev, AddressBytes(start, nAddr), -1, false);
    ReadFrameStops(dev, n, false);
    StopCountAppend(WriteFrame(dev, AddressBytes(start, nAddr), -1, false), ReadFrame(dev, n, false));
  }

  /** A refused memory-address write does not stop the read: if the read's address is acknowledged the data still arrive. */
  lemma PromReadAfterRefusedWrite(acks: seq<bool>, rx: seq<uint8>, buffer: seq<uint8>, nAddr: nat, start: uint8, n: nat)
    requires ValidAddrBytes(nAddr) && nAddr <= |buffer| && n <= |buffer|
    requires |acks| >= AccessBudget(nAddr, n) && |rx| >= n
    requires !acks[0] && acks[1]
    ensures var t := PromRead(acks, rx, buffer, nAddr, start, n);
      && t.buffer[..n] == rx[..n]
      && t.acksUsed == 2 + n && t.rxUsed == n
  {
  }

  /**
   Composing the two transactions of read_i2c_prom: whatever the memory
   address write and the data read each did, as their own contracts state
   it, together they are one access as PromRead and PromFrames describe.
   */
  lemma ComposeAccess(acks: seq<bool>, rx: seq<uint8>, buffer: seq<uint8>, dev: uint8, nAddr: nat, start: uint8, n: nat,
                      w: int, acks1: seq<bool>, acks2: seq<bool>, rx2: seq<uint8>, buffer2: seq<uint8>,
                      trace0: seq<Event>, trace1: seq<Event>, trace2: seq<Event>)
    requires ValidAddrBytes(nAddr) && nAddr <= |buffer| && n <= |buffer|
    requires |acks| >= AccessBudget(nAddr, n) && |rx| >= n
    requires w == WriteOutcome(acks, nAddr)
    requires acks1 == acks[AcksUsed(w, nAddr)..]
    requires trace1 == trace0 + WriteFrame(dev, StageAddress(buffer, start, nAddr)[..nAddr], w, false)
    requires |acks1| >= 1 + n
    requires acks1[0] ==> buffer2 == rx[..n] + StageAddress(buffer, start, nAddr)[n..] && rx2 == rx[n..]
                          && acks2 == acks1[1 + n..]
    requires !acks1[0] ==> buffer2 == StageAddress(buffer, start, nAddr) && rx2 == rx && acks2 == acks1[1..]
    requires trace2 == trace1 + ReadFrame(dev, n, acks1[0])
    ensures var t := PromRead(acks, rx, buffer, nAddr, start, n);
      && buffer2 == t.buffer
      && acks2 == acks[t.acksUsed..]
      && rx2 == rx[t.rxUsed..]
    ensures trace2 == trace0 + PromFrames(acks, dev, nAddr, start, n)
  {
    var c := AcksUsed(w, nAddr);
    SliceSlice(acks, c, if acks[c] then 1 + n else 1);
    StagedAddressBytes(buffer, start, nAddr);
    Assoc(trace0, WriteFrame(dev, AddressBytes(start, nAddr), w, false), ReadFrame(dev, n, acks[c]));
  }

  /**
   The driver's view between accesses: the ACK outcomes and received bytes
   the bus has still to report, and the staging buffer.
   */
  datatype Port = Port(acks: seq<bool>, rx: seq<uint8>, buffer: seq<uint8>)

  function PortOf(bus: Bus, buffer: seq<uint8>): Port {
    Port(Acks(bus.status), bus.rx, buffer)
  }

  /** The port holds enough outcomes and bytes for an access of `n` bytes. */
  predicate CanAccess(p: Port, nAddr: nat, n: nat) {
    ValidAddrBytes(nAddr) && nAddr <= |p.buffer| && n <= |p.buffer|
    && |p.acks| >= AccessBudget(nAddr, n) && |p.rx| >= n
  }

  /** The port after one access as PromRead describes it. */
  function AfterAccess(p: Port, nAddr: nat, start: uint8, n: nat): (q: Port)
    requires CanAccess(p, nAddr, n)
    ensures |q.buffer| == |p.buffer| && q.acks == p.acks[AcksSpent(p.acks, nAddr, n)..]
    ensures |q.acks| + AccessBudget(nAddr, n) >= |p.acks| && |q.rx| + n >= |p.rx|
  {
    var t := PromRead(p.acks, p.rx, p.buffer, nAddr, start, n);
    Port(p.acks[t.acksUsed..], p.rx[t.rxUsed..], t.buffer)
  }

  /** What a sweep of one-byte reads leaves behind: byte k is the buffer's first byte after read k. */
  datatype Sweep = Sweep(bytes: seq<uint8>, port: Port)

  /** The ACK outcomes `k` one-byte accesses can use at most: `k` times AccessBudget(nAddr, 1), which is 4 or 5. */
  function SweepBudget(nAddr: nat, k: nat): nat {
    if nAddr == 1 then 4 * k else 5 * k
  }

  /** A sweep's budget is its first access's budget plus the rest's. */
  lemma SweepBudgetStep(nAddr: nat, k: nat)
    requires ValidAddrBytes(nAddr) && k > 0
    ensures SweepBudget(nAddr, k) == AccessBudget(nAddr, 1) + SweepBudget(nAddr, k - 1)
  {
  }

  /** The port holds enough outcomes and bytes for a sweep over `k` addresses. */
  predicate CanSweep(p: Port, nAddr: nat, k: nat) {
    ValidAddrBytes(nAddr) && nAddr <= |p.buffer| && 1 <= |p.buffer|
    && |p.acks| >= SweepBudget(nAddr, k) && |p.rx| >= k
  }

  /** One-byte reads at each of `offsets` in turn, each keeping the first buffer byte. */
  function ReadEach(p: Port, nAddr: nat, offsets: seq<uint8>): (s: Sweep)
    requires CanSweep(p, nAddr, |offsets|)
    ensures |s.bytes| == |offsets| && |s.port.buffer| == |p.buffer|
    decreases |offsets|
  {
    if offsets == [] then Sweep([], p)
    else
      var q := AfterAccess(p, nAddr, offsets[0], 1);
      var rest := ReadEach(q, nAddr, offsets[1..]);
      Sweep([q.buffer[0]] + rest.bytes, rest.port)
  }

  /** The register writes of that sweep, access after access. */
  function SweepFrames(acks: seq<bool>, dev: uint8, nAddr: nat, offsets: seq<uint8>): seq<Event>
    requires ValidAddrBytes(nAddr) && |acks| >= SweepBudget(nAddr, |offsets|)
    decreases |offsets|
  {
    if offsets == [] then []
    else
      PromFrames(acks, dev, nAddr, offsets[0], 1)
      + SweepFrames(acks[AcksSpent(acks, nAddr, 1)..], dev, nAddr, offsets[1..])
  }

  /** Composing a sweep from its first access and the sweep over the remaining addresses. */
  lemma ComposeSweep(p: Port, nAddr: nat, offsets: seq<uint8>, q: Port, rest: seq<uint8>, q2: Port)
    requires CanSweep(p, nAddr, |offsets|) && offsets != []
    requires q == AfterAccess(p, nAddr, offsets[0], 1)
    ensures CanSweep(q, nAddr, |offsets| - 1)
    ensures rest == ReadEach(q, nAddr, offsets[1..]).bytes && q2 == ReadEach(q, nAddr, offsets[1..]).port
      ==> ReadEach(p, nAddr, offsets) == Sweep([q.buffer[0]] + rest, q2)
  {
  }

  /** The same for the sweep's register writes. */
  lemma ComposeSweepFrames(acks: seq<bool>, dev: uint8, nAddr: nat, offsets: seq<uint8>,
                           trace0: seq<Event>, trace1: seq<Event>, trace2: seq<Event>)
    requires ValidAddrBytes(nAddr) && |acks| >= SweepBudget(nAddr, |offsets|) && offsets != []
    requires trace1 == trace0 + PromFrames(acks, dev, nAddr, offsets[0], 1)
    requires trace2 == trace1 + SweepFrames(acks[AcksSpent(acks, nAddr, 1)..], dev, nAddr, offsets[1..])
    ensures trace2 == trace0 + SweepFrames(acks, dev, nAddr, offsets)
  {
    Assoc(trace0, PromFrames(acks, dev, nAddr, offsets[0], 1),
          SweepFrames(acks[AcksSpent(acks, nAddr, 1)..], dev, nAddr, offsets[1..]));
  }

  /** A sweep uses at most its budget of outcomes and one received byte per address. */
  lemma {:induction false} ReadEachLeaves(p: Port, nAddr: nat, offsets: seq<uint8>)
    requires CanSweep(p, nAddr, |offsets|)
    ensures var s := ReadEach(p, nAddr, offsets);
      |s.port.acks| + SweepBudget(nAddr, |offsets|) >= |p.acks| && |s.port.rx| + |offsets| >= |p.rx|
    decreases |offsets|
  {
    if offsets != [] {
      var q := AfterAccess(p, nAddr, offsets[0], 1);
      var r := ReadEach(q, nAddr, offsets[1..]);
      ComposeSweep(p, nAddr, offsets, q, r.bytes, r.port);
      ReadEachLeaves(q, nAddr, offsets[1..]);
    }
  }

  /** A one-byte access changes only the memory-address bytes of the buffer and its first byte. */
  lemma OneByteKeepsTail(p: Port, nAddr: nat, start: uint8)
    requires CanAccess(p, nAddr, 1)
    ensures AfterAccess(p, nAddr, start, 1).buffer[nAddr..] == p.buffer[nAddr..]
  {
    var staged := StageAddress(p.buffer, start, nAddr);
    assert (p.rx[..1] + staged[1..])[nAddr..] == staged[nAddr..];
  }

  /** So a sweep leaves the buffer beyond the memory-address bytes as it found it. */
  lemma {:induction false} ReadEachKeepsTail(p: Port, nAddr: nat, offsets: seq<uint8>)
    requires CanSweep(p, nAddr, |offsets|)
    ensures ReadEach(p, nAddr, offsets).port.buffer[nAddr..] == p.buffer[nAddr..]
    decreases |offsets|
  {
    if offsets != [] {
      var q := AfterAccess(p, nAddr, offsets[0], 1);
      OneByteKeepsTail(p, nAddr, offsets[0]);
      var r := ReadEach(q, nAddr, offsets[1..]);
      ComposeSweep(p, nAddr, offsets, q, r.bytes, r.port);
      ReadEachKeepsTail(q, nAddr, offsets[1..]);
    }
  }

  /** The first `m` outcomes are all ACKs. */
  predicate AllAcked(acks: seq<bool>, m: nat) {
    m <= |acks| && forall j :: 0 <= j < m ==> acks[j]
  }

  lemma AllAckedDrop(acks: seq<bool>, k: nat, m: nat)
    requires AllAcked(acks, k + m)
    ensures AllAcked(acks[k..], m)
  {
    forall j | 0 <= j < m
      ensures acks[k..][j]
    {
      assert acks[k..][j] == acks[k + j];
    }
  }

  lemma AllAckedPrefix(acks: seq<bool>, m: nat, m': nat)
    requires AllAcked(acks, m) && m' <= m
    ensures AllAcked(acks, m')
  {
  }

  /** One all-acknowledged one-byte read: the byte the EEPROM sent, one received byte and the full budget of outcomes used. */
  lemma AckedByte(p: Port, nAddr: nat, start: uint8)
    requires CanAccess(p, nAddr, 1) && AllAcked(p.acks, AccessBudget(nAddr, 1))
    ensures var q := AfterAccess(p, nAddr, start, 1);
      q.buffer[0] == p.rx[0] && q.acks == p.acks[AccessBudget(nAddr, 1)..] && q.rx == p.rx[1..]
  {
    PromReadAllAcked(p.acks, p.rx, p.buffer, nAddr, start, 1);
    var t := PromRead(p.acks, p.rx, p.buffer, nAddr, start, 1);
    assert t.buffer[..1][0] == t.buffer[0];
  }

  lemma HeadAndTail<T>(s: seq<T>, k: nat, rest: seq<T>)
    requires 1 <= k <= |s| && rest == s[1..][..k - 1]
    ensures [s[0]] + rest == s[..k]
  {
  }

  /** The first access of an all-acknowledged sweep uses one access budget of outcomes and leaves the rest acknowledged. */
  lemma AckedSweepStep(p: Port, nAddr: nat, offsets: seq<uint8>)
    requires CanSweep(p, nAddr, |offsets|) && offsets != [] && AllAcked(p.acks, SweepBudget(nAddr, |offsets|))
    ensures var q := AfterAccess(p, nAddr, offsets[0], 1);
      && CanSweep(q, nAddr, |offsets| - 1) && AllAcked(q.acks, SweepBudget(nAddr, |offsets| - 1))
      && q.acks == p.acks[AccessBudget(nAddr, 1)..]
      && ReadEach(p, nAddr, offsets).port == ReadEach(q, nAddr, offsets[1..]).port
  {
    var ab, sb := AccessBudget(nAddr, 1), SweepBudget(nAddr, |offsets| - 1);
    SweepBudgetStep(nAddr, |offsets|);
    AllAckedPrefix(p.acks, ab + sb, ab);
    AckedByte(p, nAddr, offsets[0]);
    AllAckedDrop(p.acks, ab, sb);
  }

  /** The first access of an all-acknowledged sweep takes one received byte and returns it first. */
  lemma AckedSweepByte(p: Port, nAddr: nat, offsets: seq<uint8>)
    requires CanSweep(p, nAddr, |offsets|) && offsets != [] && AllAcked(p.acks, SweepBudget(nAddr, |offsets|))
    ensures var q := AfterAccess(p, nAddr, offsets[0], 1);
      && CanSweep(q, nAddr, |offsets| - 1) && AllAcked(q.acks, SweepBudget(nAddr, |offsets| - 1))
      && q.rx == p.rx[1..]
      && ReadEach(p, nAddr, offsets) == Sweep([p.rx[0]] + ReadEach(q, nAddr, offsets[1..]).bytes, ReadEach(q, nAddr, offsets[1..]).port)
  {
    var ab, sb := AccessBudget(nAddr, 1), SweepBudget(nAddr, |offsets| - 1);
    SweepBudgetStep(nAddr, |offsets|);
    AllAckedPrefix(p.acks, ab + sb, ab);
    AckedByte(p, nAddr, offsets[0]);
    AllAckedDrop(p.acks, ab, sb);
  }

  /** With every outcome an ACK, a sweep uses its whole budget of outcomes. */
  lemma {:induction false} ReadEachAckedSpends(p: Port, nAddr: nat, offsets: seq<uint8>)
    requires CanSweep(p, nAddr, |offsets|) && AllAcked(p.acks, SweepBudget(nAddr, |offsets|))
    ensures ReadEach(p, nAddr, offsets).port.acks == p.acks[SweepBudget(nAddr, |offsets|)..]
    decreases |offsets|
  {
    if offsets != [] {
      var k := |offsets|;
      var ab, sb := AccessBudget(nAddr, 1), SweepBudget(nAddr, k - 1);
      AckedSweepStep(p, nAddr, offsets);
      SweepBudgetStep(nAddr, k);
      var q := AfterAccess(p, nAddr, offsets[0], 1);
      var rest := offsets[1..];
      assert |rest| == k - 1;
      ReadEachAckedSpends(q, nAddr, rest);
      var r := ReadEach(q, nAddr, rest).port;
      assert r.acks == q.acks[sb..];
      DropDrop(p.acks, q.acks, r.acks, ab, sb);
      assert r.acks == p.acks[SweepBudget(nAddr, k)..];
    }
  }

  /** With every outcome an ACK, a sweep returns the bytes the EEPROM sent, one per address, in order. */
  lemma {:induction false} ReadEachAllAcked(p: Port, nAddr: nat, offsets: seq<uint8>)
    requires CanSweep(p, nAddr, |offsets|) && AllAcked(p.acks, SweepBudget(nAddr, |offsets|))
    ensures var s := ReadEach(p, nAddr, offsets);
      s.bytes == p.rx[..|offsets|] && s.port.rx == p.rx[|offsets|..]
    decreases |offsets|
  {
    if offsets != [] {
      var k := |offsets|;
      AckedSweepByte(p, nAddr, offsets);
      var q := AfterAccess(p, nAddr, offsets[0], 1);
      var r := ReadEach(q, nAddr, offsets[1..]);
      ReadEachAllAcked(q, nAddr, offsets[1..]);
      HeadAndTail(p.rx, k, r.bytes);
      DropDrop(p.rx, q.rx, r.port.rx, 1, k - 1);
    }
  }

  /** With every outcome an ACK, each access of a sweep sends exactly one STOP, the one ending its read. */
  lemma {:induction false} SweepFramesAllAcked(acks: seq<bool>, dev: uint8, nAddr: nat, offsets: seq<uint8>)
    requires ValidAddrBytes(nAddr) && AllAcked(acks, SweepBudget(nAddr, |offsets|))
    ensures StopCount(SweepFrames(acks, dev, nAddr, offsets)) == |offsets|
    decreases |offsets|
  {
    if offsets != [] {
      var k := |offsets|;
      AllAckedPrefix(acks, SweepBudget(nAddr, k), AccessBudget(nAddr, 1));
      PromFramesAllAcked(acks, dev, nAddr, offsets[0], 1);
      var rest := acks[AccessBudget(nAddr, 1)..];
      AllAckedDrop(acks, AccessBudget(nAddr, 1), SweepBudget(nAddr, k - 1));
      SweepFramesAllAcked(rest, dev, nAddr, offsets[1..]);
      StopCountAppend(PromFrames(acks, dev, nAddr, offsets[0], 1), SweepFrames(rest, dev, nAddr, offsets[1..]));
    }
  }

  /** No outcome is an ACK: no device answers. */
  predicate NoneAcked(acks: seq<bool>) {
    forall j :: 0 <= j < |acks| ==> !acks[j]
  }

  lemma NoneAckedDrop(acks: seq<bool>, k: nat)
    requires NoneAcked(acks) && k <= |acks|
    ensures NoneAcked(acks[k..])
  {
    forall j | 0 <= j < |acks| - k
      ensures !acks[k..][j]
    {
      assert acks[k..][j] == acks[k + j];
    }
  }

  /** One refused one-byte read: the staged address stays in the first buffer byte and two outcomes are used. */
  lemma RefusedByte(p: Port, nAddr: nat, start: uint8)
    requires CanAccess(p, nAddr, 1) && NoneAcked(p.acks)
    ensures var q := AfterAccess(p, nAddr, start, 1);
      q.buffer[0] == start && q.acks == p.acks[2..] && q.rx == p.rx
  {
    PromReadAbsent(p.acks, p.rx, p.buffer, nAddr, start, 1);
  }

  /**
   With no device answering, every read is refused and leaves the memory
   address it staged in the first buffer byte: the sweep returns the
   addresses themselves.
   */
  lemma {:induction false} ReadEachAbsent(p: Port, nAddr: nat, offsets: seq<uint8>)
    requires CanSweep(p, nAddr, |offsets|) && NoneAcked(p.acks)
    ensures ReadEach(p, nAddr, offsets).bytes == offsets
    ensures NoneAcked(ReadEach(p, nAddr, offsets).port.acks)
    decreases |offsets|
  {
    if offsets != [] {
      RefusedByte(p, nAddr, offsets[0]);
      var q := AfterAccess(p, nAddr, offsets[0], 1);
      NoneAckedDrop(p.acks, 2);
      var r := ReadEach(q, nAddr, offsets[1..]);
      ComposeSweep(p, nAddr, offsets, q, r.bytes, r.port);
      ReadEachAbsent(q, nAddr, offsets[1..]);
    }
  }

  /** With no device answering, each access of a sweep sends two STOPs: one ending each refused transaction. */
  lemma {:induction false} SweepFramesAbsent(acks: seq<bool>, dev: uint8, nAddr: nat, offsets: seq<uint8>)
    requires ValidAddrBytes(nAddr) && |acks| >= SweepBudget(nAddr, |offsets|) && NoneAcked(acks)
    ensures StopCount(SweepFrames(acks, dev, nAddr, offsets)) == 2 * |offsets|
    decreases |offsets|
  {
    if offsets != [] {
      PromFramesAbsent(acks, dev, nAddr, offsets[0], 1);
      NoneAckedDrop(acks, 2);
      SweepFramesAbsent(acks[2..], dev, nAddr, offsets[1..]);
      StopCountAppend(PromFrames(acks, dev, nAddr, offsets[0], 1), SweepFrames(acks[2..], dev, nAddr, offsets[1..]));
    }
  }

  /** read_UID's six memory addresses, PROMUIDADDR to PROMUIDADDR + 5. */
  const UidOffsets: seq<uint8> :=
    [PROMUIDADDR, PROMUIDADDR + 1, PROMUIDADDR + 2, PROMUIDADDR + 3, PROMUIDADDR + 4, PROMUIDADDR + 5]

  /** dump_Prom's memory addresses 0 to 31. */
  const DumpOffsets: seq<uint8> := seq(32, i requires 0 <= i < 32 => i)

  /**
   With no EEPROM answering, read_UID assembles its own six memory addresses
   into the identifier FA:FB:FC:FD:FE:FF, which is not zero.
   */
  lemma AbsentUid(p: Port, nAddr: nat)
    requires CanSweep(p, nAddr, 6) && NoneAcked(p.acks)
    ensures Assemble(ReadEach(p, nAddr, UidOffsets).bytes) == 0xFAFBFCFDFEFF
  {
    ReadEachAbsent(p, nAddr, UidOffsets);
    Assemble6(UidOffsets);
  }

  /** The bytes write_Prom sends: the memory address (once per address byte), then the word most significant byte first. */
  function PromImage(nAddr: nat, data: nat): (b: seq<uint8>)
    requires ValidAddrBytes(nAddr)
    ensures |b| == nAddr + 4
  {
    AddressBytes(PROMMEMORYADDR, nAddr) + Split(data, 4)
  }

  /** Reading back the four data bytes of an image the way read_Prom assembles them gives the word written. */
  lemma PromImageRoundTrip(nAddr: nat, data: uint32)
    requires ValidAddrBytes(nAddr)
    ensures PromImage(nAddr, data)[nAddr..] == Split(data, 4)
    ensures Assemble(PromImage(nAddr, data)[nAddr..]) == data
  {
    AssembleSplit(data, 4);
  }

  /** The bytes write_PromGPO sends: the GPO memory address (one address byte only), then the 16-bit word most significant byte first. */
  function GpoImage(data: nat): (b: seq<uint8>)
    ensures |b| == 3
  {
    [PROMMEMORY_GPO_ADDR] + Split(data, 2)
  }

  lemma GpoImageRoundTrip(data: uint16)
    ensures GpoImage(data)[1..] == Split(data, 2)
    ensures Assemble(GpoImage(data)[1..]) == data
  {
    AssembleSplit(data, 2);
  }

  /**
   Reading back: when the EEPROM acknowledges read_Prom's access and returns
   the four data bytes of a write_Prom image, read_Prom's word is the word
   written.
   */
  lemma ReadBackWord(p: Port, nAddr: nat, data: uint32)
    requires CanAccess(p, nAddr, 4) && AllAcked(p.acks, AccessBudget(nAddr, 4))
    requires p.rx[..4] == PromImage(nAddr, data)[nAddr..]
    ensures Assemble(AfterAccess(p, nAddr, PROMMEMORYADDR, 4).buffer[..4]) == data
  {
    PromReadAllAcked(p.acks, p.rx, p.buffer, nAddr, PROMMEMORYADDR, 4);
    PromImageRoundTrip(nAddr, data);
  }

  /**
   The same for read_PromGPO and a write_PromGPO image, on an EEPROM with one
   address byte: write_PromGPO always sends a single address byte, so only
   then do the two functions name the same memory cells (see GpoTwoAddressBytes).
   */
  lemma ReadBackGpo(p: Port, nAddr: nat, data: uint16)
    requires nAddr == 1
    requires CanAccess(p, nAddr, 2) && AllAcked(p.acks, AccessBudget(nAddr, 2))
    requires p.rx[..2] == GpoImage(data)[1..]
    ensures Assemble(AfterAccess(p, nAddr, PROMMEMORY_GPO_ADDR, 2).buffer[..2]) == data
  {
    PromReadAllAcked(p.acks, p.rx, p.buffer, nAddr, PROMMEMORY_GPO_ADDR, 2);
    GpoImageRoundTrip(data);
  }

  /**
   On an EEPROM with two address bytes, write_PromGPO's image still carries a
   single 0x10: the part takes 0x10 and the high data byte as the memory
   address and stores only the low data byte there, whereas read_PromGPO
   stages the address 0x10 twice. The two addresses agree exactly when the
   high data byte is itself 0x10.
   */
  lemma GpoTwoAddressBytes(data: uint16)
    ensures GpoImage(data)[..2] == [PROMMEMORY_GPO_ADDR, data / 0x100]
    ensures GpoImage(data)[2..] == [data % 0x100]
    ensures GpoImage(data)[..2] == AddressBytes(PROMMEMORY_GPO_ADDR, 2) <==> data / 0x100 == PROMMEMORY_GPO_ADDR
  {
    assert Split(data / 256, 1) == [data / 256];
    assert AddressBytes(PROMMEMORY_GPO_ADDR, 2) == [PROMMEMORY_GPO_ADDR, PROMMEMORY_GPO_ADDR];
  }

  /**
   With no device answering, a word read returns the staged memory address
   and whatever the buffer held after it: read_Prom's word is made of the
   address byte(s) and stale buffer bytes, not of EEPROM data.
   */
  lemma AbsentWord(p: Port, nAddr: nat, start: uint8, n: nat)
    requires CanAccess(p, nAddr, n) && NoneAcked(p.acks)
    ensures AfterAccess(p, nAddr, start, n).buffer == StageAddress(p.buffer, start, nAddr)
  {
    PromReadAbsent(p.acks, p.rx, p.buffer, nAddr, start, n);
  }

  /** With every outcome an ACK, read_UID's identifier is the six bytes the EEPROM sent, most significant first. */
  lemma AckedUid(p: Port, nAddr: nat)
    requires CanSweep(p, nAddr, 6) && AllAcked(p.acks, SweepBudget(nAddr, 6))
    ensures Assemble(ReadEach(p, nAddr, UidOffsets).bytes) == Assemble(p.rx[..6])
  {
    ReadEachAllAcked(p, nAddr, UidOffsets);
  }

  /** With every outcome an ACK, read_Prom's four buffer bytes are the four bytes the EEPROM sent. */
  lemma AckedWord(p: Port, nAddr: nat)
    requires CanAccess(p, nAddr, 4) && AllAcked(p.acks, AccessBudget(nAddr, 4))
    ensures AfterAccess(p, nAddr, PROMMEMORYADDR, 4).buffer[..4] == p.rx[..4]
  {
    PromReadAllAcked(p.acks, p.rx, p.buffer, nAddr, PROMMEMORYADDR, 4);
  }
}
