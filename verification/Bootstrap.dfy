/**
 setMacIP of the IPbus address terminal's main.c: hold the IPbus endpoint in
 reset, program its MAC address from the EEPROM's unique identifier (or a
 fixed dummy when that reads as zero), program its IP address from the
 EEPROM's data word unless RARP is forced, tell it whether to use RARP, and
 release reset. The build switch FORCE_RARP is a parameter; the firmware's
 globals are passed in and returned.
 */
module Bootstrap {
  import opened I2CDefs
  import opened Transport
  import opened Protocol
  import opened Words
  import opened PromModel
  import opened Identity

  /** The globals uid, ipAddr, gpo and useRARP of main.c. */
  datatype Globals = Globals(uid: uint64, ipAddr: uint32, gpo: uint16, useRarp: bool)

  /** The MAC address programmed when the identifier reads as zero. */
  const DUMMY_MAC: uint64 := 0x020D_DBA1_1644

  /** The all-ones IP address that, like zero, asks for RARP. */
  const IP_ALL_ONES: uint32 := 0xFFFF_FFFF

  /**
   The MAC address setMacIP programs for identifier `uid`: never zero, the
   identifier itself whenever it is not, and the fixed dummy address when it is.
   */
  function ChooseMac(uid: uint64): (mac: uint64)
    ensures mac != 0
    ensures uid != 0 ==> mac == uid
    ensures uid == 0 ==> mac == DUMMY_MAC
  {
    if uid == 0 then DUMMY_MAC else uid
  }

  /** Whether the endpoint is told to use RARP. */
  predicate UseRarp(ip: uint32, force: bool) {
    ip == IP_ALL_ONES || ip == 0 || force
  }

  /**
   An unprogrammed (all ones) or zero address falls back to RARP; a real
   address such as 10.0.0.1 is used as it is unless RARP is forced.
   */
  lemma RarpExamples()
    ensures UseRarp(0, false) && UseRarp(IP_ALL_ONES, false)
    ensures !UseRarp(0x0A00_0001, false) && UseRarp(0x0A00_0001, true)
  {
  }

  /** What setMacIP settles on. */
  datatype Settings = Settings(mac: uint64, ip: uint32, useRarp: bool)

  /** setMacIP needs a bus that completes six one-byte reads and, unless RARP is forced, one four-byte read. */
  predicate CanSet(p: Port, nAddr: nat) {
    CanSweep(p, nAddr, 6) && 4 <= |p.buffer|
    && |p.acks| >= SweepBudget(nAddr, 6) + AccessBudget(nAddr, 4) && |p.rx| >= 10
  }

  /** The port after read_UID's sweep, with room for read_Prom's access. */
  function AfterUid(p: Port, nAddr: nat): (q: Port)
    requires CanSet(p, nAddr)
    ensures CanAccess(q, nAddr, 4)
  {
    ReadEachLeaves(p, nAddr, UidOffsets);
    ReadEach(p, nAddr, UidOffsets).port
  }

  /**
   The settings setMacIP programs, from the EEPROM access outcomes: the MAC
   from read_UID's identifier, the IP address from read_Prom's word unless
   RARP is forced (then `ipBefore`, the global's previous value, which the
   function never assigns), and the RARP flag from that address.
   */
  function Settle(p: Port, nAddr: nat, ipBefore: uint32, force: bool): (s: Settings)
    requires CanSet(p, nAddr)
    ensures s.mac != 0
    ensures s.useRarp <==> s.ip == IP_ALL_ONES || s.ip == 0 || force
    ensures force ==> s.ip == ipBefore
  {
    var uid := Assemble(ReadEach(p, nAddr, UidOffsets).bytes);
    AssembleBound(ReadEach(p, nAddr, UidOffsets).bytes);
    var ip := if force then ipBefore else Assemble(AfterAccess(AfterUid(p, nAddr), nAddr, PROMMEMORYADDR, 4).buffer[..4]);
    AssembleBound(AfterAccess(AfterUid(p, nAddr), nAddr, PROMMEMORYADDR, 4).buffer[..4]);
    Settings(ChooseMac(uid), ip, UseRarp(ip, force))
  }

  lemma AssembleBound(b: seq<uint8>)
    ensures |b| == 4 ==> Assemble(b) < 0x1_0000_0000
    ensures |b| == 6 ==> Assemble(b) < 0x1_0000_0000_0000
  {
  }

  /**
   With no EEPROM answering, setMacIP programs the MAC address
   FA:FB:FC:FD:FE:FF (read_UID's own memory addresses, not the dummy) and,
   unless RARP is forced, an IP address made of the staged memory address and
   the stale buffer bytes after it; with those bytes zero, as the buffer is at
   start-up, the IP address is zero and the endpoint is told to use RARP.
   */
  lemma SettleAbsent(p: Port, nAddr: nat, ipBefore: uint32, force: bool)
    requires CanSet(p, nAddr) && NoneAcked(p.acks)
    ensures Settle(p, nAddr, ipBefore, force).mac == 0xFAFB_FCFD_FEFF
    ensures !force ==> Settle(p, nAddr, ipBefore, force).ip == Assemble(AddressBytes(PROMMEMORYADDR, nAddr) + p.buffer[nAddr..4])
    ensures !force && (forall i :: nAddr <= i < 4 ==> p.buffer[i] == 0) ==>
      Settle(p, nAddr, ipBefore, force).ip == 0 && Settle(p, nAddr, ipBefore, force).useRarp
  {
    AbsentUid(p, nAddr);
    ReadEachAbsent(p, nAddr, UidOffsets);
    ReadEachKeepsTail(p, nAddr, UidOffsets);
    var q := AfterUid(p, nAddr);
    AbsentWord(q, nAddr, PROMMEMORYADDR, 4);
    SameWindow(q.buffer, p.buffer, nAddr, 4);
    StagedWindow(q.buffer, PROMMEMORYADDR, nAddr, 4);
    if forall i :: nAddr <= i < 4 ==> p.buffer[i] == 0 {
      ZeroIp(p.buffer, nAddr);
    }
  }

  /** Zero memory-address bytes and a zeroed buffer tail spell the address 0.0.0.0. */
  lemma ZeroIp(buffer: seq<uint8>, nAddr: nat)
    requires ValidAddrBytes(nAddr) && 4 <= |buffer|
    requires forall i :: nAddr <= i < 4 ==> buffer[i] == 0
    ensures Assemble(AddressBytes(PROMMEMORYADDR, nAddr) + buffer[nAddr..4]) == 0
  {
    var b := AddressBytes(PROMMEMORYADDR, nAddr) + buffer[nAddr..4];
    forall i | 0 <= i < |b|
      ensures b[i] == 0
    {
      if i >= nAddr {
        assert b[i] == buffer[i];
      }
    }
    AssembleZeros(b);
  }

  /**
   With the EEPROM acknowledging everything, setMacIP programs the six
   identifier bytes it sent as the MAC address (the dummy if they are all
   zero) and, unless RARP is forced, the next four bytes as the IP address.
   */
  lemma SettleAcked(p: Port, nAddr: nat, ipBefore: uint32, force: bool)
    requires CanSet(p, nAddr) && AllAcked(p.acks, SweepBudget(nAddr, 6) + AccessBudget(nAddr, 4))
    ensures Settle(p, nAddr, ipBefore, force).mac == ChooseMac(Assemble(p.rx[..6]))
    ensures !force ==> Settle(p, nAddr, ipBefore, force).ip == Assemble(p.rx[6..10])
  {
    AllAckedPrefix(p.acks, SweepBudget(nAddr, 6) + AccessBudget(nAddr, 4), SweepBudget(nAddr, 6));
    AckedUid(p, nAddr);
    AckedIp(p, nAddr);
  }

  /** With every outcome an ACK, read_Prom's four bytes after read_UID are the next four the EEPROM sent. */
  lemma AckedIp(p: Port, nAddr: nat)
    requires CanSet(p, nAddr) && AllAcked(p.acks, SweepBudget(nAddr, 6) + AccessBudget(nAddr, 4))
    ensures AfterAccess(AfterUid(p, nAddr), nAddr, PROMMEMORYADDR, 4).buffer[..4] == p.rx[6..10]
  {
    AllAckedPrefix(p.acks, SweepBudget(nAddr, 6) + AccessBudget(nAddr, 4), SweepBudget(nAddr, 6));
    ReadEachAllAcked(p, nAddr, UidOffsets);
    ReadEachAckedSpends(p, nAddr, UidOffsets);
    var q := AfterUid(p, nAddr);
    AllAckedDrop(p.acks, SweepBudget(nAddr, 6), AccessBudget(nAddr, 4));
    AckedWord(q, nAddr);
    DropTake(p.rx, q.rx, 6, 4);
  }

  /** The writes to the endpoint's identity registers, in the order setMacIP makes them. */
  function IdentityEvents(s: Settings, force: bool): seq<Event> {
    [IPBusReset(true)] + [MacAddr(s.mac)] + (if force then [] else [IPAddr(s.ip)]) + ([RarpFlag(s.useRarp)] + [IPBusReset(false)])
  }

  /** Everything setMacIP drives: the identity writes with the EEPROM accesses' register writes in between. */
  function SetFrames(p: Port, dev: uint8, nAddr: nat, s: Settings, force: bool): seq<Event>
    requires CanSet(p, nAddr)
  {
    [IPBusReset(true)] + SweepFrames(p.acks, dev, nAddr, UidOffsets) + [MacAddr(s.mac)]
    + (if force then [] else PromFrames(AfterUid(p, nAddr).acks, dev, nAddr, PROMMEMORYADDR, 4) + [IPAddr(s.ip)])
    + ([RarpFlag(s.useRarp)] + [IPBusReset(false)])
  }

  /** The identity settings follow from what read_UID and read_Prom returned. */
  lemma ComposeSettle(p: Port, nAddr: nat, ipBefore: uint32, force: bool, uid: uint64, ip: uint32)
    requires CanSet(p, nAddr)
    requires uid == Assemble(ReadEach(p, nAddr, UidOffsets).bytes)
    requires force ==> ip == ipBefore
    requires !force ==> ip == Assemble(AfterAccess(AfterUid(p, nAddr), nAddr, PROMMEMORYADDR, 4).buffer[..4])
    ensures Settle(p, nAddr, ipBefore, force) == Settings(ChooseMac(uid), ip, UseRarp(ip, force))
  {
  }

  /** setMacIP's register writes and identity writes, put together. */
  lemma ComposeSetFrames(p: Port, dev: uint8, nAddr: nat, force: bool, s: Settings,
                         t0: seq<Event>, t1: seq<Event>, tm: seq<Event>, t2: seq<Event>, t3: seq<Event>)
    requires CanSet(p, nAddr)
    requires t1 == t0 + [IPBusReset(true)] + SweepFrames(p.acks, dev, nAddr, UidOffsets)
    requires tm == t1 + [MacAddr(s.mac)]
    requires force ==> t2 == tm
    requires !force ==> t2 == tm + PromFrames(AfterUid(p, nAddr).acks, dev, nAddr, PROMMEMORYADDR, 4) + [IPAddr(s.ip)]
    requires t3 == t2 + [RarpFlag(s.useRarp)] + [IPBusReset(false)]
    ensures t3 == t0 + SetFrames(p, dev, nAddr, s, force)
  {
    var w: seq<Event> := if force then [] else PromFrames(AfterUid(p, nAddr).acks, dev, nAddr, PROMMEMORYADDR, 4) + [IPAddr(s.ip)];
    if !force {
      Assoc(tm, PromFrames(AfterUid(p, nAddr).acks, dev, nAddr, PROMMEMORYADDR, 4), [IPAddr(s.ip)]);
    }
    Glue(t0, [IPBusReset(true)], SweepFrames(p.acks, dev, nAddr, UidOffsets), [MacAddr(s.mac)], w,
         [RarpFlag(s.useRarp)], [IPBusReset(false)], t1, tm, t2, t3);
  }

  /** Six appends in a row, regrouped. */
  lemma Glue<T>(t0: seq<T>, a: seq<T>, b: seq<T>, c: seq<T>, d: seq<T>, e: seq<T>, f: seq<T>,
                t1: seq<T>, t2: seq<T>, t3: seq<T>, t4: seq<T>)
    requires t1 == t0 + a + b && t2 == t1 + c && t3 == t2 + d && t4 == t3 + e + f
    ensures t4 == t0 + (a + b + c + d + (e + f))
  {
  }

  /**
   setMacIP. Returns 0. The general-purpose output read is disabled in the
   source, so `gpo` is left alone.
   */
  method SetMacIP(bus: Bus, dev: uint8, nAddr: nat, buffer: seq<uint8>, g: Globals, forceRarp: bool)
    returns (ret: int, g': Globals, buffer': seq<uint8>, bus': Bus)
    requires |buffer| == MAX_N && CanSet(PortOf(bus, buffer), nAddr)
    ensures ret == 0
    ensures var s := Settle(PortOf(bus, buffer), nAddr, g.ipAddr, forceRarp);
      && g' == g.(uid := s.mac, ipAddr := s.ip, useRarp := s.useRarp)
      && bus'.trace == bus.trace + SetFrames(PortOf(bus, buffer), dev, nAddr, s, forceRarp)
    ensures PortOf(bus', buffer') == if forceRarp then AfterUid(PortOf(bus, buffer), nAddr)
      else AfterAccess(AfterUid(PortOf(bus, buffer), nAddr), nAddr, PROMMEMORYADDR, 4)
  {
    ghost var p := PortOf(bus, buffer);
    bus' := bus.Emit(IPBusReset(true));
    assert PortOf(bus', buffer) == p;
    var uid;
    uid, buffer', bus' := ReadUID(bus', dev, nAddr, buffer);
    ghost var q := PortOf(bus', buffer');
    assert q == AfterUid(p, nAddr);
    ghost var t1 := bus'.trace;
    var mac := if uid == 0 then DUMMY_MAC else uid;
    bus' := bus'.Emit(MacAddr(mac));
    ghost var tm := bus'.trace;
    var ip := g.ipAddr;
    if !forceRarp {
      ip, buffer', bus' := ReadProm(bus', dev, nAddr, buffer');
      bus' := bus'.Emit(IPAddr(ip));
    }
    ghost var t2 := bus'.trace;
    var rarp := ip == IP_ALL_ONES || ip == 0 || forceRarp;
    bus' := bus'.Emit(RarpFlag(rarp));
    bus' := bus'.Emit(IPBusReset(false));
    g' := g.(uid := mac, ipAddr := ip, useRarp := rarp);
    ret := 0;
    ComposeSettle(p, nAddr, g.ipAddr, forceRarp, uid, ip);
    ComposeSetFrames(p, dev, nAddr, forceRarp, Settings(mac, ip, rarp), bus.trace, t1, tm, t2, bus'.trace);
  }

  /** The writes the endpoint sees: a trace without the I2C core's register writes. */
  function Downstream(t: seq<Event>): (d: seq<Event>)
    ensures forall i :: 0 <= i < |d| ==> !d[i].RegWrite?
  {
    if t == [] then []
    else Downstream(t[..|t| - 1]) + (if t[|t| - 1].RegWrite? then [] else [t[|t| - 1]])
  }

  lemma {:induction false} DownstreamAppend(a: seq<Event>, b: seq<Event>)
    ensures Downstream(a + b) == Downstream(a) + Downstream(b)
    decreases |b|
  {
    if b == [] {
      assert a + b == a;
    } else {
      var c := a + b;
      assert c[..|c| - 1] == a + b[..|b| - 1];
      assert c[|c| - 1] == b[|b| - 1];
      DownstreamAppend(a, b[..|b| - 1]);
    }
  }

  predicate OnlyRegWrites(t: seq<Event>) {
    forall i :: 0 <= i < |t| ==> t[i].RegWrite?
  }

  lemma {:induction false} DownstreamOfRegWrites(t: seq<Event>)
    requires OnlyRegWrites(t)
    ensures Downstream(t) == []
    decreases |t|
  {
    if t != [] {
      DownstreamOfRegWrites(t[..|t| - 1]);
    }
  }

  lemma {:induction false} DownstreamOfIdentityWrites(t: seq<Event>)
    requires forall i :: 0 <= i < |t| ==> !t[i].RegWrite?
    ensures Downstream(t) == t
    decreases |t|
  {
    if t != [] {
      DownstreamOfIdentityWrites(t[..|t| - 1]);
    }
  }

  lemma OnlyRegWritesAppend(a: seq<Event>, b: seq<Event>)
    requires OnlyRegWrites(a) && OnlyRegWrites(b)
    ensures OnlyRegWrites(a + b)
  {
    forall i | 0 <= i < |a + b|
      ensures (a + b)[i].RegWrite?
    {
      if i >= |a| {
        assert (a + b)[i] == b[i - |a|];
      }
    }
  }

  lemma {:induction false} DataPhaseRegWrites(bytes: seq<uint8>)
    ensures OnlyRegWrites(DataPhase(bytes))
    decreases |bytes|
  {
    if bytes != [] {
      DataPhaseRegWrites(bytes[..|bytes| - 1]);
      OnlyRegWritesAppend(DataPhase(bytes[..|bytes| - 1]),
                          [RegWrite(ADDR_DATA, bytes[|bytes| - 1]), RegWrite(ADDR_CMD_STAT, WRITECMD)]);
    }
  }

  /** One EEPROM access drives nothing but the I2C core's registers. */
  lemma PromFramesRegWrites(acks: seq<bool>, dev: uint8, nAddr: nat, start: uint8, n: nat)
    requires ValidAddrBytes(nAddr) && |acks| >= AccessBudget(nAddr, n)
    ensures OnlyRegWrites(PromFrames(acks, dev, nAddr, start, n))
  {
    var w := WriteOutcome(acks, nAddr);
    var bytes := AddressBytes(start, nAddr);
    var stop: seq<Event> := if w < |bytes| then [StopWrite] else [];
    if w != -1 {
      DataPhaseRegWrites(bytes[..Min(w + 1, |bytes|)]);
      OnlyRegWritesAppend(DataPhase(bytes[..Min(w + 1, |bytes|)]), stop);
    }
    var tail: seq<Event> := if w == -1 then [StopWrite] else DataPhase(bytes[..Min(w + 1, |bytes|)]) + stop;
    OnlyRegWritesAppend(AddressPhase(WriteAddressByte(dev)), tail);
    var acked := acks[AcksUsed(w, nAddr)];
    var rtail: seq<Event> := if acked then ReadCommands(n) else [StopWrite];
    OnlyRegWritesAppend(AddressPhase(ReadAddressByte(dev)), rtail);
    OnlyRegWritesAppend(WriteFrame(dev, bytes, w, false), ReadFrame(dev, n, acked));
  }

  lemma {:induction false} SweepFramesRegWrites(acks: seq<bool>, dev: uint8, nAddr: nat, offsets: seq<uint8>)
    requires ValidAddrBytes(nAddr) && |acks| >= SweepBudget(nAddr, |offsets|)
    ensures OnlyRegWrites(SweepFrames(acks, dev, nAddr, offsets))
    decreases |offsets|
  {
    if offsets != [] {
      var rest := acks[AcksSpent(acks, nAddr, 1)..];
      PromFramesRegWrites(acks, dev, nAddr, offsets[0], 1);
      SweepFramesRegWrites(rest, dev, nAddr, offsets[1..]);
      OnlyRegWritesAppend(PromFrames(acks, dev, nAddr, offsets[0], 1), SweepFrames(rest, dev, nAddr, offsets[1..]));
    }
  }

  /** Removing register writes from identity writes interleaved with I2C traffic. */
  lemma DownstreamSplice(r: seq<Event>, sf: seq<Event>, m: seq<Event>, w: seq<Event>, wd: seq<Event>, tail: seq<Event>)
    requires forall i :: 0 <= i < |r| ==> !r[i].RegWrite?
    requires forall i :: 0 <= i < |m| ==> !m[i].RegWrite?
    requires forall i :: 0 <= i < |tail| ==> !tail[i].RegWrite?
    requires OnlyRegWrites(sf) && Downstream(w) == wd
    ensures Downstream(r + sf + m + w + tail) == r + m + wd + tail
  {
    var a := r + sf;
    var b := a + m;
    var c := b + w;
    DownstreamOfIdentityWrites(r);
    DownstreamOfRegWrites(sf);
    DownstreamAppend(r, sf);
    assert Downstream(a) == r;
    DownstreamOfIdentityWrites(m);
    DownstreamAppend(a, m);
    assert Downstream(b) == r + m;
    DownstreamAppend(b, w);
    assert Downstream(c) == r + m + wd;
    DownstreamOfIdentityWrites(tail);
    DownstreamAppend(c, tail);
  }

  /** The IP part of setMacIP: the endpoint sees the IP write and none of the read_Prom traffic before it. */
  lemma IpFramesDownstream(acks: seq<bool>, dev: uint8, nAddr: nat, ip: uint32, force: bool)
    requires ValidAddrBytes(nAddr) && |acks| >= AccessBudget(nAddr, 4)
    ensures Downstream(if force then [] else PromFrames(acks, dev, nAddr, PROMMEMORYADDR, 4) + [IPAddr(ip)])
         == if force then [] else [IPAddr(ip)]
  {
    if !force {
      var pf := PromFrames(acks, dev, nAddr, PROMMEMORYADDR, 4);
      PromFramesRegWrites(acks, dev, nAddr, PROMMEMORYADDR, 4);
      DownstreamOfRegWrites(pf);
      DownstreamAppend(pf, [IPAddr(ip)]);
      DownstreamOfIdentityWrites([IPAddr(ip)]);
    }
  }

  /**
   The endpoint sees exactly: reset asserted, the MAC address, the IP address
   (unless RARP is forced), the RARP flag, reset released, in that order;
   everything else setMacIP drives goes to the I2C core.
   */
  lemma SetFramesDownstream(p: Port, dev: uint8, nAddr: nat, s: Settings, force: bool)
    requires CanSet(p, nAddr)
    ensures Downstream(SetFrames(p, dev, nAddr, s, force)) == IdentityEvents(s, force)
  {
    var sf := SweepFrames(p.acks, dev, nAddr, UidOffsets);
    SweepFramesRegWrites(p.acks, dev, nAddr, UidOffsets);
    var acks := AfterUid(p, nAddr).acks;
    var w: seq<Event> := if force then [] else PromFrames(acks, dev, nAddr, PROMMEMORYADDR, 4) + [IPAddr(s.ip)];
    var wd: seq<Event> := if force then [] else [IPAddr(s.ip)];
    IpFramesDownstream(acks, dev, nAddr, s.ip, force);
    var r: seq<Event> := [IPBusReset(true)];
    var m: seq<Event> := [MacAddr(s.mac)];
    var tail: seq<Event> := [RarpFlag(s.useRarp)] + [IPBusReset(false)];
    DownstreamSplice(r, sf, m, w, wd, tail);
    assert SetFrames(p, dev, nAddr, s, force) == r + sf + m + w + tail;
  }
}
