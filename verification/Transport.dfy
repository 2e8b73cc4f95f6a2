/**
 The register transport, abstracted. Every register write, register read and
 busy-wait the driver performs is appended to a trace, together with the
 writes to the downstream network-identity registers. Reads of the
 command/status register and of the data register are answered from two
 scripts fixed in advance, standing for whatever the hardware returns.
 */
module Transport {
  import opened I2CDefs

  /** What the driver drives: writes to the I2C core's registers and to the downstream identity registers. */
  datatype Event =
    | RegWrite(reg: nat, value: uint8)     // neo430_wishbone32_write8
    | IPBusReset(asserted: bool)         // neo430_wishbone_writeIPBusReset
    | MacAddr(mac: uint64)               // neo430_wishbone_writeMACAddr
    | IPAddr(ip: uint32)                 // neo430_wishbone_writeIPAddr
    | RarpFlag(useRarp: bool)            // neo430_wishbone_writeRarpFlag

  /** What the driver waits on: busy-waits and register reads. */
  datatype Wait =
    | Delay(cycles: nat)                 // delay()
    | RegRead(reg: nat)                  // neo430_wishbone32_read8

  /** A command-register write whose word carries the STOP bit. */
  predicate IssuesStop(e: Event) {
    e.RegWrite? && e.reg == ADDR_CMD_STAT && HasStop(e.value)
  }

  /**
   The driver's writes so far, its waits so far, and the status words and
   data bytes the hardware has yet to return.
   */
  datatype Bus = Bus(trace: seq<Event>, waits: seq<Wait>, status: seq<uint8>, rx: seq<uint8>) {

    function Write8(reg: nat, v: uint8): Bus {
      this.(trace := trace + [RegWrite(reg, v)])
    }

    function Spin(cycles: nat): Bus {
      this.(waits := waits + [Delay(cycles)])
    }

    function Emit(e: Event): Bus
      requires !e.RegWrite?
    {
      this.(trace := trace + [e])
    }
  }

  /** neo430_wishbone32_read8 on the status or the data register: the next scripted word. */
  method Read8(bus: Bus, reg: nat) returns (v: uint8, bus': Bus)
    requires reg == ADDR_CMD_STAT || reg == ADDR_DATA
    requires reg == ADDR_CMD_STAT ==> |bus.status| > 0
    requires reg == ADDR_DATA ==> |bus.rx| > 0
    ensures bus'.trace == bus.trace
    ensures bus'.waits == bus.waits + [RegRead(reg)]
    ensures reg == ADDR_CMD_STAT ==> v == bus.status[0] && bus'.status == bus.status[1..] && bus'.rx == bus.rx
    ensures reg == ADDR_DATA ==> v == bus.rx[0] && bus'.rx == bus.rx[1..] && bus'.status == bus.status
  {
    if reg == ADDR_CMD_STAT {
      v := bus.status[0];
      bus' := bus.(waits := bus.waits + [RegRead(reg)], status := bus.status[1..]);
    } else {
      v := bus.rx[0];
      bus' := bus.(waits := bus.waits + [RegRead(reg)], rx := bus.rx[1..]);
    }
  }

  lemma Assoc<T>(a: seq<T>, b: seq<T>, c: seq<T>)
    ensures a + b + c == a + (b + c)
  {
  }

  lemma SliceSlice<T>(s: seq<T>, a: nat, b: nat)
    requires a + b <= |s|
    ensures s[a..][b..] == s[a + b..]
  {
  }

  /** Dropping `a` elements and then `b` more drops `a + b`. */
  lemma DropTake<T>(s: seq<T>, t: seq<T>, a: nat, b: nat)
    requires a + b <= |s| && t == s[a..]
    ensures t[..b] == s[a..a + b]
  {
  }

  /** Sequences that agree from `a` on agree on the window `a..b`. */
  lemma SameWindow<T>(x: seq<T>, y: seq<T>, a: nat, b: nat)
    requires a <= b <= |x| && a <= |y| && x[a..] == y[a..]
    ensures x[a..b] == y[a..b]
  {
    DropTake(x, x[a..], a, b - a);
    DropTake(y, y[a..], a, b - a);
  }

  lemma DropDrop<T>(s: seq<T>, s1: seq<T>, s2: seq<T>, a: nat, b: nat)
    requires a + b <= |s| && s1 == s[a..] && s2 == s1[b..]
    ensures s2 == s[a + b..]
  {
    SliceSlice(s, a, b);
  }

  lemma Concat3<T>(p: seq<T>, a: seq<T>, b: seq<T>, c: seq<T>)
    ensures p + a + b + c == p + (a + (b + c))
  {
  }

  /** Number of writes in a trace that send STOP on the bus. */
  function StopCount(t: seq<Event>): nat
  {
    if t == [] then 0
    else StopCount(t[..|t| - 1]) + (if IssuesStop(t[|t| - 1]) then 1 else 0)
  }

  lemma {:induction false} StopCountAppend(a: seq<Event>, b: seq<Event>)
    ensures StopCount(a + b) == StopCount(a) + StopCount(b)
    decreases |b|
  {
    if b == [] {
      assert a + b == a;
    } else {
      var b' := b[..|b| - 1];
      assert (a + b)[..|a + b| - 1] == a + b';
      StopCountAppend(a, b');
    }
  }

  lemma {:induction false} NoStopInside(t: seq<Event>)
    requires forall i :: 0 <= i < |t| ==> !IssuesStop(t[i])
    ensures StopCount(t) == 0
    decreases |t|
  {
    if t != [] {
      NoStopInside(t[..|t| - 1]);
    }
  }

  lemma OneStop(e: Event)
    requires IssuesStop(e)
    ensures StopCount([e]) == 1
  {
    assert [e][..0] == [];
  }

  /**
   The ACK outcome of every transfer the status script completes, in order:
   words with INPROGRESS set are skipped, and each word with it clear ends one
   transfer, acknowledged when RECVDACK is clear.
   */
  function Acks(status: seq<uint8>): seq<bool>
  {
    if status == [] then []
    else if InProgress(status[0]) then Acks(status[1..])
    else [AckReceived(status[0])] + Acks(status[1..])
  }

  /** The waits of `k` rounds of checkack's poll loop: a busy-wait, then a status read. */
  function Polls(k: nat, cycles: nat): (t: seq<Wait>)
    ensures |t| == 2 * k
    ensures forall i :: 0 <= i < k ==> t[2 * i] == Delay(cycles) && t[2 * i + 1] == RegRead(ADDR_CMD_STAT)
  {
    if k == 0 then [] else Polls(k - 1, cycles) + [Delay(cycles), RegRead(ADDR_CMD_STAT)]
  }
}
