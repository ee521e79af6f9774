/** The flash loader: protect-off, chip erase, page programs and read-back. */
module FlashUpgrade {
  import opened Bytes
  import opened Controller
  import opened I2cBus
  import opened Packets

  const POLLS: nat := 2000

  // The frames the loader sends ----------------------------------------------

  const WRITE_ENABLE: Frame := Frame(0, 0, [0x06])
  const READ_ID: Frame := Frame(1, 0, [0x9f])
  const READ_STATUS: Frame := Frame(1, 0, [0x05])
  const UNPROTECT: Frame := Frame(0, 0, [0x01, 0x02])
  const CHIP_ERASE: Frame := Frame(0, 0, [0xc7])

  function PageProgram(addr: nat, data: seq<byte>): (f: Frame)
    requires addr < MAX_SIZE && |data| <= PAGE
    ensures Encodable(f)
  {
    Frame(0, 0, [0x02] + Addr24(addr) + data)
  }

  function FastRead(addr: nat, n: nat): (f: Frame)
    requires addr < MAX_SIZE && n <= PAGE
    ensures Encodable(f)
  {
    Frame(n + 1, 0, [0x0b] + Addr24(addr))
  }

  // Packets --------------------------------------------------------------------

  function ProgramFrame(fw: seq<byte>, k: nat): (f: Frame)
    requires k < PacketCount(|fw|) && |fw| <= MAX_SIZE
    ensures Encodable(f)
  {
    PageProgram(k * PAGE, Packet(fw, k))
  }

  /** Every plain write of the programming loop: a write enable, then a packet. */
  function ProgramTraffic(fw: seq<byte>): (r: seq<seq<byte>>)
    requires |fw| <= MAX_SIZE
    ensures |r| == 2 * PacketCount(|fw|)
  {
    seq(2 * PacketCount(|fw|), i requires 0 <= i < 2 * PacketCount(|fw|) =>
      if i % 2 == 0 then Encode(WRITE_ENABLE) else Encode(ProgramFrame(fw, i / 2)))
  }

  /** `s` is a write enable and a program frame for each packet, in order. */
  ghost predicate IsTraffic(s: seq<seq<byte>>, fw: seq<byte>)
    requires |fw| <= MAX_SIZE
  {
    && |s| == 2 * PacketCount(|fw|)
    && forall k :: 0 <= k < PacketCount(|fw|) ==>
         s[2 * k] == Encode(WRITE_ENABLE) && s[2 * k + 1] == Encode(ProgramFrame(fw, k))
  }

  lemma ProgramTrafficIsTraffic(fw: seq<byte>)
    requires |fw| <= MAX_SIZE
    ensures IsTraffic(ProgramTraffic(fw), fw)
  {
    forall k | 0 <= k < PacketCount(|fw|)
      ensures ProgramTraffic(fw)[2 * k] == Encode(WRITE_ENABLE)
      ensures ProgramTraffic(fw)[2 * k + 1] == Encode(ProgramFrame(fw, k))
    {
      TrafficAt(fw, k);
    }
  }

  lemma TrafficAt(fw: seq<byte>, k: nat)
    requires |fw| <= MAX_SIZE && k < PacketCount(|fw|)
    ensures ProgramTraffic(fw)[2 * k] == Encode(WRITE_ENABLE)
    ensures ProgramTraffic(fw)[2 * k + 1] == Encode(ProgramFrame(fw, k))
  {
    Halves(k);
  }

  lemma Halves(k: nat)
    ensures 2 * k % 2 == 0 && (2 * k + 1) % 2 == 1 && (2 * k + 1) / 2 == k
  {
  }

  /** What the controller makes of the k-th packet on the wire: the packet's own
      bytes at the packet's own address, in a frame of 11 + its length field. */
  lemma TrafficDecodes(fw: seq<byte>, k: nat)
    requires |fw| <= MAX_SIZE && k < PacketCount(|fw|)
    ensures var (enable, packet) := (ProgramTraffic(fw)[2 * k], ProgramTraffic(fw)[2 * k + 1]);
            && Decode(enable) == Some(WRITE_ENABLE)
            && Decode(packet) == Some(ProgramFrame(fw, k))
            && |packet| >= 11 && |packet| == 11 + Word(packet[4], packet[5])
    ensures var cmd := ProgramFrame(fw, k).payload;
            |cmd| >= 4 && cmd[0] == 0x02 && FromAddr24(cmd[1], cmd[2], cmd[3]) == k * PAGE && cmd[4..] == Packet(fw, k)
  {
    TrafficAt(fw, k);
    FrameRoundTrip(WRITE_ENABLE);
    FrameRoundTrip(ProgramFrame(fw, k));
    ProgramPayload(k * PAGE, Packet(fw, k));
  }

  // The loader -----------------------------------------------------------------

  method NewCommandBuffer(size: nat) returns (buf: array<byte>)
    requires size >= 12
    ensures fresh(buf) && buf.Length == size && buf[..4] == MAGIC
    ensures forall i :: 4 <= i < size ==> buf[i] == 0
  {
    buf := new byte[size](i => if i < 4 then MAGIC[i] else 0);
  }

  /** The eleven bytes before the payload of a flash frame. */
  function Head(writeLen: nat, readLen: nat): (s: seq<byte>)
    requires writeLen < 0x1_0000 && readLen < 0x1_0000
    ensures |s| == 11
  {
    MAGIC + [Hi(writeLen), Lo(writeLen), Hi(readLen), Lo(readLen)] + Addr24(0)
  }

  /** Bytes 4 to 11 of a loader frame; the source writes them out each time. */
  method FillCommand(buf: array<byte>, writeLen: nat, readLen: nat, op: byte)
    requires buf.Length >= 12 && writeLen < 0x1_0000 && readLen < 0x1_0000
    modifies buf
    ensures forall i :: 0 <= i < 4 || 12 <= i < buf.Length ==> buf[i] == old(buf[i])
    ensures old(buf[..4]) == MAGIC ==> buf[..11] == Head(writeLen, readLen)
    ensures buf[11] == op
  {
    buf[4], buf[5] := Hi(writeLen), Lo(writeLen);
    buf[6], buf[7] := Hi(readLen), Lo(readLen);
    buf[8], buf[9], buf[10] := 0, 0, 0;
    buf[11] := op;
    assert buf[..4] == old(buf[..4]);
    assert buf[..11] == buf[..4] + buf[4..8] + buf[8..11];
    assert buf[8..11] == [0, 0, 0] == Addr24(0);
  }

  lemma CommandBytes(s: seq<byte>, f: Frame)
    requires Encodable(f) && f.offset == 0 && |s| >= 11
    requires s[..11] == Head(|f.payload|, f.readLen) && s[11..] == f.payload
    ensures s == Encode(f)
  {
    assert s == s[..11] + s[11..];
  }

  /** A controller at rest that a status read reports as 0. */
  predicate Ready(d: State) {
    Valid(d) && d.mode.FlashMode? && d.busy == 0 && !d.latch && d.protection == 0
  }

  function Settled(d: State): State {
    d.(busy := 0, latch := false)
  }

  /** What a status read gives, and the controller after it. */
  function StatusReply(d: State): (seq<byte>, State)
    requires Valid(d)
  {
    if d.mode.FlashMode? then (Repeat(Status(d), 1), AfterStatus(d)) else (Repeat(0xFF, 1), d)
  }

  ghost predicate ReadsStatus(cmd: seq<byte>) {
    forall d: State {:trigger Answer(d, cmd, 1)} :: Valid(d) ==> Answer(d, cmd, 1) == StatusReply(d)
  }

  lemma StatusAnswer()
    ensures ReadsStatus(Encode(READ_STATUS))
  {
    forall d: State | Valid(d) ensures Answer(d, Encode(READ_STATUS), 1) == StatusReply(d) {
      AnswerFrame(d, READ_STATUS, 1);
    }
  }

  /** One turn of the polling loop: buf[12] is where the status lands. */
  method PollStatus(bus: Bus, buf: array<byte>, ghost cmd: seq<byte>) returns (ret: int)
    requires bus.Ok() && buf.Length >= 13 && buf[..12] == cmd && ReadsStatus(cmd) && buf[12] != 0
    modifies bus, buf
    ensures bus.Ok() && |bus.dev.mem| == old(|bus.dev.mem|)
    ensures bus.sent == old(bus.sent) && bus.failures == old(bus.failures) && bus.clock == old(bus.clock) + 1
    ensures buf[..12] == cmd
    ensures ret < 0 ==> buf[12] != 0
    ensures HonestReads(bus.env) && buf[12] == 0 ==> Ready(bus.dev)
    ensures ReadWorks(bus.env, old(bus.clock)) && old(bus.dev.mode.FlashMode?) ==>
              ret >= 0 && buf[12] == Status(old(bus.dev)) && bus.dev == AfterStatus(old(bus.dev))
    ensures ReadLost(bus.env, old(bus.clock)) ==> ret < 0 && bus.dev == old(bus.dev)
  {
    assert Answer(bus.dev, cmd, 1) == StatusReply(bus.dev);
    ret := bus.ReadByte(buf, 12, buf, 12, cmd, StatusReply(bus.dev));
    assert buf[..12] == cmd;
  }

  /** Waiting to start: flash mode, unprotected, latched only while busy. */
  predicate Running(d: State) {
    Valid(d) && d.mode.FlashMode? && d.protection == 0 && (d.latch <==> d.busy > 0)
  }

  function AfterPolls(d: State, n: nat): State
    requires n <= d.busy
  {
    d.(busy := d.busy - n, latch := d.busy > n)
  }

  lemma PollStep(d: State, n: nat)
    requires Running(d) && n <= d.busy
    ensures var p := AfterPolls(d, n);
            && p.mode.FlashMode? && (Status(p) == 0 <==> n == d.busy)
            && (n == d.busy ==> AfterStatus(p) == Settled(d))
            && (n < d.busy ==> AfterStatus(p) == AfterPolls(d, n + 1))
  {
  }

  method NewStatusCommand() returns (buf: array<byte>)
    ensures fresh(buf) && buf.Length == 20 && ReadsStatus(buf[..12]) && buf[12] == 0xff
  {
    buf := NewCommandBuffer(20);
    FillCommand(buf, 1, 1, 0x05);
    CommandBytes(buf[..12], READ_STATUS);
    StatusAnswer();
    buf[12] := 0xff;
    assert buf[..12] == Encode(READ_STATUS);
  }

  /** How many of the n transfers from time c on work. */
  function Working(env: Env, c: nat, n: nat): (r: nat)
    ensures r <= n
  {
    if n == 0 then 0 else Working(env, c, n - 1) + if ReadWorks(env, c + n - 1) then 1 else 0
  }

  ghost predicate WorkOrLost(env: Env, c: nat, n: nat) {
    forall k: nat :: c <= k < c + n ==> ReadWorks(env, k) || ReadLost(env, k)
  }

  lemma {:induction false} AllWorking(env: Env, c: nat, n: nat, m: nat)
    requires n <= m && ReadsWorkFor(env, c, m)
    ensures Working(env, c, n) == n
  {
    if n > 0 {
      AllWorking(env, c, n - 1, m);
      assert ReadWorks(env, c + n - 1);
    }
  }

  lemma {:induction false} WorkingGrows(env: Env, c: nat, n: nat, m: nat)
    requires n <= m
    ensures Working(env, c, n) <= Working(env, c, m)
  {
    if n < m {
      WorkingGrows(env, c, n, m - 1);
    }
  }

  /** After n polls that found a controller busy which had started as `d`. */
  predicate Polled(env: Env, c: nat, n: nat, d: State, dev: State) {
    Running(d) && Working(env, c, n) <= d.busy && dev == AfterPolls(d, Working(env, c, n))
  }

  /** The n-th poll found the controller ready. */
  predicate Woken(env: Env, c: nat, n: nat, d: State, dev: State) {
    n > 0 && dev == Settled(d) && Working(env, c, n - 1) == d.busy && Working(env, c, n) == d.busy + 1
  }

  /** Either the polls that the controller needs all work, or each that is made works or
      is lost. */
  ghost predicate PollsKnown(env: Env, c: nat, d: State, maxTimes: nat) {
    Running(d) && (ReadsWorkFor(env, c, d.busy + 1) || WorkOrLost(env, c, maxTimes))
  }

  lemma TurnKnown(env: Env, c: nat, d: State, maxTimes: nat, n: nat, dev: State)
    requires PollsKnown(env, c, d, maxTimes) && Polled(env, c, n, d, dev) && n < maxTimes
    ensures ReadWorks(env, c + n) || ReadLost(env, c + n)
    ensures ReadsWorkFor(env, c, d.busy + 1) ==> n <= d.busy
  {
    if ReadsWorkFor(env, c, d.busy + 1) {
      if n > d.busy {
        AllWorking(env, c, d.busy + 1, d.busy + 1);
        WorkingGrows(env, c, d.busy + 1, n);
        assert false;
      }
    }
  }

  /** One poll and its test, after n polls of a controller that started as `d`. */
  method PollTurn(bus: Bus, buf: array<byte>, ghost d: State, ghost c: nat, ghost n: nat, ghost maxTimes: nat,
                  ghost known: bool, ghost cmd: seq<byte>) returns (ready: bool)
    requires bus.Ok() && buf.Length >= 13 && buf[..12] == cmd && ReadsStatus(cmd) && buf[12] != 0 && bus.clock == c + n
    requires known ==> PollsKnown(bus.env, c, d, maxTimes) && Polled(bus.env, c, n, d, bus.dev) && n < maxTimes
    modifies bus, buf
    ensures bus.Ok() && |bus.dev.mem| == old(|bus.dev.mem|)
    ensures bus.sent == old(bus.sent) && bus.failures == old(bus.failures) && bus.clock == old(bus.clock) + 1
    ensures buf[..12] == cmd && (ready <==> buf[12] == 0)
    ensures HonestReads(bus.env) && ready ==> Ready(bus.dev)
    ensures known && !ready ==> Polled(bus.env, c, n + 1, d, bus.dev)
    ensures known && ready ==> Woken(bus.env, c, n + 1, d, bus.dev)
  {
    if known {
      TurnKnown(bus.env, c, d, maxTimes, n, bus.dev);
      PollStep(d, Working(bus.env, c, n));
      assert Working(bus.env, c, n + 1) == Working(bus.env, c, n) + if ReadWorks(bus.env, c + n) then 1 else 0;
    }
    var ret := PollStatus(bus, buf, cmd);
    ready := ret >= 0 && buf[12] == 0x00;
  }

  /** What the polls, n of them, say of a wait for at most maxTimes. */
  lemma WaitEnds(env: Env, c: nat, d: State, maxTimes: nat, n: nat, dev: State, ok: bool)
    requires PollsKnown(env, c, d, maxTimes) && n <= maxTimes
    requires if ok then Woken(env, c, n, d, dev) else n == maxTimes && Polled(env, c, n, d, dev)
    ensures ReadsWorkFor(env, c, d.busy + 1) ==> (ok <==> d.busy < maxTimes) && (ok ==> n == d.busy + 1)
    ensures WorkOrLost(env, c, maxTimes) ==> (ok <==> d.busy < Working(env, c, maxTimes))
  {
    WorkingGrows(env, c, n, maxTimes);
    if ReadsWorkFor(env, c, d.busy + 1) {
      AllWorking(env, c, d.busy + 1, d.busy + 1);
      if n <= d.busy {
        AllWorking(env, c, n, d.busy + 1);
      } else {
        WorkingGrows(env, c, d.busy + 1, n);
      }
      if ok && n - 1 > d.busy {
        WorkingGrows(env, c, d.busy + 1, n - 1);
      }
    }
  }

  /** The polling loop: it ends when the status byte is 0 or the tries are used up. */
  method PollUntilReady(bus: Bus, buf: array<byte>, maxTimes: nat,
                        ghost d: State, ghost known: bool, ghost cmd: seq<byte>)
    requires bus.Ok() && buf.Length >= 13 && buf[..12] == cmd && ReadsStatus(cmd) && buf[12] != 0 && bus.dev == d
    requires known ==> PollsKnown(bus.env, bus.clock, d, maxTimes)
    modifies bus, buf
    ensures bus.Ok() && |bus.dev.mem| == old(|bus.dev.mem|)
    ensures bus.sent == old(bus.sent) && bus.failures == old(bus.failures)
    ensures old(bus.clock) <= bus.clock <= old(bus.clock) + maxTimes
    ensures HonestReads(bus.env) && buf[12] == 0 ==> Ready(bus.dev)
    ensures known ==>
              if buf[12] == 0 then Woken(bus.env, old(bus.clock), bus.clock - old(bus.clock), d, bus.dev)
              else bus.clock == old(bus.clock) + maxTimes && Polled(bus.env, old(bus.clock), maxTimes, d, bus.dev)
  {
    ghost var c := bus.clock;
    var wait := maxTimes;
    while wait > 0
      invariant bus.Ok() && |bus.dev.mem| == |d.mem| && bus.sent == old(bus.sent) && bus.failures == old(bus.failures)
      invariant 0 <= wait <= maxTimes && bus.clock + wait == c + maxTimes
      invariant buf[..12] == cmd && buf[12] != 0
      invariant known ==> Polled(bus.env, c, maxTimes - wait, d, bus.dev)
    {
      wait := wait - 1;
      var ready := PollTurn(bus, buf, d, c, maxTimes - wait - 1, maxTimes, known, cmd);
      if ready {
        break;
      }
    }
  }

  /** flash_is_ready: a poll that is lost is followed by the next, so that only those
      that work count. */
  method FlashIsReady(bus: Bus, maxTimes: nat) returns (ok: bool)
    requires bus.Ok()
    modifies bus
    ensures bus.Ok() && |bus.dev.mem| == old(|bus.dev.mem|)
    ensures bus.sent == old(bus.sent) && bus.failures == old(bus.failures)
    ensures old(bus.clock) <= bus.clock <= old(bus.clock) + maxTimes
    ensures HonestReads(bus.env) && ok ==> Ready(bus.dev)
    ensures ReadsWorkFor(bus.env, old(bus.clock), old(bus.dev.busy) + 1) && Running(old(bus.dev)) ==>
              && (ok <==> old(bus.dev.busy) < maxTimes)
              && (ok ==> bus.dev == Settled(old(bus.dev)) && bus.clock == old(bus.clock) + old(bus.dev.busy) + 1)
    ensures WorkOrLost(bus.env, old(bus.clock), maxTimes) && Running(old(bus.dev)) ==>
              && (ok <==> old(bus.dev.busy) < Working(bus.env, old(bus.clock), maxTimes))
              && (ok ==> bus.dev == Settled(old(bus.dev)))
  {
    var buf := NewStatusCommand();
    ghost var d, c := bus.dev, bus.clock;
    ghost var known := PollsKnown(bus.env, c, d, maxTimes);
    PollUntilReady(bus, buf, maxTimes, d, known, buf[..12]);
    if known {
      WaitEnds(bus.env, c, d, maxTimes, bus.clock - c, bus.dev, buf[12] == 0);
    }
    if buf[12] != 0x00 {
      return false;
    }
    return true;
  }

  /** A plain write whose bytes are known to be the frame f. */
  method SendFrame(bus: Bus, buf: array<byte>, len: nat, ghost f: Frame) returns (ret: int)
    requires bus.Ok() && len <= buf.Length && 0 < len < MAX_BUF_LEN
    requires Encodable(f) && buf[..len] == Encode(f)
    modifies bus
    ensures bus.Ok() && |bus.dev.mem| == old(|bus.dev.mem|)
    ensures bus.sent == old(bus.sent) + [Encode(f)] && bus.clock == old(bus.clock) + 1
    ensures ret >= 0 <==> bus.env.write(old(bus.clock)).count.Full?
    ensures bus.failures == old(bus.failures) + if ret >= 0 then [] else [old(bus.clock)]
    ensures NoErrors(bus.env) ==>
              ret >= 0 && bus.dev == Handle(old(bus.dev), f, bus.env.latency(old(bus.clock)))
    ensures Deaf(bus.env, old(bus.clock), 1) ==> ret >= 0 && bus.dev == old(bus.dev)
  {
    DeliverFrame(bus.dev, f, bus.env.latency(bus.clock));
    ret := bus.WriteBytes(buf, len);
  }

  /** A write-then-read of one byte into buf[12] whose answer the loader ignores. */
  method Probe(bus: Bus, buf: array<byte>, ghost f: Frame) returns (ret: int)
    requires bus.Ok() && buf.Length >= 13
    requires Encodable(f) && buf[..12] == Encode(f)
    modifies bus, buf
    ensures bus.Ok() && |bus.dev.mem| == old(|bus.dev.mem|)
    ensures bus.sent == old(bus.sent) && bus.failures == old(bus.failures)
    ensures buf[..12] == old(buf[..12]) && bus.clock == old(bus.clock) + 1
    ensures ret >= 0 <==> Delivered(bus.env, old(bus.clock), 1).Some?
    ensures NoErrors(bus.env) || Deaf(bus.env, old(bus.clock), 1) ==> ret >= 0 && bus.dev == Reply(old(bus.dev), f, 1).1
  {
    AnswerFrame(bus.dev, f, 1);
    ghost var cmd := buf[..12];
    ret := bus.ReadByte(buf, 12, buf, 12, cmd, Reply(bus.dev, f, 1));
    assert buf[..12] == cmd;
  }

  method SendCommand(bus: Bus, buf: array<byte>, ghost f: Frame, op: byte) returns (ret: int)
    requires bus.Ok() && buf.Length >= 12 && buf[..4] == MAGIC
    requires f == Frame(0, 0, [op])
    modifies bus, buf
    ensures bus.Ok() && |bus.dev.mem| == old(|bus.dev.mem|)
    ensures buf[..4] == MAGIC && bus.sent == old(bus.sent) + [Encode(f)] && bus.clock == old(bus.clock) + 1
    ensures ret >= 0 <==> bus.env.write(old(bus.clock)).count.Full?
    ensures bus.failures == old(bus.failures) + if ret >= 0 then [] else [old(bus.clock)]
    ensures NoErrors(bus.env) ==>
              ret >= 0 && bus.dev == Handle(old(bus.dev), f, bus.env.latency(old(bus.clock)))
    ensures Deaf(bus.env, old(bus.clock), 1) ==> ret >= 0 && bus.dev == old(bus.dev)
  {
    FillCommand(buf, 1, 0, op);
    assert buf[..12][..11] == buf[..11];
    CommandBytes(buf[..12], f);
    ret := SendFrame(bus, buf, 12, f);
  }

  method ProbeCommand(bus: Bus, buf: array<byte>, ghost f: Frame, op: byte) returns (ret: int)
    requires bus.Ok() && buf.Length >= 13 && buf[..4] == MAGIC
    requires f == Frame(1, 0, [op])
    modifies bus, buf
    ensures bus.Ok() && |bus.dev.mem| == old(|bus.dev.mem|)
    ensures bus.sent == old(bus.sent) && bus.failures == old(bus.failures)
    ensures buf[..4] == MAGIC && bus.clock == old(bus.clock) + 1
    ensures ret >= 0 <==> Delivered(bus.env, old(bus.clock), 1).Some?
    ensures NoErrors(bus.env) || Deaf(bus.env, old(bus.clock), 1) ==> ret >= 0 && bus.dev == Reply(old(bus.dev), f, 1).1
  {
    FillCommand(buf, 1, 1, op);
    assert buf[..12][..11] == buf[..11];
    CommandBytes(buf[..12], f);
    assert buf[..12][..4] == MAGIC;
    ret := Probe(bus, buf, f);
    assert buf[..12][..4] == buf[..4];
  }

  /** A write enable, then a probe; the source writes the pair out twice. */
  method EnableAndProbe(bus: Bus, buf: array<byte>, ghost f: Frame, op: byte) returns (ret: int)
    requires bus.Ok() && buf.Length >= 13 && buf[..4] == MAGIC
    requires f == Frame(1, 0, [op]) && (f == READ_ID || f == READ_STATUS)
    modifies bus, buf
    ensures bus.Ok() && |bus.dev.mem| == old(|bus.dev.mem|) && buf[..4] == MAGIC
    ensures var whole := bus.env.write(old(bus.clock)).count.Full?;
            && (ret >= 0 <==> whole && Delivered(bus.env, old(bus.clock) + 1, 1).Some?)
            && bus.clock == old(bus.clock) + (if whole then 2 else 1)
            && bus.failures == old(bus.failures) + if whole then [] else [old(bus.clock)]
    ensures NoErrors(bus.env) && old(bus.dev.mode.FlashMode? && bus.dev.busy == 0) ==>
              ret >= 0 && bus.dev == old(bus.dev).(latch := true)
    ensures Deaf(bus.env, old(bus.clock), 2) && Ready(old(bus.dev)) ==> ret >= 0 && bus.dev == old(bus.dev)
  {
    ret := SendCommand(bus, buf, WRITE_ENABLE, 0x06);
    if ret < 0 {
      return;
    }
    ret := ProbeCommand(bus, buf, f, op);
  }

  /** The write of 2 to the status register, which clears the protection bits. */
  method Unprotect(bus: Bus, buf: array<byte>) returns (ret: int)
    requires bus.Ok() && buf.Length >= 13 && buf[..4] == MAGIC
    modifies bus, buf
    ensures bus.Ok() && |bus.dev.mem| == old(|bus.dev.mem|) && bus.clock == old(bus.clock) + 1
    ensures ret >= 0 <==> bus.env.write(old(bus.clock)).count.Full?
    ensures bus.failures == old(bus.failures) + if ret >= 0 then [] else [old(bus.clock)]
    ensures NoErrors(bus.env) && old(bus.dev.mode.FlashMode? && bus.dev.busy == 0 && bus.dev.latch) ==>
              ret >= 0 && bus.dev == Begin(old(bus.dev).(protection := 0), bus.env.latency(old(bus.clock)))
    ensures Deaf(bus.env, old(bus.clock), 1) ==> ret >= 0 && bus.dev == old(bus.dev)
  {
    FillCommand(buf, 2, 0, 0x01);
    buf[12] := 0x02;
    assert buf[..13][..11] == buf[..11];
    CommandBytes(buf[..13], UNPROTECT);
    ret := SendFrame(bus, buf, 13, UNPROTECT);
  }

  /** The first four transfers of the initialization, of which only errors matter. */
  method Announce(bus: Bus, buf: array<byte>) returns (ret: int)
    requires bus.Ok() && buf.Length >= 13 && buf[..4] == MAGIC
    modifies bus, buf
    ensures bus.Ok() && |bus.dev.mem| == old(|bus.dev.mem|) && buf[..4] == MAGIC
    ensures var n := InitSteps(bus.env, old(bus.clock));
            (ret >= 0 <==> n >= 4) && bus.clock == old(bus.clock) + (if n < 4 then n + 1 else 4)
    ensures Heeded(old(bus.failures), bus.failures, bus.clock, ret >= 0)
    ensures NoErrors(bus.env) && old(bus.dev.mode.FlashMode? && bus.dev.busy == 0) ==>
              ret >= 0 && bus.dev == old(bus.dev).(latch := true)
    ensures Deaf(bus.env, old(bus.clock), 4) && Ready(old(bus.dev)) ==> ret >= 0 && bus.dev == old(bus.dev)
  {
    ret := EnableAndProbe(bus, buf, READ_ID, 0x9f);
    if ret < 0 {
      return;
    }
    ret := EnableAndProbe(bus, buf, READ_STATUS, 0x05);
  }

  /** Of the five transfers before the polls of the initialization, from time c on, those
      that are reported without an error before the first that is not. */
  function InitSteps(env: Env, c: nat): (n: nat)
    ensures n <= 5
    ensures NoErrors(env) || Deaf(env, c, 5) ==> n == 5
  {
    if !env.write(c).count.Full? then 0
    else if Delivered(env, c + 1, 1).None? then 1
    else if !env.write(c + 2).count.Full? then 2
    else if Delivered(env, c + 3, 1).None? then 3
    else if !env.write(c + 4).count.Full? then 4
    else 5
  }

  /** axs_fwupg_flash_init: whatever the protection bits were, they end clear. */
  method FlashInit(bus: Bus) returns (ok: bool)
    requires bus.Ok()
    modifies bus
    ensures bus.Ok() && |bus.dev.mem| == old(|bus.dev.mem|)
    ensures Heeded(old(bus.failures), bus.failures, bus.clock, ok)
    ensures InitSteps(bus.env, old(bus.clock)) < 5 ==>
              !ok && bus.clock == old(bus.clock) + InitSteps(bus.env, old(bus.clock)) + 1
    ensures HonestReads(bus.env) && ok ==> Ready(bus.dev)
    ensures NoErrors(bus.env) && LatencyAtMost(bus.env, POLLS - 1)
            && old(bus.dev.mode.FlashMode? && bus.dev.busy == 0) ==>
              ok && bus.dev == old(bus.dev).(latch := false, protection := 0)
    ensures Deaf(bus.env, old(bus.clock), 6) && Ready(old(bus.dev)) ==>
              ok && bus.dev == old(bus.dev) && bus.clock == old(bus.clock) + 6
  {
    var buf := NewCommandBuffer(20);
    var ret := Announce(bus, buf);
    if ret < 0 {
      return false;
    }
    ret := Unprotect(bus, buf);
    if ret < 0 {
      return false;
    }
    ok := FlashIsReady(bus, POLLS);
  }

  /** axs_fwupg_flash_erase */
  method FlashErase(bus: Bus) returns (ok: bool)
    requires bus.Ok()
    modifies bus
    ensures bus.Ok() && |bus.dev.mem| == old(|bus.dev.mem|)
    ensures Heeded(old(bus.failures), bus.failures, bus.clock, ok)
    ensures HonestReads(bus.env) && ok ==> Ready(bus.dev)
    ensures NoErrors(bus.env) && LatencyAtMost(bus.env, POLLS - 1) && Ready(old(bus.dev)) ==>
              ok && bus.dev == old(bus.dev).(mem := Repeat(0xFF, |old(bus.dev).mem|))
    ensures Deaf(bus.env, old(bus.clock), 3) && Ready(old(bus.dev)) ==>
              ok && bus.dev == old(bus.dev) && bus.clock == old(bus.clock) + 3
  {
    var buf := NewCommandBuffer(12);
    var ret := SendCommand(bus, buf, WRITE_ENABLE, 0x06);
    if ret < 0 {
      return false;
    }
    ret := SendCommand(bus, buf, CHIP_ERASE, 0xc7);
    if ret < 0 {
      return false;
    }
    ok := FlashIsReady(bus, POLLS);
  }

  // Programming -----------------------------------------------------------------

  /** The first n bytes of the image followed by erased cells. */
  function Burned(fw: seq<byte>, n: nat, size: nat): (r: seq<byte>)
    requires n <= |fw| && n <= size
    ensures |r| == size
  {
    fw[..n] + Repeat(0xFF, size - n)
  }

  lemma ProgramPayload(addr: nat, data: seq<byte>)
    requires addr < MAX_SIZE && |data| <= PAGE
    ensures var cmd := PageProgram(addr, data).payload;
            && |cmd| == 4 + |data| && cmd[0] == 0x02 && cmd[4..] == data
            && FromAddr24(cmd[1], cmd[2], cmd[3]) == addr
  {
    var cmd := PageProgram(addr, data).payload;
    var a := Addr24(addr);
    assert cmd[1] == a[0] && cmd[2] == a[1] && cmd[3] == a[2];
    AddrRoundTrip(addr);
  }

  lemma ProgramHandled(d: State, addr: nat, data: seq<byte>, latency: nat)
    requires Valid(d) && d.mode.FlashMode? && d.busy == 0 && d.latch && d.protection == 0
    requires 0 < |data| <= PAGE && addr < |d.mem| && ProgramIsClean(d.mem, addr, data)
    ensures Handle(d, PageProgram(addr, data), latency) ==
            Begin(d.(mem := d.mem[..addr] + data + d.mem[addr + |data|..]), latency)
  {
    var f := PageProgram(addr, data);
    ProgramPayload(addr, data);
    assert Handle(d, f, latency) == Execute(d, f.payload, latency);
    ExecuteProgram(d, f.payload, addr, data, latency);
  }

  lemma ExecuteProgram(d: State, cmd: seq<byte>, addr: nat, data: seq<byte>, latency: nat)
    requires Valid(d) && d.busy == 0 && d.latch && d.protection == 0
    requires 0 < |data| <= PAGE && addr < |d.mem| && ProgramIsClean(d.mem, addr, data)
    requires |cmd| >= 5 && cmd[0] == 0x02 && FromAddr24(cmd[1], cmd[2], cmd[3]) == addr && cmd[4..] == data
    ensures Execute(d, cmd, latency) ==
            Begin(d.(mem := d.mem[..addr] + data + d.mem[addr + |data|..]), latency)
  {
    SmallMod(addr, |d.mem|);
    assert Execute(d, cmd, latency) == Program(d, addr, data, latency);
    ProgramErased(d.mem, addr, data);
  }

  lemma BurnedGrows(fw: seq<byte>, n: nat, m: nat, size: nat)
    requires n <= m <= |fw| <= size
    ensures Burned(fw, n, size)[..n] + fw[n..m] + Burned(fw, n, size)[m..] == Burned(fw, m, size)
    ensures forall i :: n <= i < size ==> Burned(fw, n, size)[i] == 0xFF
  {
    assert fw[..n] + fw[n..m] == fw[..m];
  }

  lemma EnableHandled(d: State, latency: nat)
    requires Ready(d)
    ensures Handle(d, WRITE_ENABLE, latency) == d.(latch := true)
  {
  }

  lemma PacketIsClean(fw: seq<byte>, k: nat, size: nat)
    requires |fw| <= size && k < PacketCount(|fw|)
    ensures ProgramIsClean(Burned(fw, k * PAGE, size), k * PAGE, Packet(fw, k))
  {
    BurnedGrows(fw, k * PAGE, Reach(|fw|, k + 1), size);
    assert k * PAGE % PAGE == 0;
  }

  lemma ProgramStep(d: State, fw: seq<byte>, k: nat, l1: nat, l2: nat)
    requires Ready(d) && |fw| <= |d.mem| && k < PacketCount(|fw|)
    requires d.mem == Burned(fw, k * PAGE, |d.mem|)
    ensures var n := Reach(|fw|, k + 1);
            Handle(Handle(d, WRITE_ENABLE, l1), ProgramFrame(fw, k), l2)
            == Begin(d.(mem := Burned(fw, n, |d.mem|)), l2)
  {
    var addr := k * PAGE;
    var n := Reach(|fw|, k + 1);
    BurnedGrows(fw, addr, n, |d.mem|);
    PacketIsClean(fw, k, |d.mem|);
    EnableHandled(d, l1);
    ProgramHandled(d.(latch := true), addr, Packet(fw, k), l2);
  }

  /** The fifteen bytes before the data of a page program. */
  method FillProgramHead(buf: array<byte>, size: nat, addr: nat)
    requires buf.Length >= 15 && buf[..4] == MAGIC && size <= PAGE && addr < MAX_SIZE
    modifies buf
    ensures buf[..15] == Head(size + 4, 0) + [0x02] + Addr24(addr) && buf[..15][..4] == MAGIC
  {
    FillCommand(buf, size + 4, 0, 0x02);
    ghost var head := buf[..12];
    assert head[..11] == buf[..11] && head[11] == buf[11];
    buf[12] := addr / 0x1_0000 % 256;
    buf[13] := addr / 256 % 256;
    buf[14] := addr % 256;
    assert buf[..12] == head && buf[12..15] == Addr24(addr);
    assert buf[..15] == head[..11] + [head[11]] + buf[12..15];
  }

  method SendPacket(bus: Bus, buf: array<byte>, fw: seq<byte>, k: nat) returns (ret: int)
    requires bus.Ok() && buf.Length == 300 && buf[..4] == MAGIC
    requires |fw| <= MAX_SIZE && k < PacketCount(|fw|)
    modifies bus, buf
    ensures bus.Ok() && |bus.dev.mem| == old(|bus.dev.mem|) && buf[..4] == MAGIC
    ensures bus.sent == old(bus.sent) + [Encode(ProgramFrame(fw, k))] && bus.clock == old(bus.clock) + 1
    ensures ret >= 0 <==> bus.env.write(old(bus.clock)).count.Full?
    ensures bus.failures == old(bus.failures) + if ret >= 0 then [] else [old(bus.clock)]
    ensures NoErrors(bus.env) ==>
              && ret >= 0
              && bus.dev == Handle(old(bus.dev), ProgramFrame(fw, k), bus.env.latency(old(bus.clock)))
    ensures Deaf(bus.env, old(bus.clock), 1) ==> ret >= 0 && bus.dev == old(bus.dev)
  {
    var currentSize := PacketSize(|fw|, k);
    var addr := k * PAGE;
    FillProgramHead(buf, currentSize, addr);
    ghost var head := buf[..15];
    CopyIn(buf, 15, fw, addr, currentSize);
    ghost var f, s := PageProgram(addr, Packet(fw, k)), buf[..15 + currentSize];
    assert s == head + Packet(fw, k);
    assert s[..11] == Head(currentSize + 4, 0);
    assert s[11..] == [0x02] + Addr24(addr) + Packet(fw, k);
    CommandBytes(s, f);
    ret := SendFrame(bus, buf, 15 + currentSize, f);
    assert buf[..4] == s[..4] == head[..4];
  }

  lemma PrefixSteps<T>(start: seq<T>, all: seq<T>, n: nat)
    requires n + 2 <= |all|
    ensures start <= start + all[..n] <= start + all
    ensures start <= start + all[..n] + [all[n]] <= start + all
    ensures start <= start + all[..n] + [all[n]] + [all[n + 1]] <= start + all
    ensures start + all[..n] + [all[n]] + [all[n + 1]] == start + all[..n + 2]
  {
    assert start + all[..n] + [all[n]] == start + all[..n + 1];
    assert start + all[..n + 1] + [all[n + 1]] == start + all[..n + 2];
  }

  /** One turn of the programming loop. */
  method WritePacket(bus: Bus, buf: array<byte>, fw: seq<byte>, k: nat, ghost start: seq<seq<byte>>,
                     ghost traffic: seq<seq<byte>>, ghost clean: bool, ghost deaf: bool) returns (ok: bool)
    requires bus.Ok() && buf.Length == 300 && buf[..4] == MAGIC
    requires |fw| <= |bus.dev.mem| && k < PacketCount(|fw|)
    requires 2 * k + 2 <= |traffic|
    requires traffic[2 * k] == Encode(WRITE_ENABLE) && traffic[2 * k + 1] == Encode(ProgramFrame(fw, k))
    requires bus.sent == start + traffic[..2 * k]
    requires clean ==> NoErrors(bus.env) && LatencyAtMost(bus.env, POLLS - 1) && Ready(bus.dev)
                       && bus.dev.mem == Burned(fw, k * PAGE, |bus.dev.mem|)
    requires deaf ==> Deaf(bus.env, bus.clock, 3) && Ready(bus.dev)
    modifies bus, buf
    ensures bus.Ok() && |bus.dev.mem| == old(|bus.dev.mem|) && buf[..4] == MAGIC
    ensures start <= bus.sent <= start + traffic
    ensures ok ==> bus.sent == start + traffic[..2 * k + 2]
    ensures Heeded(old(bus.failures), bus.failures, bus.clock, ok)
    ensures HonestReads(bus.env) && ok ==> Ready(bus.dev)
    ensures clean ==> ok && bus.dev == old(bus.dev).(mem := Burned(fw, Reach(|fw|, k + 1), |old(bus.dev).mem|))
    ensures deaf ==> ok && bus.dev == old(bus.dev) && bus.clock == old(bus.clock) + 3
  {
    if clean {
      ProgramStep(bus.dev, fw, k, bus.env.latency(bus.clock), bus.env.latency(bus.clock + 1));
    }
    PrefixSteps(start, traffic, 2 * k);
    var ret := SendCommand(bus, buf, WRITE_ENABLE, 0x06);
    if ret < 0 {
      return false;
    }
    ret := SendPacket(bus, buf, fw, k);
    if ret < 0 {
      return false;
    }
    ok := FlashIsReady(bus, POLLS);
  }

  lemma DeafTurn(env: Env, c: nat, n: nat, k: nat)
    requires Deaf(env, c, 3 * n) && k < n
    ensures Deaf(env, c + 3 * k, 3)
  {
  }

  /** The programming loop over an image of totalPackets packets. */
  method WritePackets(bus: Bus, buf: array<byte>, fw: seq<byte>, totalPackets: nat,
                      ghost traffic: seq<seq<byte>>, ghost clean: bool, ghost deaf: bool) returns (ok: bool)
    requires bus.Ok() && buf.Length == 300 && buf[..4] == MAGIC
    requires |fw| <= |bus.dev.mem| && IsTraffic(traffic, fw) && totalPackets == PacketCount(|fw|)
    requires clean ==> NoErrors(bus.env) && LatencyAtMost(bus.env, POLLS - 1) && Ready(bus.dev)
                       && bus.dev.mem == Burned(fw, 0, |bus.dev.mem|)
    requires deaf ==> Deaf(bus.env, bus.clock, 3 * totalPackets) && Ready(bus.dev)
    modifies bus, buf
    ensures bus.Ok() && |bus.dev.mem| == old(|bus.dev.mem|)
    ensures old(bus.sent) <= bus.sent <= old(bus.sent) + traffic
    ensures ok ==> bus.sent == old(bus.sent) + traffic
    ensures Heeded(old(bus.failures), bus.failures, bus.clock, ok)
    ensures HonestReads(bus.env) && ok && (totalPackets > 0 || Ready(old(bus.dev))) ==> Ready(bus.dev)
    ensures clean ==> ok && bus.dev == old(bus.dev).(mem := Burned(fw, |fw|, |old(bus.dev).mem|))
    ensures deaf ==> ok && bus.dev == old(bus.dev) && bus.clock == old(bus.clock) + 3 * totalPackets
  {
    ghost var start, dev0, c0 := bus.sent, bus.dev, bus.clock;
    var currentNum := 1;
    while currentNum <= totalPackets
      invariant bus.Ok() && |bus.dev.mem| == |dev0.mem| && buf[..4] == MAGIC
      invariant 1 <= currentNum <= totalPackets + 1
      invariant bus.sent == start + traffic[..2 * (currentNum - 1)] && bus.failures == old(bus.failures)
      invariant HonestReads(bus.env) && (currentNum > 1 || Ready(dev0)) ==> Ready(bus.dev)
      invariant clean ==> bus.dev == dev0.(mem := Burned(fw, Reach(|fw|, currentNum - 1), |dev0.mem|))
      invariant deaf ==> bus.dev == dev0 && bus.clock == c0 + 3 * (currentNum - 1)
    {
      if deaf {
        DeafTurn(bus.env, c0, totalPackets, currentNum - 1);
      }
      ok := WritePacket(bus, buf, fw, currentNum - 1, start, traffic, clean, deaf);
      if !ok {
        return false;
      }
      currentNum := currentNum + 1;
    }
    assert traffic[..2 * (currentNum - 1)] == traffic;
    ok := true;
  }

  /** axs_fwupg_flash_write */
  method FlashWrite(bus: Bus, fw: seq<byte>, ghost traffic: seq<seq<byte>>) returns (ok: bool)
    requires bus.Ok() && |fw| <= |bus.dev.mem| && IsTraffic(traffic, fw)
    modifies bus
    ensures bus.Ok() && |bus.dev.mem| == old(|bus.dev.mem|)
    ensures old(bus.sent) <= bus.sent <= old(bus.sent) + traffic
    ensures ok ==> bus.sent == old(bus.sent) + traffic
    ensures Heeded(old(bus.failures), bus.failures, bus.clock, ok)
    ensures HonestReads(bus.env) && ok && (fw != [] || Ready(old(bus.dev))) ==> Ready(bus.dev)
    ensures NoErrors(bus.env) && LatencyAtMost(bus.env, POLLS - 1) && Ready(old(bus.dev))
            && old(bus.dev).mem == Repeat(0xFF, |old(bus.dev).mem|) ==>
              ok && bus.dev == old(bus.dev).(mem := Burned(fw, |fw|, |old(bus.dev).mem|))
    ensures Deaf(bus.env, old(bus.clock), 3 * PacketCount(|fw|)) && Ready(old(bus.dev)) ==>
              ok && bus.dev == old(bus.dev) && bus.clock == old(bus.clock) + 3 * PacketCount(|fw|)
  {
    var totalPackets := |fw| / PAGE;
    if |fw| % PAGE != 0 {
      totalPackets := totalPackets + 1;
    }
    assert totalPackets == PacketCount(|fw|);
    var buf := NewCommandBuffer(300);
    ghost var clean := NoErrors(bus.env) && LatencyAtMost(bus.env, POLLS - 1) && Ready(bus.dev)
                       && bus.dev.mem == Repeat(0xFF, |bus.dev.mem|);
    ghost var deaf := Deaf(bus.env, bus.clock, 3 * totalPackets) && Ready(bus.dev);
    assert Burned(fw, 0, |bus.dev.mem|) == Repeat(0xFF, |bus.dev.mem|);
    ok := WritePackets(bus, buf, fw, totalPackets, traffic, clean, deaf);
  }

  // Reading back ------------------------------------------------------------------

  predicate Quiet(d: State) {
    Valid(d) && d.mode.FlashMode? && d.busy == 0
  }

  /** What the read-back buffer holds in the place of packet k before it is read: zeros
      from kzalloc, then the packet before, which the comparison has just found equal. */
  function Prior(fw: seq<byte>, k: nat): (r: seq<byte>)
    requires k < PacketCount(|fw|)
    ensures |r| == PacketSize(|fw|, k)
  {
    if k == 0 then Repeat(0, PacketSize(|fw|, k)) else fw[(k - 1) * PAGE..(k - 1) * PAGE + PacketSize(|fw|, k)]
  }

  /** How much of packet k of n bytes the read-back that begins with transfer c is given,
      with the dummy byte in front. */
  function Given(env: Env, c: nat, n: nat, k: nat): (r: Option<nat>)
    requires k < PacketCount(n)
    ensures r.Some? ==> r.value <= PacketSize(n, k) + 1
  {
    Delivered(env, c + k, PacketSize(n, k) + 1)
  }

  /** What a buffer that held `stale` holds once `given` bytes, the dummy byte and then
      `data`, have come. */
  function Overlaid(data: seq<byte>, given: nat, stale: seq<byte>): (r: seq<byte>)
    requires |data| == |stale| && given <= |data| + 1
    ensures |r| == |data|
  {
    var h := if given == 0 then 0 else given - 1;
    data[..h] + stale[h..]
  }

  /** Packet k passes the comparison: every byte delivered is the image's, and so is
      every byte left in the buffer in place of one that was not. */
  ghost predicate PassesAt(env: Env, c: nat, fw: seq<byte>, mem: seq<byte>, k: nat)
    requires |fw| <= |mem| && k < PacketCount(|fw|)
  {
    var given := Given(env, c, |fw|, k);
    given.Some? && Packet(fw, k) == Overlaid(mem[k * PAGE..Reach(|fw|, k + 1)], given.value, Prior(fw, k))
  }

  /** The read-back that begins with transfer c passes. */
  ghost predicate Passes(env: Env, c: nat, fw: seq<byte>, mem: seq<byte>)
    requires |fw| <= |mem|
  {
    forall k: nat :: k < PacketCount(|fw|) ==> PassesAt(env, c, fw, mem, k)
  }

  /** Some transfer of the read-back of n bytes returns an error, so that it cannot pass. */
  ghost predicate SomeFails(env: Env, c: nat, n: nat) {
    exists k: nat :: k < PacketCount(n) && Given(env, c, n, k).None?
  }

  ghost predicate NoneShort(env: Env, c: nat, n: nat) {
    forall k: nat :: k < PacketCount(n) ==> Given(env, c, n, k) == Some(PacketSize(n, k) + 1)
  }

  /** A pass means that the memory holds the image, on this bus from this transfer on and
      whatever the image of n bytes and the memory. */
  ghost predicate PassIsSound(env: Env, c: nat, n: nat) {
    forall fw: seq<byte>, mem: seq<byte> :: |fw| == n <= |mem| && Passes(env, c, fw, mem) ==> mem[..n] == fw
  }

  lemma WholePassIsSound(env: Env, c: nat, fw: seq<byte>, mem: seq<byte>)
    requires |fw| <= |mem| && NoneShort(env, c, |fw|)
    ensures Passes(env, c, fw, mem) <==> mem[..|fw|] == fw
  {
    forall k: nat | k < PacketCount(|fw|)
      ensures PassesAt(env, c, fw, mem, k) <==> mem[k * PAGE..Reach(|fw|, k + 1)] == Packet(fw, k)
    {
      assert Given(env, c, |fw|, k).value == PacketSize(|fw|, k) + 1;
    }
    if Passes(env, c, fw, mem) {
      AllChunks(mem, fw, PacketCount(|fw|));
    } else {
      var k: nat :| k < PacketCount(|fw|) && !PassesAt(env, c, fw, mem, k);
      ChunkEquality(mem, fw, k * PAGE, Reach(|fw|, k + 1));
    }
  }

  lemma {:induction false} AllChunks(mem: seq<byte>, fw: seq<byte>, n: nat)
    requires |fw| <= |mem| && n <= PacketCount(|fw|)
    requires forall k: nat :: k < n ==> mem[k * PAGE..Reach(|fw|, k + 1)] == Packet(fw, k)
    ensures mem[..Reach(|fw|, n)] == fw[..Reach(|fw|, n)]
  {
    if n > 0 {
      AllChunks(mem, fw, n - 1);
      assert Reach(|fw|, n - 1) == (n - 1) * PAGE;
      assert mem[(n - 1) * PAGE..Reach(|fw|, n - 1 + 1)] == Packet(fw, n - 1);
      ChunkEquality(mem, fw, (n - 1) * PAGE, Reach(|fw|, n));
    }
  }

  /** With reads that are whole or negative a pass is sound, and without errors the
      image passes. */
  lemma FaithfulPassIsSound(env: Env, c: nat, fw: seq<byte>, mem: seq<byte>)
    requires |fw| <= |mem| && FaithfulReads(env)
    ensures HonestReads(env)
    ensures Passes(env, c, fw, mem) ==> mem[..|fw|] == fw
    ensures NoErrors(env) ==> (Passes(env, c, fw, mem) <==> mem[..|fw|] == fw)
  {
    if Passes(env, c, fw, mem) || NoErrors(env) {
      forall k: nat | k < PacketCount(|fw|)
        ensures Given(env, c, |fw|, k) == Some(PacketSize(|fw|, k) + 1)
      {
        assert NoErrors(env) || PassesAt(env, c, fw, mem, k);
      }
      WholePassIsSound(env, c, fw, mem);
    }
  }

  lemma BlankOverlay(data: seq<byte>, given: nat, size: nat)
    requires |data| == size > 0 && given <= size + 1 && data[..size - 1] == Repeat(0, size - 1)
    requires given == size + 1 ==> data == Repeat(0, size)
    ensures Overlaid(data, given, Repeat(0, size)) == Repeat(0, size)
  {
    if given <= size {
      var h := if given == 0 then 0 else given - 1;
      assert data[..h] == data[..size - 1][..h];
    }
  }

  /** A blank memory but for the last byte of packet k. */
  function Spotted(n: nat, k: nat): (r: seq<byte>)
    requires k < PacketCount(n)
    ensures |r| == n
  {
    Repeat(0, n)[Reach(n, k + 1) - 1 := 1]
  }

  lemma SpottedPacket(n: nat, k: nat, j: nat)
    requires k < PacketCount(n) && j < PacketCount(n)
    ensures var data, size := Spotted(n, k)[j * PAGE..Reach(n, j + 1)], PacketSize(n, j);
            data[..size - 1] == Repeat(0, size - 1) && (j != k ==> data == Repeat(0, size))
  {
    var data, size, last := Spotted(n, k)[j * PAGE..Reach(n, j + 1)], PacketSize(n, j), Reach(n, k + 1) - 1;
    assert k * PAGE <= last < k * PAGE + PAGE;
    forall i | 0 <= i < size && (j != k || i < size - 1) ensures data[i] == 0 {
      assert data[i] == Spotted(n, k)[j * PAGE + i];
      assert j * PAGE + i != last;
    }
  }

  lemma BlankPacket(n: nat, j: nat)
    requires j < PacketCount(n)
    ensures var fw, size := Repeat(0, n), PacketSize(n, j);
            |fw| == n && Prior(fw, j) == Repeat(0, size) && Packet(fw, j) == Repeat(0, size)
  {
  }

  lemma PassesFrom(env: Env, c: nat, fw: seq<byte>, mem: seq<byte>, k: nat, given: nat)
    requires |fw| <= |mem| && k < PacketCount(|fw|) && Given(env, c, |fw|, k) == Some(given)
    requires Packet(fw, k) == Overlaid(mem[k * PAGE..Reach(|fw|, k + 1)], given, Prior(fw, k))
    ensures PassesAt(env, c, fw, mem, k)
  {
  }

  lemma ShortPassesAt(env: Env, c: nat, n: nat, k: nat, j: nat)
    requires k < PacketCount(n) && Given(env, c, n, k) != Some(PacketSize(n, k) + 1)
    requires j < PacketCount(n) && Given(env, c, n, j).Some?
    ensures PassesAt(env, c, Repeat(0, n), Spotted(n, k), j)
  {
    var given := Given(env, c, n, j).value;
    SpottedPacket(n, k, j);
    BlankPacket(n, j);
    BlankOverlay(Spotted(n, k)[j * PAGE..Reach(n, j + 1)], given, PacketSize(n, j));
    PassesFrom(env, c, Repeat(0, n), Spotted(n, k), j, given);
  }

  /** A blank image passes over a memory that differs from it in the last byte of a
      packet that came short. */
  lemma ShortPasses(env: Env, c: nat, n: nat, k: nat)
    requires !SomeFails(env, c, n) && k < PacketCount(n) && Given(env, c, n, k) != Some(PacketSize(n, k) + 1)
    ensures Passes(env, c, Repeat(0, n), Spotted(n, k)) && Spotted(n, k)[..n] != Repeat(0, n)
  {
    forall j: nat | j < PacketCount(n) ensures PassesAt(env, c, Repeat(0, n), Spotted(n, k), j) {
      assert Given(env, c, n, j).Some?;
      ShortPassesAt(env, c, n, k, j);
    }
    assert Spotted(n, k)[..n][Reach(n, k + 1) - 1] == 1;
  }

  /** The verdict of the read-back is sound for all images of n bytes and all memories if
      and only if no transfer is short or one of them fails outright. */
  lemma VerdictSoundExactly(env: Env, c: nat, n: nat)
    ensures PassIsSound(env, c, n) <==> NoneShort(env, c, n) || SomeFails(env, c, n)
  {
    if NoneShort(env, c, n) {
      forall fw: seq<byte>, mem: seq<byte> | |fw| == n <= |mem| && Passes(env, c, fw, mem)
        ensures mem[..n] == fw
      {
        WholePassIsSound(env, c, fw, mem);
      }
    } else if SomeFails(env, c, n) {
      var k: nat :| k < PacketCount(n) && Given(env, c, n, k).None?;
      forall fw: seq<byte>, mem: seq<byte> | |fw| == n <= |mem|
        ensures !Passes(env, c, fw, mem)
      {
        assert !PassesAt(env, c, fw, mem, k);
      }
    } else {
      var k: nat :| k < PacketCount(n) && Given(env, c, n, k) != Some(PacketSize(n, k) + 1);
      ShortPasses(env, c, n, k);
    }
  }

  lemma FastReadReply(d: State, addr: nat, n: nat)
    requires Quiet(d) && 0 < n <= PAGE && addr + n <= |d.mem|
    ensures Reply(d, FastRead(addr, n), n + 1) == ([0] + Window(d.mem, addr, n), d)
  {
    var cmd := FastRead(addr, n).payload;
    var a := Addr24(addr);
    assert |cmd| == 4 && cmd[0] == 0x0b && cmd[1] == a[0] && cmd[2] == a[1] && cmd[3] == a[2];
    AddrRoundTrip(addr);
  }

  lemma FastReadAnswer(d: State, addr: nat, n: nat)
    requires Quiet(d) && 0 < n <= PAGE && addr + n <= |d.mem|
    ensures Answer(d, Encode(FastRead(addr, n)), n + 1) == ([0] + d.mem[addr..addr + n], d)
  {
    AnswerFrame(d, FastRead(addr, n), n + 1);
    FastReadReply(d, addr, n);
    WindowInside(d.mem, addr, n);
  }

  lemma WindowInside(mem: seq<byte>, addr: nat, n: nat)
    requires |mem| > 0 && addr + n <= |mem|
    ensures Window(mem, addr, n) == mem[addr..addr + n]
  {
    forall i | 0 <= i < n ensures Window(mem, addr, n)[i] == mem[addr..addr + n][i] {
      SmallMod(addr + i, |mem|);
    }
  }

  /** The fifteen bytes of a fast read. */
  method FillFastReadBytes(buf: array<byte>, addr: nat, n: nat)
    requires buf.Length == 15 && buf[..4] == MAGIC && addr < MAX_SIZE && n <= PAGE
    modifies buf
    ensures buf[..] == Encode(FastRead(addr, n)) && buf[..4] == MAGIC
  {
    FillCommand(buf, 4, n + 1, 0x0b);
    ghost var head := buf[..12];
    assert head[..11] == buf[..11] && head[11] == buf[11];
    buf[12] := addr / 0x1_0000 % 256;
    buf[13] := addr / 256 % 256;
    buf[14] := addr % 256;
    assert buf[..12] == head && buf[12..15] == Addr24(addr);
    assert buf[..][..11] == head[..11];
    assert buf[..][11..] == [head[11]] + buf[12..15];
    CommandBytes(buf[..], FastRead(addr, n));
    assert buf[..4] == head[..11][..4];
  }

  /** The command reads n bytes of a quiet flash, with a dummy byte in front. */
  ghost predicate ReadsFlash(cmd: seq<byte>, addr: nat, n: nat) {
    forall d: State {:trigger Answer(d, cmd, n + 1)} :: Quiet(d) && addr + n <= |d.mem| ==>
      Answer(d, cmd, n + 1) == ([0] + d.mem[addr..addr + n], d)
  }

  lemma FastReadReads(addr: nat, n: nat)
    requires addr < MAX_SIZE && 0 < n <= PAGE
    ensures ReadsFlash(Encode(FastRead(addr, n)), addr, n)
  {
    forall d: State | Quiet(d) && addr + n <= |d.mem|
      ensures Answer(d, Encode(FastRead(addr, n)), n + 1) == ([0] + d.mem[addr..addr + n], d)
    {
      FastReadAnswer(d, addr, n);
    }
  }

  method FillFastRead(buf: array<byte>, addr: nat, n: nat)
    requires buf.Length == 15 && buf[..4] == MAGIC && addr < MAX_SIZE && 0 < n <= PAGE
    modifies buf
    ensures ReadsFlash(buf[..], addr, n) && buf[..4] == MAGIC
  {
    FillFastReadBytes(buf, addr, n);
    FastReadReads(addr, n);
  }

  lemma AnswerCopied(buf: seq<byte>, s: seq<byte>, m: nat)
    requires 1 + |s| <= |buf| && m <= 1 + |s|
    ensures Copied(buf, 0, ([0] + s)[..m])[1..1 + |s|] == Overlaid(s, m, buf[1..1 + |s|])
  {
    var r := Copied(buf, 0, ([0] + s)[..m]);
    assert forall i :: 0 <= i < m ==> r[i] == ([0] + s)[i];
    assert forall i :: m <= i < |buf| ==> r[i] == buf[i];
  }

  /** What one read leaves in the buffer: the bytes delivered, and behind them the bytes
      that were there. */
  method Fetch(bus: Bus, buf: array<byte>, tmpbuf: array<byte>, addr: nat, n: nat) returns (ret: int)
    requires bus.Ok() && buf.Length == 15 && tmpbuf.Length == PAGE + 1 && buf != tmpbuf
    requires 0 < n <= PAGE && addr + n <= |bus.dev.mem| && ReadsFlash(buf[..], addr, n)
    modifies bus, tmpbuf
    ensures bus.Ok() && |bus.dev.mem| == old(|bus.dev.mem|)
    ensures bus.sent == old(bus.sent) && bus.failures == old(bus.failures) && bus.clock == old(bus.clock) + 1
    ensures HonestReads(bus.env) && Quiet(old(bus.dev)) ==>
              var d := Delivered(bus.env, old(bus.clock), n + 1);
              && (ret >= 0 <==> d.Some?)
              && (ret >= 0 ==>
                    && bus.dev == old(bus.dev)
                    && tmpbuf[1..1 + n] == Overlaid(old(bus.dev).mem[addr..addr + n], d.value, old(tmpbuf[1..1 + n])))
  {
    ghost var before, dev0, s, d := tmpbuf[..], bus.dev, buf[..15], Delivered(bus.env, bus.clock, n + 1);
    assert before[1..1 + n] == tmpbuf[1..1 + n];
    assert s == buf[..];
    ghost var reply := Answer(dev0, s, n + 1);
    assert Quiet(dev0) ==> reply == ([0] + dev0.mem[addr..addr + n], dev0);
    ret := bus.ReadFront(buf, 15, tmpbuf, n + 1, s, reply);
    if d.Some? {
      AnswerCopied(before, dev0.mem[addr..addr + n], d.value);
    }
    assert tmpbuf[..][1..1 + n] == tmpbuf[1..1 + n];
  }

  ghost predicate PassesTo(env: Env, c: nat, fw: seq<byte>, mem: seq<byte>, n: nat)
    requires |fw| <= |mem| && n <= PacketCount(|fw|)
  {
    forall k: nat :: k < n ==> PassesAt(env, c, fw, mem, k)
  }

  /** Packet k is the first that does not pass. */
  ghost predicate FailsAt(env: Env, c: nat, fw: seq<byte>, mem: seq<byte>, k: nat)
    requires |fw| <= |mem|
  {
    k < PacketCount(|fw|) && PassesTo(env, c, fw, mem, k) && !PassesAt(env, c, fw, mem, k)
  }

  lemma PassNext(env: Env, c: nat, fw: seq<byte>, mem: seq<byte>, k: nat)
    requires |fw| <= |mem| && k < PacketCount(|fw|) && PassesTo(env, c, fw, mem, k)
    ensures PassesAt(env, c, fw, mem, k) ==> PassesTo(env, c, fw, mem, k + 1) && Given(env, c, |fw|, k).Some?
    ensures !PassesAt(env, c, fw, mem, k) ==> FailsAt(env, c, fw, mem, k)
  {
  }

  /** The buffer is as it is before packet k, if there is one, is read. */
  predicate Primed(buf: seq<byte>, fw: seq<byte>, k: nat)
    requires |buf| == PAGE + 1
  {
    k < PacketCount(|fw|) ==> forall i :: 0 <= i < PacketSize(|fw|, k) ==> Prior(fw, k)[i] == buf[1 + i]
  }

  lemma PrimedSlice(buf: seq<byte>, fw: seq<byte>, k: nat)
    requires |buf| == PAGE + 1 && k < PacketCount(|fw|) && Primed(buf, fw, k)
    ensures buf[1..1 + PacketSize(|fw|, k)] == Prior(fw, k)
  {
    forall i | 0 <= i < PacketSize(|fw|, k) ensures buf[1..1 + PacketSize(|fw|, k)][i] == Prior(fw, k)[i] {
      assert Prior(fw, k)[i] == buf[1 + i];
    }
  }

  lemma NextPrior(fw: seq<byte>, k: nat, buf: seq<byte>)
    requires k < PacketCount(|fw|) && |buf| == PAGE + 1 && buf[1..1 + PacketSize(|fw|, k)] == Packet(fw, k)
    ensures Primed(buf, fw, k + 1)
  {
    if k + 1 < PacketCount(|fw|) {
      var here, prior := buf[1..1 + PAGE], Prior(fw, k + 1);
      assert PacketSize(|fw|, k) == PAGE && here == Packet(fw, k);
      forall i | 0 <= i < PacketSize(|fw|, k + 1) ensures prior[i] == buf[1 + i] {
        assert prior[i] == fw[k * PAGE + i];
        assert here[i] == Packet(fw, k)[i];
      }
    }
  }

  /** Packet k is read and compared; tmpbuf[0] is the dummy byte. */
  method ComparePacket(bus: Bus, buf: array<byte>, tmpbuf: array<byte>, fw: seq<byte>, k: nat,
                       ghost honest: bool)
    returns (same: bool)
    requires bus.Ok() && buf.Length == 15 && buf[..4] == MAGIC && tmpbuf.Length == PAGE + 1 && buf != tmpbuf
    requires |fw| <= |bus.dev.mem| && k < PacketCount(|fw|) && tmpbuf[1..1 + PacketSize(|fw|, k)] == Prior(fw, k)
    requires honest ==> HonestReads(bus.env) && Quiet(bus.dev)
    modifies bus, buf, tmpbuf
    ensures bus.Ok() && |bus.dev.mem| == old(|bus.dev.mem|) && buf[..4] == MAGIC
    ensures bus.sent == old(bus.sent) && bus.failures == old(bus.failures)
    ensures bus.clock == old(bus.clock) + 1
    ensures honest ==>
              var d := Delivered(bus.env, old(bus.clock), PacketSize(|fw|, k) + 1);
              var held := old(bus.dev).mem[k * PAGE..Reach(|fw|, k + 1)];
              && (same <==> d.Some? && Packet(fw, k) == Overlaid(held, d.value, Prior(fw, k)))
              && (d.Some? ==> bus.dev == old(bus.dev))
    ensures same ==> tmpbuf[1..1 + PacketSize(|fw|, k)] == Packet(fw, k)
  {
    var currentSize := PacketSize(|fw|, k);
    var addr := k * PAGE;
    FillFastRead(buf, addr, currentSize);
    var ret := Fetch(bus, buf, tmpbuf, addr, currentSize);
    if ret < 0 {
      return false;
    }
    same := fw[addr..addr + currentSize] == tmpbuf[1..1 + currentSize];
  }

  /** The same, said of the read-back that began with transfer c. */
  method JudgePacket(bus: Bus, buf: array<byte>, tmpbuf: array<byte>, fw: seq<byte>, k: nat,
                     ghost c: nat, ghost mem: seq<byte>, ghost honest: bool) returns (same: bool)
    requires bus.Ok() && buf.Length == 15 && buf[..4] == MAGIC && tmpbuf.Length == PAGE + 1 && buf != tmpbuf
    requires |fw| <= |bus.dev.mem| && k < PacketCount(|fw|) && tmpbuf[1..1 + PacketSize(|fw|, k)] == Prior(fw, k)
    requires bus.clock == c + k && |mem| == |bus.dev.mem|
    requires honest ==> HonestReads(bus.env) && Quiet(bus.dev) && bus.dev.mem == mem
    modifies bus, buf, tmpbuf
    ensures bus.Ok() && |bus.dev.mem| == old(|bus.dev.mem|) && buf[..4] == MAGIC
    ensures bus.sent == old(bus.sent) && bus.failures == old(bus.failures) && bus.clock == old(bus.clock) + 1
    ensures honest ==> (same <==> PassesAt(bus.env, c, fw, mem, k))
    ensures honest && (same || NoErrors(bus.env)) ==> bus.dev == old(bus.dev)
    ensures same ==> tmpbuf[1..1 + PacketSize(|fw|, k)] == Packet(fw, k)
  {
    same := ComparePacket(bus, buf, tmpbuf, fw, k, honest);
  }

  /** n packets have passed, and the controller is as it was, at rest with this memory. */
  ghost predicate PassedSoFar(env: Env, c: nat, fw: seq<byte>, mem: seq<byte>, n: nat, dev0: State, dev: State)
    requires |fw| <= |mem| && n <= PacketCount(|fw|)
  {
    dev == dev0 && Quiet(dev0) && dev0.mem == mem && PassesTo(env, c, fw, mem, n)
  }

  /** One turn of the read-back loop. */
  method ReadPacket(bus: Bus, buf: array<byte>, tmpbuf: array<byte>, fw: seq<byte>, k: nat,
                    ghost c: nat, ghost mem: seq<byte>, ghost dev0: State, ghost honest: bool) returns (same: bool)
    requires bus.Ok() && buf.Length == 15 && buf[..4] == MAGIC && tmpbuf.Length == PAGE + 1 && buf != tmpbuf
    requires |fw| <= |bus.dev.mem| && k < PacketCount(|fw|) && bus.clock == c + k
    requires Primed(tmpbuf[..], fw, k) && |mem| == |bus.dev.mem|
    requires honest ==> HonestReads(bus.env) && PassedSoFar(bus.env, c, fw, mem, k, dev0, bus.dev)
    modifies bus, buf, tmpbuf
    ensures bus.Ok() && |bus.dev.mem| == old(|bus.dev.mem|) && buf[..4] == MAGIC
    ensures bus.sent == old(bus.sent) && bus.failures == old(bus.failures)
    ensures bus.clock == old(bus.clock) + 1
    ensures honest && same ==> PassedSoFar(bus.env, c, fw, mem, k + 1, dev0, bus.dev)
    ensures honest && !same ==> FailsAt(bus.env, c, fw, mem, k)
    ensures honest && NoErrors(bus.env) ==> bus.dev == old(bus.dev)
    ensures same ==> Primed(tmpbuf[..], fw, k + 1)
  {
    ghost var n := PacketSize(|fw|, k);
    PrimedSlice(tmpbuf[..], fw, k);
    assert tmpbuf[1..1 + n] == tmpbuf[..][1..1 + n];
    if honest {
      PassNext(bus.env, c, fw, mem, k);
    }
    same := JudgePacket(bus, buf, tmpbuf, fw, k, c, mem, honest);
    if same {
      assert tmpbuf[..][1..1 + n] == tmpbuf[1..1 + n];
      NextPrior(fw, k, tmpbuf[..]);
    }
  }

  /** The read-back loop over an image of totalPackets packets. */
  method ReadPackets(bus: Bus, buf: array<byte>, tmpbuf: array<byte>, fw: seq<byte>, totalPackets: nat,
                     ghost mem: seq<byte>, ghost honest: bool) returns (ok: bool, ghost k: nat)
    requires bus.Ok() && buf.Length == 15 && buf[..4] == MAGIC && tmpbuf.Length == PAGE + 1 && buf != tmpbuf
    requires |fw| <= |bus.dev.mem| == |mem| && totalPackets == PacketCount(|fw|) && Primed(tmpbuf[..], fw, 0)
    requires honest ==> HonestReads(bus.env) && Quiet(bus.dev) && bus.dev.mem == mem
    modifies bus, buf, tmpbuf
    ensures bus.Ok() && |bus.dev.mem| == old(|bus.dev.mem|)
    ensures bus.sent == old(bus.sent) && bus.failures == old(bus.failures)
    ensures ok ==> bus.clock == old(bus.clock) + totalPackets
    ensures ok && totalPackets == 0 ==> bus.dev == old(bus.dev)
    ensures honest && ok ==> PassesTo(bus.env, old(bus.clock), fw, mem, totalPackets)
    ensures honest && !ok ==> bus.clock == old(bus.clock) + k + 1 && FailsAt(bus.env, old(bus.clock), fw, mem, k)
    ensures honest && (ok || NoErrors(bus.env)) ==> bus.dev == old(bus.dev)
  {
    ghost var dev0, c0 := bus.dev, bus.clock;
    k := 0;
    var currentNum := 1;
    while currentNum <= totalPackets
      invariant bus.Ok() && |bus.dev.mem| == |mem| && buf[..4] == MAGIC
      invariant bus.sent == old(bus.sent) && bus.failures == old(bus.failures)
      invariant 1 <= currentNum <= totalPackets + 1
      invariant bus.clock == c0 + currentNum - 1
      invariant currentNum == 1 ==> bus.dev == dev0
      invariant Primed(tmpbuf[..], fw, currentNum - 1)
      invariant honest ==> PassedSoFar(bus.env, c0, fw, mem, currentNum - 1, dev0, bus.dev)
    {
      k := currentNum - 1;
      var same := ReadPacket(bus, buf, tmpbuf, fw, currentNum - 1, c0, mem, dev0, honest);
      if !same {
        return false, k;
      }
      currentNum := currentNum + 1;
    }
    ok := true;
  }

  /** What kzalloc gives. */
  method NewReadBuffer(ghost fw: seq<byte>) returns (tmpbuf: array<byte>)
    ensures fresh(tmpbuf) && tmpbuf.Length == PAGE + 1 && Primed(tmpbuf[..], fw, 0)
  {
    tmpbuf := new byte[PAGE + 1](_ => 0);
    assert forall i :: 1 <= i < PAGE + 1 ==> tmpbuf[..][i] == 0;
  }

  /** The read-back with its two buffers; if it fails, k is the packet that did not pass. */
  method ReadBack(bus: Bus, fw: seq<byte>, totalPackets: nat, ghost mem: seq<byte>, ghost honest: bool)
    returns (ok: bool, ghost k: nat)
    requires bus.Ok() && |fw| <= |bus.dev.mem| == |mem| && totalPackets == PacketCount(|fw|)
    requires honest ==> HonestReads(bus.env) && Quiet(bus.dev) && bus.dev.mem == mem
    modifies bus
    ensures bus.Ok() && |bus.dev.mem| == old(|bus.dev.mem|)
    ensures bus.sent == old(bus.sent) && bus.failures == old(bus.failures)
    ensures ok ==> bus.clock == old(bus.clock) + totalPackets
    ensures ok && totalPackets == 0 ==> bus.dev == old(bus.dev)
    ensures honest ==> (ok <==> Passes(bus.env, old(bus.clock), fw, mem))
    ensures honest && !ok ==> bus.clock == old(bus.clock) + k + 1 && FailsAt(bus.env, old(bus.clock), fw, mem, k)
    ensures honest && (ok || NoErrors(bus.env)) ==> bus.dev == old(bus.dev)
  {
    var buf := NewCommandBuffer(15);
    var tmpbuf := NewReadBuffer(fw);
    ghost var c := bus.clock;
    ok, k := ReadPackets(bus, buf, tmpbuf, fw, totalPackets, mem, honest);
    ReadVerdict(bus.env, c, fw, mem, k);
  }

  /** axs_fwupg_flash_read_check; `gotBuffer` says whether kzalloc gave the buffer, k
      after a failure which packet did not pass. What a pass is worth is said by
      VerdictSoundExactly. */
  method FlashReadCheck(bus: Bus, fw: seq<byte>, gotBuffer: bool) returns (ok: bool, ghost k: nat)
    requires bus.Ok() && |fw| <= |bus.dev.mem|
    modifies bus
    ensures bus.Ok() && |bus.dev.mem| == old(|bus.dev.mem|)
    ensures bus.sent == old(bus.sent) && bus.failures == old(bus.failures)
    ensures ok ==> bus.clock == old(bus.clock) + PacketCount(|fw|)
    ensures ok && fw == [] ==> bus.dev == old(bus.dev)
    ensures HonestReads(bus.env) && Quiet(old(bus.dev)) ==>
              && (ok <==> gotBuffer && Passes(bus.env, old(bus.clock), fw, old(bus.dev).mem))
              && (ok || NoErrors(bus.env) ==> bus.dev == old(bus.dev))
              && (!ok && gotBuffer ==>
                    bus.clock == old(bus.clock) + k + 1 && FailsAt(bus.env, old(bus.clock), fw, old(bus.dev).mem, k))
  {
    var totalPackets := |fw| / PAGE;
    if |fw| % PAGE != 0 {
      totalPackets := totalPackets + 1;
    }
    assert totalPackets == PacketCount(|fw|);
    if !gotBuffer {
      return false, 0;
    }
    ghost var honest := HonestReads(bus.env) && Quiet(bus.dev);
    ok, k := ReadBack(bus, fw, totalPackets, bus.dev.mem, honest);
  }

  lemma ReadVerdict(env: Env, c: nat, fw: seq<byte>, mem: seq<byte>, k: nat)
    requires |fw| <= |mem|
    ensures PassesTo(env, c, fw, mem, PacketCount(|fw|)) <==> Passes(env, c, fw, mem)
    ensures FailsAt(env, c, fw, mem, k) ==> !Passes(env, c, fw, mem)
  {
  }

  // The whole upgrade ----------------------------------------------------------------

  lemma BurnedAll(fw: seq<byte>, size: nat)
    requires |fw| <= size
    ensures Burned(fw, |fw|, size) == fw + Repeat(0xFF, size - |fw|) && Burned(fw, |fw|, size)[..|fw|] == fw
  {
    assert fw[..|fw|] == fw;
  }

  lemma DeafParts(env: Env, c: nat, n: nat)
    requires Deaf(env, c, 9 + 3 * n)
    ensures Deaf(env, c, 6) && Deaf(env, c + 6, 3) && Deaf(env, c + 9, 3 * n)
  {
  }

  /** The upgrade up to its read-back. */
  method Rewrite(bus: Bus, fw: seq<byte>, ghost deaf: bool) returns (ok: bool)
    requires bus.Ok() && |fw| <= |bus.dev.mem|
    requires deaf ==> Deaf(bus.env, bus.clock, 9 + 3 * PacketCount(|fw|)) && Ready(bus.dev)
    modifies bus
    ensures bus.Ok() && |bus.dev.mem| == old(|bus.dev.mem|)
    ensures Heeded(old(bus.failures), bus.failures, bus.clock, ok)
    ensures HonestReads(bus.env) && ok ==> Ready(bus.dev)
    ensures NoErrors(bus.env) && LatencyAtMost(bus.env, POLLS - 1) && Quiet(old(bus.dev)) ==>
              var mem := fw + Repeat(0xFF, |old(bus.dev).mem| - |fw|);
              ok && bus.dev == old(bus.dev).(mem := mem, latch := false, protection := 0)
    ensures deaf ==> ok && bus.dev == old(bus.dev) && bus.clock == old(bus.clock) + 9 + 3 * PacketCount(|fw|)
  {
    if deaf {
      DeafParts(bus.env, bus.clock, PacketCount(|fw|));
    }
    ok := FlashInit(bus);
    if !ok {
      return false;
    }
    ok := FlashErase(bus);
    if !ok {
      return false;
    }
    ProgramTrafficIsTraffic(fw);
    BurnedAll(fw, |bus.dev.mem|);
    ok := FlashWrite(bus, fw, ProgramTraffic(fw));
  }

  /** axs_Y15205_upgrade */
  method Upgrade(bus: Bus, fw: seq<byte>, gotBuffer: bool) returns (ok: bool)
    requires bus.Ok() && |fw| <= |bus.dev.mem|
    modifies bus
    ensures bus.Ok() && |bus.dev.mem| == old(|bus.dev.mem|)
    ensures Heeded(old(bus.failures), bus.failures, bus.clock, ok)
    ensures HonestReads(bus.env) && ok ==>
              var n := PacketCount(|fw|);
              && n <= bus.clock && Passes(bus.env, bus.clock - n, fw, bus.dev.mem)
              && (NoneShort(bus.env, bus.clock - n, |fw|) ==> bus.dev.mem[..|fw|] == fw)
    ensures FaithfulReads(bus.env) && ok ==> bus.dev.mem[..|fw|] == fw
    ensures NoErrors(bus.env) && LatencyAtMost(bus.env, POLLS - 1) && Quiet(old(bus.dev)) ==>
              && bus.dev.mem == fw + Repeat(0xFF, |bus.dev.mem| - |fw|)
              && bus.dev.faults == old(bus.dev.faults)
              && (ok <==> gotBuffer)
    ensures Deaf(bus.env, old(bus.clock), 9 + 3 * PacketCount(|fw|)) && Ready(old(bus.dev)) && HonestReads(bus.env) ==>
              && (ok <==> gotBuffer
                          && Passes(bus.env, old(bus.clock) + 9 + 3 * PacketCount(|fw|), fw, old(bus.dev.mem)))
              && (ok ==> bus.dev == old(bus.dev))
  {
    ghost var deaf := Deaf(bus.env, bus.clock, 9 + 3 * PacketCount(|fw|)) && Ready(bus.dev);
    BurnedAll(fw, |bus.dev.mem|);
    ok := Rewrite(bus, fw, deaf);
    if !ok {
      return false;
    }
    ghost var mem, c := bus.dev.mem, bus.clock;
    ghost var k: nat;
    ok, k := FlashReadCheck(bus, fw, gotBuffer);
    if FaithfulReads(bus.env) {
      FaithfulPassIsSound(bus.env, c, fw, mem);
    }
    if NoneShort(bus.env, c, |fw|) {
      WholePassIsSound(bus.env, c, fw, mem);
    }
  }

  /** selectFlash */
  method SelectFlash(bus: Bus) returns (ok: bool)
    requires bus.Ok()
    modifies bus
    ensures bus.Ok() && |bus.dev.mem| == old(|bus.dev.mem|)
    ensures ok <==> bus.env.write(old(bus.clock)).count.Full?
    ensures bus.clock == old(bus.clock) + 1 && bus.failures == old(bus.failures) + if ok then [] else [old(bus.clock)]
    ensures bus.env.write(old(bus.clock)) == Fate(Full, None) ==> bus.dev == old(bus.dev).(mode := FlashMode)
    ensures bus.env.write(old(bus.clock)).wire == Some([]) ==> bus.dev == old(bus.dev)
  {
    var buf := new byte[5][0xa5, 0x5a, 0xb5, 0xab, 0x00];
    assert buf[..5] == SELECT_FLASH;
    var ret := bus.WriteBytes(buf, 5);
    ok := ret >= 0;
  }

  /** axs_reset_proc: a reset pulse takes the controller back to its application. */
  function AfterReset(d: State): State {
    d.(mode := App, latch := false)
  }

  /** axs_fwupg_upgrade; `needed` is the verdict of the version comparison. */
  method FirmwareUpgrade(bus: Bus, fw: seq<byte>, debug: bool, needed: bool, gotBuffer: bool) returns (ok: bool)
    requires bus.Ok() && |fw| <= |bus.dev.mem|
    modifies bus
    ensures bus.Ok() && |bus.dev.mem| == old(|bus.dev.mem|)
    ensures !debug && !needed ==>
              !ok && bus.dev == old(bus.dev) && bus.clock == old(bus.clock) && bus.sent == old(bus.sent)
    ensures Heeded(old(bus.failures), bus.failures, bus.clock, ok)
    ensures (debug || needed) && bus.env.write(old(bus.clock)).count.Full? ==> bus.dev.mode.App?
    ensures (debug || needed) && !bus.env.write(old(bus.clock)).count.Full? ==> !ok && bus.clock == old(bus.clock) + 1
    ensures HonestReads(bus.env) && ok ==>
              var n := PacketCount(|fw|);
              && n <= bus.clock && Passes(bus.env, bus.clock - n, fw, bus.dev.mem)
              && (NoneShort(bus.env, bus.clock - n, |fw|) ==> bus.dev.mem[..|fw|] == fw)
    ensures FaithfulReads(bus.env) && ok ==> bus.dev.mem[..|fw|] == fw
    ensures NoErrors(bus.env) && LatencyAtMost(bus.env, POLLS - 1) && old(bus.dev.busy) == 0 && (debug || needed) ==>
              && bus.dev.mem == fw + Repeat(0xFF, |bus.dev.mem| - |fw|)
              && bus.dev.mode.App? && bus.dev.faults == old(bus.dev.faults)
              && (ok <==> gotBuffer)
    ensures debug && bus.env.write(old(bus.clock)) == Fate(Full, None) && HonestReads(bus.env)
            && Deaf(bus.env, old(bus.clock) + 1, 9 + 3 * PacketCount(|fw|))
            && Ready(old(bus.dev).(mode := FlashMode)) ==>
              && (ok <==> gotBuffer
                          && Passes(bus.env, old(bus.clock) + 10 + 3 * PacketCount(|fw|), fw, old(bus.dev.mem)))
              && (ok ==> bus.dev.mem == old(bus.dev.mem))
  {
    if !debug && !needed {
      return false;
    }
    var selected := SelectFlash(bus);
    if !selected {
      return false;
    }
    ok := Upgrade(bus, fw, gotBuffer);
    bus.dev := AfterReset(bus.dev);
  }

  /** Selecting the flash and polling work, the plain writes after the selection reach
      nobody, and from transfer `limit` on reads bring nothing. */
  function ShortReads(limit: nat): Env {
    var works, lost := Fate(Full, None), Fate(Full, Some([]));
    Env(k => if k == 0 then works else lost, _ => works, k => if k < limit then Full else Partial(0), _ => 0)
  }

  lemma BlankPasses(limit: nat, n: nat, mem: seq<byte>)
    requires n <= |mem| && limit >= 1
    ensures HonestReads(ShortReads(limit)) && Deaf(ShortReads(limit), 1, limit - 1)
    ensures Passes(ShortReads(limit), limit, Repeat(0, n), mem)
  {
    var env, fw := ShortReads(limit), Repeat(0, n);
    forall k: nat | k < PacketCount(n) ensures PassesAt(env, limit, fw, mem, k) {
      assert Given(env, limit, n, k) == Some(0);
      assert Prior(fw, k) == Packet(fw, k);
    }
  }

  /** The loader as a whole reports success over a flash that it never wrote: whatever
      the flash holds, a blank image of any size that the loader takes. */
  method ShortReadsFoolTheLoader(n: nat, flash: seq<byte>) returns (ok: bool, bus: Bus)
    requires 1024 <= n <= |flash| <= MAX_SIZE && |flash| % PAGE == 0
    ensures ok && bus.dev.mem == flash
  {
    var limit := 10 + 3 * PacketCount(n);
    bus := new Bus(ShortReads(limit), State(App, flash, false, 0, 0, 0, [], false, 0));
    BlankPasses(limit, n, flash);
    ok := FirmwareUpgrade(bus, Repeat(0, n), true, false, true);
  }
}
