/** The PRAM loader: the image goes to program RAM in addressed packets, a finish
    frame starts it, and nothing is read back but a version byte. */
module PramDownload {
  import opened Bytes
  import opened Controller
  import opened I2cBus
  import opened Packets

  function PramFrame(fw: seq<byte>, k: nat): (f: Frame)
    requires k < PacketCount(|fw|) && |fw| <= MAX_SIZE
    ensures Encodable(f)
  {
    Frame(0, k * PACKET, Packet(fw, k))
  }

  ghost predicate IsTraffic(s: seq<seq<byte>>, fw: seq<byte>)
    requires |fw| <= MAX_SIZE
  {
    |s| == PacketCount(|fw|) && forall k :: 0 <= k < PacketCount(|fw|) ==> s[k] == Encode(PramFrame(fw, k))
  }

  function PramTraffic(fw: seq<byte>): (r: seq<seq<byte>>)
    requires |fw| <= MAX_SIZE
    ensures IsTraffic(r, fw)
  {
    seq(PacketCount(|fw|), k requires 0 <= k < PacketCount(|fw|) => Encode(PramFrame(fw, k)))
  }

  lemma TrafficDecodes(fw: seq<byte>, k: nat)
    requires |fw| <= MAX_SIZE && k < PacketCount(|fw|)
    ensures var wire := PramTraffic(fw)[k];
            Decode(wire) == Some(Frame(0, k * PACKET, Packet(fw, k))) && |wire| == 11 + Word(wire[4], wire[5])
  {
    FrameRoundTrip(PramFrame(fw, k));
  }

  /** A send the host believes in is a send that arrived unaltered. */
  ghost predicate IntactWrites(env: Env) {
    forall k: nat :: env.write(k).count.Full? ==> env.write(k).wire.None?
  }

  ghost predicate ReadsWork(env: Env) {
    forall k: nat :: env.command(k) == Fate(Full, None) && env.answer(k) == Full
  }

  /** Reads work, and every plain write is reported sent, whatever became of it. */
  ghost predicate LooksClean(env: Env) {
    ReadsWork(env) && forall k: nat :: env.write(k).count.Full?
  }

  method NewPacketBuffer() returns (buf: array<byte>)
    ensures fresh(buf) && buf.Length == PACKET + 20 && buf[..4] == MAGIC
  {
    buf := new byte[PACKET + 20](_ => 0);
    buf[0], buf[1], buf[2], buf[3] := 0xab, 0xb5, 0xa5, 0x5a;
  }

  /** The eleven bytes before the payload. */
  method FillHead(buf: array<byte>, size: nat, addr: nat)
    requires buf.Length >= 11 && buf[..4] == MAGIC && size < 0x1_0000 && addr < MAX_SIZE
    modifies buf
    ensures buf[..11] == MAGIC + [Hi(size), Lo(size), Hi(0), Lo(0)] + Addr24(addr)
  {
    buf[4], buf[5] := Hi(size), Lo(size);
    buf[6], buf[7] := 0, 0;
    buf[8] := addr / 0x1_0000 % 256;
    buf[9] := addr / 256 % 256;
    buf[10] := addr % 256;
    assert buf[..4] == MAGIC && buf[8..11] == Addr24(addr);
    assert buf[..11] == buf[..4] + [buf[4], buf[5], buf[6], buf[7]] + buf[8..11];
  }

  method FillPacket(buf: array<byte>, fw: seq<byte>, k: nat) returns (len: nat)
    requires buf.Length == PACKET + 20 && buf[..4] == MAGIC && |fw| <= MAX_SIZE && k < PacketCount(|fw|)
    modifies buf
    ensures len == 11 + |Packet(fw, k)| && buf[..len] == Encode(PramFrame(fw, k)) && buf[..4] == MAGIC
  {
    var currentSize := PacketSize(|fw|, k);
    var addr := k * PACKET;
    FillHead(buf, currentSize, addr);
    ghost var head := buf[..11];
    CopyIn(buf, 11, fw, addr, currentSize);
    len := currentSize + 11;
    assert buf[..len] == head + Packet(fw, k);
    assert buf[..4] == buf[..11][..4];
  }

  method SendPacket(bus: Bus, buf: array<byte>, fw: seq<byte>, k: nat) returns (ok: bool)
    requires bus.Ok() && buf.Length == PACKET + 20 && buf[..4] == MAGIC
    requires |fw| <= MAX_SIZE && k < PacketCount(|fw|)
    modifies bus, buf
    ensures bus.Ok() && |bus.dev.pram| == old(|bus.dev.pram|) && buf[..4] == MAGIC
    ensures bus.clock == old(bus.clock) + 1
    ensures bus.sent == old(bus.sent) + [Encode(PramFrame(fw, k))]
    ensures ok <==> bus.env.write(old(bus.clock)).count.Full?
    ensures bus.env.write(old(bus.clock)).wire.None? ==>
              if old(bus.dev.mode.PramMode?) then
                bus.dev == old(bus.dev).(pram := Overwrite(old(bus.dev.pram), k * PACKET, Packet(fw, k)))
              else Ignored(bus.dev, old(bus.dev))
    ensures bus.env.write(old(bus.clock)).wire == Some([]) ==> bus.dev == old(bus.dev)
  {
    var len := FillPacket(buf, fw, k);
    DeliverFrame(bus.dev, PramFrame(fw, k), bus.env.latency(bus.clock));
    var ret := bus.WriteBytes(buf, len);
    ok := ret >= 0;
  }

  lemma TrafficStep(start: seq<seq<byte>>, traffic: seq<seq<byte>>, k: nat)
    requires k < |traffic|
    ensures start + traffic[..k] + [traffic[k]] == start + traffic[..k + 1]
    ensures start <= start + traffic[..k + 1] <= start + traffic
  {
  }

  ghost predicate Arrived(env: Env, c: nat) {
    env.write(c).wire.None?
  }

  /** The RAM and what runs in it are as they were. */
  predicate Ignored(dev: State, dev0: State) {
    dev.mode == dev0.mode && dev.pram == dev0.pram && dev.started == dev0.started
  }

  /** A send the host believes in reached the controller unaltered or not at all. */
  ghost predicate WholeOrLost(env: Env) {
    forall k: nat :: env.write(k).count.Full? ==> Arrived(env, k) || env.write(k).wire == Some([])
  }

  /** The host is told that the n sends from time c on were whole. */
  ghost predicate Believed(env: Env, c: nat, n: nat) {
    forall k: nat :: c <= k < c + n ==> env.write(k).count.Full?
  }

  /** The first n bytes of the image are in RAM where the write of their packet, the
      packets being sent from time c on, arrived; every other byte is as it was. */
  ghost predicate Patched(env: Env, c: nat, fw: seq<byte>, n: nat, was: seq<byte>, ram: seq<byte>)
    requires n <= |fw| <= |was|
  {
    |ram| == |was| &&
    forall i :: 0 <= i < |ram| ==> ram[i] == if i < n && Arrived(env, c + i / PACKET) then fw[i] else was[i]
  }

  lemma InPacket(n: nat, k: nat, i: nat)
    requires k < PacketCount(n) && k * PACKET <= i < Reach(n, k + 1)
    ensures i / PACKET == k
  {
  }

  lemma OverwriteAt(ram: seq<byte>, lo: nat, data: seq<byte>, i: nat)
    requires lo + |data| <= |ram| && i < |ram|
    ensures Overwrite(ram, lo, data)[i] == if lo <= i < lo + |data| then data[i - lo] else ram[i]
  {
  }

  lemma PatchStep(env: Env, c: nat, fw: seq<byte>, k: nat, was: seq<byte>, ram: seq<byte>)
    requires k < PacketCount(|fw|) && |fw| <= |was| && Patched(env, c, fw, Reach(|fw|, k), was, ram)
    ensures var ram' := if Arrived(env, c + k) then Overwrite(ram, k * PACKET, Packet(fw, k)) else ram;
            Patched(env, c, fw, Reach(|fw|, k + 1), was, ram')
  {
    var lo, hi := k * PACKET, Reach(|fw|, k + 1);
    var ram' := if Arrived(env, c + k) then Overwrite(ram, lo, Packet(fw, k)) else ram;
    assert lo == Reach(|fw|, k) && hi == lo + |Packet(fw, k)|;
    forall i | 0 <= i < |ram|
      ensures ram'[i] == if i < hi && Arrived(env, c + i / PACKET) then fw[i] else was[i]
    {
      OverwriteAt(ram, lo, Packet(fw, k), i);
      if lo <= i < hi {
        InPacket(|fw|, k, i);
      }
    }
  }

  /** The RAM held packet k of the image already. */
  predicate Held(ram: seq<byte>, fw: seq<byte>, k: nat)
    requires k < PacketCount(|fw|) && |fw| <= |ram|
  {
    ram[k * PACKET..Reach(|fw|, k + 1)] == Packet(fw, k)
  }

  /** A packet's region holds the packet if and only if its write arrived or the region
      held it before. */
  lemma PacketExactly(env: Env, c: nat, fw: seq<byte>, k: nat, was: seq<byte>, ram: seq<byte>)
    requires |fw| <= |was| && k < PacketCount(|fw|) && Patched(env, c, fw, |fw|, was, ram)
    ensures Held(ram, fw, k) <==> Arrived(env, c + k) || Held(was, fw, k)
  {
    var lo, hi := k * PACKET, Reach(|fw|, k + 1);
    forall i | lo <= i < hi ensures i / PACKET == k {
      InPacket(|fw|, k, i);
    }
    if Arrived(env, c + k) {
      assert ram[lo..hi] == fw[lo..hi];
    } else {
      assert ram[lo..hi] == was[lo..hi];
    }
  }

  lemma HeldAll(ram: seq<byte>, fw: seq<byte>)
    requires |fw| <= |ram|
    ensures ram[..|fw|] == fw <==> forall k: nat :: k < PacketCount(|fw|) ==> Held(ram, fw, k)
  {
    if forall k: nat :: k < PacketCount(|fw|) ==> Held(ram, fw, k) {
      forall i | 0 <= i < |fw| ensures ram[i] == fw[i] {
        var k := i / PACKET;
        assert Held(ram, fw, k);
        assert ram[k * PACKET..Reach(|fw|, k + 1)][i - k * PACKET] == Packet(fw, k)[i - k * PACKET];
      }
    }
    if ram[..|fw|] == fw {
      forall k: nat | k < PacketCount(|fw|) ensures Held(ram, fw, k) {
        assert ram[k * PACKET..Reach(|fw|, k + 1)] == ram[..|fw|][k * PACKET..Reach(|fw|, k + 1)];
      }
    }
  }

  /** Each packet, sent from time c on, arrived or was in RAM already. */
  ghost predicate AllThere(env: Env, c: nat, fw: seq<byte>, was: seq<byte>)
    requires |fw| <= |was|
  {
    forall k: nat :: k < PacketCount(|fw|) ==> Arrived(env, c + k) || Held(was, fw, k)
  }

  /** If every send the host believes in arrives, an attempt it believes in did. */
  lemma BelievedIsThere(env: Env, c: nat, fw: seq<byte>, was: seq<byte>)
    requires |fw| <= |was| && IntactWrites(env) && Believed(env, c, PacketCount(|fw|) + 2)
    ensures WholeOrLost(env) && Arrived(env, c) && AllThere(env, c + 1, fw, was)
            && Arrived(env, c + 1 + PacketCount(|fw|))
  {
  }

  /** The image is in RAM if and only if each packet arrived or was there already. */
  lemma ImageExactly(env: Env, c: nat, fw: seq<byte>, was: seq<byte>, ram: seq<byte>)
    requires |fw| <= |was| && Patched(env, c, fw, |fw|, was, ram)
    ensures ram[..|fw|] == fw <==> AllThere(env, c, fw, was)
    ensures ram[|fw|..] == was[|fw|..]
  {
    forall k: nat | k < PacketCount(|fw|)
      ensures Held(ram, fw, k) <==> Arrived(env, c + k) || Held(was, fw, k)
    {
      PacketExactly(env, c, fw, k, was, ram);
    }
    HeldAll(ram, fw);
  }

  /** Between packets: nothing but the RAM differs from `dev0`, and that is patched. A
      controller that is not in PRAM mode ignores the packets. */
  ghost predicate Filled(env: Env, c: nat, dev: State, dev0: State, fw: seq<byte>, k: nat)
    requires k <= PacketCount(|fw|) && |fw| <= |dev0.pram|
  {
    if dev0.mode.PramMode? then
      dev == dev0.(pram := dev.pram) && Patched(env, c, fw, Reach(|fw|, k), dev0.pram, dev.pram)
    else Ignored(dev, dev0)
  }

  lemma FilledStep(env: Env, c: nat, dev: State, dev': State, dev0: State, fw: seq<byte>, k: nat)
    requires k < PacketCount(|fw|) && |fw| <= |dev0.pram| && Filled(env, c, dev, dev0, fw, k)
    requires if !Arrived(env, c + k) then dev' == dev
             else if dev.mode.PramMode? then dev' == dev.(pram := Overwrite(dev.pram, k * PACKET, Packet(fw, k)))
             else Ignored(dev', dev)
    ensures Filled(env, c, dev', dev0, fw, k + 1)
  {
    if dev0.mode.PramMode? {
      PatchStep(env, c, fw, k, dev0.pram, dev.pram);
    }
  }

  /** One turn of the download loop. */
  method WritePacket(bus: Bus, buf: array<byte>, fw: seq<byte>, k: nat,
                     ghost start: seq<seq<byte>>, ghost traffic: seq<seq<byte>>, ghost dev0: State) returns (ok: bool)
    requires bus.Ok() && buf.Length == PACKET + 20 && buf[..4] == MAGIC
    requires |fw| <= MAX_SIZE && |fw| <= |dev0.pram| && k < PacketCount(|fw|) && k <= bus.clock
    requires k < |traffic| && traffic[k] == Encode(PramFrame(fw, k)) && bus.sent == start + traffic[..k]
    modifies bus, buf
    ensures bus.Ok() && |bus.dev.pram| == old(|bus.dev.pram|) && buf[..4] == MAGIC
    ensures bus.clock == old(bus.clock) + 1
    ensures bus.sent == start + traffic[..k + 1] && start <= bus.sent <= start + traffic
    ensures ok <==> bus.env.write(old(bus.clock)).count.Full?
    ensures var c := old(bus.clock) - k;
            ok && WholeOrLost(bus.env) ==>
              Filled(bus.env, c, old(bus.dev), dev0, fw, k) ==> Filled(bus.env, c, bus.dev, dev0, fw, k + 1)
  {
    TrafficStep(start, traffic, k);
    ghost var c, dev := bus.clock - k, bus.dev;
    ok := SendPacket(bus, buf, fw, k);
    if ok && WholeOrLost(bus.env) && Filled(bus.env, c, dev, dev0, fw, k) {
      FilledStep(bus.env, c, dev, bus.dev, dev0, fw, k);
    }
  }

  // Which transfers decide -----------------------------------------------------------------

  /** Transfer k of a download of n bytes that begins at time c goes through: packets and
      finish frame are writes, and two reads of the version follow. */
  predicate StepWorks(env: Env, c: nat, n: nat, k: nat) {
    if k <= PacketCount(n) then env.write(c + k).count.Full? else Transferred(env, c + k)
  }

  /** The first r transfers of a download go through and the next does not. */
  ghost predicate Stopped(env: Env, c: nat, n: nat, r: int) {
    && 0 <= r < PacketCount(n) + 3
    && (forall k: nat :: k < r ==> StepWorks(env, c, n, k))
    && !StepWorks(env, c, n, r)
  }

  ghost predicate WentThrough(env: Env, c: nat, n: nat) {
    forall k: nat :: k < PacketCount(n) + 3 ==> StepWorks(env, c, n, k)
  }

  /** The same of an attempt, which selects the PRAM first. */
  ghost predicate AttemptStopped(env: Env, c: nat, n: nat, r: int) {
    if env.write(c).count.Full? then Stopped(env, c + 1, n, r - 1) else r == 0
  }

  ghost predicate AttemptWentThrough(env: Env, c: nat, n: nat) {
    env.write(c).count.Full? && WentThrough(env, c + 1, n)
  }

  /** axs_download_write_pram: true exactly when the bus took every packet. What the
      RAM then holds is what arrived over what it held. */
  method WritePram(bus: Bus, fw: seq<byte>, ghost traffic: seq<seq<byte>>) returns (ok: bool)
    requires bus.Ok() && |fw| <= |bus.dev.pram| && |fw| <= MAX_SIZE && IsTraffic(traffic, fw)
    modifies bus
    ensures bus.Ok() && |bus.dev.pram| == old(|bus.dev.pram|)
    ensures old(bus.sent) <= bus.sent <= old(bus.sent) + traffic
    ensures ok ==> bus.sent == old(bus.sent) + traffic && bus.clock == old(bus.clock) + PacketCount(|fw|)
    ensures ok <==> Believed(bus.env, old(bus.clock), PacketCount(|fw|))
    ensures !ok ==> Stopped(bus.env, old(bus.clock), |fw|, bus.clock - old(bus.clock) - 1)
    ensures ok && WholeOrLost(bus.env) ==>
              Filled(bus.env, old(bus.clock), bus.dev, old(bus.dev), fw, PacketCount(|fw|))
  {
    var totalPackets := |fw| / PACKET;
    if |fw| % PACKET != 0 {
      totalPackets := totalPackets + 1;
    }
    assert totalPackets == PacketCount(|fw|);
    var buf := NewPacketBuffer();
    ghost var dev0, start, c0 := bus.dev, bus.sent, bus.clock;
    var currentNum := 1;
    while currentNum <= totalPackets
      invariant bus.Ok() && |bus.dev.pram| == |dev0.pram| && buf[..4] == MAGIC
      invariant 1 <= currentNum <= totalPackets + 1 && bus.clock == c0 + currentNum - 1
      invariant bus.sent == start + traffic[..currentNum - 1] && start <= bus.sent <= start + traffic
      invariant Believed(bus.env, c0, currentNum - 1)
      invariant WholeOrLost(bus.env) ==> Filled(bus.env, c0, bus.dev, dev0, fw, currentNum - 1)
    {
      ok := WritePacket(bus, buf, fw, currentNum - 1, start, traffic, dev0);
      if !ok {
        assert !bus.env.write(bus.clock - 1).count.Full?;
        return false;
      }
      currentNum := currentNum + 1;
    }
    assert traffic[..currentNum - 1] == traffic;
    ok := true;
  }

  /** axs_download_finish */
  method Finish(bus: Bus) returns (ok: bool)
    requires bus.Ok()
    modifies bus
    ensures bus.Ok() && |bus.dev.pram| == old(|bus.dev.pram|) && bus.clock == old(bus.clock) + 1
    ensures bus.sent == old(bus.sent) + [FINISH]
    ensures ok <==> bus.env.write(old(bus.clock)).count.Full?
    ensures Arrived(bus.env, old(bus.clock)) ==>
              bus.dev == if old(bus.dev.mode.PramMode?) then old(bus.dev).(started := true) else old(bus.dev)
    ensures bus.env.write(old(bus.clock)).wire == Some([]) ==> bus.dev == old(bus.dev)
  {
    var buf := new byte[11][0xab, 0xb5, 0xa5, 0x5a, 0x00, 0x00, 0x00, 0x00, 0x00, 0x00, 0x00];
    assert buf[..8] == FINISH;
    var ret := bus.WriteBytes(buf, 8);
    ok := ret >= 0;
  }

  /** selectPram */
  method SelectPram(bus: Bus) returns (ok: bool)
    requires bus.Ok()
    modifies bus
    ensures bus.Ok() && |bus.dev.pram| == old(|bus.dev.pram|) && bus.clock == old(bus.clock) + 1
    ensures ok <==> bus.env.write(old(bus.clock)).count.Full?
    ensures Arrived(bus.env, old(bus.clock)) ==>
              bus.dev.mode.PramMode? && bus.dev.pram == old(bus.dev.pram) && !bus.dev.started
    ensures bus.env.write(old(bus.clock)).wire == Some([]) ==> bus.dev == old(bus.dev)
  {
    var buf := new byte[5][0xa5, 0x5a, 0xb5, 0xab, 0x01];
    assert buf[..5] == SELECT_PRAM;
    var ret := bus.WriteBytes(buf, 5);
    ok := ret >= 0;
  }

  ghost predicate ReadsVersion(cmd: seq<byte>) {
    forall d: State {:trigger Answer(d, cmd, 1)} :: Valid(d) ==> Answer(d, cmd, 1) == ([d.version], d)
  }

  lemma VersionAnswer()
    ensures ReadsVersion(READ_VERSION)
  {
    assert READ_VERSION[..4][0] == 0x5a;
    assert MAGIC[0] == 0xab;
    assert Decode(READ_VERSION) == None;
  }

  /** What a read of the version at time c that goes through gives, whatever became of its
      command, and the controller after it. */
  function VersionRead(env: Env, c: nat, dev: State): (r: (byte, State))
    requires Valid(dev)
    ensures Valid(r.1)
  {
    var reply := Answer(dev, OnWire(env.command(c), READ_VERSION), 1);
    (reply.0[0], reply.1)
  }

  method ReadRegister(bus: Bus, cmd: array<byte>) returns (ret: int, b: byte)
    requires bus.Ok() && cmd.Length == 11 && cmd[..11] == READ_VERSION && ReadsVersion(cmd[..11])
    modifies bus
    ensures bus.Ok() && |bus.dev.pram| == old(|bus.dev.pram|) && bus.sent == old(bus.sent)
    ensures FullOrNegative(bus.env) && ret >= 0 ==>
              bus.dev.pram == old(bus.dev.pram) && bus.dev.started == old(bus.dev.started)
    ensures FaithfulReads(bus.env) && ret >= 0 ==> b == old(bus.dev.version) && bus.dev == old(bus.dev)
    ensures bus.clock == old(bus.clock) + 1
    ensures FullOrNegative(bus.env) ==> (ret >= 0 <==> Transferred(bus.env, old(bus.clock)))
    ensures FullOrNegative(bus.env) && ret >= 0 ==>
              (b, bus.dev) == VersionRead(bus.env, old(bus.clock), old(bus.dev))
    ensures ReadsWork(bus.env) ==> ret >= 0 && bus.dev == old(bus.dev)
  {
    var value := new byte[1](_ => 0);
    ghost var s, version := cmd[..11], [bus.dev.version];
    assert Answer(bus.dev, s, 1) == (version, bus.dev);
    ret := bus.ReadByte(cmd, 11, value, 0, s, (version, bus.dev));
    b := value[0];
  }

  /** axs_read_sfr_reg for one byte of register 0x89 */
  method ReadVersionByte(bus: Bus) returns (ret: int, b: byte)
    requires bus.Ok()
    modifies bus
    ensures bus.Ok() && |bus.dev.pram| == old(|bus.dev.pram|) && bus.sent == old(bus.sent)
    ensures FullOrNegative(bus.env) && ret >= 0 ==>
              bus.dev.pram == old(bus.dev.pram) && bus.dev.started == old(bus.dev.started)
    ensures FaithfulReads(bus.env) && ret >= 0 ==> b == old(bus.dev.version) && bus.dev == old(bus.dev)
    ensures bus.clock == old(bus.clock) + 1
    ensures FullOrNegative(bus.env) ==> (ret >= 0 <==> Transferred(bus.env, old(bus.clock)))
    ensures FullOrNegative(bus.env) && ret >= 0 ==>
              (b, bus.dev) == VersionRead(bus.env, old(bus.clock), old(bus.dev))
    ensures ReadsWork(bus.env) ==> ret >= 0 && bus.dev == old(bus.dev)
  {
    var cmd := new byte[11][0x5a, 0xa5, 0xab, 0xb5, 0x00, 0x00, 0x00, 0x01, 0x00, 0x80, 0x89];
    assert cmd[..11] == READ_VERSION;
    VersionAnswer();
    ret, b := ReadRegister(bus, cmd);
  }

  /** axs_read_fw_version: two reads of the
      version register that have to agree; `was` is what the caller's variable held. */
  method ReadFwVersion(bus: Bus, was: byte) returns (ok: bool, ver: byte)
    requires bus.Ok()
    modifies bus
    ensures bus.Ok() && |bus.dev.pram| == old(|bus.dev.pram|) && bus.sent == old(bus.sent)
    ensures FullOrNegative(bus.env) && ok ==>
              bus.dev.pram == old(bus.dev.pram) && bus.dev.started == old(bus.dev.started)
    ensures FaithfulReads(bus.env) && ok ==> ver == old(bus.dev.version) && bus.dev == old(bus.dev)
    ensures FaithfulReads(bus.env) ==>
              var first := Transferred(bus.env, old(bus.clock));
              && (ok <==> first && Transferred(bus.env, old(bus.clock) + 1))
              && bus.clock == old(bus.clock) + if first then 2 else 1
    ensures !ok ==> ver == was
    ensures FullOrNegative(bus.env) ==>
              var c := old(bus.clock);
              var (first, dev) := VersionRead(bus.env, c, old(bus.dev));
              var second := VersionRead(bus.env, c + 1, dev).0;
              && (ok <==> Transferred(bus.env, c) && Transferred(bus.env, c + 1) && first == second)
              && (ok ==> ver == first)
    ensures ReadsWork(bus.env) ==> ok && bus.dev == old(bus.dev)
  {
    ver := was;
    var ret, value := ReadVersionByte(bus);
    if ret < 0 {
      return false, ver;
    }
    var ret2, value2 := ReadVersionByte(bus);
    if ret2 < 0 {
      return false, ver;
    }
    if value != value2 {
      return false, ver;
    }
    return true, value2;
  }

  /** axs_fwupg_get_ver_in_tp */
  method GetVersion(bus: Bus, was: byte) returns (ok: bool, ver: byte)
    requires bus.Ok()
    modifies bus
    ensures bus.Ok() && |bus.dev.pram| == old(|bus.dev.pram|) && bus.sent == old(bus.sent)
    ensures FullOrNegative(bus.env) && ok ==>
              bus.dev.pram == old(bus.dev.pram) && bus.dev.started == old(bus.dev.started)
    ensures FaithfulReads(bus.env) && ok ==> ver == old(bus.dev.version)
    ensures FaithfulReads(bus.env) ==>
              var first := Transferred(bus.env, old(bus.clock));
              && (ok <==> first && Transferred(bus.env, old(bus.clock) + 1))
              && bus.clock == old(bus.clock) + if first then 2 else 1
    ensures ReadsWork(bus.env) ==> ok
  {
    ok, ver := ReadFwVersion(bus, was);
  }

  /** What sends that were all reported whole have done to a controller in state `before`. */
  ghost predicate Loaded(env: Env, c: nat, fw: seq<byte>, before: State, after: State)
    requires |fw| <= |before.pram| == |after.pram|
  {
    if before.mode.PramMode? then
      && after.pram[|fw|..] == before.pram[|fw|..]
      && Patched(env, c, fw, |fw|, before.pram, after.pram)
      && (after.pram[..|fw|] == fw <==> AllThere(env, c, fw, before.pram))
      && (after.started <==> before.started || Arrived(env, c + PacketCount(|fw|)))
    else after.pram == before.pram && after.started == before.started
  }

  /** The packets and the finish frame. */
  method WriteAndFinish(bus: Bus, fw: seq<byte>) returns (ok: bool)
    requires bus.Ok() && |fw| <= |bus.dev.pram| && |fw| <= MAX_SIZE
    modifies bus
    ensures bus.Ok() && |bus.dev.pram| == old(|bus.dev.pram|)
    ensures ok <==> Believed(bus.env, old(bus.clock), PacketCount(|fw|) + 1)
    ensures ok ==> bus.clock == old(bus.clock) + PacketCount(|fw|) + 1
    ensures !ok ==> Stopped(bus.env, old(bus.clock), |fw|, bus.clock - old(bus.clock) - 1)
    ensures ok && WholeOrLost(bus.env) ==> Loaded(bus.env, old(bus.clock), fw, old(bus.dev), bus.dev)
  {
    ghost var c, was := bus.clock, bus.dev.pram;
    ok := WritePram(bus, fw, PramTraffic(fw));
    if !ok {
      return false;
    }
    ok := Finish(bus);
    if Patched(bus.env, c, fw, |fw|, was, bus.dev.pram) {
      ImageExactly(bus.env, c, fw, was, bus.dev.pram);
    }
  }

  lemma BelievedSteps(env: Env, c: nat, n: nat)
    requires Believed(env, c, PacketCount(n) + 1)
    ensures forall k: nat :: k <= PacketCount(n) ==> StepWorks(env, c, n, k)
  {
  }

  /** axs_Y15205_download. On a controller in PRAM mode its success says that the image is
      in RAM exactly when each packet arrived or was in RAM already. On any other it says
      nothing: the RAM is as it was. It succeeds exactly if every transfer goes through,
      and ends with the first that does not. */
  method Download(bus: Bus, fw: seq<byte>) returns (ok: bool)
    requires bus.Ok() && |fw| <= |bus.dev.pram| && |fw| <= MAX_SIZE
    modifies bus
    ensures bus.Ok() && |bus.dev.pram| == old(|bus.dev.pram|)
    ensures ok ==> Believed(bus.env, old(bus.clock), PacketCount(|fw|) + 1)
    ensures ok && WholeOrLost(bus.env) && FullOrNegative(bus.env) ==>
              Loaded(bus.env, old(bus.clock), fw, old(bus.dev), bus.dev)
    ensures FaithfulReads(bus.env) ==>
              if ok then
                WentThrough(bus.env, old(bus.clock), |fw|) && bus.clock == old(bus.clock) + PacketCount(|fw|) + 3
              else Stopped(bus.env, old(bus.clock), |fw|, bus.clock - old(bus.clock) - 1)
    ensures LooksClean(bus.env) ==> ok
  {
    ghost var c := bus.clock;
    ok := WriteAndFinish(bus, fw);
    if !ok {
      return false;
    }
    BelievedSteps(bus.env, c, |fw|);
    var ver: byte := 0;
    ok, ver := GetVersion(bus, ver);
  }

  /** What success of an attempt means whose selection was sent at time c. If that arrived,
      or the controller was in PRAM mode anyway, the image is in RAM exactly when each
      packet arrived or was there. If not, the RAM is as it was, whatever arrived. */
  ghost predicate Outcome(env: Env, c: nat, fw: seq<byte>, before: State, after: State)
    requires |fw| <= |before.pram| == |after.pram|
  {
    && (if Arrived(env, c) || before.mode.PramMode? then
          && (after.pram[..|fw|] == fw <==> AllThere(env, c + 1, fw, before.pram))
          && after.pram[|fw|..] == before.pram[|fw|..]
        else after.pram == before.pram)
    && (Arrived(env, c) ==> (after.started <==> Arrived(env, c + 1 + PacketCount(|fw|))))
  }

  /** The attempts that stop do so at one place, and not where they go through. */
  lemma StopsOnce(env: Env, c: nat, n: nat, r: int, r': int)
    requires AttemptStopped(env, c, n, r)
    ensures !AttemptWentThrough(env, c, n)
    ensures AttemptStopped(env, c, n, r') ==> r == r'
  {
  }

  /** The result, by the transfers alone: the first attempt goes through, or it stops after
      its selection and the second goes through. */
  lemma TwoAttemptsDecide(env: Env, c: nat, n: nat, ok: bool, last: nat, clock: nat)
    requires InTwoAttempts(env, c, n, ok, last, clock)
    ensures ok <==> || AttemptWentThrough(env, c, n)
                    || exists r: nat :: r > 0 && AttemptStopped(env, c, n, r) && AttemptWentThrough(env, c + r + 1, n)
  {
    if AttemptStopped(env, c, n, last - c - 1) {
      StopsOnce(env, c, n, last - c - 1, 0);
      forall r: nat | AttemptStopped(env, c, n, r) ensures r == last - c - 1 {
        StopsOnce(env, c, n, last - c - 1, r);
      }
    }
    if !ok && last == c {
      forall r: nat | AttemptStopped(env, c, n, r) ensures r == 0 {
        StopsOnce(env, c, n, 0, r);
      }
    }
    if !ok && c + 1 < last {
      StopsOnce(env, last, n, clock - last - 1, 0);
    }
  }

  /** One attempt: the selection, then the download. */
  method Attempt(bus: Bus, fw: seq<byte>) returns (selected: bool, ok: bool)
    requires bus.Ok() && |fw| <= |bus.dev.pram| && |fw| <= MAX_SIZE
    modifies bus
    ensures bus.Ok() && |bus.dev.pram| == old(|bus.dev.pram|) && (ok ==> selected)
    ensures ok && WholeOrLost(bus.env) && FullOrNegative(bus.env) ==>
              Outcome(bus.env, old(bus.clock), fw, old(bus.dev), bus.dev)
    ensures ok ==> Believed(bus.env, old(bus.clock), PacketCount(|fw|) + 2)
    ensures selected <==> bus.env.write(old(bus.clock)).count.Full?
    ensures FaithfulReads(bus.env) ==>
              if ok then
                AttemptWentThrough(bus.env, old(bus.clock), |fw|) && bus.clock == old(bus.clock) + PacketCount(|fw|) + 4
              else AttemptStopped(bus.env, old(bus.clock), |fw|, bus.clock - old(bus.clock) - 1)
    ensures LooksClean(bus.env) ==> ok
  {
    ok := false;
    selected := SelectPram(bus);
    if selected {
      ok := Download(bus, fw);
    }
  }

  /** An attempt that fails after its selection is made once more: which transfers decide
      the result, and the time at which it is there. */
  ghost predicate InTwoAttempts(env: Env, c: nat, n: nat, ok: bool, last: nat, clock: nat) {
    var all := PacketCount(n) + 4;
    || (ok && last == c && clock == c + all && AttemptWentThrough(env, c, n))
    || (!ok && last == c && clock == c + 1 && AttemptStopped(env, c, n, 0))
    || (c + 1 < last && AttemptStopped(env, c, n, last - c - 1)
        && if ok then clock == last + all && AttemptWentThrough(env, last, n)
           else last < clock && AttemptStopped(env, last, n, clock - last - 1))
  }

  /** axs_download_app: at most two complete attempts. The last one, whose selection was
      sent at time `last` to the controller in state `before`, decides what success means. */
  method DownloadApp(bus: Bus, fw: seq<byte>) returns (ok: bool, ghost last: nat, ghost before: State)
    requires bus.Ok() && |fw| <= |bus.dev.pram| && |fw| <= MAX_SIZE
    modifies bus
    ensures bus.Ok() && |bus.dev.pram| == old(|bus.dev.pram|) && |before.pram| == |bus.dev.pram|
    ensures ok && WholeOrLost(bus.env) && FullOrNegative(bus.env) ==> Outcome(bus.env, last, fw, before, bus.dev)
    ensures FaithfulReads(bus.env) ==> InTwoAttempts(bus.env, old(bus.clock), |fw|, ok, last, bus.clock)
    ensures ok && IntactWrites(bus.env) && FullOrNegative(bus.env) ==>
              bus.dev.started && bus.dev.pram[..|fw|] == fw
    ensures LooksClean(bus.env) ==> ok && last == old(bus.clock) && before == old(bus.dev)
    ensures NoErrors(bus.env) ==> ok && bus.dev.started && bus.dev.pram == fw + old(bus.dev.pram)[|fw|..]
  {
    ok := false;
    var upgradeCount := 0;
    while true
      invariant bus.Ok() && |bus.dev.pram| == old(|bus.dev.pram|) && 0 <= upgradeCount < 2
      invariant LooksClean(bus.env) ==> upgradeCount == 0 && bus.clock == old(bus.clock) && bus.dev == old(bus.dev)
      invariant upgradeCount == 0 ==> bus.clock == old(bus.clock)
      invariant FaithfulReads(bus.env) && upgradeCount == 1 ==>
                  old(bus.clock) + 1 < bus.clock
                  && AttemptStopped(bus.env, old(bus.clock), |fw|, bus.clock - old(bus.clock) - 1)
      decreases 2 - upgradeCount
    {
      upgradeCount := upgradeCount + 1;
      last, before := bus.clock, bus.dev;
      var selected;
      selected, ok := Attempt(bus, fw);
      if ok && IntactWrites(bus.env) {
        BelievedIsThere(bus.env, last, fw, before.pram);
      }
      if !selected {
        return;
      }
      if ok {
        break;
      }
      if upgradeCount >= 2 {
        break;
      }
    }
  }

  method Loader(write: nat -> Fate, ram: seq<byte>) returns (bus: Bus)
    ensures fresh(bus) && bus.Ok() && bus.clock == 0 && bus.dev.mode.App? && bus.dev.pram == ram
    ensures bus.env.write == write && ReadsWork(bus.env) && FullOrNegative(bus.env)
  {
    bus := new Bus(Env(write, _ => Fate(Full, None), _ => Full, _ => 0),
                   State(App, Repeat(0xFF, PAGE), false, 0, 0, 0, ram, false, 0));
  }

  /** Nothing is read back: whatever the image and the RAM, a download that reached
      nobody reports success. */
  method LostWritesGoUnnoticed(fw: seq<byte>, ram: seq<byte>) returns (ok: bool, bus: Bus)
    requires 1024 <= |fw| <= |ram| && |fw| <= MAX_SIZE
    ensures ok && FullOrNegative(bus.env) && WholeOrLost(bus.env) && bus.dev.pram == ram
    ensures forall k: nat :: !Arrived(bus.env, k)
  {
    bus := Loader(_ => Fate(Full, Some([])), ram);
    ghost var last: nat, before: State;
    ok, last, before := DownloadApp(bus, fw);
  }

  /** One lost write is enough, if it is the selection: every packet and the finish frame
      arrive, at an application that ignores them. */
  method LostSelectionGoesUnnoticed(fw: seq<byte>, ram: seq<byte>) returns (ok: bool, bus: Bus)
    requires 1024 <= |fw| <= |ram| && |fw| <= MAX_SIZE
    ensures ok && FullOrNegative(bus.env) && WholeOrLost(bus.env) && bus.dev.pram == ram
    ensures forall k: nat :: Arrived(bus.env, k) <==> k > 0
  {
    bus := Loader(k => if k == 0 then Fate(Full, Some([])) else Fate(Full, None), ram);
    ghost var last: nat, before: State;
    ok, last, before := DownloadApp(bus, fw);
  }
}
