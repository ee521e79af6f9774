/** The read-back of program RAM that the PRAM loader has but does not compile in. */
module PramReadCheck {
  import opened Bytes
  import opened Controller
  import opened I2cBus
  import opened Packets
  import opened PramDownload

  function RamRead(addr: nat, n: nat): (f: Frame)
    requires addr < MAX_SIZE && n <= PACKET
    ensures Encodable(f)
  {
    Frame(n, addr, [])
  }

  lemma RamReadReply(d: State, addr: nat, n: nat)
    requires Valid(d) && d.mode.PramMode? && addr < MAX_SIZE && n <= PACKET && addr + n <= |d.pram|
    ensures Reply(d, RamRead(addr, n), n) == (d.pram[addr..addr + n], d)
  {
  }

  lemma RamReadAnswer(d: State, addr: nat, n: nat)
    requires Valid(d) && d.mode.PramMode? && 0 < n <= PACKET && addr < MAX_SIZE && addr + n <= |d.pram|
    ensures Answer(d, Encode(RamRead(addr, n)), n) == (d.pram[addr..addr + n], d)
  {
    RamReadReply(d, addr, n);
    AnswerFrame(d, RamRead(addr, n), n);
  }

  /** The eleven bytes of a read command; the source keeps the buffer between turns. */
  method FillRamRead(buf: array<byte>, addr: nat, n: nat)
    requires buf.Length == 11 && buf[..4] == MAGIC && addr < MAX_SIZE && n <= PACKET
    modifies buf
    ensures buf[..] == Encode(RamRead(addr, n)) && buf[..4] == MAGIC
  {
    buf[4], buf[5] := 0, 0;
    buf[6], buf[7] := Hi(n), Lo(n);
    buf[8] := addr / 0x1_0000 % 256;
    buf[9] := addr / 256 % 256;
    buf[10] := addr % 256;
    assert buf[8..] == Addr24(addr);
    assert buf[..] == buf[..4] + [buf[4], buf[5], buf[6], buf[7]] + buf[8..];
  }

  lemma CopiedFront(buf: seq<byte>, s: seq<byte>)
    requires |s| <= |buf|
    ensures Copied(buf, 0, s)[..|s|] == s
  {
  }

  method Fetch(bus: Bus, buf: array<byte>, tmpbuf: array<byte>, addr: nat, n: nat) returns (ret: int)
    requires bus.Ok() && buf.Length == 11 && tmpbuf.Length == PACKET + 5 && buf != tmpbuf
    requires 0 < n <= PACKET && addr < MAX_SIZE && addr + n <= |bus.dev.pram| && buf[..] == Encode(RamRead(addr, n))
    modifies bus, tmpbuf
    ensures bus.Ok() && |bus.dev.pram| == old(|bus.dev.pram|) && bus.sent == old(bus.sent)
    ensures bus.clock == old(bus.clock) + 1
    ensures FaithfulReads(bus.env) && old(bus.dev.mode.PramMode?) ==>
              && (ret >= 0 <==> Transferred(bus.env, old(bus.clock)))
              && (ret >= 0 ==> bus.dev == old(bus.dev) && tmpbuf[..n] == old(bus.dev).pram[addr..addr + n])
  {
    if bus.dev.mode.PramMode? {
      RamReadAnswer(bus.dev, addr, n);
    }
    ghost var before, dev0, c := tmpbuf[..], bus.dev, bus.clock;
    assert buf[..11] == buf[..];
    ret := bus.WriteReadBytes(buf, 11, tmpbuf, 0, n);
    assert tmpbuf[..n] == tmpbuf[..][..n];
    CopiedFront(before, dev0.pram[addr..addr + n]);
    if FaithfulReads(bus.env) {
      ReadOutcome(bus.env, c, 11);
      ReadOutcome(bus.env, c, n);
    }
  }

  /** Packet k of the read-back that begins with transfer c came whole and is in RAM. */
  ghost predicate ReadAt(env: Env, c: nat, fw: seq<byte>, ram: seq<byte>, k: nat)
    requires |fw| <= |ram| && k < PacketCount(|fw|)
  {
    Transferred(env, c + k) && Held(ram, fw, k)
  }

  ghost predicate ReadTo(env: Env, c: nat, fw: seq<byte>, ram: seq<byte>, n: nat)
    requires |fw| <= |ram| && n <= PacketCount(|fw|)
  {
    forall k: nat :: k < n ==> ReadAt(env, c, fw, ram, k)
  }

  lemma ReadNext(env: Env, c: nat, fw: seq<byte>, ram: seq<byte>, k: nat)
    requires |fw| <= |ram| && k < PacketCount(|fw|) && ReadTo(env, c, fw, ram, k)
    ensures if ReadAt(env, c, fw, ram, k) then ReadTo(env, c, fw, ram, k + 1)
            else !ReadTo(env, c, fw, ram, PacketCount(|fw|))
  {
  }

  lemma ReadAll(env: Env, c: nat, fw: seq<byte>, ram: seq<byte>)
    requires |fw| <= |ram|
    ensures ReadTo(env, c, fw, ram, PacketCount(|fw|)) <==>
            (forall i :: c <= i < c + PacketCount(|fw|) ==> Transferred(env, i)) && ram[..|fw|] == fw
  {
    HeldAll(ram, fw);
    if ReadTo(env, c, fw, ram, PacketCount(|fw|)) {
      forall i | c <= i < c + PacketCount(|fw|) ensures Transferred(env, i) {
        assert ReadAt(env, c, fw, ram, i - c);
      }
      forall k: nat | k < PacketCount(|fw|) ensures Held(ram, fw, k) {
        assert ReadAt(env, c, fw, ram, k);
      }
    }
  }

  /** One turn of the loop. */
  method ReadPacket(bus: Bus, buf: array<byte>, tmpbuf: array<byte>, fw: seq<byte>, k: nat,
                    ghost c: nat, ghost ram: seq<byte>, ghost faithful: bool) returns (same: bool)
    requires bus.Ok() && buf.Length == 11 && buf[..4] == MAGIC && tmpbuf.Length == PACKET + 5 && buf != tmpbuf
    requires |fw| <= |bus.dev.pram| == |ram| && |fw| <= MAX_SIZE && k < PacketCount(|fw|) && bus.clock == c + k
    requires faithful ==> FaithfulReads(bus.env) && bus.dev.mode.PramMode? && bus.dev.pram == ram
    requires faithful ==> ReadTo(bus.env, c, fw, ram, k)
    modifies bus, buf, tmpbuf
    ensures bus.Ok() && |bus.dev.pram| == old(|bus.dev.pram|) && buf[..4] == MAGIC && bus.sent == old(bus.sent)
    ensures bus.clock == old(bus.clock) + 1
    ensures faithful && same ==> bus.dev == old(bus.dev) && ReadTo(bus.env, c, fw, ram, k + 1)
    ensures faithful && !same ==> !ReadTo(bus.env, c, fw, ram, PacketCount(|fw|))
  {
    var currentSize := PacketSize(|fw|, k);
    var addr := k * PACKET;
    if faithful {
      ReadNext(bus.env, c, fw, ram, k);
    }
    FillRamRead(buf, addr, currentSize);
    var ret := Fetch(bus, buf, tmpbuf, addr, currentSize);
    if ret < 0 {
      return false;
    }
    assert Packet(fw, k) == fw[addr..addr + currentSize];
    same := fw[addr..addr + currentSize] == tmpbuf[..currentSize];
  }

  /** axs_pram_read_check: it would say yes exactly when its buffer was allocated,
      every transfer went through and the RAM holds the image. */
  method ReadCheck(bus: Bus, fw: seq<byte>, gotBuffer: bool) returns (ok: bool)
    requires bus.Ok() && |fw| <= |bus.dev.pram| && |fw| <= MAX_SIZE
    modifies bus
    ensures bus.Ok() && |bus.dev.pram| == old(|bus.dev.pram|) && bus.sent == old(bus.sent)
    ensures FaithfulReads(bus.env) && old(bus.dev.mode.PramMode?) ==>
              && (ok <==> gotBuffer
                          && (forall c :: old(bus.clock) <= c < old(bus.clock) + PacketCount(|fw|) ==>
                                Transferred(bus.env, c))
                          && old(bus.dev).pram[..|fw|] == fw)
              && (ok ==> bus.dev == old(bus.dev))
  {
    var totalPackets := |fw| / PACKET;
    if |fw| % PACKET != 0 {
      totalPackets := totalPackets + 1;
    }
    assert totalPackets == PacketCount(|fw|);
    if !gotBuffer {
      return false;
    }
    var buf := new byte[11](_ => 0);
    buf[0], buf[1], buf[2], buf[3] := 0xab, 0xb5, 0xa5, 0x5a;
    var tmpbuf := new byte[PACKET + 5](_ => 0);
    ghost var dev0, c0 := bus.dev, bus.clock;
    ghost var faithful := FaithfulReads(bus.env) && dev0.mode.PramMode?;
    ReadAll(bus.env, c0, fw, dev0.pram);
    var currentNum := 1;
    while currentNum <= totalPackets
      invariant bus.Ok() && |bus.dev.pram| == |dev0.pram| && buf[..4] == MAGIC && bus.sent == old(bus.sent)
      invariant 1 <= currentNum <= totalPackets + 1
      invariant bus.clock == c0 + currentNum - 1
      invariant faithful ==> bus.dev == dev0 && ReadTo(bus.env, c0, fw, dev0.pram, currentNum - 1)
    {
      var same := ReadPacket(bus, buf, tmpbuf, fw, currentNum - 1, c0, dev0.pram, faithful);
      if !same {
        return false;
      }
      currentNum := currentNum + 1;
    }
    ok := true;
  }
}
