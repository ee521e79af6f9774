/** Register access of the running touch application: three command buffers that
    every call patches in place and sends again. */
module RegisterCommands {
  import opened Bytes
  import opened Controller
  import opened I2cBus
  import opened Packets

  const MAX_REG: nat := 10
  const WRITE_MAGIC: seq<byte> := [0xb5, 0xab, 0x5a, 0xa5]
  const READ_MAGIC: seq<byte> := [0xb5, 0xab, 0xa5, 0x5a]
  const SFR_MAGIC: seq<byte> := [0x5a, 0xa5, 0xab, 0xb5]

  /** What a write of `reg` puts on the wire: a length field that counts the payload
      and its closing zero, seven header bytes, the payload, the zero. */
  function WriteFrame(reg: seq<byte>): (s: seq<byte>)
    requires |reg| <= MAX_REG
    ensures |s| == 12 + |reg|
  {
    WRITE_MAGIC + [0, |reg| + 1, 0, 0, 0, 0, 0] + reg + [0]
  }

  /** The payload of a write frame. */
  function Payload(s: seq<byte>): Option<seq<byte>> {
    if |s| < 12 || s[..4] != WRITE_MAGIC || |s| != 11 + Word(s[4], s[5]) || s[|s| - 1] != 0 then None
    else Some(s[11..|s| - 1])
  }

  /** At most ten bytes go out; the rest are dropped without an error. */
  function Clamped(reg: seq<byte>): (r: seq<byte>)
    ensures |r| <= MAX_REG
  {
    if |reg| > MAX_REG then reg[..MAX_REG] else reg
  }

  /** The receiver reads back what was asked to be written if and only if it is no
      longer than ten bytes. */
  lemma PayloadExactly(reg: seq<byte>)
    ensures Payload(WriteFrame(Clamped(reg))) == Some(Clamped(reg))
    ensures Payload(WriteFrame(Clamped(reg))) == Some(reg) <==> |reg| <= MAX_REG
  {
    var c := Clamped(reg);
    var s := WriteFrame(c);
    assert s[..4] == WRITE_MAGIC && s[11..|s| - 1] == c;
  }

  function ReadFrame(n: nat): seq<byte>
    requires n < 0x1_0000
  {
    READ_MAGIC + [0, 0, Hi(n), Lo(n), 0, 0, 0]
  }

  function SfrFrame(reg: byte, n: nat): seq<byte>
    requires n < 0x1_0000
  {
    SFR_MAGIC + [0, 0, Hi(n), Lo(n), 0, 0x80, reg]
  }

  /** What a read command asks for: a register, or none, and how many bytes. */
  function Request(s: seq<byte>): Option<(Option<byte>, nat)> {
    if |s| != 11 then None
    else if s[..6] == READ_MAGIC + [0, 0] && s[8..] == [0, 0, 0] then Some((None, Word(s[6], s[7])))
    else if s[..6] == SFR_MAGIC + [0, 0] && s[8..10] == [0, 0x80] then Some((Some(s[10]), Word(s[6], s[7])))
    else None
  }

  /** The two read commands ask for what they were made for, and nothing else asks for it. */
  lemma RequestExactly(s: seq<byte>, reg: byte, n: nat)
    requires n < 0x1_0000
    ensures Request(s) == Some((None, n)) <==> s == ReadFrame(n)
    ensures Request(s) == Some((Some(reg), n)) <==> s == SfrFrame(reg, n)
  {
    assert Word(Hi(n), Lo(n)) == n;
    assert ReadFrame(n)[..6] == READ_MAGIC + [0, 0] && ReadFrame(n)[8..] == [0, 0, 0];
    assert SfrFrame(reg, n)[..6] == SFR_MAGIC + [0, 0] && SfrFrame(reg, n)[8..10] == [0, 0x80];
    if |s| == 11 {
      WordRoundTrip(s[6], s[7]);
      assert s == s[..6] + [s[6], s[7]] + s[8..];
      assert s == s[..6] + [s[6], s[7]] + s[8..10] + [s[10]];
      assert READ_MAGIC + [0, 0] + [Hi(n), Lo(n)] + [0, 0, 0] == ReadFrame(n);
      assert SFR_MAGIC + [0, 0] + [Hi(n), Lo(n)] + [0, 0x80] + [reg] == SfrFrame(reg, n);
      assert (READ_MAGIC + [0, 0])[0] != (SFR_MAGIC + [0, 0])[0];
    }
  }

  /** The loaders read the version as one byte of register 0x89. */
  lemma VersionRequest()
    ensures READ_VERSION == SfrFrame(0x89, 1) && Request(READ_VERSION) == Some((Some(0x89), 1))
  {
    RequestExactly(READ_VERSION, 0x89, 1);
  }

  /** The controller after the transfer of this frame. */
  function Written(env: Env, clock: nat, dev: State, frame: seq<byte>): (r: State)
    requires Controller.Valid(dev)
    ensures Controller.Valid(r)
  {
    Deliver(dev, OnWire(env.write(clock), frame), env.latency(clock))
  }

  /** A buffer that held `before` after a read, for any counts: as much as was delivered of
      the answer to exactly this frame, whatever was asked before, and behind it what the
      buffer held. */
  function AfterRead(env: Env, clock: nat, dev: State, frame: seq<byte>, n: nat, before: seq<byte>): (r: seq<byte>)
    requires Controller.Valid(dev) && 0 < n <= |before|
    ensures |r| == |before|
  {
    match Delivered(env, clock, n)
    case None => before
    case Some(m) => Answer(dev, OnWire(env.command(clock), frame), n).0[..m] + before[m..]
  }

  lemma CopiedToFront(before: seq<byte>, reply: seq<byte>)
    requires |reply| <= |before|
    ensures reply[..|reply|] == reply
    ensures forall m: nat {:trigger reply[..m]} :: m <= |reply| ==>
              Copied(before, 0, reply[..m]) == reply[..m] + before[m..]
    ensures [] + before[0..] == before
  {
  }

  class Commands {
    const writeCmd: array<byte>
    const readCmd: array<byte>
    const sfrCmd: array<byte>

    /** The parts of the buffers that no call may disturb. */
    ghost predicate Valid()
      reads writeCmd, readCmd, sfrCmd
    {
      && writeCmd.Length == 22 && readCmd.Length == 11 && sfrCmd.Length == 11
      && writeCmd != readCmd && writeCmd != sfrCmd && readCmd != sfrCmd
      && writeCmd[..4] == WRITE_MAGIC && writeCmd[6..11] == [0, 0, 0, 0, 0]
      && readCmd[..6] == READ_MAGIC + [0, 0] && readCmd[8..] == [0, 0, 0]
      && sfrCmd[..6] == SFR_MAGIC + [0, 0] && sfrCmd[8..10] == [0, 0x80]
    }

    constructor ()
      ensures Valid() && fresh(writeCmd) && fresh(readCmd) && fresh(sfrCmd)
    {
      writeCmd := new byte[][0xb5, 0xab, 0x5a, 0xa5, 0, 1, 0, 0, 0, 0, 0, 0xff, 0, 0, 0, 0, 0, 0, 0, 0, 0, 0];
      readCmd := new byte[][0xb5, 0xab, 0xa5, 0x5a, 0, 0, 0, 1, 0, 0, 0];
      sfrCmd := new byte[][0x5a, 0xa5, 0xab, 0xb5, 0, 0, 0, 1, 0, 0x80, 0];
    }

    method FillWrite(reg: seq<byte>)
      requires Valid() && |reg| <= MAX_REG
      modifies writeCmd
      ensures Valid() && writeCmd[..12 + |reg|] == WriteFrame(reg)
    {
      var n := |reg|;
      ghost var fixed := writeCmd[..];
      writeCmd[4], writeCmd[5] := 0, n + 1;
      ghost var head := writeCmd[..11];
      assert head == fixed[..4] + [0, n + 1] + fixed[6..11];
      CopyIn(writeCmd, 11, reg, 0, n);
      writeCmd[11 + n] := 0;
      assert writeCmd[..11 + n] == head + reg;
      assert writeCmd[..12 + n] == writeCmd[..11 + n] + [0];
      assert writeCmd[..4] == head[..4] && writeCmd[6..11] == head[6..11];
    }

    /** axs_write_buf. Whatever earlier calls left in the buffer, the frame sent is
        the frame of these bytes alone. */
    method WriteBuf(bus: Bus, wt: seq<byte>) returns (ret: int)
      requires Valid() && bus.Ok()
      modifies bus, writeCmd
      ensures Valid() && bus.Ok() && bus.clock == old(bus.clock) + 1
      ensures bus.sent == old(bus.sent) + [WriteFrame(Clamped(wt))]
      ensures bus.dev == Written(bus.env, old(bus.clock), old(bus.dev), WriteFrame(Clamped(wt)))
      ensures ret == if bus.env.write(old(bus.clock)).count.Full? then 0 else -EINVAL
    {
      var n := if |wt| > MAX_REG then MAX_REG else |wt|;
      assert wt[..n] == Clamped(wt);
      FillWrite(wt[..n]);
      ret := bus.WriteBytes(writeCmd, 12 + n);
      if ret >= 0 { ret := 0; }
    }

    /** axs_read_buf */
    method ReadBuf(bus: Bus, data: array<byte>, n: nat) returns (ret: int)
      requires Valid() && bus.Ok() && n <= data.Length && n < 0x1_0000
      requires data != writeCmd && data != readCmd && data != sfrCmd
      modifies bus, readCmd, data
      ensures Valid() && bus.Ok() && bus.sent == old(bus.sent)
      ensures n >= MAX_BUF_LEN ==> ret == -EINVAL && bus.clock == old(bus.clock) && data[..] == old(data[..])
      ensures n == 0 ==> ret == 0 && bus.clock == old(bus.clock) && data[..] == old(data[..])
      ensures 0 < n < MAX_BUF_LEN ==>
                && (ret == 0 <==> Delivered(bus.env, old(bus.clock), n).Some?)
                && data[..] == AfterRead(bus.env, old(bus.clock), old(bus.dev), ReadFrame(n), n, old(data[..]))
    {
      if n == 0 { return 0; }
      readCmd[6], readCmd[7] := Hi(n), Lo(n);
      assert readCmd[..11] == readCmd[..6] + [readCmd[6], readCmd[7]] + readCmd[8..];
      assert readCmd[..11] == ReadFrame(n);
      ghost var before, c := data[..], bus.clock;
      if n < MAX_BUF_LEN {
        CopiedToFront(before, Answer(bus.dev, OnWire(bus.env.command(c), ReadFrame(n)), n).0);
      }
      ret := bus.WriteReadBytes(readCmd, 11, data, 0, n);
      if ret >= 0 { ret := 0; }
    }

    /** axs_read_sfr_reg: unlike axs_read_buf it refuses to read nothing. */
    method ReadSfr(bus: Bus, reg: byte, data: array<byte>, n: nat) returns (ret: int)
      requires Valid() && bus.Ok() && n <= data.Length && n < 0x1_0000
      requires data != writeCmd && data != readCmd && data != sfrCmd
      modifies bus, sfrCmd, data
      ensures Valid() && bus.Ok() && bus.sent == old(bus.sent)
      ensures n >= MAX_BUF_LEN ==> ret == -EINVAL && bus.clock == old(bus.clock) && data[..] == old(data[..])
      ensures n == 0 ==> ret == -1 && bus.clock == old(bus.clock) && data[..] == old(data[..])
      ensures 0 < n < MAX_BUF_LEN ==>
                && (ret == 0 <==> Delivered(bus.env, old(bus.clock), n).Some?)
                && data[..] == AfterRead(bus.env, old(bus.clock), old(bus.dev), SfrFrame(reg, n), n, old(data[..]))
    {
      if n == 0 { return -1; }
      sfrCmd[6], sfrCmd[7], sfrCmd[10] := Hi(n), Lo(n), reg;
      assert sfrCmd[..11] == sfrCmd[..6] + [sfrCmd[6], sfrCmd[7]] + sfrCmd[8..10] + [sfrCmd[10]];
      assert sfrCmd[..11] == SfrFrame(reg, n);
      ghost var before, c := data[..], bus.clock;
      if n < MAX_BUF_LEN {
        CopiedToFront(before, Answer(bus.dev, OnWire(bus.env.command(c), SfrFrame(reg, n)), n).0);
      }
      ret := bus.WriteReadBytes(sfrCmd, 11, data, 0, n);
      if ret >= 0 { ret := 0; }
    }

    /** axs_read_regs */
    method ReadRegs(bus: Bus, reg: seq<byte>, data: array<byte>, n: nat) returns (ret: int)
      requires Valid() && bus.Ok() && n <= data.Length && n < 0x1_0000
      requires data != writeCmd && data != readCmd && data != sfrCmd
      modifies bus, writeCmd, readCmd, data
      ensures Valid() && bus.Ok()
      ensures bus.sent == old(bus.sent) + [WriteFrame(Clamped(reg))]
      ensures !bus.env.write(old(bus.clock)).count.Full? ==>
                ret == -EINVAL && bus.clock == old(bus.clock) + 1 && data[..] == old(data[..])
      ensures bus.env.write(old(bus.clock)).count.Full? && 0 < n < MAX_BUF_LEN ==>
                var dev := Written(bus.env, old(bus.clock), old(bus.dev), WriteFrame(Clamped(reg)));
                data[..] == AfterRead(bus.env, old(bus.clock) + 1, dev, ReadFrame(n), n, old(data[..]))
      ensures n >= MAX_BUF_LEN ==> ret == -EINVAL
      ensures n == 0 ==> (ret == 0 <==> bus.env.write(old(bus.clock)).count.Full?)
      ensures n == 0 || n >= MAX_BUF_LEN ==> data[..] == old(data[..])
      ensures 0 < n < MAX_BUF_LEN ==>
                (ret == 0 <==> bus.env.write(old(bus.clock)).count.Full?
                               && Delivered(bus.env, old(bus.clock) + 1, n).Some?)
    {
      ret := WriteBuf(bus, reg);
      if ret < 0 { return; }
      ret := ReadBuf(bus, data, n);
    }
  }
}
