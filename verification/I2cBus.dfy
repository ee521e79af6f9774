/** The I2C layer. What the adapter does with the k-th transfer is an oracle, so
    a statement about every `Env` is a statement about every run of the bus. */
module I2cBus {
  import opened Bytes
  import opened Controller

  const EINVAL: int := 22
  const MAX_BUF_LEN: nat := 1024

  /** What i2c_master_send or i2c_master_recv returns: the whole count, a smaller
      count, or an error. */
  datatype Count = Full | Partial(n: nat) | Failed(errno: nat)

  function ReturnValue(c: Count, len: nat): (r: int)
    ensures r == len <==> c.Full?
  {
    match c
    case Full => len
    case Partial(n) => if n < len then n else len - 1
    case Failed(errno) => -1 - errno
  }

  /** `wire` replaces the bytes that reach the controller: Some([]) is a lost write. */
  datatype Fate = Fate(count: Count, wire: Option<seq<byte>>)

  function OnWire(f: Fate, s: seq<byte>): seq<byte> {
    match f.wire
    case None => s
    case Some(w) => w
  }

  /** `write` decides plain writes, `command` and `answer` the two halves of a
      write-then-read, `latency` how long the controller is busy. */
  datatype Env = Env(write: nat -> Fate, command: nat -> Fate, answer: nat -> Count, latency: nat -> nat)

  ghost predicate FullOrNegative(env: Env) {
    forall k: nat :: !env.command(k).count.Partial? && !env.answer(k).Partial?
  }

  /** Reads are all-or-error and their commands arrive intact; plain writes may
      be lost, altered or reported wrongly at will. */
  ghost predicate FaithfulReads(env: Env) {
    FullOrNegative(env) && forall k: nat :: env.command(k).count.Full? ==> env.command(k).wire.None?
  }

  lemma ReadOutcome(env: Env, k: nat, len: nat)
    requires FaithfulReads(env)
    ensures var f := env.command(k);
            && (ReturnValue(f.count, len) >= 0 <==> f.count.Full?)
            && (ReturnValue(env.answer(k), len) >= 0 <==> env.answer(k).Full?)
            && (f.count.Full? ==> f.wire.None?)
  {
  }

  ghost predicate NoErrors(env: Env) {
    forall k: nat :: env.write(k) == Fate(Full, None) && env.command(k) == Fate(Full, None) && env.answer(k) == Full
  }

  ghost predicate LatencyAtMost(env: Env, bound: nat) {
    forall k: nat :: env.latency(k) <= bound
  }

  /** For n transfers from time c on every plain write is reported whole and reaches
      nobody, and every write-then-read goes through. */
  ghost predicate Deaf(env: Env, c: nat, n: nat) {
    forall k: nat :: c <= k < c + n ==>
      env.write(k) == Fate(Full, Some([])) && env.command(k) == Fate(Full, None) && env.answer(k) == Full
  }

  predicate ReadWorks(env: Env, c: nat) {
    env.command(c) == Fate(Full, None) && env.answer(c) == Full
  }

  /** The command of transfer c reaches nobody, or its answer fails: an error either way,
      and the controller is as it was. */
  predicate ReadLost(env: Env, c: nat) {
    || (env.command(c).count.Failed? && env.command(c).wire == Some([]))
    || (env.command(c) == Fate(Full, None) && env.answer(c).Failed?)
  }

  ghost predicate ReadsWorkFor(env: Env, c: nat, n: nat) {
    forall k: nat :: c <= k < c + n ==> ReadWorks(env, k)
  }

  /** A read command that is sent whole arrives, one that is sent in part reaches nobody;
      nothing is said of the counts. */
  ghost predicate HonestReads(env: Env) {
    forall k: nat ::
      (env.command(k).count.Full? ==> env.command(k).wire.None?)
      && (env.command(k).count.Partial? ==> env.command(k).wire == Some([]))
  }

  /** How many of the n bytes asked for transfer c puts into the caller's buffer, if it
      returns no error: none when the command was sent in part. */
  function Delivered(env: Env, c: nat, n: nat): (r: Option<nat>)
    requires n > 0
    ensures r.Some? ==> r.value <= n
  {
    match env.command(c).count
    case Failed(_) => None
    case Partial(_) => Some(0)
    case Full =>
      match env.answer(c)
      case Failed(_) => None
      case Full => Some(n)
      case Partial(m) => Some(if m < n then m else n - 1)
  }

  /** Both halves of transfer c go through. */
  predicate Transferred(env: Env, c: nat) {
    env.command(c).count.Full? && env.answer(c).Full?
  }

  function Copied(buf: seq<byte>, off: nat, s: seq<byte>): (r: seq<byte>)
    requires off + |s| <= |buf|
    ensures |r| == |buf|
  {
    buf[..off] + s + buf[off + |s|..]
  }

  /** Since `was` no plain write was reported less than whole, or one was and the call
      that made it failed at once: nothing was transferred after it. */
  predicate Heeded(was: seq<nat>, failures: seq<nat>, clock: nat, ok: bool) {
    failures == was || (!ok && clock > 0 && failures == was + [clock - 1])
  }

  /** `sent` and `failures` record the plain writes: their bytes, and the times of those
      that were not reported whole. */
  class Bus {
    const env: Env
    var dev: State
    var clock: nat
    var sent: seq<seq<byte>>
    var failures: seq<nat>

    constructor (env: Env, dev: State)
      ensures this.env == env && this.dev == dev && clock == 0 && sent == [] && failures == []
    {
      this.env := env;
      this.dev := dev;
      clock := 0;
      sent := [];
      failures := [];
    }

    ghost predicate Ok()
      reads this
    {
      Valid(dev)
    }

    /** axs_write_bytes */
    method WriteBytes(buf: array<byte>, len: nat) returns (ret: int)
      requires Ok() && len <= buf.Length
      modifies this
      ensures Ok() && |dev.mem| == old(|dev.mem|) && |dev.pram| == old(|dev.pram|)
      ensures len == 0 || len >= MAX_BUF_LEN ==>
                && ret == -EINVAL && dev == old(dev) && clock == old(clock)
                && sent == old(sent) && failures == old(failures)
      ensures 0 < len < MAX_BUF_LEN ==>
                && clock == old(clock) + 1
                && sent == old(sent) + [buf[..len]]
                && dev == Deliver(old(dev), OnWire(env.write(old(clock)), buf[..len]), env.latency(old(clock)))
                && ret == (if env.write(old(clock)).count.Full? then len else -EINVAL)
                && failures == old(failures) + if env.write(old(clock)).count.Full? then [] else [old(clock)]
    {
      if len == 0 || len >= MAX_BUF_LEN {
        return -EINVAL;
      }
      var fate := env.write(clock);
      dev := Deliver(dev, OnWire(fate, buf[..len]), env.latency(clock));
      sent := sent + [buf[..len]];
      clock := clock + 1;
      ret := ReturnValue(fate.count, len);
      if ret != len {
        failures := failures + [clock - 1];
        ret := -EINVAL;
      }
    }

    /** axs_write_bytes_read_bytes: the answer goes to data[off..off + n]. */
    method WriteReadBytes(cmd: array<byte>, cmdlen: nat, data: array<byte>, off: nat, n: nat) returns (ret: int)
      requires Ok() && 0 < cmdlen <= cmd.Length && off + n <= data.Length
      modifies this, data
      ensures Ok() && |dev.mem| == old(|dev.mem|) && |dev.pram| == old(|dev.pram|)
      ensures sent == old(sent) && failures == old(failures)
      ensures forall i :: 0 <= i < off || off + n <= i < data.Length ==> data[i] == old(data[i])
      ensures cmdlen >= MAX_BUF_LEN || n >= MAX_BUF_LEN ==>
                ret == -EINVAL && dev == old(dev) && clock == old(clock) && data[..] == old(data[..])
      ensures cmdlen < MAX_BUF_LEN && n < MAX_BUF_LEN ==>
                var s := old(cmd[..cmdlen]);
                var fate := env.command(old(clock));
                var count := env.answer(old(clock));
                var reply := Answer(old(dev), OnWire(fate, s), n);
                && clock == old(clock) + 1
                && (!fate.count.Full? ==>
                      && ret == ReturnValue(fate.count, cmdlen)
                      && data[..] == old(data[..])
                      && dev == Deliver(old(dev), OnWire(fate, s), env.latency(old(clock))))
                && (fate.count.Full? ==> ret == ReturnValue(count, n))
                && (fate.count.Full? && count.Full? ==>
                      data[..] == Copied(old(data[..]), off, reply.0) && dev == reply.1)
                && (fate.count.Full? && count.Partial? && n > 0 ==>
                      data[..] == Copied(old(data[..]), off, reply.0[..ret]) && dev == reply.1)
                && (fate.count.Full? && count.Failed? ==>
                      data[..] == old(data[..]) && dev == old(dev))
    {
      if cmdlen >= MAX_BUF_LEN || n >= MAX_BUF_LEN {
        return -EINVAL;
      }
      var fate, count, latency := env.command(clock), env.answer(clock), env.latency(clock);
      var wire := OnWire(fate, cmd[..cmdlen]);
      clock := clock + 1;
      ret := ReturnValue(fate.count, cmdlen);
      if ret != cmdlen {
        dev := Deliver(dev, wire, latency);
        return;
      }
      ret := ReturnValue(count, n);
      if !count.Failed? {
        var (bytes, dev') := Answer(dev, wire, n);
        dev := dev';
        ghost var before := data[..];
        var m := if ret < 0 then 0 else ret;
        forall i | 0 <= i < m {
          data[off + i] := bytes[i];
        }
        assert data[..] == Copied(before, off, bytes[..m]);
        assert m == n ==> bytes[..m] == bytes;
      }
    }

    /** axs_write_bytes_read_bytes for an answer of one byte, which goes to data[off];
        `expected` is what the controller answers to the command `s`. */
    method ReadByte(cmd: array<byte>, cmdlen: nat, data: array<byte>, off: nat,
                    ghost s: seq<byte>, ghost expected: (seq<byte>, State)) returns (ret: int)
      requires Ok() && 0 < cmdlen <= cmd.Length && cmdlen < MAX_BUF_LEN && off < data.Length && s == cmd[..cmdlen]
      requires expected == Answer(dev, s, 1)
      modifies this, data
      ensures Ok() && |dev.mem| == old(|dev.mem|) && |dev.pram| == old(|dev.pram|)
      ensures sent == old(sent) && failures == old(failures)
      ensures clock == old(clock) + 1
      ensures ret >= 0 <==> Delivered(env, old(clock), 1).Some?
      ensures ReadLost(env, old(clock)) ==> dev == old(dev)
      ensures forall i :: 0 <= i < data.Length && i != off ==> data[i] == old(data[i])
      ensures var fate, count := env.command(old(clock)), env.answer(old(clock));
              && (!fate.count.Full? ==> ret == ReturnValue(fate.count, cmdlen))
              && (fate.count.Full? ==> ret == ReturnValue(count, 1)
                                       && dev.pram == old(dev.pram) && dev.started == old(dev.started))
              && (!fate.count.Full? || !count.Full? ==> data[off] == old(data[off]))
              && (fate.count.Full? && count.Full? && fate.wire.None? ==>
                    data[off] == expected.0[0] && dev == expected.1)
              && (fate.count.Full? && count.Full? ==>
                    var reply := Answer(old(dev), OnWire(fate, s), 1); data[off] == reply.0[0] && dev == reply.1)
    {
      ghost var before := data[..];
      DeliverNothing(dev, env.latency(clock));
      ret := WriteReadBytes(cmd, cmdlen, data, off, 1);
      assert data[..][off] == data[off] && before[off] == old(data[off]);
    }

    /** axs_write_bytes_read_bytes for an honest bus: the bytes delivered go to the front
        of data; `reply` is what the controller answers to the command `s`. */
    method ReadFront(cmd: array<byte>, cmdlen: nat, data: array<byte>, n: nat,
                     ghost s: seq<byte>, ghost reply: (seq<byte>, State)) returns (ret: int)
      requires Ok() && 0 < cmdlen <= cmd.Length && cmdlen < MAX_BUF_LEN && 0 < n <= data.Length && n < MAX_BUF_LEN
      requires s == cmd[..cmdlen] && |reply.0| == n && reply == Answer(dev, s, n)
      modifies this, data
      ensures Ok() && |dev.mem| == old(|dev.mem|) && |dev.pram| == old(|dev.pram|)
      ensures sent == old(sent) && failures == old(failures)
      ensures clock == old(clock) + 1
      ensures HonestReads(env) ==>
                var d := Delivered(env, old(clock), n);
                && (ret >= 0 <==> d.Some?)
                && (d.Some? ==> data[..] == Copied(old(data[..]), 0, reply.0[..d.value])
                                && dev == if env.command(old(clock)).count.Full? then reply.1 else old(dev))
    {
      DeliverNothing(dev, env.latency(clock));
      ghost var before := data[..];
      ret := WriteReadBytes(cmd, cmdlen, data, 0, n);
      assert Copied(before, 0, reply.0[..0]) == before;
      assert reply.0[..n] == reply.0;
    }
  }
}
