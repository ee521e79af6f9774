/** The LED microcontroller: its checksummed frames over a retrying SMBus, and the
    packing of blink timing into one 32-bit word. */
module LedFrame {
  import opened Bytes

  const EBUSY: int := 16
  const EINVAL: int := 22
  const BLOCK: nat := 11
  const TRIES: nat := 3
  const MODE_LIGHT: byte := 1
  const MODE_SWITCH: byte := 3
  const MODE_BLINK: byte := 4
  const MODE_BREATH: byte := 5

  type Block = s: seq<byte> | |s| == BLOCK witness seq(11, _ => 0)

  /** The driver's test of a block: the sum of the first nine bytes is the word in
      the last two. */
  predicate Accepted(b: Block) {
    Sum(b[..9]) == Word(b[9], b[10])
  }

  function Body(status: byte, d: seq<byte>): (s: seq<byte>)
    requires |d| == 4
    ensures |s| == 9
  {
    [0xa0, 1, 0, 0, status] + d
  }

  /** A body with its sum appended. */
  function Sealed(body: seq<byte>): Block
    requires |body| == 9
  {
    SumBound(body);
    body + [Hi(Sum(body)), Lo(Sum(body))]
  }

  /** The eleven bytes sent after the select byte. */
  function Frame(status: byte, d: seq<byte>): Block
    requires |d| == 4
  {
    Sealed(Body(status, d))
  }

  /** A block is accepted if and only if it is the sealing of its body: what the
      driver sends passes the test that the driver applies to what it reads. */
  lemma AcceptedExactly(b: Block)
    ensures Accepted(b) <==> b == Sealed(b[..9])
  {
    SumBound(b[..9]);
    if Accepted(b) {
      DivUnique(Sum(b[..9]), 256, b[9], b[10]);
      assert b == b[..9] + [b[9], b[10]];
    }
  }

  /** Any one-byte change makes an accepted block fail the test, in the body or in
      the sum. */
  lemma OneByteChangeIsRejected(b: Block, k: nat, x: byte)
    requires Accepted(b) && k < BLOCK && x != b[k]
    ensures !Accepted(b[k := x])
  {
    if k < 9 {
      SumUpdate(b[..9], k, x);
      assert b[k := x][..9] == b[..9][k := x];
    } else {
      assert b[k := x][..9] == b[..9];
    }
  }

  /** A block read gives no more bytes than were asked for. */
  type Fetched = s: seq<byte> | |s| <= BLOCK

  datatype Transfer = Send(select: byte, block: Block) | Fetch(select: byte) | Flag

  /** What the SMBus adapter does with the k-th transfer: whether it sends, the
      bytes a block read gives (none when it fails), what the flag register reads. */
  datatype Env = Env(send: nat -> bool, block: nat -> Fetched, flag: nat -> int)

  predicate Hit(env: Env, op: Transfer, k: nat) {
    match op
    case Send(_, _) => env.send(k)
    case Fetch(_) => |env.block(k)| == BLOCK
    case Flag => env.flag(k) == 1
  }

  predicate Missed(env: Env, op: Transfer, t: nat, n: nat) {
    forall k: nat :: t <= k < t + n ==> !Hit(env, op, k)
  }

  /** How many of the three tries from time t on fail before one succeeds. */
  function Misses(env: Env, op: Transfer, t: nat): (m: nat)
    ensures m <= TRIES
    ensures Missed(env, op, t, m)
    ensures m < TRIES ==> Hit(env, op, t + m)
  {
    if Hit(env, op, t) then 0 else if Hit(env, op, t + 1) then 1 else if Hit(env, op, t + 2) then 2 else TRIES
  }

  /** The transfers of one retry loop. */
  function Tries(env: Env, op: Transfer, t: nat): (s: seq<Transfer>)
    ensures 1 <= |s| <= TRIES
  {
    var m := Misses(env, op, t);
    seq(if m < TRIES then m + 1 else TRIES, _ => op)
  }

  /** A transfer that must go through, then a flag that must read one. */
  predicate Done(env: Env, op: Transfer, t: nat) {
    && Misses(env, op, t) < TRIES
    && Misses(env, Flag, t + |Tries(env, op, t)|) < TRIES
  }

  function Exchange(env: Env, op: Transfer, t: nat): seq<Transfer> {
    var tries := Tries(env, op, t);
    if Misses(env, op, t) == TRIES then tries else tries + Tries(env, Flag, t + |tries|)
  }

  predicate AllOf(s: seq<Transfer>, op: Transfer) {
    forall k :: 0 <= k < |s| ==> s[k] == op
  }

  /** What an exchange is: three tries in vain, or tries up to the first that succeeds
      and then flag reads up to the first that gives one, three at most. It is done if
      and only if there is such a flag read. */
  lemma ExchangeExactly(env: Env, op: Transfer, t: nat) returns (a: nat)
    ensures a <= TRIES && (forall k: nat :: t <= k < t + a ==> !Hit(env, op, k)) && (a < TRIES ==> Hit(env, op, t + a))
    ensures a == TRIES ==> Exchange(env, op, t) == [op, op, op] && !Done(env, op, t)
    ensures a < TRIES ==>
              var x := Exchange(env, op, t);
              var flags := |x| - a - 1;
              && 1 <= flags <= TRIES && AllOf(x[..a + 1], op) && AllOf(x[a + 1..], Flag)
              && (forall k: nat :: t + a < k < t + a + flags ==> env.flag(k) != 1)
              && (Done(env, op, t) <==> env.flag(t + a + flags) == 1)
              && (flags < TRIES ==> Done(env, op, t))
  {
    a := Misses(env, op, t);
    if a < TRIES {
      var x, b, c := Exchange(env, op, t), Misses(env, Flag, t + a + 1), t + a + 1;
      assert |Tries(env, op, t)| == a + 1;
      var flags := |x| - a - 1;
      assert flags == if b < TRIES then b + 1 else TRIES;
      forall k: nat | c <= k < c + b ensures env.flag(k) != 1 {
        assert !Hit(env, Flag, k);
      }
      assert b < TRIES ==> Hit(env, Flag, c + b);
    }
  }

  function After(env: Env, log: seq<Transfer>, op: Transfer): seq<Transfer> {
    log + Exchange(env, op, |log|)
  }

  predicate Acked(env: Env, log: seq<Transfer>, op: Transfer) {
    Done(env, op, |log|)
  }

  type u32 = w: nat | w < 0x1_0000_0000

  /** The fields of struct led_status that the frames fill, and the two the LED
      class core sees. */
  class Led {
    var light: byte
    var statusData: u32
    var rgb: (byte, byte, byte)
    var time: nat
    var timeLight: nat
    var mode: byte
    var brightness: byte

    predicate Shows(b: Block)
      reads this
    {
      && light == b[1] && rgb == (b[2], b[3], b[4]) && statusData == FromAddr24(b[2], b[3], b[4])
      && time == Word(b[5], b[6]) && timeLight == Word(b[7], b[8])
    }

    method Load(data: array<byte>)
      requires data.Length == BLOCK
      modifies this
      ensures Shows(data[..]) && mode == old(mode) && brightness == old(brightness)
    {
      light := data[1];
      statusData := FromAddr24(data[2], data[3], data[4]);
      rgb := (data[2], data[3], data[4]);
      time := Word(data[5], data[6]);
      timeLight := Word(data[7], data[8]);
    }
  }

  /** The checksum loop over data[from..to]. */
  method SumOf(data: array<byte>, from: nat, to: nat) returns (crcCnt: nat)
    requires from <= to <= data.Length
    ensures crcCnt == Sum(data[from..to])
  {
    crcCnt := 0;
    for i := from to to
      invariant crcCnt == Sum(data[from..i])
    {
      assert data[from..i + 1][..i - from] == data[from..i];
      crcCnt := crcCnt + data[i];
    }
  }

  lemma FrameBytes(status: byte, d: seq<byte>)
    requires |d| == 4
    ensures var b := Frame(status, d);
            && Accepted(b) && b[1] == 1 && b[2] == b[3] == 0 && b[4] == status
            && b[5] == d[0] && b[6] == d[1] && b[7] == d[2] && b[8] == d[3]
  {
    var b := Frame(status, d);
    assert b[..9] == Body(status, d);
    AcceptedExactly(b);
  }

  /** A frame that is read back gives the fields of what was sent: the status in the
      light data, and the payload as the two times. */
  lemma ShowsSent(led: Led, status: byte, d: seq<byte>)
    requires |d| == 4 && led.Shows(Frame(status, d))
    ensures led.light == 1 && led.rgb == (0, 0, status) && led.statusData == status
    ensures led.time == d[0] as nat * 256 + d[1] && led.timeLight == d[2] as nat * 256 + d[3]
  {
    FrameBytes(status, d);
  }

  class Mcu {
    const env: Env
    var log: seq<Transfer>

    constructor (env: Env)
      ensures this.env == env && log == []
    {
      this.env := env;
      log := [];
    }

    method AwaitFlag() returns (ret: int)
      modifies this
      ensures log == old(log) + Tries(env, Flag, |old(log)|)
      ensures if Misses(env, Flag, |old(log)|) < TRIES then ret == 1 else ret == -EBUSY
    {
      var sendCnt := 0;
      while sendCnt < TRIES
        invariant sendCnt <= TRIES && log == old(log) + seq(sendCnt, _ => Flag)
        invariant Missed(env, Flag, |old(log)|, sendCnt)
      {
        ret := env.flag(|log|);
        log := log + [Flag];
        assert Hit(env, Flag, |old(log)| + sendCnt) <==> ret == 1;
        if ret == 1 { return; }
        sendCnt := sendCnt + 1;
      }
      ret := -EBUSY;
    }

    static method FillFrame(select: byte, status: byte, d: seq<byte>) returns (data: array<byte>)
      requires |d| == 4
      ensures fresh(data) && data.Length == 12 && data[0] == select && data[1..] == Frame(status, d)
    {
      data := new byte[12][select, 0xa0, 1, 0, 0, status, d[0], d[1], d[2], d[3], 0, 0];
      ghost var body := Body(status, d);
      assert data[1..10] == body;
      var crcCnt := SumOf(data, 1, 10);
      SumBound(body);
      data[10], data[11] := crcCnt / 256 % 256, crcCnt % 256;
      assert data[1..] == body + [data[10], data[11]];
    }

    method WriteLed(select: byte, status: byte, d: seq<byte>) returns (ret: int)
      requires |d| == 4
      modifies this
      ensures log == After(env, old(log), Send(select, Frame(status, d)))
      ensures ret == if Acked(env, old(log), Send(select, Frame(status, d))) then 1 else -EBUSY
    {
      var data := FillFrame(select, status, d);
      ghost var op := Send(select, Frame(status, d));
      var sendCnt := 0;
      while sendCnt < TRIES
        invariant sendCnt <= TRIES && log == old(log) + seq(sendCnt, _ => op)
        invariant Missed(env, op, |old(log)|, sendCnt)
        invariant data[1..] == Frame(status, d) && data[0] == select
      {
        var sent := env.send(|log|);
        log := log + [Send(data[0], data[1..])];
        assert Hit(env, op, |old(log)| + sendCnt) <==> sent;
        if sent { break; }
        sendCnt := sendCnt + 1;
      }
      if sendCnt >= TRIES { return -EBUSY; }
      ret := AwaitFlag();
    }

    /** Up to three block reads into one buffer, which a short read fills in part. */
    method FetchBlock(select: byte) returns (data: array<byte>, ok: bool)
      modifies this
      ensures var op, t := Fetch(select), |old(log)|;
              && log == old(log) + Tries(env, op, t)
              && ok == (Misses(env, op, t) < TRIES)
              && fresh(data)
              && (ok ==> data[..] == env.block(t + Misses(env, op, t)))
    {
      data := new byte[BLOCK](_ => 0);
      ghost var op := Fetch(select);
      var sendCnt := 0;
      while sendCnt < TRIES
        invariant sendCnt <= TRIES && log == old(log) + seq(sendCnt, _ => op)
        invariant Missed(env, op, |old(log)|, sendCnt)
      {
        var got := env.block(|log|);
        log := log + [Fetch(select)];
        assert Hit(env, op, |old(log)| + sendCnt) <==> |got| == BLOCK;
        forall i | 0 <= i < |got| {
          data[i] := got[i];
        }
        if |got| == BLOCK {
          assert data[..] == got;
          return data, true;
        }
        sendCnt := sendCnt + 1;
      }
      ok := false;
    }

    /** The fields change if and only if a whole block came, the flag then read
        one, and the block passes the sum test. */
    method ReadLed(addr: byte, led: Led) returns (ret: int)
      modifies this, led
      ensures var op, t := Fetch((addr + 0x81) % 256), |old(log)|;
              var b := env.block(t + Misses(env, op, t));
              && log == old(log) + Exchange(env, op, t)
              && if Done(env, op, t) && Accepted(b)
                 then ret == 1 && led.Shows(b) && led.mode == old(led.mode) && led.brightness == old(led.brightness)
                 else ret == -EBUSY && unchanged(led)
    {
      var data, ok := FetchBlock((addr + 0x81) % 256);
      if !ok { return -EBUSY; }
      ret := AwaitFlag();
      if ret != 1 { return -EBUSY; }
      var crcCnt := SumOf(data, 0, BLOCK - 2);
      if crcCnt != Word(data[9], data[10]) { return -EBUSY; }
      led.Load(data);
    }
  }
}
