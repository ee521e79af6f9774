/** leds_blink_set: the trigger decides the mode and the 32-bit timing word that is
    sent, high byte first, to the LED microcontroller. */
module LedBlink {
  import opened Bytes
  import opened LedFrame

  const ULONG: nat := 0x1_0000_0000_0000_0000

  datatype Trigger = Unset | Normal | Breath | Timer2 | Other

  /** Bitwise OR of two naturals. */
  function Or(a: nat, b: nat): nat {
    if a == 0 then b
    else if b == 0 then a
    else 2 * Or(a / 2, b / 2) + (if a % 2 == 1 || b % 2 == 1 then 1 else 0)
  }

  lemma {:induction false} OrBound(n: nat, a: nat, b: nat)
    requires a < Pow2(n) && b < Pow2(n)
    ensures Or(a, b) < Pow2(n)
  {
    if a != 0 && b != 0 {
      OrBound(n - 1, a / 2, b / 2);
    }
  }

  /** What ends up in the high half: the sum keeps its low sixteen bits, and the
      bits of `low` beyond the sixteenth land on top of it. */
  function High(sum: nat, low: nat): (h: nat)
    ensures h < 0x1_0000
  {
    assert Pow2(16) == 0x1_0000 by {
      assert Pow2(12) == 4096;
    }
    OrBound(16, sum % 0x1_0000, low / 0x1_0000 % 0x1_0000);
    Or(sum % 0x1_0000, low / 0x1_0000 % 0x1_0000)
  }

  /** The u32 that `(on + off) << 16` followed by `|= low` leaves. */
  function Pack(sum: nat, low: nat): u32
  {
    High(sum, low) * 0x1_0000 + low % 0x1_0000
  }

  /** The word tells the receiver this period, in its high half, and this part of it. */
  predicate Tells(word: u32, period: nat, part: nat) {
    word == period * 0x1_0000 + part && part < 0x1_0000
  }

  predicate Fits(on: nat, off: nat) {
    on + off < 0x1_0000
  }

  /** The receiver recovers the period and the low time if and only if the period
      fits sixteen bits; `part` is the delay that is packed low. */
  lemma UnpackExactly(on: nat, off: nat, part: nat)
    requires on < ULONG && off < ULONG && (part == on || part == off)
    ensures Tells(Pack((on + off) % ULONG, part), on + off, part) <==> Fits(on, off)
  {
    var sum := (on + off) % ULONG;
    if Fits(on, off) {
      assert sum == on + off;
      assert part / 0x1_0000 == 0;
    }
  }

  /** The four payload bytes, high first. */
  function Bytes4(w: u32): (d: seq<byte>)
    ensures |d| == 4
  {
    [w / 0x100_0000, w / 0x1_0000 % 0x100, w / 0x100 % 0x100, w % 0x100]
  }

  function Word4(d: seq<byte>): u32
    requires |d| == 4
  {
    d[0] * 0x100_0000 + FromAddr24(d[1], d[2], d[3])
  }

  lemma Bytes4RoundTrip(w: u32)
    ensures Word4(Bytes4(w)) == w
  {
    assert w == w / 0x100_0000 * 0x100_0000 + w % 0x100_0000;
    assert w / 0x1_0000 % 0x100 * 0x1_0000 + w % 0x1_0000 == w % 0x100_0000;
    assert w / 0x100 % 0x100 * 0x100 + w % 0x100 == w % 0x1_0000;
  }

  /** The payload of a blink frame is the timing word, so a receiver that checks the
      sum and unpacks the payload learns the period and its part if and only if
      the period fits sixteen bits. */
  lemma ReceiverLearnsTiming(mode: byte, on: nat, off: nat, part: nat)
    requires on < ULONG && off < ULONG && (part == on || part == off)
    ensures var b := Frame(mode, Bytes4(Pack((on + off) % ULONG, part)));
            && Accepted(b) && b[4] == mode
            && (Tells(Word4(b[5..9]), on + off, part) <==> Fits(on, off))
  {
    var w := Pack((on + off) % ULONG, part);
    var b := Frame(mode, Bytes4(w));
    assert b[..9] == Body(mode, Bytes4(w));
    AcceptedExactly(b);
    assert b[5..9] == Bytes4(w);
    Bytes4RoundTrip(w);
    UnpackExactly(on, off, part);
  }

  /** The delays a trigger leaves in the caller's variables. */
  function Delays(trigger: Trigger, on: nat, off: nat): (nat, nat) {
    match trigger
    case Normal => (0, 0)
    case Breath => (if on < 1000 then 1000 else on, if off < 500 then 500 else off)
    case _ => (on, off)
  }

  function BlinkFrame(addr: byte, mode: byte, word: u32): Transfer {
    Send(addr, Frame(mode, Bytes4(word)))
  }

  const SWITCH_ON: seq<byte> := [0xFF, 0, 0, 0]

  function SwitchOn(addr: byte): Transfer {
    Send(addr, Frame(MODE_SWITCH, SWITCH_ON))
  }

  /** What a trigger makes of the LED's mode and timing word: a word that tells the
      receiver the period exactly when the period fits sixteen bits. */
  predicate TimingSet(led: Led, trigger: Trigger, on: nat, off: nat, on': nat, off': nat)
    reads led
  {
    && (on', off') == Delays(trigger, on, off)
    && match trigger
       case Normal => led.mode == MODE_LIGHT && led.statusData == 0
       case Breath =>
         && led.mode == MODE_BREATH && led.brightness == led.light && led.statusData == Pack((on' + off') % ULONG, on')
         && (Tells(led.statusData, on' + off', on') <==> Fits(on', off'))
       case Timer2 =>
         && led.mode == MODE_BLINK
         && led.statusData == (if on == 0 || off == 0 then 0 else Pack((on + off) % ULONG, off))
         && (on > 0 && off > 0 ==> (Tells(led.statusData, on + off, off) <==> Fits(on, off)))
       case _ => true
  }

  /** The fields that a trigger sets before anything is sent. */
  method SetTiming(led: Led, trigger: Trigger, on: nat, off: nat) returns (on': nat, off': nat)
    requires on < ULONG && off < ULONG
    modifies led
    ensures TimingSet(led, trigger, on, off, on', off')
    ensures trigger.Unset? || trigger.Other? ==> unchanged(led)
  {
    on', off' := on, off;
    match trigger {
      case Normal =>
        led.mode := MODE_LIGHT;
        led.statusData := 0;
        on', off' := 0, 0;
      case Breath =>
        led.mode := MODE_BREATH;
        if off' < 500 { off' := 500; }
        if on' < 1000 { on' := 1000; }
        UnpackExactly(on', off', on');
        led.statusData := Pack((on' + off') % ULONG, on');
        led.brightness := led.light;
      case Timer2 =>
        led.mode := MODE_BLINK;
        if on == 0 || off == 0 {
          led.statusData := 0;
        } else {
          UnpackExactly(on, off, off);
          led.statusData := Pack((on + off) % ULONG, off);
        }
      case _ =>
    }
  }

  /** What the receiver of a blink frame is told by its bytes: the mode, and in the payload
      the period and the light or dark time, when the period fits sixteen bits. A breath
      is never told a shorter light time than a second, nor a dark time below half of one. */
  predicate Told(b: Block, trigger: Trigger, on: nat, off: nat, on': nat, off': nat) {
    var word := Word4(b[5..9]);
    && Accepted(b)
    && match trigger
       case Normal => b[4] == 1 && word == 0 && on' == 0 && off' == 0
       case Breath =>
         && b[4] == 5 && on' >= 1000 && off' >= 500
         && (on >= 1000 ==> on' == on) && (on < 1000 ==> on' == 1000)
         && (off >= 500 ==> off' == off) && (off < 500 ==> off' == 500)
         && (on' + off' < 0x1_0000 ==> Tells(word, on' + off', on'))
       case Timer2 =>
         && b[4] == 4 && on' == on && off' == off
         && (on == 0 || off == 0 ==> word == 0)
         && (on > 0 && off > 0 && on + off < 0x1_0000 ==> Tells(word, on + off, off))
       case _ => on' == on && off' == off
  }

  lemma PayloadWord(mode: byte, w: u32)
    ensures var b := Frame(mode, Bytes4(w)); Accepted(b) && b[4] == mode && Word4(b[5..9]) == w
  {
    FrameBytes(mode, Bytes4(w));
    var b := Frame(mode, Bytes4(w));
    assert b[5..9] == Bytes4(w);
    Bytes4RoundTrip(w);
  }

  lemma TimingIsTold(led: Led, trigger: Trigger, on: nat, off: nat, on': nat, off': nat)
    requires TimingSet(led, trigger, on, off, on', off')
    ensures Told(Frame(led.mode, Bytes4(led.statusData)), trigger, on, off, on', off')
  {
    PayloadWord(led.mode, led.statusData);
  }

  /** The transfers of one call: "normal" first sends a switch-on frame, and when that is
      not acknowledged the second frame is never tried. */
  predicate Transferred(env: Env, log: seq<Transfer>, addr: byte, trigger: Trigger, mode: byte, word: u32,
                        log': seq<Transfer>, ret: int) {
    var op := BlinkFrame(addr, mode, word);
    if trigger.Normal? && !Acked(env, log, SwitchOn(addr)) then log' == After(env, log, SwitchOn(addr)) && ret == -EBUSY
    else
      var before := if trigger.Normal? then After(env, log, SwitchOn(addr)) else log;
      log' == After(env, before, op) && ret == if Acked(env, before, op) then 0 else -EBUSY
  }

  method SendTiming(mcu: Mcu, led: Led, addr: byte, trigger: Trigger) returns (ret: int)
    modifies mcu
    ensures Transferred(mcu.env, old(mcu.log), addr, trigger, led.mode, led.statusData, mcu.log, ret)
  {
    if trigger.Normal? {
      ret := mcu.WriteLed(addr, MODE_SWITCH, SWITCH_ON);
      if ret < 0 { return -EBUSY; }
    }
    ret := mcu.WriteLed(addr, led.mode, Bytes4(led.statusData));
    ret := if ret < 0 then -EBUSY else 0;
  }

  /** leds_blink_set */
  method BlinkSet(mcu: Mcu, led: Led, addr: byte, trigger: Trigger, on: nat, off: nat)
    returns (ret: int, on': nat, off': nat)
    requires on < ULONG && off < ULONG
    modifies mcu, led
    ensures trigger.Unset? ==> ret == -EINVAL && unchanged(mcu) && unchanged(led) && (on', off') == (on, off)
    ensures !trigger.Unset? ==>
              && TimingSet(led, trigger, on, off, on', off')
              && Told(Frame(led.mode, Bytes4(led.statusData)), trigger, on, off, on', off')
              && (trigger.Other? ==> unchanged(led))
              && Transferred(mcu.env, old(mcu.log), addr, trigger, led.mode, led.statusData, mcu.log, ret)
  {
    on', off' := on, off;
    if trigger.Unset? { return -EINVAL, on, off; }
    on', off' := SetTiming(led, trigger, on, off);
    TimingIsTold(led, trigger, on, off, on', off');
    ret := SendTiming(mcu, led, addr, trigger);
  }
}
