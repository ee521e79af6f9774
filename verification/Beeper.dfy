/** The beeper: commands arm a timer whose handler gives timed pulses, a counted
    number of them or without end. Times are milliseconds. */
module Beeper {
  import opened Bytes

  const ONE_PULSE: nat := 200
  const START_DELAY: nat := 100
  const MIN_DELAY: nat := 20
  const MAX_DELAY: nat := 99999
  const INT_RANGE: nat := 0x1_0000_0000
  const INT_MIN: int := -0x8000_0000
  const INT_END: int := 0x8000_0000
  const LONG_RANGE: int := 0x1_0000_0000_0000_0000

  /** A 32-bit counter after wrap-around. */
  function Wrap(x: int): (r: int)
    ensures INT_MIN <= r < INT_END
  {
    (x - INT_MIN) % INT_RANGE + INT_MIN
  }

  /** A 32-bit int converted to unsigned long. */
  function AsUnsignedLong(x: int): int {
    if x < 0 then x + LONG_RANGE else x
  }

  datatype Command =
    | On
    | Off
    | One
    | Timer(off: nat, on: nat)
    | Rep(n: nat, off: nat, on: nat)
    | Malformed

  /** `timer` and `offWork` hold the due times of the timer and of the delayed work
      that switches a pulse off; `count` is the handler's static counter. */
  datatype State = State(
    now: nat,
    timer: Option<nat>,
    status: nat,
    delayOff: nat,
    delayOn: nat,
    target: nat,
    count: int,
    beeping: bool,
    offWork: Option<nat>)

  const LOADED: State := State(0, None, 0, 0, 0, 0, 0, false, None)

  datatype Input = Fire | OffDue | Write(cmd: Command, time: nat)

  function Later(a: nat, b: nat): nat {
    if a < b then b else a
  }

  /** set_beeper(2, delay): on now, off later; work that is queued stays as it is. */
  function Pulse(s: State, delay: nat): State {
    s.(beeping := true, offWork := if s.offWork.Some? then s.offWork else Some(s.now + delay))
  }

  predicate InRange(d: nat) {
    MIN_DELAY <= d <= MAX_DELAY
  }

  function Started(s: State): State {
    if s.status == 0 then s.(timer := Some(s.now + START_DELAY), status := 1) else s
  }

  function Stopped(s: State): State {
    s.(timer := None, status := 0)
  }

  function Commanded(s: State, cmd: Command): State {
    match cmd
    case On => Stopped(s).(beeping := true)
    case Off => Stopped(s).(beeping := false)
    case One => Pulse(Stopped(s), ONE_PULSE)
    case Timer(off, on) =>
      if InRange(off) && InRange(on) then Started(s.(delayOff := off, delayOn := on)) else s
    case Rep(n, off, on) =>
      if InRange(off) && InRange(on) then Started(s.(delayOff := off, delayOn := on, target := n % LONG_RANGE)) else s
    case Malformed => s
  }

  function Fired(s: State): State {
    var s1 := if s.delayOn < 1 || s.delayOff < 1 then s.(delayOn := 500, delayOff := 2000) else s;
    var s2 := Pulse(s1, s1.delayOn).(timer := Some(s1.now + s1.delayOff + s1.delayOn));
    if s2.target == 0 then s2
    else
      var n := Wrap(s2.count + 1);
      if s2.target == AsUnsignedLong(n) then Stopped(s2).(count := 0) else s2.(count := n)
  }

  function Step(s: State, input: Input): State {
    match input
    case Fire => if s.timer.Some? then Fired(s.(now := Later(s.now, s.timer.value))) else s
    case OffDue =>
      if s.offWork.Some? then s.(now := Later(s.now, s.offWork.value), beeping := false, offWork := None) else s
    case Write(cmd, time) => Commanded(s.(now := Later(s.now, time)), cmd)
  }

  predicate Inv(s: State) {
    && (s.status == 1 <==> s.timer.Some?)
    && s.status <= 1
    && (s.timer.Some? ==> InRange(s.delayOff) && InRange(s.delayOn))
    && INT_MIN <= s.count < INT_END
    && s.target < LONG_RANGE
  }

  class BeeperDevice {
    var now: nat
    var timer: Option<nat>
    var timerStatus: nat
    var delayOff: nat
    var delayOn: nat
    var gCount: nat
    var count: int
    var beeping: bool
    var offWork: Option<nat>

    ghost function Now(): State
      reads this
    {
      State(now, timer, timerStatus, delayOff, delayOn, gCount, count, beeping, offWork)
    }

    /** sataio_beep_init */
    constructor ()
      ensures Now() == LOADED
    {
      now, timer, timerStatus, delayOff, delayOn := 0, None, 0, 0, 0;
      gCount, count, beeping, offWork := 0, 0, false, None;
    }

    /** set_beeper */
    method SetBeeper(dat: nat, delay: nat)
      modifies this`beeping, this`offWork
      ensures dat == 0 ==> Now() == old(Now()).(beeping := false)
      ensures dat == 1 ==> Now() == old(Now()).(beeping := true)
      ensures dat == 2 ==> Now() == Pulse(old(Now()), delay)
    {
      if dat == 0 {
        beeping := false;
      } else if dat == 1 {
        beeping := true;
      } else if dat == 2 {
        beeping := true;
        if offWork.None? {
          offWork := Some(now + delay);
        }
      }
    }

    /** add_timer: the kernel stops the machine if the timer is already pending. */
    method AddTimer(expires: nat)
      requires timer.None?
      modifies this`timer
      ensures timer == Some(expires)
    {
      timer := Some(expires);
    }

    /** beeperTimerHandle, run when the timer expires */
    method TimerHandle()
      requires timer.Some?
      modifies this
      ensures Now() == Step(old(Now()), Fire)
    {
      now := Later(now, timer.value);
      timer := None;
      if delayOn < 1 || delayOff < 1 {
        delayOn := 500;
        delayOff := 2000;
      }
      SetBeeper(2, delayOn);
      timer := Some(now + delayOff + delayOn);
      if gCount != 0 {
        count := Wrap(count + 1);
        if gCount == AsUnsignedLong(count) {
          timer := None;
          timerStatus := 0;
          count := 0;
        }
      }
    }

    /** beeper_delay_work_func */
    method DelayWork()
      requires offWork.Some?
      modifies this
      ensures Now() == Step(old(Now()), OffDue)
    {
      now := Later(now, offWork.value);
      offWork := None;
      beeping := false;
    }

    /** The command branches of beeper_write. AddTimer's precondition is where the
        status flag has to tell the truth about the timer. */
    method BeeperWrite(cmd: Command, time: nat) returns (ok: bool)
      requires Inv(Now())
      modifies this
      ensures Now() == Step(old(Now()), Write(cmd, time)) && Inv(Now())
      ensures ok <==> match cmd
                      case Timer(off, on) => InRange(off) && InRange(on)
                      case Rep(n, off, on) => InRange(off) && InRange(on)
                      case Malformed => false
                      case _ => true
      ensures !ok ==> Now() == old(Now()).(now := Later(old(now), time))
    {
      now := Later(now, time);
      ok := true;
      match cmd
      case On =>
        timer := None;
        timerStatus := 0;
        SetBeeper(1, 0);
      case Off =>
        timer := None;
        timerStatus := 0;
        SetBeeper(0, 0);
      case One =>
        timer := None;
        timerStatus := 0;
        SetBeeper(2, ONE_PULSE);
      case Timer(off, on) =>
        if off < 20 || off > 99999 || on < 20 || on > 99999 {
          return false;
        }
        delayOff := off;
        delayOn := on;
        if timerStatus == 0 {
          AddTimer(now + START_DELAY);
          timerStatus := 1;
        }
      case Rep(n, off, on) =>
        if off < 20 || off > 99999 || on < 20 || on > 99999 {
          return false;
        }
        delayOff := off;
        delayOn := on;
        gCount := n % LONG_RANGE;
        if timerStatus == 0 {
          AddTimer(now + START_DELAY);
          timerStatus := 1;
        }
      case Malformed =>
        ok := false;
    }
  }
}
