/** The touch driver: frames become multi-touch slots, and interrupt delivery is
    switched by suspend, resume, resets and firmware loading. */
module TouchScreen {
  import opened Bytes
  import opened TouchFrame

  // Meaning of a frame ----------------------------------------------------------

  /** The last thing a frame says about an id. */
  function LastFor(es: seq<Event>, id: nat): (r: Option<Event>)
    ensures r.Some? ==> r.value in es && r.value.id == id
    ensures r.None? <==> forall e :: e in es ==> e.id != id
  {
    if es == [] then None
    else if es[|es| - 1].id == id then Some(es[|es| - 1])
    else LastFor(es[..|es| - 1], id)
  }

  /** The frame leaves a finger on this id. */
  predicate EndsDown(es: seq<Event>, id: nat) {
    LastFor(es, id).Some? && Down(LastFor(es, id).value)
  }

  /** The ids a frame puts down at any point. */
  function Downs(es: seq<Event>): (s: set<nat>)
    ensures forall id :: id in s <==> exists e :: e in es && e.id == id && Down(e)
  {
    set e | e in es && Down(e) :: e.id
  }

  function Fingers(es: seq<Event>): (s: set<nat>)
    ensures forall id :: id in s <==> EndsDown(es, id)
  {
    set e | e in es && EndsDown(es, e.id) :: e.id
  }

  /** What the input core stores for a finger; a zero pressure or area is replaced. */
  datatype Slot = Slot(active: bool, x: nat, y: nat, pressure: nat, major: nat)

  function Contact(e: Event): Slot {
    Slot(true, e.x, e.y, if e.weight == 0 then 0x3f else e.weight, if e.area == 0 then 0x09 else e.area)
  }

  lemma LastForAppend(es: seq<Event>, k: nat, id: nat)
    requires k < |es|
    ensures LastFor(es[..k + 1], id) == if es[k].id == id then Some(es[k]) else LastFor(es[..k], id)
  {
    assert es[..k + 1][..k] == es[..k];
  }

  lemma {:induction false} LastForAt(es: seq<Event>, k: nat)
    requires k < |es| && forall j :: k < j < |es| ==> es[j].id != es[k].id
    ensures LastFor(es, es[k].id) == Some(es[k])
  {
    if k + 1 < |es| {
      LastForAt(es[..|es| - 1], k);
    }
  }

  // The bytes of a frame ------------------------------------------------------------

  /** The id that point k names. */
  function IdOf(s: seq<byte>, k: nat): nat
    requires 6 * k + 8 <= |s|
  {
    s[4 + 6 * k] / 16
  }

  /** No later point of n names the id of point k. */
  predicate LastOfItsId(s: seq<byte>, k: nat, n: nat)
    requires k < n && 6 * n + 2 <= |s|
  {
    forall j: nat :: k < j < n ==> IdOf(s, j) != IdOf(s, k)
  }

  /** The slot holds what the six bytes of point k say, with the values reported in the
      place of a pressure or an area of zero. */
  predicate HoldsPoint(slot: Slot, s: seq<byte>, k: nat)
    requires 6 * k + 8 <= |s|
  {
    var xHigh: nat, yHigh: nat := s[2 + 6 * k] % 16, s[4 + 6 * k] % 16;
    && slot.active
    && slot.x == 256 * xHigh + s[3 + 6 * k]
    && slot.y == 256 * yHigh + s[5 + 6 * k]
    && slot.pressure == (if s[6 + 6 * k] == 0 then 0x3f else s[6 + 6 * k])
    && slot.major == (if s[7 + 6 * k] / 16 == 0 then 9 else s[7 + 6 * k] / 16)
  }

  /** Point k, the last of its id, is what its slot shows: its flag says down or in
      contact, or the slot is free. */
  predicate PointShown(slots: seq<Slot>, s: seq<byte>, k: nat)
    requires 6 * k + 8 <= |s|
  {
    && IdOf(s, k) < |slots|
    && var flag := s[2 + 6 * k] / 64;
       if flag == 0 || flag == 2 then HoldsPoint(slots[IdOf(s, k)], s, k) else !slots[IdOf(s, k)].active
  }

  /** The slots are those of the n points of a frame: for each id its last point, and
      nothing else. */
  ghost predicate ShownInBytes(slots: seq<Slot>, s: seq<byte>, n: nat)
    requires 6 * n + 2 <= |s|
  {
    && (forall k: nat :: k < n && LastOfItsId(s, k, n) ==> PointShown(slots, s, k))
    && (forall id: nat :: id < |slots| && slots[id].active ==> exists k: nat :: k < n && IdOf(s, k) == id)
  }

  lemma ShownPoint(slots: seq<Slot>, s: seq<byte>, k: nat)
    requires 6 * k + 8 <= |s| && IdOf(s, k) < |slots|
    requires var e, slot := EventAt(s, k), slots[IdOf(s, k)];
             (slot.active <==> Down(e)) && (Down(e) ==> slot == Contact(e))
    ensures PointShown(slots, s, k)
  {
  }

  lemma ShownBytes(slots: seq<Slot>, es: seq<Event>, s: seq<byte>)
    requires 6 * |es| + 2 <= |s|
    requires forall i: nat :: i < |es| ==> es[i] == EventAt(s, i)
    requires forall i: nat :: i < |es| ==> es[i].id < |slots|
    requires forall id: nat :: id < |slots| ==>
               && (slots[id].active <==> EndsDown(es, id))
               && (EndsDown(es, id) ==> slots[id] == Contact(LastFor(es, id).value))
    ensures ShownInBytes(slots, s, |es|)
  {
    assert forall k: nat :: k < |es| ==> es[k].id == IdOf(s, k);
    forall k: nat | k < |es| && LastOfItsId(s, k, |es|) ensures PointShown(slots, s, k) {
      forall j: nat | k < j < |es| ensures es[j].id != es[k].id {
        assert IdOf(s, j) != IdOf(s, k);
      }
      LastForAt(es, k);
      ShownPoint(slots, s, k);
    }
    forall id: nat | id < |slots| && slots[id].active
      ensures exists k: nat :: k < |es| && IdOf(s, k) == id
    {
      var e := LastFor(es, id).value;
      var k: nat :| k < |es| && es[k] == e;
      assert IdOf(s, k) == id;
    }
  }

  lemma DownsAppend(es: seq<Event>, k: nat)
    requires k < |es|
    ensures Downs(es[..k + 1]) == Downs(es[..k]) + if Down(es[k]) then {es[k].id} else {}
  {
    assert es[..k + 1] == es[..k] + [es[k]];
  }

  function Prepend(done: seq<Event>, r: Option<seq<Event>>): Option<seq<Event>> {
    match r
    case None => None
    case Some(rest) => Some(done + rest)
  }

  lemma PrependMore(done: seq<Event>, e: Event, r: Option<seq<Event>>)
    ensures Prepend(done, Prepend([e], r)) == Prepend(done + [e], r)
  {
    if r.Some? {
      assert done + ([e] + r.value) == done + [e] + r.value;
    }
  }

  // State ------------------------------------------------------------------------

  /** The switches of interrupt delivery, whether the two periodic work items are
      queued, the ESD switch that user space can turn, and whether a firmware load is
      between its beginning and its end. */
  datatype Switches = Switches(
    irqDisabled: bool,
    irqDepth: nat,
    suspended: bool,
    loading: bool,
    esdQueued: bool,
    penQueued: bool,
    hostEnable: bool,
    running: bool)

  /** What outlives a call: the bit set of touched ids, the slots the input core
      holds active, BTN_TOUCH, the half seconds since the last interrupt, and the
      switches. */
  datatype State = State(
    touchs: set<nat>,
    active: set<nat>,
    button: bool,
    interval: nat,
    sw: Switches)

  /** After probe: the work items that are compiled in are queued. */
  function Boot(p: Panel): State {
    State({}, {}, false, 0, Switches(false, 0, false, false, p.esdCheck, p.penCheck, p.esdCheck, false))
  }

  /** The line is masked once or not at all, as the flag says, and only while suspended
      or loading; a suspended device has no work queued. */
  predicate SwitchInv(w: Switches) {
    && (if w.irqDisabled then w.irqDepth == 1 else w.irqDepth == 0)
    && (w.irqDisabled ==> w.suspended || w.loading)
    && (w.running ==> w.loading)
    && (w.suspended ==> !w.esdQueued && !w.penQueued)
  }

  ghost predicate Inv(p: Panel, s: State) {
    && s.active <= s.touchs
    && (forall id :: id in s.touchs ==> id < p.maxTouch)
    && (s.button <==> s.touchs != {})
    && SwitchInv(s.sw)
  }

  function Released(s: State): State {
    s.(touchs := {}, active := {}, button := false)
  }

  function Masked(w: Switches): Switches {
    if w.irqDisabled then w else w.(irqDisabled := true, irqDepth := w.irqDepth + 1)
  }

  function Unmasked(w: Switches): Switches {
    if w.irqDisabled then w.(irqDisabled := false, irqDepth := if w.irqDepth > 0 then w.irqDepth - 1 else 0) else w
  }

  /** axs_reset_and_lcd_init masks and unmasks: whatever was masked before, ends open. */
  function AfterLcdInit(w: Switches): Switches {
    Unmasked(Masked(w))
  }

  /** How a firmware load from user space can end. */
  datatype LoadOutcome = NoFile | NoMemory | BadSize | SelectFailed | Ran

  /** EsdReset is a tick of the ESD check that decides to reset. LoadBegin carries
      whether the loader could be set up at all; a suspend or resume may come before
      the LoadEnd that belongs to it. */
  datatype Input =
    | Interrupt(frame: Option<seq<byte>>)
    | PenTick
    | EsdReset
    | SetHostEnable(on: bool)
    | Suspend
    | Resume
    | LoadBegin(ready: bool)
    | LoadEnd(outcome: LoadOutcome)

  predicate WellSized(p: Panel, frame: Option<seq<byte>>) {
    frame.Some? ==> |frame.value| == p.bufSize
  }

  function Reported(s: State, es: seq<Event>): State {
    s.(touchs := Downs(es), active := Fingers(es), button := Downs(es) != {})
  }

  /** What the driver makes of an interrupt; a frame that does not come says nothing. */
  function Reading(p: Panel, frame: Option<seq<byte>>): Report
    requires ValidPanel(p)
  {
    if frame.None? || !WellSized(p, frame) then Rejected else Parse(p, frame.value)
  }

  function Handled(p: Panel, s: State, r: Report): State {
    match r
    case Rejected => s
    case Touches(es) => Reported(s, es)
    case Gesture(code) =>
      if p.esdCheck && s.sw.hostEnable && IsException(code) then Released(s).(sw := AfterLcdInit(s.sw)) else s
  }

  function AfterLoad(w: Switches, outcome: LoadOutcome): Switches {
    match outcome
    case NoFile => w
    case NoMemory => w
    case BadSize => Unmasked(w).(loading := false)
    case SelectFailed => Unmasked(w).(loading := false)
    case Ran => Unmasked(AfterLcdInit(w)).(loading := false)
  }

  predicate Resets(w: Switches) {
    w.esdQueued && !w.loading && w.hostEnable
  }

  predicate Suspends(w: Switches) {
    !w.suspended && !w.loading
  }

  /** What an input other than an interrupt does to the switches. A work item runs only
      while queued, and queues itself again; loads do not overlap. */
  function SwitchStep(p: Panel, w: Switches, input: Input): Switches {
    match input
    case Interrupt(_) => w
    case PenTick => w
    case EsdReset => if Resets(w) then AfterLcdInit(w) else w
    case SetHostEnable(on) => w.(hostEnable := on)
    case Suspend =>
      if w.suspended then w
      else
        var w' := w.(esdQueued := false, penQueued := false);
        if w.loading then w' else Masked(w').(suspended := true)
    case Resume =>
      if !w.suspended then w
      else Unmasked(w).(suspended := false, esdQueued := p.esdCheck, penQueued := p.penCheck)
    case LoadBegin(ready) =>
      if !ready || w.running then w else Masked(w.(loading := true, running := true))
    case LoadEnd(outcome) =>
      if !w.running then w else AfterLoad(w.(running := false), outcome)
  }

  /** The time-out sweep. */
  function Swept(s: State): State {
    var s' := if s.interval <= 10 then s.(interval := s.interval + 1) else s;
    if s'.interval >= 2 && s'.touchs != {} then
      s'.(active := s'.active - s'.touchs, touchs := {}, button := false)
    else s'
  }

  /** One atomic step. An interrupt is not delivered while the line is masked and is
      dropped while firmware is loading. */
  function Step(p: Panel, s: State, input: Input): State
    requires ValidPanel(p)
  {
    if input.Interrupt? then
      if s.sw.irqDepth > 0 || s.sw.loading then s else Handled(p, s.(interval := 0), Reading(p, input.frame))
    else
      var s' := s.(sw := SwitchStep(p, s.sw, input));
      match input
      case PenTick => if s.sw.penQueued then Swept(s) else s
      case EsdReset => if Resets(s.sw) then Released(s') else s
      case Suspend => if Suspends(s.sw) then Released(s') else s'
      case Resume => if s.sw.suspended then Released(s') else s
      case _ => s'
  }

  class TouchScreen {
    const panel: Panel
    var pointBuf: array<byte>
    var events: array<Event>
    var touchPoint: nat
    var touchs: set<nat>
    var slots: seq<Slot>
    var slot: nat
    var button: bool
    var irqDisabled: bool
    var irqDepth: nat
    var suspended: bool
    var loading: bool
    var interval: nat
    var esdQueued: bool
    var penQueued: bool
    var hostEnable: bool
    var running: bool

    ghost predicate Valid()
      reads this
    {
      && ValidPanel(panel)
      && pointBuf.Length == panel.bufSize && events.Length == panel.maxTouch
      && |slots| == panel.maxTouch
      && touchPoint <= panel.maxTouch
      && (forall id :: id in touchs ==> id < panel.maxTouch)
    }

    ghost function Active(): set<nat>
      reads this
    {
      set i: nat | i < |slots| && slots[i].active
    }

    ghost function Now(): State
      reads this
    {
      State(touchs, Active(), button, interval, Sw())
    }

    ghost function Sw(): Switches
      reads this`irqDisabled, this`irqDepth, this`suspended, this`loading
      reads this`esdQueued, this`penQueued, this`hostEnable, this`running
    {
      Switches(irqDisabled, irqDepth, suspended, loading, esdQueued, penQueued, hostEnable, running)
    }

    constructor (panel: Panel)
      requires ValidPanel(panel)
      ensures Valid() && this.panel == panel && Now() == Boot(panel) && fresh(pointBuf) && fresh(events)
    {
      this.panel := panel;
      pointBuf := new byte[panel.bufSize](_ => 0);
      events := new Event[panel.maxTouch](_ => Event(0, 0, 0, 0, 0, 0));
      touchPoint, touchs, slots, slot := 0, {}, seq(panel.maxTouch, _ => Slot(false, 0, 0, 0, 0)), 0;
      button, irqDisabled, irqDepth, suspended, loading, interval := false, false, 0, false, false, 0;
      esdQueued, penQueued, hostEnable, running := panel.esdCheck, panel.penCheck, panel.esdCheck, false;
    }

    // The input core -----------------------------------------------------------

    /** input_mt_slot then input_mt_report_slot_state(false) */
    method LiftSlot(id: nat)
      requires Valid() && id < panel.maxTouch
      modifies this`slot, this`slots
      ensures Valid() && slots == old(slots)[id := old(slots[id]).(active := false)]
    {
      slot := id;
      slots := slots[slot := slots[slot].(active := false)];
    }

    /** input_mt_slot, input_mt_report_slot_state(true) and the axes of the event */
    method TouchSlot(e: Event)
      requires Valid() && e.id < panel.maxTouch
      modifies this`slot, this`slots
      ensures Valid() && slots == old(slots)[e.id := Contact(e)]
    {
      slot := e.id;
      slots := slots[slot := slots[slot].(active := true)];
      slots := slots[slot := slots[slot].(pressure := if e.weight == 0 then 0x3f else e.weight)];
      slots := slots[slot := slots[slot].(major := if e.area == 0 then 0x09 else e.area)];
      slots := slots[slot := slots[slot].(x := e.x)];
      slots := slots[slot := slots[slot].(y := e.y)];
    }

    // Reading a frame ------------------------------------------------------------

    /** axs_read_touchdata; None is a bus error, which leaves the buffer filled with 0xFF. */
    method ReadTouchData(frame: Option<seq<byte>>) returns (ret: int)
      requires Valid() && (frame.Some? ==> |frame.value| == panel.bufSize)
      modifies pointBuf
      ensures ret < 0 || ret == 0
      ensures frame.Some? ==> pointBuf[..] == frame.value
      ensures ret == 0 <==> frame.Some? && ChecksumOk(frame.value)
    {
      forall i | 0 <= i < pointBuf.Length {
        pointBuf[i] := 0xFF;
      }
      if frame.None? {
        return -5;
      }
      forall i | 0 <= i < pointBuf.Length {
        pointBuf[i] := frame.value[i];
      }
      assert pointBuf[..] == frame.value;
      var crcSum: byte := 0;
      var i := 0;
      while i < panel.bufSize - 1
        invariant 0 <= i <= panel.bufSize - 1
        invariant crcSum == Checksum(pointBuf[..i])
      {
        assert pointBuf[..i + 1][..i] == pointBuf[..i];
        crcSum := (crcSum + pointBuf[i]) % 256;
        i := i + 1;
      }
      assert pointBuf[..i] == frame.value[..i];
      if crcSum != pointBuf[panel.bufSize - 1] {
        return -1;
      }
      return 0;
    }

    /** The fields of the i-th point, from the buffer into events[i]. */
    method StorePoint(i: nat, ghost s: seq<byte>)
      requires Valid() && i < panel.maxTouch && pointBuf[..] == s
      modifies events
      ensures events[i] == EventAt(s, i)
      ensures forall j :: 0 <= j < events.Length && j != i ==> events[j] == old(events[j])
    {
      var buf, base := pointBuf, POINT_LEN * i;
      assert forall j :: 0 <= j < buf.Length ==> buf[j] == s[j];
      events[i] := Event(
        Coordinate(buf[X_H_POS + base], buf[X_L_POS + base]),
        Coordinate(buf[Y_H_POS + base], buf[Y_L_POS + base]),
        buf[WEIGHT_POS + base],
        buf[X_H_POS + base] / 64,
        buf[Y_H_POS + base] / 16,
        buf[AREA_POS + base] / 16);
    }

    /** The loop over the points of a checked frame. */
    method ReadPoints(pointNum: nat, ghost s: seq<byte>) returns (ok: bool)
      requires Valid() && pointNum <= panel.maxTouch && pointBuf[..] == s && touchPoint == 0
      modifies this`touchPoint, events
      ensures Valid()
      ensures ok <==> Scan(panel, s, 0, pointNum).Some?
      ensures ok ==> Scan(panel, s, 0, pointNum) == Some(events[..touchPoint])
    {
      var buf := pointBuf;
      assert Scan(panel, s, 0, pointNum).Some? ==>
             events[..0] + Scan(panel, s, 0, pointNum).value == Scan(panel, s, 0, pointNum).value;
      var i := 0;
      while i < pointNum
        invariant Valid() && 0 <= i <= pointNum && touchPoint == i && pointBuf == buf && buf[..] == s
        invariant Scan(panel, s, 0, pointNum) == Prepend(events[..i], Scan(panel, s, i, pointNum))
      {
        var pointId := buf[Y_H_POS + POINT_LEN * i] / 16;
        assert buf[Y_H_POS + POINT_LEN * i] == s[Y_H_POS + POINT_LEN * i];
        assert pointId == IdAt(s, i);
        if pointId >= MAX_ID {
          break;
        } else if pointId >= panel.maxTouch {
          return false;
        }
        ghost var done := events[..i];
        touchPoint := touchPoint + 1;
        StorePoint(i, s);
        assert events[..i + 1] == done + [EventAt(s, i)];
        PrependMore(done, EventAt(s, i), Scan(panel, s, i + 1, pointNum));
        i := i + 1;
      }
      assert events[..touchPoint] + [] == events[..touchPoint];
      return true;
    }

    /** axs_read_parse_touchdata */
    method ReadParse(frame: Option<seq<byte>>) returns (ret: int)
      requires Valid() && (frame.Some? ==> |frame.value| == panel.bufSize)
      modifies this`touchPoint, pointBuf, events
      ensures Valid()
      ensures ret < 0 <==> frame.None? || Parse(panel, frame.value) == Rejected
      ensures ret > 0 <==> frame.Some? && Parse(panel, frame.value).Gesture?
      ensures ret > 0 ==> Parse(panel, frame.value).code == ret
      ensures ret == 0 <==> frame.Some? && Parse(panel, frame.value).Touches?
      ensures ret == 0 ==> Parse(panel, frame.value) == Touches(events[..touchPoint])
    {
      ret := ReadTouchData(frame);
      if ret < 0 {
        return;
      }
      var buf := pointBuf;
      ghost var s := frame.value;
      assert buf[GESTURE_POS] == s[GESTURE_POS] && buf[POINT_NUM] == s[POINT_NUM];
      if buf[GESTURE_POS] != 0 {
        return buf[GESTURE_POS];
      }
      var pointNum := buf[POINT_NUM] % 16;
      touchPoint := 0;
      if panel.esdCheck && buf[POINT_NUM] / 16 != 0 {
        return -1;
      }
      if pointNum > panel.maxTouch {
        pointNum := panel.maxTouch;
      }
      var ok := ReadPoints(pointNum, s);
      if !ok {
        return -1;
      }
      if touchPoint == 0 {
        return -1;
      }
      return 0;
    }

    // Reporting -------------------------------------------------------------------

    /** What the first k events of a frame have done to the slots and the bit set. */
    ghost predicate Applied(es: seq<Event>, slots0: seq<Slot>, touchs0: set<nat>)
      reads this
    {
      && |slots| == |slots0|
      && (forall id: nat :: id < |slots| ==>
            match LastFor(es, id)
            case Some(e) =>
              (slots[id].active <==> Down(e)) && (Down(e) ==> slots[id] == Contact(e)) && (id in touchs <==> Down(e))
            case None =>
              slots[id] == slots0[id] && (id in touchs <==> id in touchs0))
    }

    /** The slots hold what the frame says and nothing else. */
    ghost predicate Shows(es: seq<Event>)
      reads this
    {
      forall id: nat :: id < |slots| ==>
        (slots[id].active <==> EndsDown(es, id)) && (EndsDown(es, id) ==> slots[id] == Contact(LastFor(es, id).value))
    }

    lemma ActiveIsFingers(es: seq<Event>)
      requires Valid() && Shows(es) && forall i :: 0 <= i < |es| ==> es[i].id < panel.maxTouch
      ensures Active() == Fingers(es)
    {
      FingersInRange(es, panel.maxTouch);
      forall id: nat ensures id in Active() <==> id in Fingers(es) {
      }
    }

    /** One event of the report loop: `downs` and `downPoints` are the frame's own
        bit set and count, `touchs` the bit set of the device. */
    method ReportEvent(e: Event, downs: set<nat>, downPoints: nat,
                       ghost before: seq<Event>, ghost after: seq<Event>,
                       ghost slots0: seq<Slot>, ghost touchs0: set<nat>)
      returns (downs': set<nat>, downPoints': nat)
      requires Valid() && e.id < panel.maxTouch && Applied(before, slots0, touchs0) && after == before + [e]
      requires downs == Downs(before) && (downPoints > 0 <==> downs != {})
      modifies this`touchs, this`slots, this`slot
      ensures Valid() && Applied(after, slots0, touchs0)
      ensures downs' == Downs(after) && (downPoints' > 0 <==> downs' != {})
    {
      forall id: nat ensures LastFor(after, id) == if e.id == id then Some(e) else LastFor(before, id) {
        LastForAppend(after, |before|, id);
        assert after[..|before|] == before && after[..|before| + 1] == after;
      }
      DownsAppend(after, |before|);
      assert after[..|before|] == before && after[..|before| + 1] == after;
      downs', downPoints' := downs, downPoints;
      if Down(e) {
        TouchSlot(e);
        downs' := downs + {e.id};
        touchs := touchs + {e.id};
        downPoints' := downPoints + 1;
        assert e.id in downs';
      } else {
        LiftSlot(e.id);
        touchs := touchs - {e.id};
      }
    }

    /** The loop that lifts every slot whose bit differs. */
    method LiftMissed(missed: set<nat>) returns (lifted: bool)
      requires Valid()
      modifies this`slots, this`slot
      ensures Valid() && |slots| == old(|slots|)
      ensures forall id: nat :: id < |slots| ==>
                slots[id] == if id in missed then old(slots[id]).(active := false) else old(slots[id])
      ensures (forall id :: id in missed ==> id < panel.maxTouch) ==> (lifted <==> missed != {})
    {
      lifted := false;
      var i := 0;
      while i < panel.maxTouch
        invariant 0 <= i <= panel.maxTouch
        invariant Valid() && |slots| == old(|slots|)
        invariant lifted <==> exists id: nat :: id < i && id in missed
        invariant forall id: nat :: id < |slots| ==>
                    slots[id] == if id < i && id in missed then old(slots[id]).(active := false) else old(slots[id])
      {
        if i in missed {
          lifted := true;
          LiftSlot(i);
        }
        i := i + 1;
      }
    }

    /** The loop over the events of the frame. */
    method ReportPoints(ghost es: seq<Event>) returns (downs: set<nat>, downPoints: nat, reported: bool)
      requires Valid() && es == events[..touchPoint]
      requires forall i :: 0 <= i < touchPoint ==> events[i].id < panel.maxTouch
      modifies this`touchs, this`slots, this`slot
      ensures Valid() && Applied(es, old(slots), old(touchs))
      ensures downs == Downs(es)
      ensures (downPoints > 0 <==> downs != {}) && (reported <==> touchPoint > 0)
    {
      ghost var slots0, touchs0 := slots, touchs;
      downs, downPoints, reported := {}, 0, false;
      var i := 0;
      while i < touchPoint
        invariant Valid() && 0 <= i <= touchPoint && es == events[..touchPoint]
        invariant Applied(es[..i], slots0, touchs0)
        invariant downs == Downs(es[..i])
        invariant downPoints > 0 <==> downs != {}
        invariant reported <==> i > 0
      {
        assert es[..i + 1] == es[..i] + [events[i]];
        reported := true;
        downs, downPoints := ReportEvent(events[i], downs, downPoints, es[..i], es[..i + 1], slots0, touchs0);
        i := i + 1;
      }
      assert es[..i] == es;
    }

    /** axs_input_report_b. After the report a slot is active exactly when the frame's
        last word on its id is down, and then it holds that contact: an id the frame
        does not mention is lifted by the comparison with the touches before it. */
    method InputReportB()
      requires Valid() && Active() <= touchs
      requires forall i :: 0 <= i < touchPoint ==> events[i].id < panel.maxTouch
      modifies this`touchs, this`slots, this`slot, this`button
      ensures Valid()
      ensures touchs == Downs(events[..touchPoint])
      ensures Shows(events[..touchPoint])
      ensures forall id: nat :: id < |slots| && EndsDown(events[..touchPoint], id) ==>
                var e, slot := LastFor(events[..touchPoint], id).value, slots[id];
                && slot.x == e.x && slot.y == e.y
                && slot.pressure == (if e.weight == 0 then 0x3f else e.weight)
                && slot.major == (if e.area == 0 then 0x09 else e.area)
      ensures touchPoint > 0 ==> (button <==> touchs != {})
    {
      ghost var es, slots0, touchs0 := events[..touchPoint], slots, touchs;
      var downs, downPoints, reported := ReportPoints(es);
      var missed := (touchs - downs) + (downs - touchs);
      ghost var slots1 := slots;
      if missed != {} {
        var lifted := LiftMissed(missed);
        reported := reported || lifted;
      }
      forall id: nat | id < |slots|
        ensures slots[id].active <==> EndsDown(es, id)
        ensures EndsDown(es, id) ==> slots[id] == Contact(LastFor(es, id).value)
      {
        FingerIsDown(es, id);
        assert slots[id] == if id in missed then slots1[id].(active := false) else slots1[id];
        assert slots0[id].active ==> id in touchs0;
      }
      touchs := downs;
      if reported {
        button := downPoints != 0;
      }
    }

    // Switches ----------------------------------------------------------------------

    /** axs_irq_disable */
    method IrqDisable()
      modifies this`irqDisabled, this`irqDepth
      ensures Sw() == Masked(old(Sw()))
    {
      if !irqDisabled {
        irqDepth := irqDepth + 1;
        irqDisabled := true;
      }
    }

    /** axs_irq_enable */
    method IrqEnable()
      modifies this`irqDisabled, this`irqDepth
      ensures Sw() == Unmasked(old(Sw()))
    {
      if irqDisabled {
        irqDepth := if irqDepth > 0 then irqDepth - 1 else 0;
        irqDisabled := false;
      }
    }

    /** axs_release_all_finger */
    method ReleaseAllFingers()
      requires Valid()
      modifies this`slots, this`slot, this`button, this`touchs, this`touchPoint
      ensures Valid() && Now() == Released(old(Now()))
    {
      var finger := 0;
      while finger < panel.maxTouch
        invariant 0 <= finger <= panel.maxTouch && Valid()
        invariant forall id: nat :: id < finger ==> !slots[id].active
      {
        LiftSlot(finger);
        finger := finger + 1;
      }
      button := false;
      touchs := {};
      touchPoint := 0;
      assert Active() == {};
    }

    /** axs_reset_and_lcd_init */
    method ResetAndLcdInit()
      modifies this`irqDisabled, this`irqDepth
      ensures Sw() == AfterLcdInit(old(Sw()))
    {
      IrqDisable();
      IrqEnable();
    }

    /** A tick of the ESD check that decides to reset; it does nothing during a load
        or with the check turned off. */
    method EsdTickReset()
      requires Valid() && esdQueued
      modifies this`irqDisabled, this`irqDepth, this`slots, this`slot, this`button, this`touchs, this`touchPoint
      ensures Valid() && Now() == Step(panel, old(Now()), EsdReset)
    {
      if loading || !hostEnable {
      } else {
        ResetAndLcdInit();
        ReleaseAllFingers();
      }
    }

    /** The loop that lifts every slot whose bit is set, and clears the bit. */
    method LiftTouched()
      requires Valid()
      modifies this`slots, this`slot, this`touchs
      ensures Valid() && touchs == {} && |slots| == old(|slots|)
      ensures forall id: nat :: id < |slots| ==>
                slots[id] == if id in old(touchs) then old(slots[id]).(active := false) else old(slots[id])
    {
      var i := 0;
      while i < panel.maxTouch
        invariant 0 <= i <= panel.maxTouch && Valid() && |slots| == old(|slots|)
        invariant forall id :: id in touchs <==> id in old(touchs) && id >= i
        invariant forall id: nat :: id < |slots| ==>
                    slots[id] == if id < i && id in old(touchs) then old(slots[id]).(active := false)
                                 else old(slots[id])
      {
        if i in touchs {
          LiftSlot(i);
          touchs := touchs - {i};
        }
        i := i + 1;
      }
    }

    /** axs_pen_event_check_func */
    method PenEventCheck()
      requires Valid() && penQueued
      modifies this`interval, this`slots, this`slot, this`button, this`touchs
      ensures Valid() && Now() == Step(panel, old(Now()), PenTick)
    {
      if interval <= 10 {
        interval := interval + 1;
      }
      if interval >= 2 && touchs != {} {
        ghost var was, missed := Active(), touchs;
        LiftTouched();
        button := false;
        assert Active() == was - missed;
      }
    }

    /** What the interrupt does with a gesture code. */
    method CheckGesture(code: byte)
      requires Valid()
      modifies this`irqDisabled, this`irqDepth, this`slots, this`slot, this`button, this`touchs, this`touchPoint
      ensures Valid() && Now() == Handled(panel, old(Now()), Gesture(code))
    {
      if panel.esdCheck {
        if hostEnable {
          if IsException(code) {
            ResetAndLcdInit();
            ReleaseAllFingers();
          }
        }
      }
    }

    /** What the interrupt does with touches: `es` is what the frame said. */
    method ReportTouches(ghost es: seq<Event>)
      requires Valid() && Inv(panel, Now()) && es == events[..touchPoint] && touchPoint > 0
      requires forall i :: 0 <= i < |es| ==> es[i].id < panel.maxTouch
      modifies this`touchs, this`slots, this`slot, this`button
      ensures Valid() && Now() == Reported(old(Now()), es) && Shows(es) && |slots| == panel.maxTouch
    {
      assert forall i :: 0 <= i < touchPoint ==> events[i] == es[i];
      InputReportB();
      ActiveIsFingers(es);
    }

    /** axs_ts_interrupt and the handler behind it; the kernel calls it only while
        the line is not masked. */
    method HandleInterrupt(frame: Option<seq<byte>>)
      requires Valid() && Inv(panel, Now()) && irqDepth == 0 && WellSized(panel, frame)
      modifies this`interval, this`touchPoint, this`touchs, this`slots, this`slot, this`button
      modifies this`irqDisabled, this`irqDepth, pointBuf, events
      ensures Valid()
      ensures Now() == Step(panel, old(Now()), Interrupt(frame))
      ensures !old(loading) && frame.Some? && Parse(panel, frame.value).Touches? ==>
                && Shows(Parse(panel, frame.value).events)
                && ShownInBytes(slots, frame.value, |Parse(panel, frame.value).events|)
    {
      if loading {
        return;
      }
      interval := 0;
      label parse:
      var ret := ReadParse(frame);
      assert Now() == old@parse(Now());
      if ret > 0 {
        CheckGesture(ret);
      } else if ret == 0 {
        ParsedInRange(panel, frame.value);
        ReportTouches(Parse(panel, frame.value).events);
        ParsedEvents(panel, frame.value);
        ShownBytes(slots, Parse(panel, frame.value).events, frame.value);
      }
    }

    /** axs_ts_suspend */
    method SuspendDevice()
      requires Valid()
      modifies this`esdQueued, this`penQueued, this`irqDisabled, this`irqDepth, this`suspended
      modifies this`touchPoint, this`touchs, this`slots, this`slot, this`button
      ensures Valid() && Now() == Step(panel, old(Now()), Suspend)
    {
      if suspended {
        return;
      }
      esdQueued := false;
      penQueued := false;
      if loading {
        return;
      }
      IrqDisable();
      ReleaseAllFingers();
      suspended := true;
    }

    /** axs_ts_resume */
    method ResumeDevice()
      requires Valid() && Inv(panel, Now())
      modifies this`esdQueued, this`penQueued, this`irqDisabled, this`irqDepth, this`suspended
      modifies this`touchPoint, this`touchs, this`slots, this`slot, this`button
      ensures Valid() && Now() == Step(panel, old(Now()), Resume)
    {
      if !suspended {
        return;
      }
      ReleaseAllFingers();
      Reopen();
    }

    method Reopen()
      requires !esdQueued && !penQueued
      modifies this`esdQueued, this`penQueued, this`irqDisabled, this`irqDepth, this`suspended
      ensures Sw() == Unmasked(old(Sw())).(suspended := false, esdQueued := panel.esdCheck, penQueued := panel.penCheck)
    {
      QueueWork();
      IrqEnable();
      suspended := false;
    }

    /** The work items that are compiled in are queued again. */
    method QueueWork()
      requires !esdQueued && !penQueued
      modifies this`esdQueued, this`penQueued
      ensures Sw() == old(Sw()).(esdQueued := panel.esdCheck, penQueued := panel.penCheck)
    {
      if panel.esdCheck {
        esdQueued := true;
      }
      if panel.penCheck {
        penQueued := true;
      }
    }

    /** axs_debug_fwupg up to the request for the firmware file: nothing is touched when
        the driver has no data, no work queue or no memory for the loader. */
    method BeginLoad(ready: bool)
      requires Valid() && !running
      modifies this`irqDisabled, this`irqDepth, this`loading, this`running
      ensures Valid() && Now() == Step(panel, old(Now()), LoadBegin(ready))
    {
      if !ready {
        return;
      }
      running := true;
      loading := true;
      IrqDisable();
    }

    /** axs_debug_fwupg from the request to its end, as far as this state is concerned. */
    method EndLoad(outcome: LoadOutcome)
      requires Valid() && running
      modifies this`irqDisabled, this`irqDepth, this`loading, this`running
      ensures Valid() && Now() == Step(panel, old(Now()), LoadEnd(outcome))
    {
      CompleteLoad(outcome);
    }

    method CompleteLoad(outcome: LoadOutcome)
      requires running
      modifies this`irqDisabled, this`irqDepth, this`loading, this`running
      ensures Sw() == AfterLoad(old(Sw()).(running := false), outcome)
    {
      running := false;
      match outcome {
        case NoFile =>
        case NoMemory =>
        case BadSize => FinishLoad(false);
        case SelectFailed => FinishLoad(false);
        case Ran => FinishLoad(true);
      }
    }

    /** What a load does once it has, or has not, run the loader. */
    method FinishLoad(ran: bool)
      modifies this`irqDisabled, this`irqDepth, this`loading
      ensures Sw() == Unmasked(if ran then AfterLcdInit(old(Sw())) else old(Sw())).(loading := false)
    {
      if ran {
        ResetAndLcdInit();
      }
      IrqEnable();
      loading := false;
    }
  }

  lemma ParsedEvents(p: Panel, buf: seq<byte>)
    requires ValidPanel(p) && |buf| == p.bufSize && Parse(p, buf).Touches?
    ensures var es := Parse(p, buf).events;
            forall i :: 0 <= i < |es| ==> es[i] == EventAt(buf, i)
  {
    ScanIsLongestPrefix(p, buf, 0, PointCount(p, buf));
    var es := Parse(p, buf).events;
    forall i | 0 <= i < |es| ensures es[i] == EventAt(buf, i) {
      assert es[i] == EventAt(buf, 0 + i);
    }
  }

  lemma ParsedInRange(p: Panel, buf: seq<byte>)
    requires ValidPanel(p) && |buf| == p.bufSize && Parse(p, buf).Touches?
    ensures var es := Parse(p, buf).events;
            forall i :: 0 <= i < |es| ==> es[i].id < p.maxTouch
  {
    ScanIsLongestPrefix(p, buf, 0, PointCount(p, buf));
    var es := Parse(p, buf).events;
    forall i | 0 <= i < |es| ensures es[i].id < p.maxTouch {
      assert es[i] == EventAt(buf, 0 + i);
      assert IdAt(buf, i) < p.maxTouch;
    }
  }

  lemma FingerIsDown(es: seq<Event>, id: nat)
    ensures EndsDown(es, id) ==> id in Downs(es)
    ensures LastFor(es, id).None? ==> id !in Downs(es)
  {
  }

  lemma FingersInRange(es: seq<Event>, n: nat)
    requires forall i :: 0 <= i < |es| ==> es[i].id < n
    ensures forall id :: id in Fingers(es) ==> id < n
    ensures forall id :: id in Downs(es) ==> id < n
  {
  }
}
