/** What every run of the touch driver keeps: statements over all sequences of
    frames, time-out ticks, resets, suspends, resumes and firmware loads. */
module TouchRuns {
  import opened Bytes
  import opened TouchFrame
  import opened TouchScreen

  function Run(p: Panel, s: State, inputs: seq<Input>): State
    requires ValidPanel(p)
  {
    if inputs == [] then s
    else Step(p, Run(p, s, inputs[..|inputs| - 1]), inputs[|inputs| - 1])
  }

  lemma RunSnoc(p: Panel, s: State, inputs: seq<Input>, input: Input)
    requires ValidPanel(p)
    ensures Run(p, s, inputs + [input]) == Step(p, Run(p, s, inputs), input)
  {
    assert (inputs + [input])[..|inputs|] == inputs;
  }

  // Invariant --------------------------------------------------------------------

  lemma ReadingInRange(p: Panel, frame: Option<seq<byte>>)
    requires ValidPanel(p) && Reading(p, frame).Touches?
    ensures var es := Reading(p, frame).events;
            && (forall id :: id in Downs(es) ==> id < p.maxTouch)
            && Fingers(es) <= Downs(es)
  {
    var es := Reading(p, frame).events;
    ParsedInRange(p, frame.value);
    FingersInRange(es, p.maxTouch);
    forall id | id in Fingers(es) ensures id in Downs(es) {
      FingerIsDown(es, id);
    }
  }

  lemma FramesKeepInv(p: Panel, s: State, frame: Option<seq<byte>>)
    requires ValidPanel(p) && Inv(p, s)
    ensures Inv(p, Step(p, s, Interrupt(frame)))
  {
    if Reading(p, frame).Touches? {
      ReadingInRange(p, frame);
    }
  }

  lemma SwitchesKeepInv(p: Panel, w: Switches, input: Input)
    requires SwitchInv(w)
    ensures SwitchInv(SwitchStep(p, w, input))
  {
  }

  /** No report touches the switches: a reset finds the line open and leaves it so. */
  lemma StepSwitches(p: Panel, s: State, input: Input)
    requires ValidPanel(p) && SwitchInv(s.sw)
    ensures Step(p, s, input).sw == SwitchStep(p, s.sw, input)
  {
  }

  lemma StepKeepsInv(p: Panel, s: State, input: Input)
    requires ValidPanel(p) && Inv(p, s)
    ensures Inv(p, Step(p, s, input))
  {
    SwitchesKeepInv(p, s.sw, input);
    if input.Interrupt? {
      FramesKeepInv(p, s, input.frame);
    }
  }

  /** After any run: active slots are among the touched bits, those are below the
      panel's limit, BTN_TOUCH is set exactly when a bit is, and the line is masked
      exactly once or not at all, as the flag says. */
  lemma {:induction false} RunKeepsInv(p: Panel, inputs: seq<Input>)
    requires ValidPanel(p)
    ensures Inv(p, Run(p, Boot(p), inputs))
  {
    if inputs != [] {
      RunKeepsInv(p, inputs[..|inputs| - 1]);
      StepKeepsInv(p, Run(p, Boot(p), inputs[..|inputs| - 1]), inputs[|inputs| - 1]);
    }
  }

  // Which fingers are shown --------------------------------------------------------

  /** The input is a frame that gets through and lists touches. */
  predicate Accepted(p: Panel, s: State, input: Input)
    requires ValidPanel(p)
  {
    input.Interrupt? && s.sw.irqDepth == 0 && !s.sw.loading && Reading(p, input.frame).Touches?
  }

  /** The input cannot lift or add a finger in this state. */
  predicate Neutral(p: Panel, s: State, input: Input)
    requires ValidPanel(p)
  {
    match input
    case Interrupt(frame) =>
      s.sw.irqDepth > 0 || s.sw.loading
      || (var r := Reading(p, frame);
          r.Rejected? || (r.Gesture? && !(p.esdCheck && s.sw.hostEnable && IsException(r.code))))
    case PenTick => !s.sw.penQueued || s.interval == 0
    case EsdReset => !Resets(s.sw)
    case Suspend => !Suspends(s.sw)
    case Resume => !s.sw.suspended
    case _ => true
  }

  function StateAt(p: Panel, inputs: seq<Input>, k: nat): State
    requires ValidPanel(p) && k <= |inputs|
  {
    Run(p, Boot(p), inputs[..k])
  }

  predicate NeutralAt(p: Panel, inputs: seq<Input>, k: nat)
    requires ValidPanel(p) && k < |inputs|
  {
    Neutral(p, StateAt(p, inputs, k), inputs[k])
  }

  /** Input k is an accepted frame that ends with the finger down. */
  predicate DownAt(p: Panel, inputs: seq<Input>, id: nat, k: nat)
    requires ValidPanel(p) && k < |inputs|
  {
    Accepted(p, StateAt(p, inputs, k), inputs[k]) && EndsDown(Reading(p, inputs[k].frame).events, id)
  }

  ghost predicate NeutralAfter(p: Panel, inputs: seq<Input>, k: nat)
    requires ValidPanel(p)
  {
    forall j :: k < j < |inputs| ==> NeutralAt(p, inputs, j)
  }

  /** Input k puts the finger down, and nothing after it could have lifted it. */
  ghost predicate PutDownAt(p: Panel, inputs: seq<Input>, id: nat, k: nat)
    requires ValidPanel(p)
  {
    && k < |inputs|
    && DownAt(p, inputs, id, k)
    && NeutralAfter(p, inputs, k)
  }

  lemma StepShows(p: Panel, s: State, input: Input)
    requires ValidPanel(p) && Inv(p, s)
    ensures Accepted(p, s, input) ==> Step(p, s, input).active == Fingers(Reading(p, input.frame).events)
    ensures Neutral(p, s, input) ==> Step(p, s, input).active == s.active
    ensures !Accepted(p, s, input) && !Neutral(p, s, input) ==> Step(p, s, input).active == {}
  {
    if input.PenTick? {
      assert s.active - s.touchs == {};
      assert s.touchs == {} ==> s.active == {};
    }
  }

  lemma SameNeutral(p: Panel, inputs: seq<Input>, n: nat, k: nat)
    requires ValidPanel(p) && k < n <= |inputs|
    ensures NeutralAt(p, inputs[..n], k) <==> NeutralAt(p, inputs, k)
  {
    assert inputs[..n][..k] == inputs[..k];
  }

  lemma SameDown(p: Panel, inputs: seq<Input>, id: nat, n: nat, k: nat)
    requires ValidPanel(p) && k < n <= |inputs|
    ensures DownAt(p, inputs[..n], id, k) <==> DownAt(p, inputs, id, k)
  {
    assert inputs[..n][..k] == inputs[..k];
  }

  lemma NeutralEarlier(p: Panel, inputs: seq<Input>, k: nat)
    requires ValidPanel(p) && k + 1 < |inputs|
    ensures var n := |inputs| - 1;
            NeutralAfter(p, inputs, k) <==> NeutralAfter(p, inputs[..n], k) && NeutralAt(p, inputs, n)
  {
    var n := |inputs| - 1;
    forall j: nat | j < n ensures NeutralAt(p, inputs[..n], j) <==> NeutralAt(p, inputs, j) {
      SameNeutral(p, inputs, n, j);
    }
  }

  lemma PutDownEarlier(p: Panel, inputs: seq<Input>, id: nat, k: nat)
    requires ValidPanel(p) && k + 1 < |inputs|
    ensures var n := |inputs| - 1;
            PutDownAt(p, inputs, id, k) <==> PutDownAt(p, inputs[..n], id, k) && NeutralAt(p, inputs, n)
  {
    NeutralEarlier(p, inputs, k);
    SameDown(p, inputs, id, |inputs| - 1, k);
  }

  /** No stuck finger and no ghost finger: in every run a slot is active exactly when
      the last input that could change it was an accepted frame whose final word on
      that id is down. */
  lemma {:induction false} ActiveExactly(p: Panel, inputs: seq<Input>, id: nat)
    requires ValidPanel(p)
    ensures id in Run(p, Boot(p), inputs).active <==> exists k: nat :: PutDownAt(p, inputs, id, k)
    decreases |inputs|
  {
    if inputs != [] {
      var n := |inputs| - 1;
      var s := StateAt(p, inputs, n);
      RunKeepsInv(p, inputs[..n]);
      StepShows(p, s, inputs[n]);
      ActiveExactly(p, inputs[..n], id);
      forall k: nat | k < n
        ensures PutDownAt(p, inputs, id, k) <==> PutDownAt(p, inputs[..n], id, k) && Neutral(p, s, inputs[n])
      {
        PutDownEarlier(p, inputs, id, k);
      }
      assert PutDownAt(p, inputs, id, n) <==>
             Accepted(p, s, inputs[n]) && EndsDown(Reading(p, inputs[n].frame).events, id);
      assert Run(p, Boot(p), inputs) == Step(p, s, inputs[n]);
      LastInputDecides(p, inputs, id, s);
    }
  }

  lemma LastInputDecides(p: Panel, inputs: seq<Input>, id: nat, s: State)
    requires ValidPanel(p) && inputs != []
    requires var n := |inputs| - 1;
             var now := Step(p, s, inputs[n]).active;
             && (forall k: nat :: k < n ==>
                   (PutDownAt(p, inputs, id, k) <==> PutDownAt(p, inputs[..n], id, k) && Neutral(p, s, inputs[n])))
             && (PutDownAt(p, inputs, id, n) <==>
                   Accepted(p, s, inputs[n]) && EndsDown(Reading(p, inputs[n].frame).events, id))
             && (id in s.active <==> exists k: nat :: PutDownAt(p, inputs[..n], id, k))
             && (Accepted(p, s, inputs[n]) ==> now == Fingers(Reading(p, inputs[n].frame).events))
             && (Neutral(p, s, inputs[n]) ==> now == s.active)
             && (!Accepted(p, s, inputs[n]) && !Neutral(p, s, inputs[n]) ==> now == {})
    ensures id in Step(p, s, inputs[|inputs| - 1]).active <==> exists k: nat :: PutDownAt(p, inputs, id, k)
  {
    var n := |inputs| - 1;
    if Neutral(p, s, inputs[n]) {
      if k: nat :| PutDownAt(p, inputs[..n], id, k) {
        assert PutDownAt(p, inputs, id, k);
      }
    }
  }

  // The bit set lags behind ----------------------------------------------------------

  lemma {:induction false} LastIndex(es: seq<Event>, i: nat) returns (j: nat)
    requires i < |es|
    ensures i <= j < |es| && es[j].id == es[i].id && LastFor(es, es[i].id) == Some(es[j])
    ensures forall k :: j < k < |es| ==> es[k].id != es[i].id
  {
    j := |es| - 1;
    if es[j].id != es[i].id {
      j := LastIndex(es[..j], i);
    }
  }

  /** Event i puts a finger down, event j lifts it, and the frame says no more of it. */
  predicate DownThenUp(es: seq<Event>, i: nat, j: nat) {
    i < j < |es| && es[i].id == es[j].id && Down(es[i]) && !Down(es[j])
    && forall k :: j < k < |es| ==> es[k].id != es[i].id
  }

  /** The touched bits name an inactive slot exactly when the frame puts an id down
      and later lifts it for good. */
  lemma TouchsExceedsFingers(es: seq<Event>)
    ensures Fingers(es) <= Downs(es)
    ensures Fingers(es) != Downs(es) <==> exists i: nat, j: nat :: DownThenUp(es, i, j)
  {
    forall id | id in Fingers(es) ensures id in Downs(es) {
      FingerIsDown(es, id);
    }
    if Fingers(es) != Downs(es) {
      var id :| id in Downs(es) && id !in Fingers(es);
      var e :| e in es && e.id == id && Down(e);
      var i :| 0 <= i < |es| && es[i] == e;
      var j := LastIndex(es, i);
      assert i != j;
      assert DownThenUp(es, i, j);
    }
    if i: nat, j: nat :| DownThenUp(es, i, j) {
      var last := LastIndex(es, j);
      assert last == j;
      assert es[i] in es;
      assert es[i].id in Downs(es);
    }
  }

  /** The bit set, the slots and BTN_TOUCH agree. */
  predicate Agrees(s: State) {
    s.touchs == s.active && (s.button <==> s.active != {})
  }

  lemma OneTouchFrame(es: seq<Event>)
    requires |es| == 1
    ensures Fingers(es) == Downs(es)
  {
    assert es[..0] == [] && LastFor(es, es[0].id) == Some(es[0]);
    forall id ensures id in Fingers(es) <==> id in Downs(es) {
      FingerIsDown(es, id);
      if id in Downs(es) {
        assert id == es[0].id;
      }
    }
  }

  lemma OneTouchStep(p: Panel, s: State, input: Input)
    requires ValidPanel(p) && p.maxTouch == 1 && Agrees(s)
    ensures Agrees(Step(p, s, input))
  {
    if input.Interrupt? && Reading(p, input.frame).Touches? {
      OneTouchFrame(Reading(p, input.frame).events);
    }
  }

  lemma {:induction false} OneTouchAgrees(p: Panel, inputs: seq<Input>)
    requires ValidPanel(p) && p.maxTouch == 1
    ensures Agrees(Run(p, Boot(p), inputs))
  {
    if inputs != [] {
      var n := |inputs| - 1;
      OneTouchAgrees(p, inputs[..n]);
      OneTouchStep(p, Run(p, Boot(p), inputs[..n]), inputs[n]);
    }
  }

  lemma DownThenUpLeavesBit(down: Event, up: Event)
    requires down.id == up.id == 0 && Down(down) && !Down(up)
    ensures Downs([down, up]) == {0} && Fingers([down, up]) == {}
  {
    var es := [down, up];
    assert down in es;
    assert LastFor(es, 0) == Some(up);
    assert 0 in Downs(es);
  }

  /** The first frame after boot takes id 0 down and up again. */
  lemma GhostFrame(p: Panel) returns (inputs: seq<Input>)
    requires ValidPanel(p) && p.maxTouch >= 2
    ensures var s := Run(p, Boot(p), inputs); s.button && s.touchs == {0} && s.active == {}
  {
    var down, up := Event(1, 1, 1, 0, 0, 1), Event(1, 1, 1, 1, 0, 1);
    var es := [down, up];
    assert Sendable(p, es);
    ParseOfEncode(p, es);
    inputs := [Interrupt(Some(Encode(p, es)))];
    DownThenUpLeavesBit(down, up);
    RunSnoc(p, Boot(p), [], inputs[0]);
    assert inputs == [] + [inputs[0]];
  }

  /** In every run `touchs`, the slots and BTN_TOUCH agree if and only if the panel
      tracks a single touch, as the shipped one does. With two or more, one frame can
      leave BTN_TOUCH pressed with no finger on the panel. */
  lemma AgreesExactly(p: Panel)
    requires ValidPanel(p)
    ensures (forall inputs: seq<Input> :: Agrees(Run(p, Boot(p), inputs))) <==> p.maxTouch == 1
  {
    if p.maxTouch == 1 {
      forall inputs: seq<Input> ensures Agrees(Run(p, Boot(p), inputs)) {
        OneTouchAgrees(p, inputs);
      }
    } else {
      var inputs := GhostFrame(p);
      assert !Agrees(Run(p, Boot(p), inputs));
    }
  }

  // Suspend --------------------------------------------------------------------------

  datatype LoadPhase = NoLoad | InLoad | Completed | Abandoned

  predicate Completes(outcome: LoadOutcome) {
    outcome.BadSize? || outcome.SelectFailed? || outcome.Ran?
  }

  /** How far the last load of a sequence of inputs has come. */
  function NextPhase(before: LoadPhase, input: Input): LoadPhase {
    match input
    case LoadBegin(ready) => if ready then InLoad else before
    case LoadEnd(outcome) => if !before.InLoad? then before else if Completes(outcome) then Completed else Abandoned
    case _ => before
  }

  function Phase(inputs: seq<Input>): LoadPhase {
    if inputs == [] then NoLoad else NextPhase(Phase(inputs[..|inputs| - 1]), inputs[|inputs| - 1])
  }

  predicate LoadsAs(w: Switches, phase: LoadPhase) {
    (w.running <==> phase.InLoad?) && (w.loading <==> phase.InLoad? || phase.Abandoned?)
  }

  lemma PhaseStep(p: Panel, w: Switches, phase: LoadPhase, input: Input)
    requires SwitchInv(w) && LoadsAs(w, phase)
    ensures LoadsAs(SwitchStep(p, w, input), NextPhase(phase, input))
  {
  }

  /** The loading flag is set after a run if and only if the last load has begun and not
      completed: it is in progress, or found no file or no memory. */
  lemma {:induction false} LoadingExactly(p: Panel, inputs: seq<Input>)
    requires ValidPanel(p)
    ensures LoadsAs(Run(p, Boot(p), inputs).sw, Phase(inputs))
  {
    if inputs != [] {
      var n := |inputs| - 1;
      var s := Run(p, Boot(p), inputs[..n]);
      LoadingExactly(p, inputs[..n]);
      RunKeepsInv(p, inputs[..n]);
      StepSwitches(p, s, inputs[n]);
      PhaseStep(p, s.sw, Phase(inputs[..n]), inputs[n]);
    }
  }

  /** A device that was suspended while no load was going on, and what follows. */
  predicate SuspendedSince(w: Switches, phase: LoadPhase) {
    w.suspended && LoadsAs(w, phase) && (w.irqDepth == 1 <==> !phase.Completed?)
  }

  lemma SuspendedStep(p: Panel, w: Switches, phase: LoadPhase, input: Input)
    requires SwitchInv(w) && SuspendedSince(w, phase) && !input.Resume?
    ensures SuspendedSince(SwitchStep(p, w, input), NextPhase(phase, input))
  {
  }

  /** Until the next resume the line of a suspended device is masked if and only if no
      load was begun or the last one has not completed: a load that completes unmasks
      it, one in progress or one that found no file or no memory masks it. */
  lemma {:induction false} SuspendedLineExactly(p: Panel, before: seq<Input>, after: seq<Input>)
    requires ValidPanel(p)
    requires Suspends(Run(p, Boot(p), before).sw)
    requires forall i :: 0 <= i < |after| ==> !after[i].Resume?
    ensures SuspendedSince(Run(p, Boot(p), before + [Suspend] + after).sw, Phase(after))
    decreases |after|
  {
    RunKeepsInv(p, before);
    if after == [] {
      RunSnoc(p, Boot(p), before, Suspend);
      assert before + [Suspend] + after == before + [Suspend];
    } else {
      var n := |after| - 1;
      var run := before + [Suspend] + after[..n];
      SuspendedLineExactly(p, before, after[..n]);
      RunKeepsInv(p, run);
      assert before + [Suspend] + after == run + [after[n]];
      RunSnoc(p, Boot(p), run, after[n]);
      StepSwitches(p, Run(p, Boot(p), run), after[n]);
      SuspendedStep(p, Run(p, Boot(p), run).sw, Phase(after[..n]), after[n]);
    }
  }

  /** A frame that comes then is shown if the last load has completed, and changes
      nothing if not. */
  lemma FrameWhileSuspended(p: Panel, before: seq<Input>, after: seq<Input>, es: seq<Event>)
    requires ValidPanel(p) && Sendable(p, es)
    requires Suspends(Run(p, Boot(p), before).sw)
    requires forall i :: 0 <= i < |after| ==> !after[i].Resume?
    ensures var run := before + [Suspend] + after;
            var s' := Run(p, Boot(p), run + [Interrupt(Some(Encode(p, es)))]);
            && s'.sw.suspended
            && if Phase(after).Completed? then s'.active == Fingers(es) else s' == Run(p, Boot(p), run)
  {
    var run := before + [Suspend] + after;
    SuspendedLineExactly(p, before, after);
    RunKeepsInv(p, run);
    ParseOfEncode(p, es);
    RunSnoc(p, Boot(p), run, Interrupt(Some(Encode(p, es))));
  }

  predicate Quiet(s: State) {
    s.active == {} && s.touchs == {} && !s.button
  }

  lemma QuietStep(p: Panel, s: State, input: Input)
    requires ValidPanel(p) && SwitchInv(s.sw) && Quiet(s) && s.sw.irqDepth == 1
    ensures Quiet(Step(p, s, input))
  {
  }

  /** As long as no load has completed no slot is active, whatever frames, ticks and
      failing loads come. */
  lemma {:induction false} SuspendedStaysQuiet(p: Panel, before: seq<Input>, after: seq<Input>)
    requires ValidPanel(p)
    requires Suspends(Run(p, Boot(p), before).sw)
    requires forall i :: 0 <= i < |after| ==> !after[i].Resume?
    requires forall k :: 0 <= k <= |after| ==> !Phase(after[..k]).Completed?
    ensures Quiet(Run(p, Boot(p), before + [Suspend] + after))
    decreases |after|
  {
    if after == [] {
      RunSnoc(p, Boot(p), before, Suspend);
      assert before + [Suspend] + after == before + [Suspend];
    } else {
      var n := |after| - 1;
      var run := before + [Suspend] + after[..n];
      assert forall k :: 0 <= k <= n ==> after[..n][..k] == after[..k];
      SuspendedStaysQuiet(p, before, after[..n]);
      SuspendedLineExactly(p, before, after[..n]);
      RunKeepsInv(p, run);
      assert before + [Suspend] + after == run + [after[n]];
      RunSnoc(p, Boot(p), run, after[n]);
      QuietStep(p, Run(p, Boot(p), run), after[n]);
    }
  }

  // The pen time-out -------------------------------------------------------------------

  /** Time passes: no interrupt comes, and no suspend that could cancel the work. */
  predicate Waits(input: Input) {
    !input.Interrupt? && !input.Suspend?
  }

  function PenTicks(inputs: seq<Input>): nat {
    if inputs == [] then 0 else PenTicks(inputs[..|inputs| - 1]) + if inputs[|inputs| - 1].PenTick? then 1 else 0
  }

  /** The time-out has run n times since the last interrupt. */
  predicate Waited(s: State, n: nat) {
    s.sw.penQueued && !s.sw.suspended && s.interval >= (if n < 2 then n else 2) && (n >= 2 ==> Quiet(s))
  }

  lemma WaitedStep(p: Panel, s: State, n: nat, input: Input)
    requires ValidPanel(p) && Inv(p, s) && Waited(s, n) && Waits(input)
    ensures Waited(Step(p, s, input), if input.PenTick? then n + 1 else n)
  {
  }

  lemma {:induction false} WaitingRun(p: Panel, s: State, after: seq<Input>)
    requires ValidPanel(p) && Inv(p, s) && Waited(s, 0)
    requires forall i :: 0 <= i < |after| ==> Waits(after[i])
    ensures Inv(p, Run(p, s, after)) && Waited(Run(p, s, after), PenTicks(after))
    decreases |after|
  {
    if after != [] {
      var n := |after| - 1;
      var before := Run(p, s, after[..n]);
      WaitingRun(p, s, after[..n]);
      WaitedStep(p, before, PenTicks(after[..n]), after[n]);
      StepKeepsInv(p, before, after[n]);
    }
  }

  /** What the time-out is for: where it is queued, two ticks without an interrupt lift
      every finger and release the button, whatever the run before has left. */
  lemma SilenceLiftsAll(p: Panel, before: seq<Input>, after: seq<Input>)
    requires ValidPanel(p) && Run(p, Boot(p), before).sw.penQueued
    requires forall i :: 0 <= i < |after| ==> Waits(after[i])
    ensures var s := Run(p, Run(p, Boot(p), before), after);
            s.sw.penQueued && (PenTicks(after) >= 2 ==> Quiet(s))
  {
    RunKeepsInv(p, before);
    WaitingRun(p, Run(p, Boot(p), before), after);
  }

  /** And not one: what a delivered frame shows outlasts the next tick, for the frame has
      set the time-out back. */
  lemma FrameOutlastsOneTick(p: Panel, inputs: seq<Input>, frame: Option<seq<byte>>)
    requires ValidPanel(p)
    requires var s := Run(p, Boot(p), inputs); s.sw.irqDepth == 0 && !s.sw.loading
    ensures Run(p, Boot(p), inputs + [Interrupt(frame)] + [PenTick]).active
            == Run(p, Boot(p), inputs + [Interrupt(frame)]).active
  {
    RunSnoc(p, Boot(p), inputs, Interrupt(frame));
    RunSnoc(p, Boot(p), inputs + [Interrupt(frame)], PenTick);
    RunKeepsInv(p, inputs + [Interrupt(frame)]);
    ResetClears(p, Run(p, Boot(p), inputs), frame);
  }

  lemma ResetClears(p: Panel, s: State, frame: Option<seq<byte>>)
    requires ValidPanel(p) && s.sw.irqDepth == 0 && !s.sw.loading
    ensures Step(p, s, Interrupt(frame)).interval == 0
  {
  }

  predicate NextLost(w: Switches, lost: bool, input: Input) {
    if input.Suspend? && !w.suspended then w.loading else lost
  }

  /** The last suspend that met an awake device met a load. */
  predicate Lost(p: Panel, inputs: seq<Input>)
    requires ValidPanel(p)
  {
    inputs != []
    && NextLost(Run(p, Boot(p), inputs[..|inputs| - 1]).sw, Lost(p, inputs[..|inputs| - 1]), inputs[|inputs| - 1])
  }

  predicate QueuedAs(p: Panel, w: Switches, lost: bool) {
    && (w.penQueued <==> p.penCheck && !w.suspended && !lost)
    && (w.esdQueued <==> p.esdCheck && !w.suspended && !lost)
    && (w.suspended ==> !lost)
  }

  lemma QueuedStep(p: Panel, w: Switches, lost: bool, input: Input)
    requires QueuedAs(p, w, lost)
    ensures QueuedAs(p, SwitchStep(p, w, input), NextLost(w, lost, input))
  {
  }

  /** After any run the pen time-out and the ESD check are queued if and only if they are
      compiled in, the device is awake and the last suspend that met it awake met no load:
      that one was refused after it had cancelled them. */
  lemma {:induction false} QueuedExactly(p: Panel, inputs: seq<Input>)
    requires ValidPanel(p)
    ensures QueuedAs(p, Run(p, Boot(p), inputs).sw, Lost(p, inputs))
  {
    if inputs != [] {
      var n := |inputs| - 1;
      var s := Run(p, Boot(p), inputs[..n]);
      QueuedExactly(p, inputs[..n]);
      RunKeepsInv(p, inputs[..n]);
      StepSwitches(p, s, inputs[n]);
      QueuedStep(p, s.sw, Lost(p, inputs[..n]), inputs[n]);
    }
  }

  // Firmware loading ------------------------------------------------------------------

  lemma LoadingStep(p: Panel, s: State, input: Input)
    requires ValidPanel(p) && s.sw.loading && !(input.LoadEnd? && Completes(input.outcome))
    ensures var s' := Step(p, s, input);
            s'.sw.loading && s'.active <= s.active && (s'.sw.suspended ==> s.sw.suspended)
  {
    LoadingSwitches(p, s.sw, input);
    StepParts(p, s, input);
  }

  lemma LoadingSwitches(p: Panel, w: Switches, input: Input)
    requires w.loading && !(input.LoadEnd? && Completes(input.outcome))
    ensures var w' := SwitchStep(p, w, input); w'.loading && (w'.suspended ==> w.suspended)
  {
  }

  lemma StepParts(p: Panel, s: State, input: Input)
    requires ValidPanel(p) && s.sw.loading
    ensures Step(p, s, input).sw == SwitchStep(p, s.sw, input) && Step(p, s, input).active <= s.active
  {
  }

  /** From the beginning of a load, and for good after one that found no file or no
      memory, until some load completes, no frame adds a finger and the device cannot
      suspend. */
  lemma {:induction false} UnfinishedLoadDeafens(p: Panel, s: State, after: seq<Input>)
    requires ValidPanel(p) && s.sw.loading
    requires forall i :: 0 <= i < |after| ==> !(after[i].LoadEnd? && Completes(after[i].outcome))
    ensures var s' := Run(p, s, after);
            s'.sw.loading && s'.active <= s.active && (s'.sw.suspended ==> s.sw.suspended)
    decreases |after|
  {
    if after != [] {
      var n := |after| - 1;
      UnfinishedLoadDeafens(p, s, after[..n]);
      LoadingStep(p, Run(p, s, after[..n]), after[n]);
    }
  }

  /** A load that completes leaves delivery open and the flag clear, even on a device
      that was suspended before it began, and changes nothing else. */
  lemma CompletedLoadOpens(p: Panel, inputs: seq<Input>, outcome: LoadOutcome)
    requires ValidPanel(p) && Completes(outcome) && Phase(inputs).InLoad?
    ensures var s := Run(p, Boot(p), inputs);
            Run(p, Boot(p), inputs + [LoadEnd(outcome)])
            == s.(sw := s.sw.(loading := false, running := false, irqDisabled := false, irqDepth := 0))
  {
    RunKeepsInv(p, inputs);
    LoadingExactly(p, inputs);
    RunSnoc(p, Boot(p), inputs, LoadEnd(outcome));
  }
}
