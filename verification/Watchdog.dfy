/** The ESD watchdog of the touch controller: a 500 ms tick that re-arms the
    controller's own check after a reset and resets it when it falls silent. */
module Watchdog {
  import opened Bytes
  import opened TouchFrame

  const DELAY_TICKS: nat := 2
  const MAX_FAILURES: nat := 3
  const MAX_SILENCE: nat := 3

  datatype State = State(
    loading: bool,
    hostEnable: bool,
    resetFlag: bool,
    enabled: bool,
    delay: nat,
    failures: nat,
    silence: nat,
    suspended: bool,
    queued: bool)

  datatype Cause = EnableFailed | Silence | Exception

  /** Tick carries the outcome of the enable command, used only if it is sent.
      Selected stands for the other places that clear the enable flag: a reset
      pulse and the selection of a loader. */
  datatype Input =
    | Tick(enableOk: bool)
    | Touch
    | ExceptionReport
    | Selected
    | SetLoading(on: bool)
    | SetHostEnable(on: bool)
    | SetResetFlag(on: bool)
    | Suspend
    | Resume

  /** After axs_esd_check_init. */
  const STARTED: State := State(false, true, false, false, 0, 0, 0, false, true)

  predicate Checks(s: State) {
    !s.loading && s.hostEnable && !s.resetFlag
  }

  /** esd_check_func */
  function Check(s: State, enableOk: bool): (State, Option<Cause>) {
    if !Checks(s) then (s, None)
    else if !s.enabled then
      if s.delay >= DELAY_TICKS then
        if enableOk then (s.(enabled := true, silence := 0, failures := 0), None)
        else if s.failures + 1 >= MAX_FAILURES then
          (s.(silence := 0, failures := 0, enabled := false), Some(EnableFailed))
        else (s.(failures := s.failures + 1), None)
      else (s.(delay := s.delay + 1), None)
    else if s.silence + 1 >= MAX_SILENCE then
      (s.(delay := 0, failures := 0, silence := 0, enabled := false), Some(Silence))
    else (s.(delay := 0, failures := 0, silence := s.silence + 1), None)
  }

  /** The work item runs only while queued, and queues itself again. */
  function Step(s: State, input: Input): (State, Option<Cause>) {
    match input
    case Tick(ok) => if s.queued then Check(s, ok) else (s, None)
    case Touch => (if s.loading then s else s.(silence := 0), None)
    case ExceptionReport =>
      if s.loading then (s, None)
      else if s.hostEnable then (s.(silence := 0, enabled := false), Some(Exception))
      else (s.(silence := 0), None)
    case Selected => (s.(enabled := false), None)
    case SetLoading(on) => (s.(loading := on), None)
    case SetHostEnable(on) => (s.(hostEnable := on), None)
    case SetResetFlag(on) => (s.(resetFlag := on), None)
    case Suspend =>
      if s.suspended then (s, None)
      else if s.loading then (s.(queued := false, silence := 0), None)
      else (s.(queued := false, silence := 0, suspended := true), None)
    case Resume =>
      if !s.suspended then (s, None)
      else (s.(silence := 0, enabled := false, queued := true, suspended := false), None)
  }

  class Esd {
    var loading: bool
    var hostEnable: bool
    var resetFlag: bool
    var firmwareEnable: bool
    var enableDelay: nat
    var enableFailCount: nat
    var noTouchCount: nat
    var suspended: bool
    var queued: bool
    var resets: seq<Cause>

    ghost function Now(): State
      reads this
    {
      State(loading, hostEnable, resetFlag, firmwareEnable, enableDelay,
            enableFailCount, noTouchCount, suspended, queued)
    }

    /** axs_esd_check_init */
    constructor ()
      ensures Now() == STARTED && resets == []
    {
      loading, resetFlag, suspended := false, false, false;
      firmwareEnable := false;
      enableDelay := 0;
      enableFailCount := 0;
      noTouchCount := 0;
      hostEnable := true;
      queued := true;
      resets := [];
    }

    /** axs_reset_and_lcd_init, as far as the watchdog is concerned */
    method ResetAndLcdInit(cause: Cause)
      modifies this`firmwareEnable, this`resets
      ensures !firmwareEnable && resets == old(resets) + [cause]
    {
      resets := resets + [cause];
      firmwareEnable := false;
    }

    /** esd_check_func, run as a queued work item */
    method CheckFunc(enableOk: bool)
      requires queued
      modifies this
      ensures Now() == Step(old(Now()), Tick(enableOk)).0
      ensures resets == old(resets) + match Step(old(Now()), Tick(enableOk)).1 case None => [] case Some(c) => [c]
    {
      queued := false;
      if loading || !hostEnable || resetFlag {
      } else {
        if !firmwareEnable {
          if enableDelay >= DELAY_TICKS {
            if enableOk {
              firmwareEnable := true;
              noTouchCount := 0;
              enableFailCount := 0;
            } else {
              enableFailCount := enableFailCount + 1;
              if enableFailCount >= MAX_FAILURES {
                noTouchCount := 0;
                enableFailCount := 0;
                ResetAndLcdInit(EnableFailed);
              }
            }
          } else {
            enableDelay := enableDelay + 1;
          }
        } else {
          enableDelay := 0;
          enableFailCount := 0;
          noTouchCount := noTouchCount + 1;
          if noTouchCount >= MAX_SILENCE {
            noTouchCount := 0;
            ResetAndLcdInit(Silence);
          }
        }
      }
      queued := true;
    }

    /** The part of the touch interrupt the watchdog sees; `code` is the gesture byte
        of the frame, 0 for none. */
    method TouchInterrupt(code: byte)
      modifies this
      ensures Now() == Step(old(Now()), if IsException(code) then ExceptionReport else Touch).0
      ensures resets == old(resets) + if !old(loading) && old(hostEnable) && IsException(code) then [Exception] else []
    {
      if loading {
        return;
      }
      noTouchCount := 0;
      if code > 0 {
        if hostEnable {
          if IsException(code) {
            ResetAndLcdInit(Exception);
          }
        }
      }
    }

    /** The watchdog's share of axs_ts_suspend: the work is cancelled before the
        loading flag is looked at. */
    method TsSuspend()
      modifies this
      ensures Now() == Step(old(Now()), Suspend).0 && resets == old(resets)
    {
      if suspended {
        return;
      }
      queued := false;
      noTouchCount := 0;
      if loading {
        return;
      }
      suspended := true;
    }

    /** The watchdog's share of axs_ts_resume */
    method TsResume()
      modifies this
      ensures Now() == Step(old(Now()), Resume).0 && resets == old(resets)
    {
      if !suspended {
        return;
      }
      noTouchCount := 0;
      firmwareEnable := false;
      queued := true;
      suspended := false;
    }
  }

  // Runs -----------------------------------------------------------------------------

  function Run(s: State, inputs: seq<Input>): State {
    if inputs == [] then s
    else Step(Run(s, inputs[..|inputs| - 1]), inputs[|inputs| - 1]).0
  }

  predicate Bounded(s: State) {
    s.delay <= DELAY_TICKS && s.failures < MAX_FAILURES && s.silence < MAX_SILENCE
  }

  lemma StepStaysBounded(s: State, input: Input)
    requires Bounded(s)
    ensures Bounded(Step(s, input).0)
  {
  }

  /** Between steps no counter has reached its limit, so the byte-wide fields never wrap. */
  lemma {:induction false} RunStaysBounded(s: State, inputs: seq<Input>)
    requires Bounded(s)
    ensures Bounded(Run(s, inputs))
  {
    if inputs != [] {
      RunStaysBounded(s, inputs[..|inputs| - 1]);
      StepStaysBounded(Run(s, inputs[..|inputs| - 1]), inputs[|inputs| - 1]);
    }
  }

  // Liveness ---------------------------------------------------------------------------

  /** Ticks that can still pass before a reset, whatever the enable command returns. */
  function Rank(s: State): int {
    if s.enabled then MAX_SILENCE - s.silence
    else (DELAY_TICKS - s.delay) + (MAX_FAILURES - 1 - s.failures) + 1 + MAX_SILENCE
  }

  lemma RankDrops(s: State, ok: bool)
    requires Bounded(s) && s.queued && Checks(s)
    ensures 1 <= Rank(s) <= 8
    ensures var (s', cause) := Step(s, Tick(ok));
            s'.queued && Checks(s') && Bounded(s') && (cause.None? ==> Rank(s') < Rank(s))
  {
  }

  function Ticks(oks: seq<bool>): (r: seq<Input>)
    ensures |r| == |oks|
  {
    seq(|oks|, i requires 0 <= i < |oks| => Tick(oks[i]))
  }

  /** Tick k of a run of ticks resets the controller. */
  predicate ResetsAt(s: State, oks: seq<bool>, k: nat) {
    k < |oks| && Step(Run(s, Ticks(oks)[..k]), Tick(oks[k])).1.Some?
  }

  lemma {:induction false} ResetWithinRank(s: State, oks: seq<bool>, n: nat) returns (k: nat)
    requires Bounded(s) && s.queued && Checks(s) && n <= |oks|
    ensures k <= n
    ensures k < n ==> ResetsAt(s, oks, k)
    ensures k == n ==> var s' := Run(s, Ticks(oks)[..n]);
                       Bounded(s') && s'.queued && Checks(s') && Rank(s') <= Rank(s) - n
  {
    if n == 0 {
      return 0;
    }
    k := ResetWithinRank(s, oks, n - 1);
    if k == n - 1 {
      var s' := Run(s, Ticks(oks)[..n - 1]);
      RankDrops(s', oks[n - 1]);
      assert Ticks(oks)[..n][..n - 1] == Ticks(oks)[..n - 1];
      if !ResetsAt(s, oks, n - 1) {
        k := n;
      }
    }
  }

  /** From every reachable state with the check on, nothing loading and no touch, a
      reset comes within eight ticks, whatever the enable command returns. */
  lemma ResetWithinEightTicks(inputs: seq<Input>, oks: seq<bool>) returns (k: nat)
    requires var s := Run(STARTED, inputs); s.queued && Checks(s)
    requires |oks| == 8
    ensures ResetsAt(Run(STARTED, inputs), oks, k)
  {
    var s := Run(STARTED, inputs);
    RunStaysBounded(STARTED, inputs);
    RankDrops(s, true);
    k := ResetWithinRank(s, oks, 8);
    if k == 8 {
      RankDrops(Run(s, Ticks(oks)[..8]), true);
      assert false;
    }
  }

  /** Eight is needed: two ticks of delay, two failures, a success, three of silence. */
  lemma EightIsTight()
    ensures var oks := [true, true, false, false, true, true, true, true];
            forall k: nat :: k < 7 ==> !ResetsAt(STARTED, oks, k)
  {
    var oks := [true, true, false, false, true, true, true, true];
    var t := Ticks(oks);
    var s := STARTED;
    forall k: nat | k < 7
      ensures Run(STARTED, t[..k]) == Nth(k) && !ResetsAt(STARTED, oks, k)
    {
      Walk(k);
    }
  }

  function Nth(k: nat): State {
    if k <= 2 then STARTED.(delay := k)
    else if k <= 4 then STARTED.(delay := 2, failures := k - 2)
    else if k == 5 then STARTED.(delay := 2, enabled := true)
    else STARTED.(enabled := true, silence := k - 5)
  }

  lemma {:induction false} Walk(k: nat)
    requires k < 8
    ensures Run(STARTED, Ticks([true, true, false, false, true, true, true, true])[..k]) == Nth(k)
  {
    if k > 0 {
      Walk(k - 1);
      var t := Ticks([true, true, false, false, true, true, true, true]);
      assert t[..k][..k - 1] == t[..k - 1];
    }
  }

  // The cycle ------------------------------------------------------------------------------

  /** Watched, with the controller's check off and no failure counted, after d ticks of
      the delay. So it is at the start with d = 0. */
  predicate Fresh(s: State, d: nat) {
    s.queued && Checks(s) && !s.enabled && s.failures == 0 && s.delay == d <= DELAY_TICKS
  }

  function AfterTicks(s: State, oks: seq<bool>, k: nat): State
    requires k <= |oks|
  {
    Run(s, Ticks(oks)[..k])
  }

  /** The reset that tick k of a run of ticks gives. */
  function CauseAt(s: State, oks: seq<bool>, k: nat): Option<Cause>
    requires k < |oks|
  {
    Step(AfterTicks(s, oks, k), Tick(oks[k])).1
  }

  lemma NextTick(s: State, oks: seq<bool>, k: nat)
    requires k < |oks|
    ensures AfterTicks(s, oks, k + 1) == Step(AfterTicks(s, oks, k), Tick(oks[k])).0
  {
    assert Ticks(oks)[..k + 1][..k] == Ticks(oks)[..k];
  }

  /** The state while the delay runs, with k ticks gone, and while the enable command
      fails, for the j-th time. */
  lemma {:induction false} Delaying(s: State, d: nat, oks: seq<bool>, k: nat)
    requires Fresh(s, d) && d + k <= DELAY_TICKS && k <= |oks|
    ensures AfterTicks(s, oks, k) == s.(delay := d + k)
    ensures k < |oks| && d + k < DELAY_TICKS ==> CauseAt(s, oks, k) == None
  {
    if k > 0 {
      Delaying(s, d, oks, k - 1);
      NextTick(s, oks, k - 1);
    } else {
      assert Ticks(oks)[..0] == [];
    }
  }

  predicate FailsFor(oks: seq<bool>, w: nat, j: nat)
    requires w + j <= |oks|
  {
    forall i :: w <= i < w + j ==> !oks[i]
  }

  lemma {:induction false} Failing(s: State, d: nat, oks: seq<bool>, j: nat)
    requires Fresh(s, d) && j < MAX_FAILURES
    requires var w := DELAY_TICKS - d; w + j <= |oks| && FailsFor(oks, w, j)
    ensures var w := DELAY_TICKS - d;
            && AfterTicks(s, oks, w + j) == s.(delay := DELAY_TICKS, failures := j)
            && (j > 0 ==> CauseAt(s, oks, w + j - 1) == None)
  {
    var w := DELAY_TICKS - d;
    Delaying(s, d, oks, w);
    if j > 0 {
      Failing(s, d, oks, j - 1);
      NextTick(s, oks, w + j - 1);
    }
  }

  lemma {:induction false} Silent(s: State, oks: seq<bool>, k: nat, i: nat)
    requires k + i <= |oks| && i < MAX_SILENCE
    requires var s' := AfterTicks(s, oks, k);
             s'.queued && Checks(s') && s'.enabled && s'.silence == 0 && s'.failures == 0
    ensures var s' := AfterTicks(s, oks, k);
            && AfterTicks(s, oks, k + i) == (if i == 0 then s' else s'.(delay := 0, silence := i))
            && (i > 0 ==> CauseAt(s, oks, k + i - 1) == None)
  {
    if i > 0 {
      Silent(s, oks, k, i - 1);
      NextTick(s, oks, k + i - 1);
    }
  }

  /** n ticks give one reset, the last of them, for this cause. */
  predicate OneReset(s: State, oks: seq<bool>, n: nat, cause: Cause)
    requires 0 < n <= |oks|
  {
    CauseAt(s, oks, n - 1) == Some(cause) && forall k: nat :: k < n - 1 ==> CauseAt(s, oks, k) == None
  }

  /** What every run of ticks consists of. Once the delay is over the enable command is
      sent: three failures give a reset at the third, and the next command is sent without
      a delay; a success gives a reset for silence three ticks later, and the delay begins
      anew. Each part ends fresh, where the next one begins. */
  lemma CycleExactly(s: State, d: nat, oks: seq<bool>, j: nat)
    requires Fresh(s, d) && j <= MAX_FAILURES
    requires var w := DELAY_TICKS - d;
             && |oks| == w + (if j == MAX_FAILURES then j else j + 4)
             && FailsFor(oks, w, j) && (j < MAX_FAILURES ==> oks[w + j])
    ensures OneReset(s, oks, |oks|, if j == MAX_FAILURES then EnableFailed else Silence)
    ensures Fresh(AfterTicks(s, oks, |oks|), if j == MAX_FAILURES then DELAY_TICKS else 0)
    ensures AfterTicks(s, oks, |oks|).silence == 0
  {
    if j == MAX_FAILURES {
      FailedCycle(s, d, oks);
    } else {
      EnabledCycle(s, d, oks, j);
    }
  }

  lemma FailedCycle(s: State, d: nat, oks: seq<bool>)
    requires Fresh(s, d) && |oks| == DELAY_TICKS - d + MAX_FAILURES && FailsFor(oks, DELAY_TICKS - d, MAX_FAILURES)
    ensures OneReset(s, oks, |oks|, EnableFailed)
    ensures Fresh(AfterTicks(s, oks, |oks|), DELAY_TICKS) && AfterTicks(s, oks, |oks|).silence == 0
  {
    var n := |oks| - 1;
    Failing(s, d, oks, MAX_FAILURES - 1);
    NextTick(s, oks, n);
    forall k: nat | k < n ensures CauseAt(s, oks, k) == None {
      NoReset(s, d, oks, MAX_FAILURES - 1, k);
    }
  }

  lemma EnabledCycle(s: State, d: nat, oks: seq<bool>, j: nat)
    requires Fresh(s, d) && j < MAX_FAILURES
    requires var w := DELAY_TICKS - d; |oks| == w + j + 4 && FailsFor(oks, w, j) && oks[w + j]
    ensures OneReset(s, oks, |oks|, Silence)
    ensures Fresh(AfterTicks(s, oks, |oks|), 0) && AfterTicks(s, oks, |oks|).silence == 0
  {
    var m := DELAY_TICKS - d + j;
    EnablingTick(s, d, oks, j);
    SilentCycle(s, oks, m + 1);
    LastResets(s, oks, Silence) by {
      forall k: nat | k < m ensures CauseAt(s, oks, k) == None {
        NoReset(s, d, oks, j, k);
      }
      assert |oks| - 1 == m + 3;
    }
  }

  lemma LastResets(s: State, oks: seq<bool>, cause: Cause)
    requires oks != [] && CauseAt(s, oks, |oks| - 1) == Some(cause)
    requires forall k: nat :: k < |oks| - 1 ==> CauseAt(s, oks, k) == None
    ensures OneReset(s, oks, |oks|, cause)
  {
  }

  lemma EnablingTick(s: State, d: nat, oks: seq<bool>, j: nat)
    requires Fresh(s, d) && j < MAX_FAILURES
    requires var w := DELAY_TICKS - d; w + j < |oks| && FailsFor(oks, w, j) && oks[w + j]
    ensures var m := DELAY_TICKS - d + j;
            && CauseAt(s, oks, m) == None
            && AfterTicks(s, oks, m + 1) == s.(delay := DELAY_TICKS, enabled := true, silence := 0)
  {
    Failing(s, d, oks, j);
    NextTick(s, oks, DELAY_TICKS - d + j);
  }

  lemma NoReset(s: State, d: nat, oks: seq<bool>, j: nat, k: nat)
    requires Fresh(s, d) && j < MAX_FAILURES
    requires var w := DELAY_TICKS - d; w + j <= |oks| && FailsFor(oks, w, j) && k < w + j
    ensures CauseAt(s, oks, k) == None
  {
    var w := DELAY_TICKS - d;
    if k < w {
      Delaying(s, d, oks, k);
    } else {
      Failing(s, d, oks, k - w + 1);
    }
  }

  lemma SilentCycle(s: State, oks: seq<bool>, k: nat)
    requires k + MAX_SILENCE == |oks|
    requires var s' := AfterTicks(s, oks, k);
             s'.queued && Checks(s') && s'.enabled && s'.silence == 0 && s'.failures == 0
    ensures CauseAt(s, oks, k) == None && CauseAt(s, oks, k + 1) == None && CauseAt(s, oks, k + 2) == Some(Silence)
    ensures Fresh(AfterTicks(s, oks, k + 3), 0) && AfterTicks(s, oks, k + 3).silence == 0
  {
    Silent(s, oks, k, 1);
    Silent(s, oks, k, 2);
    NextTick(s, oks, k + 2);
  }

  /** The tick sends the enable command with success. */
  predicate Enables(s: State, input: Input) {
    input.Tick? && input.enableOk && s.queued && Checks(s) && s.delay >= DELAY_TICKS
  }

  /** The controller's check goes off: any reset, the selection of a loader, a resume. */
  predicate Disarms(s: State, input: Input) {
    Step(s, input).1.Some? || input.Selected? || (input.Resume? && s.suspended)
  }

  predicate Armed(inputs: seq<Input>) {
    inputs != []
    && var n := |inputs| - 1;
       var s := Run(STARTED, inputs[..n]);
       !Disarms(s, inputs[n]) && (Armed(inputs[..n]) || Enables(s, inputs[n]))
  }

  lemma ArmedStep(s: State, input: Input)
    ensures Step(s, input).0.enabled <==> !Disarms(s, input) && (s.enabled || Enables(s, input))
  {
  }

  /** After any run the controller's check counts as enabled if and only if the enable
      command has succeeded and no reset, selection or resume came after it. */
  lemma {:induction false} EnabledExactly(inputs: seq<Input>)
    ensures Run(STARTED, inputs).enabled <==> Armed(inputs)
  {
    if inputs != [] {
      var n := |inputs| - 1;
      EnabledExactly(inputs[..n]);
      ArmedStep(Run(STARTED, inputs[..n]), inputs[n]);
    }
  }

  /** Nothing but a tick moves the delay and the failure count, and nothing but a tick
      switches the controller's check on. */
  lemma OnlyTicksCount(s: State, input: Input)
    requires !input.Tick?
    ensures var s' := Step(s, input).0; s'.delay == s.delay && s'.failures == s.failures && (s'.enabled ==> s.enabled)
  {
  }

  // Soundness --------------------------------------------------------------------------

  predicate BreaksSilence(s: State, input: Input) {
    (input.Touch? || input.ExceptionReport?) && !s.loading
  }

  predicate FindsEnabled(s: State, input: Input) {
    input.Tick? && s.queued && Checks(s) && s.enabled
  }

  /** Ticks since the last touch that found the controller's check enabled. */
  function QuietTicks(s: State, inputs: seq<Input>): nat {
    if inputs == [] then 0
    else
      var init, last := inputs[..|inputs| - 1], inputs[|inputs| - 1];
      if BreaksSilence(Run(s, init), last) then 0
      else QuietTicks(s, init) + if FindsEnabled(Run(s, init), last) then 1 else 0
  }

  lemma SilenceStep(s: State, input: Input)
    ensures var silence := Step(s, input).0.silence;
            if BreaksSilence(s, input) then silence == 0
            else silence <= s.silence + if FindsEnabled(s, input) then 1 else 0
  {
  }

  lemma {:induction false} SilenceIsQuiet(s: State, inputs: seq<Input>)
    requires s.silence == 0
    ensures Run(s, inputs).silence <= QuietTicks(s, inputs)
  {
    if inputs != [] {
      var n := |inputs| - 1;
      SilenceIsQuiet(s, inputs[..n]);
      SilenceStep(Run(s, inputs[..n]), inputs[n]);
    }
  }

  /** The controller is reset for silence only when no touch came since before the
      last three ticks that found it enabled, the resetting tick among them. */
  lemma SilenceResetIsSound(inputs: seq<Input>, ok: bool)
    requires Step(Run(STARTED, inputs), Tick(ok)).1 == Some(Silence)
    ensures QuietTicks(STARTED, inputs + [Tick(ok)]) >= 3
  {
    SilenceIsQuiet(STARTED, inputs);
    assert (inputs + [Tick(ok)])[..|inputs|] == inputs;
  }

  /** The silence begins anew: a touch that is not dropped, an enable command that succeeds,
      a reset, a suspend or resume that is not void. */
  predicate BreaksOff(s: State, input: Input) {
    || BreaksSilence(s, input) || (Enables(s, input) && !s.enabled) || Step(s, input).1.Some?
    || (input.Suspend? && !s.suspended) || (input.Resume? && s.suspended)
  }

  /** Ticks that found the check enabled since the silence last began. */
  function SilentTicks(inputs: seq<Input>): nat {
    if inputs == [] then 0
    else
      var n := |inputs| - 1;
      var s := Run(STARTED, inputs[..n]);
      if BreaksOff(s, inputs[n]) then 0
      else SilentTicks(inputs[..n]) + if FindsEnabled(s, inputs[n]) then 1 else 0
  }

  lemma SilenceCounts(s: State, input: Input)
    requires Bounded(s)
    ensures Step(s, input).0.silence
            == if BreaksOff(s, input) then 0 else s.silence + if FindsEnabled(s, input) then 1 else 0
    ensures Step(s, input).1 == Some(Silence) <==> FindsEnabled(s, input) && s.silence == 2
  {
  }

  /** The controller is reset for silence exactly by the third tick since the silence began
      that finds its check enabled. */
  lemma {:induction false} SilenceResetExactly(inputs: seq<Input>, input: Input)
    ensures Run(STARTED, inputs).silence == SilentTicks(inputs)
    ensures Step(Run(STARTED, inputs), input).1 == Some(Silence)
            <==> FindsEnabled(Run(STARTED, inputs), input) && SilentTicks(inputs) == 2
  {
    RunStaysBounded(STARTED, inputs);
    SilenceCounts(Run(STARTED, inputs), input);
    if inputs != [] {
      var n := |inputs| - 1;
      SilenceResetExactly(inputs[..n], inputs[n]);
      RunStaysBounded(STARTED, inputs[..n]);
      SilenceCounts(Run(STARTED, inputs[..n]), inputs[n]);
    }
  }

  // Suspend during a load ----------------------------------------------------------------

  predicate NextLost(s: State, lost: bool, input: Input) {
    if input.Suspend? && !s.suspended then s.loading else lost
  }

  /** The last suspend that met an awake device met a load. */
  predicate Lost(inputs: seq<Input>) {
    inputs != [] && NextLost(Run(STARTED, inputs[..|inputs| - 1]), Lost(inputs[..|inputs| - 1]), inputs[|inputs| - 1])
  }

  predicate Watched(s: State, lost: bool) {
    (s.queued <==> !s.suspended && !lost) && (s.suspended ==> !lost)
  }

  lemma WatchedStep(s: State, lost: bool, input: Input)
    requires Watched(s, lost)
    ensures Watched(Step(s, input).0, NextLost(s, lost, input))
  {
  }

  /** An awake device is watched if and only if the last suspend that met it awake met
      no load: such a suspend is refused after the work was cancelled, and only a later
      suspend and resume queue the work again. A suspended device is never watched. */
  lemma {:induction false} WatchedExactly(inputs: seq<Input>)
    ensures var s := Run(STARTED, inputs);
            (s.queued <==> !s.suspended && !Lost(inputs)) && (s.suspended ==> !Lost(inputs))
  {
    if inputs != [] {
      var n := |inputs| - 1;
      WatchedExactly(inputs[..n]);
      WatchedStep(Run(STARTED, inputs[..n]), Lost(inputs[..n]), inputs[n]);
    }
  }

  /** A suspend refused because of a load leaves the device awake, and until a later
      suspend nothing queues the work again: no resume, and no tick, ever resets. */
  lemma {:induction false} SuspendWhileLoadingStopsWatchdog(s: State, after: seq<Input>)
    requires s.loading && !s.suspended
    requires forall i :: 0 <= i < |after| ==> !after[i].Suspend?
    ensures var s' := Run(Step(s, Suspend).0, after);
            !s'.queued && !s'.suspended && forall ok :: Step(s', Tick(ok)).1.None?
  {
    if after != [] {
      SuspendWhileLoadingStopsWatchdog(s, after[..|after| - 1]);
    }
  }
}
