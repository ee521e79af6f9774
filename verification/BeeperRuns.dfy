/** Whole runs of the beeper: timer safety, pulse counting and pulse spacing. */
module BeeperRuns {
  import opened Bytes
  import opened Beeper

  function Run(s: State, inputs: seq<Input>): State {
    if inputs == [] then s
    else Step(Run(s, inputs[..|inputs| - 1]), inputs[|inputs| - 1])
  }

  lemma RunSnoc(s: State, inputs: seq<Input>, input: Input)
    ensures Run(s, inputs + [input]) == Step(Run(s, inputs), input)
  {
    assert (inputs + [input])[..|inputs|] == inputs;
  }

  lemma StepKeepsInv(s: State, input: Input)
    requires Inv(s)
    ensures Inv(Step(s, input))
  {
  }

  /** In every reachable state the status flag is 1 exactly when the timer is pending,
      so a pending timer is never added again, and a pending timer has both delays
      in range, so the handler's own defaults are never used. */
  lemma {:induction false} RunKeepsInv(inputs: seq<Input>)
    ensures Inv(Run(LOADED, inputs))
  {
    if inputs != [] {
      RunKeepsInv(inputs[..|inputs| - 1]);
      StepKeepsInv(Run(LOADED, inputs[..|inputs| - 1]), inputs[|inputs| - 1]);
    }
  }

  // Counting ---------------------------------------------------------------------------

  /** n expiries of the timer with no command between them. */
  function Fires(s: State, n: nat): State {
    if n == 0 then s else Step(Fires(s, n - 1), Fire)
  }

  /** The counter value that stops the handler, if a 32-bit counter can ever hold it. */
  function StopValue(target: nat): Option<int> {
    if target == 0 then None
    else if target < INT_END then Some(target)
    else if target >= LONG_RANGE + INT_MIN && target < LONG_RANGE then Some(target - LONG_RANGE)
    else None
  }

  /** Increments of a wrapping counter from k until it equals t: at least one. */
  function Distance(t: int, k: int): (d: nat)
    ensures 1 <= d <= INT_RANGE
  {
    (t - k - 1) % INT_RANGE + 1
  }

  lemma StopsAt(target: nat, n: int)
    requires 0 < target < LONG_RANGE && INT_MIN <= n < INT_END
    ensures target == AsUnsignedLong(n) <==> StopValue(target) == Some(n)
  {
  }

  lemma WrapNext(k: int)
    ensures Wrap(Wrap(k) + 1) == Wrap(k + 1)
  {
    var x := k - INT_MIN;
    ModStep(x);
  }

  lemma ModStep(x: int)
    ensures (x % INT_RANGE + 1) % INT_RANGE == (x + 1) % INT_RANGE
  {
    var q, r := x / INT_RANGE, x % INT_RANGE;
    assert x + 1 == q * INT_RANGE + (r + 1);
    if r + 1 == INT_RANGE {
      assert x + 1 == (q + 1) * INT_RANGE;
    }
  }

  /** The wrapped counter meets t after exactly Distance(t, k) increments, not before. */
  lemma MeetsFirst(t: int, k: int, n: nat)
    requires INT_MIN <= t < INT_END && INT_MIN <= k < INT_END && 1 <= n <= Distance(t, k)
    ensures Wrap(k + n) == t <==> n == Distance(t, k)
  {
    if k + n < INT_END {
      assert Wrap(k + n) == k + n;
    } else {
      assert (k + n - INT_MIN) == INT_RANGE + (k + n - INT_END);
      assert Wrap(k + n) == k + n - INT_RANGE;
    }
    if t > k {
      assert Distance(t, k) == t - k;
    } else {
      assert (t - k - 1) + INT_RANGE < INT_RANGE;
      assert Distance(t, k) == t - k + INT_RANGE;
    }
  }

  /** j increments from k give the value that stops the handler. */
  predicate Meets(target: nat, k: int, j: nat) {
    StopValue(target) == Some(Wrap(k + j))
  }

  /** One expiry moves the counter on by one and stops exactly at the target. */
  lemma FireCounts(s: State, k: int)
    requires Inv(s) && s.timer.Some? && s.target != 0 && s.count == Wrap(k)
    ensures var s' := Step(s, Fire);
            if StopValue(s.target) == Some(Wrap(k + 1)) then s'.timer.None? && s'.status == 0 && s'.count == 0
            else s'.timer.Some? && s'.target == s.target && s'.count == Wrap(k + 1) && Inv(s')
  {
    WrapNext(k);
    StopsAt(s.target, Wrap(k + 1));
    StepKeepsInv(s, Fire);
  }

  lemma {:induction false} StillFiring(s: State, n: nat)
    requires Inv(s) && s.timer.Some? && s.target != 0
    requires forall j: nat :: 1 <= j <= n ==> !Meets(s.target, s.count, j)
    ensures var s' := Fires(s, n);
            Inv(s') && s'.timer.Some? && s'.target == s.target && s'.count == Wrap(s.count + n)
  {
    if n > 0 {
      StillFiring(s, n - 1);
      assert !Meets(s.target, s.count, n);
      FireCounts(Fires(s, n - 1), s.count + (n - 1));
    } else {
      assert Wrap(s.count) == s.count;
    }
  }

  lemma StopsAfter(s: State, d: nat)
    requires Inv(s) && s.timer.Some? && s.target != 0 && d >= 1
    requires forall j: nat :: 1 <= j < d ==> !Meets(s.target, s.count, j)
    requires Meets(s.target, s.count, d)
    ensures forall n: nat :: n < d ==> Fires(s, n).timer.Some?
    ensures Fires(s, d).timer.None? && Fires(s, d).status == 0 && Fires(s, d).count == 0
  {
    forall n: nat | n < d ensures Fires(s, n).timer.Some? {
      StillFiring(s, n);
    }
    StillFiring(s, d - 1);
    FireCounts(Fires(s, d - 1), s.count + (d - 1));
  }

  lemma FiresUpTo(s: State)
    requires Inv(s) && s.timer.Some? && StopValue(s.target).Some?
    ensures var d := Distance(StopValue(s.target).value, s.count);
            && (forall n: nat :: n < d ==> Fires(s, n).timer.Some?)
            && Fires(s, d).timer.None? && Fires(s, d).status == 0 && Fires(s, d).count == 0
  {
    var t := StopValue(s.target).value;
    var d := Distance(t, s.count);
    forall j: nat | 1 <= j <= d ensures Meets(s.target, s.count, j) <==> j == d {
      MeetsFirst(t, s.count, j);
    }
    StopsAfter(s, d);
  }

  lemma {:induction false} IdleStays(s: State, d: nat, n: nat)
    requires Fires(s, d).timer.None? && d <= n
    ensures Fires(s, n) == Fires(s, d)
  {
    if d < n {
      IdleStays(s, d, n - 1);
    }
  }

  lemma ShortDistance(n: nat, k: int)
    requires INT_MIN <= k < n < INT_END && n - k <= INT_RANGE
    ensures Distance(n, k) == n - k
  {
  }

  // Runs without commands ----------------------------------------------------------------

  /** Timer expiries and pulse ends, in any order. */
  predicate CommandFree(inputs: seq<Input>) {
    forall i :: 0 <= i < |inputs| ==> !inputs[i].Write?
  }

  function Expiries(inputs: seq<Input>): nat {
    if inputs == [] then 0 else Expiries(inputs[..|inputs| - 1]) + if inputs[|inputs| - 1].Fire? then 1 else 0
  }

  /** The states differ at most in the clock, the due times and the sound. */
  predicate SameCounting(s: State, t: State) {
    && (s.timer.Some? <==> t.timer.Some?) && s.status == t.status && s.target == t.target && s.count == t.count
    && s.delayOff == t.delayOff && s.delayOn == t.delayOn
  }

  lemma SameAfterFire(s: State, t: State)
    requires SameCounting(s, t)
    ensures SameCounting(Step(s, Fire), Step(t, Fire))
  {
  }

  /** Pulse ends between the expiries, wherever they come, do not touch the counting. */
  lemma {:induction false} PulseEndsDoNotCount(s: State, inputs: seq<Input>)
    requires CommandFree(inputs)
    ensures SameCounting(Run(s, inputs), Fires(s, Expiries(inputs)))
  {
    if inputs != [] {
      var n := |inputs| - 1;
      PulseEndsDoNotCount(s, inputs[..n]);
      if inputs[n].Fire? {
        SameAfterFire(Run(s, inputs[..n]), Fires(s, Expiries(inputs[..n])));
      }
    }
  }

  /** With the static count at k and a target a 32-bit counter can reach, the timer is
      pending in every command-free run until it has expired exactly Distance times,
      and idle with the count back at 0 from then on. For k below N that is N - k times. */
  lemma FiresExactly(s: State, inputs: seq<Input>)
    requires Inv(s) && s.timer.Some? && StopValue(s.target).Some? && CommandFree(inputs)
    ensures var d := Distance(StopValue(s.target).value, s.count);
            var s' := Run(s, inputs);
            && (s'.timer.Some? <==> Expiries(inputs) < d)
            && (s'.timer.None? ==> s'.status == 0 && s'.count == 0)
            && (s.count < s.target < INT_END ==> d == s.target - s.count)
  {
    var d, n := Distance(StopValue(s.target).value, s.count), Expiries(inputs);
    FiresUpTo(s);
    PulseEndsDoNotCount(s, inputs);
    if n >= d {
      IdleStays(s, d, n);
    }
    if s.count < s.target < INT_END {
      ShortDistance(s.target, s.count);
    }
  }

  lemma {:induction false} FiresOn(s: State, n: nat)
    requires Inv(s) && s.timer.Some? && StopValue(s.target).None?
    ensures Fires(s, n).timer.Some? && Inv(Fires(s, n)) && Fires(s, n).target == s.target
  {
    if s.target != 0 {
      StillFiring(s, n);
    } else if n > 0 {
      FiresOn(s, n - 1);
      StepKeepsInv(Fires(s, n - 1), Fire);
    }
  }

  /** With no target, or one that no 32-bit counter equals, no command-free run stops it. */
  lemma FiresForever(s: State, inputs: seq<Input>)
    requires Inv(s) && s.timer.Some? && StopValue(s.target).None? && CommandFree(inputs)
    ensures Run(s, inputs).timer.Some? && Run(s, inputs).target == s.target
  {
    FiresOn(s, Expiries(inputs));
    PulseEndsDoNotCount(s, inputs);
  }

  /** No command touches the static count, and none but rep the target: a rep cut
      short leaves both behind, for a later timer or rep to start from. */
  lemma CommandsKeepCount(s: State, cmd: Command, time: nat)
    ensures Step(s, Write(cmd, time)).count == s.count
    ensures !cmd.Rep? ==> Step(s, Write(cmd, time)).target == s.target
  {
  }

  /** rep n cut short after m pulses: the next rep n gives n - m pulses instead of n,
      and the timer command, which should never end, ends after n - m as well, whatever
      the delays and wherever the pulses end. */
  lemma InterruptedRepShortensTheNext(s: State, n: nat, off: nat, on: nat, first: seq<Input>, stop: Command,
                                      again: Command, t1: nat, t2: nat, t3: nat, rest: seq<Input>)
    requires Inv(s) && s.timer.None? && s.count == 0 && InRange(off) && InRange(on)
    requires CommandFree(first) && CommandFree(rest) && 0 < Expiries(first) < n < INT_END
    requires stop == On || stop == Off || stop == One
    requires again == Rep(n, off, on) || again == Timer(off, on)
    ensures var cut := Step(Run(Step(s, Write(Rep(n, off, on), t1)), first), Write(stop, t2));
            Run(Step(cut, Write(again, t3)), rest).timer.Some? <==> Expiries(rest) < n - Expiries(first)
  {
    var s1 := Step(s, Write(Rep(n, off, on), t1));
    StepKeepsInv(s, Write(Rep(n, off, on), t1));
    PartWay(s1, n, Expiries(first));
    PulseEndsDoNotCount(s1, first);
    CommandFreeKeepsInv(s1, first);
    var s2 := Run(s1, first);
    var cut := Step(s2, Write(stop, t2));
    StepKeepsInv(s2, Write(stop, t2));
    StepKeepsInv(cut, Write(again, t3));
    FiresExactly(Step(cut, Write(again, t3)), rest);
  }

  lemma {:induction false} CommandFreeKeepsInv(s: State, inputs: seq<Input>)
    requires Inv(s)
    ensures Inv(Run(s, inputs))
  {
    if inputs != [] {
      CommandFreeKeepsInv(s, inputs[..|inputs| - 1]);
      StepKeepsInv(Run(s, inputs[..|inputs| - 1]), inputs[|inputs| - 1]);
    }
  }

  lemma PartWay(s: State, n: nat, m: nat)
    requires Inv(s) && s.timer.Some? && s.target == n && s.count == 0 && m < n < INT_END
    ensures var s' := Fires(s, m); Inv(s') && s'.target == n && s'.count == m
  {
    forall j: nat | 1 <= j <= m ensures !Meets(n, 0, j) {
      MeetsFirst(n, 0, j);
      ShortDistance(n, 0);
    }
    StillFiring(s, m);
    assert Wrap(m) == m;
  }

  // Spacing ------------------------------------------------------------------------------

  /** The next thing that happens if no command comes: whatever is due first. */
  function NextDue(s: State): Option<Input> {
    match (s.timer, s.offWork)
    case (None, None) => None
    case (Some(_), None) => Some(Fire)
    case (None, Some(_)) => Some(OffDue)
    case (Some(t), Some(u)) => if u <= t then Some(OffDue) else Some(Fire)
  }

  function Undisturbed(s: State, n: nat): State {
    if n == 0 then s
    else
      var before := Undisturbed(s, n - 1);
      match NextDue(before)
      case None => before
      case Some(input) => Step(before, input)
  }

  /** What happens undisturbed is one of the command-free runs, so the counts above are
      counts of it. */
  lemma {:induction false} UndisturbedIsCommandFree(s: State, n: nat) returns (inputs: seq<Input>)
    ensures CommandFree(inputs) && Run(s, inputs) == Undisturbed(s, n)
  {
    inputs := [];
    if n > 0 {
      inputs := UndisturbedIsCommandFree(s, n - 1);
      var next := NextDue(Undisturbed(s, n - 1));
      if next.Some? {
        RunSnoc(s, inputs, next.value);
        inputs := inputs + [next.value];
      }
    }
  }

  /** Whenever the handler is about to fire the beeper is silent: the pulse before it
      has been switched off. */
  ghost predicate PulsesAreApart(s: State) {
    forall n: nat :: SilentAtFire(Undisturbed(s, n))
  }

  predicate SilentAtFire(s: State) {
    NextDue(s) == Some(Fire) ==> !s.beeping
  }

  /** What is due next only puts off what comes after it. */
  lemma {:induction false} UndisturbedShift(s: State, n: nat)
    requires NextDue(s).Some?
    ensures Undisturbed(Step(s, NextDue(s).value), n) == Undisturbed(s, n + 1)
  {
    if n > 0 {
      UndisturbedShift(s, n - 1);
    } else {
      assert Undisturbed(s, 0) == s;
    }
  }

  /** The beeper is off, or it is to be switched off before the timer expires. */
  predicate Tidy(s: State) {
    && (s.offWork.None? ==> !s.beeping)
    && (s.offWork.Some? && s.timer.Some? ==> s.offWork.value <= s.timer.value)
  }

  lemma TidyStep(s: State)
    requires Inv(s) && Tidy(s) && NextDue(s).Some?
    ensures var s' := Step(s, NextDue(s).value); Inv(s') && Tidy(s')
  {
  }

  lemma {:induction false} TidyStays(s: State, n: nat)
    requires Inv(s) && Tidy(s)
    ensures Inv(Undisturbed(s, n)) && Tidy(Undisturbed(s, n))
  {
    if n > 0 {
      TidyStays(s, n - 1);
      if NextDue(Undisturbed(s, n - 1)).Some? {
        TidyStep(Undisturbed(s, n - 1));
      }
    }
  }

  lemma TidyIsApart(s: State)
    requires Inv(s) && Tidy(s)
    ensures PulsesAreApart(s)
  {
    forall n: nat ensures SilentAtFire(Undisturbed(s, n)) {
      TidyStays(s, n);
    }
  }

  lemma ApartAfter(s: State)
    requires NextDue(s).Some?
    ensures PulsesAreApart(s) <==> SilentAtFire(s) && PulsesAreApart(Step(s, NextDue(s).value))
  {
    var s' := Step(s, NextDue(s).value);
    forall n: nat ensures Undisturbed(s', n) == Undisturbed(s, n + 1) {
      UndisturbedShift(s, n);
    }
    if SilentAtFire(s) && PulsesAreApart(s') {
      forall n: nat ensures SilentAtFire(Undisturbed(s, n)) {
        assert n > 0 ==> SilentAtFire(Undisturbed(s', n - 1));
      }
    }
    if PulsesAreApart(s) {
      assert SilentAtFire(Undisturbed(s, 0));
    }
  }

  /** With the timer due at `due`: the beeper is silent, or a switch-off is queued for no
      later than that. A switch-off queued for later than that is harmless if the beeper is
      silent and it comes before the second expiry, or no second expiry follows. The pulse
      that the first expiry begins is then ended by it. */
  predicate WillBeApart(s: State, due: nat) {
    match s.offWork
    case None => !s.beeping
    case Some(u) =>
      || u <= due
      || (!s.beeping && (Meets(s.target, s.count, 1) || u <= Later(s.now, due) + s.delayOff + s.delayOn))
  }

  /** With the timer pending, that is exactly when every pulse is over before the next
      one begins. */
  lemma ApartExactly(s: State)
    requires Inv(s) && s.timer.Some?
    ensures PulsesAreApart(s) <==> WillBeApart(s, s.timer.value)
  {
    if Tidy(s) {
      TidyIsApart(s);
    } else if s.beeping {
      assert !SilentAtFire(Undisturbed(s, 0));
    } else {
      var s' := Step(s, Fire);
      FirstExpiry(s);
      ApartAfter(s);
      if Tidy(s') {
        TidyIsApart(s');
      } else {
        assert !SilentAtFire(Undisturbed(s', 0));
      }
    }
  }

  lemma FirstExpiry(s: State)
    requires Inv(s) && s.timer.Some?
    ensures var s' := Step(s, Fire);
            && Inv(s') && s'.beeping && s'.offWork.Some?
            && (s.offWork.Some? ==> s'.offWork == s.offWork)
            && s'.timer == if Meets(s.target, s.count, 1) then None
                           else Some(Later(s.now, s.timer.value) + s.delayOff + s.delayOn)
  {
    StepKeepsInv(s, Fire);
    if s.target != 0 {
      StopsAt(s.target, Wrap(s.count + 1));
    }
  }

  predicate Starts(cmd: Command) {
    match cmd
    case Timer(off, on) => InRange(off) && InRange(on)
    case Rep(_, off, on) => InRange(off) && InRange(on)
    case _ => false
  }

  /** At the command that starts an idle timer, in terms of the state before it. */
  lemma StartIsApartExactly(s: State, cmd: Command, time: nat)
    requires Inv(s) && s.timer.None? && Starts(cmd)
    ensures var first := Later(s.now, time) + START_DELAY;
            var target := if cmd.Rep? then cmd.n % LONG_RANGE else s.target;
            PulsesAreApart(Step(s, Write(cmd, time))) <==>
            match s.offWork
            case None => !s.beeping
            case Some(u) =>
              || u <= first
              || (!s.beeping && (Meets(target, s.count, 1) || u <= first + cmd.off + cmd.on))
  {
    StepKeepsInv(s, Write(cmd, time));
    ApartExactly(Step(s, Write(cmd, time)));
  }

  lemma RunOfTwo(first: Command, second: Command)
    ensures Run(LOADED, [Write(first, 0), Write(second, 0)]) == Step(Step(LOADED, Write(first, 0)), Write(second, 0))
  {
    RunSnoc(LOADED, [], Write(first, 0));
    RunSnoc(LOADED, [Write(first, 0)], Write(second, 0));
    assert [Write(first, 0)] + [Write(second, 0)] == [Write(first, 0), Write(second, 0)];
    assert [] + [Write(first, 0)] == [Write(first, 0)];
  }

  /** A timer that is started during a single pulse, or while the beeper is switched on,
      fires into the sound, whatever its delays. */
  lemma StartDuringSoundOverlaps(off: nat, on: nat)
    requires InRange(off) && InRange(on)
    ensures !PulsesAreApart(Run(LOADED, [Write(One, 0), Write(Timer(off, on), 0)]))
    ensures !PulsesAreApart(Run(LOADED, [Write(On, 0), Write(Timer(off, on), 0)]))
  {
    forall first | first == On || first == One
      ensures !PulsesAreApart(Run(LOADED, [Write(first, 0), Write(Timer(off, on), 0)]))
    {
      RunOfTwo(first, Timer(off, on));
      StepKeepsInv(LOADED, Write(first, 0));
      StartIsApartExactly(Step(LOADED, Write(first, 0)), Timer(off, on), 0);
    }
  }

  /** The off command silences a single pulse but leaves its switch-off queued. A timer
      that is started then keeps its pulses apart exactly if its second expiry comes no
      earlier than that switch-off: with shorter delays it fires into its own first pulse. */
  lemma OffLeavesSwitchOffQueued(off: nat, on: nat)
    requires InRange(off) && InRange(on)
    ensures PulsesAreApart(Run(LOADED, [Write(One, 0), Write(Off, 0), Write(Timer(off, on), 0)]))
            <==> off + on >= ONE_PULSE - START_DELAY
  {
    var i := [Write(One, 0), Write(Off, 0)];
    RunOfTwo(One, Off);
    RunSnoc(LOADED, i, Write(Timer(off, on), 0));
    assert i + [Write(Timer(off, on), 0)] == [Write(One, 0), Write(Off, 0), Write(Timer(off, on), 0)];
    var s := Step(Step(LOADED, Write(One, 0)), Write(Off, 0));
    assert s == LOADED.(offWork := Some(ONE_PULSE));
    StartIsApartExactly(s, Timer(off, on), 0);
  }

  // Sound ----------------------------------------------------------------------------------

  lemma {:induction false} NothingDue(s: State, m: nat, n: nat)
    requires m <= n && NextDue(Undisturbed(s, m)).None?
    ensures Undisturbed(s, n) == Undisturbed(s, m)
  {
    if m < n {
      NothingDue(s, m, n - 1);
    }
  }

  /** Silent, with the timer due and nothing else. */
  predicate Armed(s: State) {
    Inv(s) && s.timer.Some? && s.now <= s.timer.value && !s.beeping && s.offWork.None?
  }

  /** When expiry n, counted from 0, comes. */
  function Due(s: State, n: nat): nat
    requires Armed(s)
  {
    s.timer.value + n * (s.delayOff + s.delayOn)
  }

  lemma DueNext(s: State, n: nat)
    requires Armed(s)
    ensures Due(s, n + 1) == Due(s, n) + s.delayOff + s.delayOn
  {
  }

  /** Expiry n, counted from 0, leaves the timer running. */
  predicate Continues(s: State, n: nat) {
    !Meets(s.target, s.count, n + 1)
  }

  /** What expiry n and the switch-off after it make of a state. */
  lemma OnePulse(s: State)
    requires Armed(s)
    ensures var on := Step(s, Fire);
            && NextDue(s) == Some(Fire) && on.beeping && on.now == s.timer.value && NextDue(on) == Some(OffDue)
            && var off := Step(on, OffDue);
               && !off.beeping && off.offWork.None? && off.now == s.timer.value + s.delayOn && Inv(off)
               && off.target == s.target && off.delayOff == s.delayOff && off.delayOn == s.delayOn
               && (Meets(s.target, s.count, 1) ==> off.timer.None?)
               && (!Meets(s.target, s.count, 1) ==>
                     off.timer == Some(s.timer.value + s.delayOff + s.delayOn)
                     && off.count == if s.target == 0 then s.count else Wrap(s.count + 1))
  {
    FirstExpiry(s);
    StepKeepsInv(s, Fire);
    StepKeepsInv(Step(s, Fire), OffDue);
    if s.target != 0 {
      StopsAt(s.target, Wrap(s.count + 1));
    }
  }

  /** n pulses of a run that started as `s` are over, and the next is to come. */
  predicate Between(s: State, w: State, n: nat)
    requires Armed(s)
  {
    && Armed(w) && w.timer.value == Due(s, n)
    && w.target == s.target && w.delayOff == s.delayOff && w.delayOn == s.delayOn
    && w.count == if s.target == 0 then s.count else Wrap(s.count + n)
  }

  lemma NextPulse(s: State, w: State, n: nat)
    requires Armed(s) && Between(s, w, n)
    ensures var off := Step(Step(w, Fire), OffDue);
            if Continues(s, n) then Between(s, off, n + 1) else NextDue(off).None?
  {
    OnePulse(w);
    DueNext(s, n);
    if s.target != 0 {
      WrapAdds(s.count, n);
    }
  }

  lemma TwoMore(s: State, n: nat)
    requires NextDue(Undisturbed(s, 2 * n)) == Some(Fire) && NextDue(Step(Undisturbed(s, 2 * n), Fire)) == Some(OffDue)
    ensures Undisturbed(s, 2 * n + 1) == Step(Undisturbed(s, 2 * n), Fire)
    ensures Undisturbed(s, 2 * n + 2) == Step(Step(Undisturbed(s, 2 * n), Fire), OffDue)
  {
    assert Undisturbed(s, 2 * n + 1) == Step(Undisturbed(s, 2 * n), Fire);
  }

  lemma {:induction false} PulsesBefore(s: State, n: nat)
    requires Armed(s)
    requires forall j: nat :: j < n ==> Continues(s, j)
    ensures Between(s, Undisturbed(s, 2 * n), n)
  {
    if n == 0 {
      NoPulse(s);
    } else {
      var k := n - 1;
      PulsesBefore(s, k);
      assert Continues(s, k);
      var w := Undisturbed(s, 2 * k);
      OnePulse(w);
      TwoMore(s, k);
      NextPulse(s, w, k);
      assert 2 * k + 2 == 2 * n;
    }
  }

  lemma NoPulse(s: State)
    requires Armed(s)
    ensures Between(s, s, 0)
  {
    assert Wrap(s.count) == s.count;
  }

  lemma WrapAdds(k: int, n: nat)
    ensures Wrap(Wrap(k + n) + 1) == Wrap(k + n + 1)
  {
    WrapNext(k + n);
  }

  /** Pulse n, counted from 0, begins when its expiry comes and lasts the time it is given. */
  predicate SoundsOnTime(s: State, n: nat)
    requires Armed(s)
  {
    var on, off := Undisturbed(s, 2 * n + 1), Undisturbed(s, 2 * n + 2);
    && on.beeping && on.now == s.timer.value + n * (s.delayOff + s.delayOn)
    && !off.beeping && off.now == s.timer.value + n * (s.delayOff + s.delayOn) + s.delayOn
  }

  lemma PulseIsOnTime(s: State, n: nat)
    requires Armed(s)
    requires forall j: nat :: j < n ==> Continues(s, j)
    ensures SoundsOnTime(s, n)
    ensures !Continues(s, n) ==> NextDue(Undisturbed(s, 2 * n + 2)).None?
  {
    PulsesBefore(s, n);
    var w := Undisturbed(s, 2 * n);
    OnePulse(w);
    TwoMore(s, n);
    NextPulse(s, w, n);
  }

  lemma LastPulse(s: State, n: nat)
    requires Armed(s) && StopValue(s.target).Some?
    ensures var d := Distance(StopValue(s.target).value, s.count);
            && (n < d ==> SoundsOnTime(s, n))
            && (n >= 2 * d ==> !Undisturbed(s, n).beeping && NextDue(Undisturbed(s, n)).None?)
  {
    var value := StopValue(s.target).value;
    var d := Distance(value, s.count);
    forall j: nat | j < d ensures Continues(s, j) <==> j < d - 1 {
      MeetsFirst(value, s.count, j + 1);
    }
    if n < d {
      PulseIsOnTime(s, n);
    }
    if n >= 2 * d {
      PulseIsOnTime(s, d - 1);
      assert 2 * (d - 1) + 2 == 2 * d;
      NothingDue(s, 2 * d, n);
    }
  }

  lemma StartArms(s: State, cmd: Command, time: nat)
    requires Inv(s) && !s.beeping && s.offWork.None? && Starts(cmd)
    requires s.timer.Some? ==> Later(s.now, time) <= s.timer.value
    ensures var s' := Step(s, Write(cmd, time));
            && Armed(s') && s'.count == s.count && s'.delayOff == cmd.off && s'.delayOn == cmd.on
            && s'.timer == Some(if s.timer.Some? then s.timer.value else Later(s.now, time) + 100)
            && s'.target == if cmd.Rep? then cmd.n % LONG_RANGE else s.target
  {
    StepKeepsInv(s, Write(cmd, time));
  }

  lemma EveryPulse(s: State, n: nat)
    requires Armed(s)
    ensures var stop := StopValue(s.target);
            && (stop.None? || n < Distance(stop.value, s.count) ==> SoundsOnTime(s, n))
            && (stop.Some? && n >= 2 * Distance(stop.value, s.count) ==>
                  !Undisturbed(s, n).beeping && NextDue(Undisturbed(s, n)).None?)
  {
    if StopValue(s.target).Some? {
      LastPulse(s, n);
    } else {
      forall j: nat | j < n ensures Continues(s, j) {
      }
      PulseIsOnTime(s, n);
    }
  }

  lemma RepCount(n: nat)
    ensures 0 < n < INT_END ==> StopValue(n % LONG_RANGE) == Some(n) && Distance(n, 0) == n
  {
    if 0 < n < INT_END {
      ShortDistance(n, 0);
    }
  }

  /** From a silent state, a timer or rep command that is accepted gives pulse n, counted
      from 0, at the n-th period after the first expiry, and it sounds for the on delay.
      That first expiry comes after the start delay, or when a pending timer is due. A
      rep of N with the static count at 0 gives N of them, and then nothing is due. */
  lemma PulsesAreOnTime(s: State, cmd: Command, time: nat, n: nat)
    requires Inv(s) && !s.beeping && s.offWork.None? && Starts(cmd)
    requires s.timer.Some? ==> Later(s.now, time) <= s.timer.value
    ensures var s' := Step(s, Write(cmd, time));
            var first := if s.timer.Some? then s.timer.value else Later(s.now, time) + 100;
            var stop := StopValue(if cmd.Rep? then cmd.n % LONG_RANGE else s.target);
            var begins := first + n * (cmd.off + cmd.on);
            && (stop.None? || n < Distance(stop.value, s.count) ==>
                  && Undisturbed(s', 2 * n + 1).beeping && Undisturbed(s', 2 * n + 1).now == begins
                  && !Undisturbed(s', 2 * n + 2).beeping && Undisturbed(s', 2 * n + 2).now == begins + cmd.on)
            && (stop.Some? && n >= 2 * Distance(stop.value, s.count) ==>
                  !Undisturbed(s', n).beeping && NextDue(Undisturbed(s', n)).None?)
            && (cmd.Rep? && s.count == 0 && 0 < cmd.n < INT_END ==> stop.Some? && Distance(stop.value, 0) == cmd.n)
  {
    var s' := Step(s, Write(cmd, time));
    StartArms(s, cmd, time);
    EveryPulse(s', n);
    assert s'.delayOff + s'.delayOn == cmd.off + cmd.on;
    if cmd.Rep? {
      RepCount(cmd.n);
    }
  }

  predicate Stops(cmd: Command) {
    cmd == On || cmd == Off || cmd == One
  }

  /** The other commands end the pulses, whatever the state: the timer never expires before
      a timer or rep command. Off is silent from then on. On sounds for ever and one for
      200 ms, unless a switch-off is queued from before: then the sound ends when that
      is due. */
  lemma StopsAreFinal(s: State, cmd: Command, time: nat, n: nat)
    requires Inv(s) && Stops(cmd)
    ensures var s' := Step(s, Write(cmd, time));
            var now := Later(s.now, time);
            var end := match s.offWork
                       case Some(u) => Some(Later(now, u))
                       case None => if cmd == One then Some(now + 200) else None;
            && Undisturbed(s', n).timer.None?
            && (Undisturbed(s', n).beeping <==> cmd != Off && (n == 0 || end.None?))
            && (end.Some? && n > 0 ==> Undisturbed(s', n).now == end.value)
  {
    var s' := Step(s, Write(cmd, time));
    if NextDue(s').None? {
      assert Undisturbed(s', 0) == s';
      NothingDue(s', 0, n);
    } else if n > 0 {
      assert Undisturbed(s', 0) == s' && Undisturbed(s', 1) == Step(s', OffDue);
      NothingDue(s', 1, n);
    }
  }
}
