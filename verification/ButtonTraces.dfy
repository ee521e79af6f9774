/** Whole traces of one button: its key events, computed from its maximal presses. */
module ButtonTraces {
  import opened Bytes
  import opened Buttons

  /** State and reported levels after feeding samples one by one. */
  function After(c: Config, b: Button, vals: seq<bit>): Button {
    if vals == [] then b
    else Tick(c, After(c, b, vals[..|vals| - 1]), vals[|vals| - 1]).0
  }

  function Event(c: Config, b: Button, vals: seq<bit>, t: nat): Option<bit>
    requires t < |vals|
  {
    Tick(c, After(c, b, vals[..t]), vals[t]).1
  }

  /** How many samples ending just before t are active without a gap. */
  function Held(c: Config, vals: seq<bit>, t: nat): (n: nat)
    requires t <= |vals|
    ensures n <= t
  {
    if t == 0 || vals[t - 1] != c.active then 0 else Held(c, vals, t - 1) + 1
  }

  /** The length at which a press is reported, and the least one that is released. */
  function PressAt(c: Config): nat {
    match c.key
    case F24 => RESET_HOLD
    case F20 => if c.isDxp2800Gt then POWER_HOLD else 1
  }

  function ReleaseFrom(c: Config): nat {
    match c.key
    case F24 => RESET_HOLD + 1
    case F20 => POWER_HOLD
  }

  lemma {:induction false} CountsTheRun(c: Config, b: Button, vals: seq<bit>)
    requires b.seen == 0
    ensures var s := After(c, b, vals);
            && s.seen == (if Held(c, vals, |vals|) < SATURATION then Held(c, vals, |vals|) else SATURATION)
            && (vals != [] ==> s.prestate == vals[|vals| - 1])
  {
    if vals != [] {
      var init := vals[..|vals| - 1];
      CountsTheRun(c, b, init);
      HeldOfPrefix(c, vals, |init|, |init|);
    }
  }

  lemma {:induction false} HeldOfPrefix(c: Config, vals: seq<bit>, n: nat, t: nat)
    requires t <= n <= |vals|
    ensures Held(c, vals[..n], t) == Held(c, vals, t)
  {
    if t > 0 {
      HeldOfPrefix(c, vals, n, t - 1);
    }
  }

  /** For every sample sequence: a press is reported exactly when a run of active
      samples reaches its length, and never again in that run; a release exactly at
      the end of a run that was long enough. */
  lemma EventsAreThoseOfTheRuns(c: Config, b: Button, vals: seq<bit>, t: nat)
    requires b.seen == 0 && t < |vals|
    ensures Event(c, b, vals, t) ==
            if vals[t] == c.active then
              if Held(c, vals, t + 1) == PressAt(c) then Some(1) else None
            else
              if Held(c, vals, t) >= ReleaseFrom(c) then Some(0) else None
  {
    CountsTheRun(c, b, vals[..t]);
    HeldOfPrefix(c, vals, t, t);
  }

  // Maximal presses --------------------------------------------------------------------

  /** The button is held for exactly the samples i to j - 1. */
  predicate IsPress(c: Config, vals: seq<bit>, i: nat, j: nat) {
    && i < j <= |vals|
    && (i == 0 || vals[i - 1] != c.active)
    && (j == |vals| || vals[j] != c.active)
    && forall t :: i <= t < j ==> vals[t] == c.active
  }

  lemma {:induction false} HeldInPress(c: Config, vals: seq<bit>, i: nat, j: nat, t: nat)
    requires IsPress(c, vals, i, j) && i <= t <= j
    ensures Held(c, vals, t) == t - i
  {
    if i < t {
      HeldInPress(c, vals, i, j, t - 1);
    }
  }

  /** A press of n samples: pressed once if n reaches the reporting length and not at
      all otherwise; released when it ends if and only if n reaches the release
      length. So a reset held for exactly 260 samples, and a power press of less
      than 100 on other models than the GT, are pressed and never released. */
  lemma PressReports(c: Config, b: Button, vals: seq<bit>, i: nat, j: nat)
    requires b.seen == 0 && IsPress(c, vals, i, j)
    ensures forall t :: i <= t < j ==>
              Event(c, b, vals, t) == if t + 1 == i + PressAt(c) then Some(1) else None
    ensures j < |vals| ==> Event(c, b, vals, j) == if j - i >= ReleaseFrom(c) then Some(0) else None
    ensures j < |vals| && PressAt(c) <= j - i < ReleaseFrom(c) ==>
              Event(c, b, vals, i + PressAt(c) - 1) == Some(1) && Event(c, b, vals, j) == None
  {
    forall t | i <= t < j
      ensures Event(c, b, vals, t) == if t + 1 == i + PressAt(c) then Some(1) else None
    {
      EventsAreThoseOfTheRuns(c, b, vals, t);
      HeldInPress(c, vals, i, j, t + 1);
    }
    if j < |vals| {
      EventsAreThoseOfTheRuns(c, b, vals, j);
      HeldInPress(c, vals, i, j, j);
    }
  }

  lemma {:induction false} HeldIsPress(c: Config, vals: seq<bit>, t: nat)
    requires t <= |vals|
    ensures forall k :: t - Held(c, vals, t) <= k < t ==> vals[k] == c.active
    ensures var i := t - Held(c, vals, t); i == 0 || vals[i - 1] != c.active
  {
    if t > 0 && vals[t - 1] == c.active {
      HeldIsPress(c, vals, t - 1);
    }
  }

  // Alternation -------------------------------------------------------------------------

  function EndOfPress(c: Config, vals: seq<bit>, t: nat): (e: nat)
    requires t <= |vals|
    ensures t <= e <= |vals|
    ensures forall k :: t <= k < e ==> vals[k] == c.active
    ensures e == |vals| || vals[e] != c.active
    decreases |vals| - t
  {
    if t == |vals| || vals[t] != c.active then t else EndOfPress(c, vals, t + 1)
  }

  ghost predicate Reports(c: Config, b: Button, vals: seq<bit>, t: nat, level: bit) {
    t < |vals| && Event(c, b, vals, t) == Some(level)
  }

  ghost predicate ReportsBetween(c: Config, b: Button, vals: seq<bit>, t1: nat, t2: nat, level: bit) {
    exists t: nat :: t1 < t < t2 && Reports(c, b, vals, t, level)
  }

  /** Two reports of one level never come without one of the other between them. */
  ghost predicate Alternates(c: Config, b: Button, vals: seq<bit>) {
    forall t1: nat, t2: nat, level: bit ::
      t1 < t2 && Reports(c, b, vals, t1, level) && Reports(c, b, vals, t2, level) ==>
        ReportsBetween(c, b, vals, t1, t2, 1 - level)
  }

  /** Sample t brings a run of active samples to the length that is reported. */
  predicate ReachesPress(c: Config, vals: seq<bit>, t: nat) {
    t < |vals| && vals[t] == c.active && Held(c, vals, t + 1) == PressAt(c)
  }

  lemma PressIsReach(c: Config, b: Button, vals: seq<bit>, t: nat)
    requires b.seen == 0
    ensures Reports(c, b, vals, t, 1) <==> ReachesPress(c, vals, t)
  {
    if t < |vals| {
      EventsAreThoseOfTheRuns(c, b, vals, t);
    }
  }

  /** In the samples, a run that reaches the reporting length and is followed by another
      such run lasts until it can be released. */
  ghost predicate FollowedPressesAreLong(c: Config, vals: seq<bit>) {
    forall t1: nat, t2: nat ::
      t1 < t2 && ReachesPress(c, vals, t1) && ReachesPress(c, vals, t2) ==>
        Held(c, vals, EndOfPress(c, vals, t1)) >= ReleaseFrom(c)
  }

  /** The press report that belongs to a release. */
  lemma ReleaseHasPress(c: Config, b: Button, vals: seq<bit>, r: nat) returns (t: nat)
    requires b.seen == 0 && Reports(c, b, vals, r, 0)
    ensures t < r && Reports(c, b, vals, t, 1)
    ensures forall k :: t <= k < r ==> vals[k] == c.active && Event(c, b, vals, k) != Some(0)
    ensures EndOfPress(c, vals, t) == r
    ensures forall q: nat :: q < r && Reports(c, b, vals, q, 0) ==> q < t
  {
    EventsAreThoseOfTheRuns(c, b, vals, r);
    HeldIsPress(c, vals, r);
    var i := r - Held(c, vals, r);
    assert IsPress(c, vals, i, r);
    PressReports(c, b, vals, i, r);
    t := i + PressAt(c) - 1;
    EndUnique(c, vals, t, r);
    forall q: nat | q < r && Reports(c, b, vals, q, 0) ensures q < t {
      EventsAreThoseOfTheRuns(c, b, vals, q);
    }
  }

  lemma {:induction false} EndUnique(c: Config, vals: seq<bit>, t: nat, e: nat)
    requires t <= e <= |vals| && (e == |vals| || vals[e] != c.active)
    requires forall k :: t <= k < e ==> vals[k] == c.active
    ensures EndOfPress(c, vals, t) == e
    decreases e - t
  {
    if t < e {
      EndUnique(c, vals, t + 1, e);
    }
  }

  lemma {:induction false} HeldGrows(c: Config, vals: seq<bit>, t: nat, u: nat)
    requires t <= u <= |vals| && forall k :: t <= k < u ==> vals[k] == c.active
    ensures Held(c, vals, u) == Held(c, vals, t) + (u - t)
    decreases u
  {
    if t < u {
      HeldGrows(c, vals, t, u - 1);
    }
  }

  /** The run of a press report ends before any later press report. */
  lemma PressEnds(c: Config, b: Button, vals: seq<bit>, t1: nat, t2: nat)
    requires b.seen == 0 && t1 < t2 && Reports(c, b, vals, t1, 1) && Reports(c, b, vals, t2, 1)
    ensures var e := EndOfPress(c, vals, t1);
            t1 < e < t2 && (Reports(c, b, vals, e, 0) <==> Held(c, vals, e) >= ReleaseFrom(c))
  {
    EventsAreThoseOfTheRuns(c, b, vals, t1);
    EventsAreThoseOfTheRuns(c, b, vals, t2);
    var e := EndOfPress(c, vals, t1);
    if e > t2 {
      HeldGrows(c, vals, t1 + 1, t2 + 1);
      assert false;
    }
    EventsAreThoseOfTheRuns(c, b, vals, e);
  }

  lemma LongPressesAlternate(c: Config, b: Button, vals: seq<bit>)
    requires b.seen == 0 && FollowedPressesAreLong(c, vals)
    ensures Alternates(c, b, vals)
  {
    forall t1: nat, t2: nat, level: bit
      | t1 < t2 && Reports(c, b, vals, t1, level) && Reports(c, b, vals, t2, level)
      ensures ReportsBetween(c, b, vals, t1, t2, 1 - level)
    {
      if level == 1 {
        PressIsReach(c, b, vals, t1);
        PressIsReach(c, b, vals, t2);
        PressEnds(c, b, vals, t1, t2);
        assert Reports(c, b, vals, EndOfPress(c, vals, t1), 0);
      } else {
        var t := ReleaseHasPress(c, b, vals, t2);
        assert t1 < t < t2 && Reports(c, b, vals, t, 1);
      }
    }
  }

  /** The first press report after t1, no later than t2. */
  lemma NextPress(c: Config, b: Button, vals: seq<bit>, t1: nat, t2: nat) returns (t: nat)
    requires t1 < t2 && Reports(c, b, vals, t2, 1)
    ensures t1 < t <= t2 && Reports(c, b, vals, t, 1)
    ensures forall k: nat :: t1 < k < t ==> !Reports(c, b, vals, k, 1)
    decreases t2 - t1
  {
    t := t1 + 1;
    if !Reports(c, b, vals, t, 1) {
      t := NextPress(c, b, vals, t1 + 1, t2);
    }
  }

  /** A press report with a release before the next press report was long enough. */
  lemma ReleasedWasLong(c: Config, b: Button, vals: seq<bit>, t1: nat, t: nat)
    requires b.seen == 0 && t1 < t && Reports(c, b, vals, t1, 1) && Reports(c, b, vals, t, 1)
    requires forall k: nat :: t1 < k < t ==> !Reports(c, b, vals, k, 1)
    requires ReportsBetween(c, b, vals, t1, t, 0)
    ensures Held(c, vals, EndOfPress(c, vals, t1)) >= ReleaseFrom(c)
  {
    PressEnds(c, b, vals, t1, t);
    var r: nat :| t1 < r < t && Reports(c, b, vals, r, 0);
    var p := ReleaseHasPress(c, b, vals, r);
    if p < t1 {
      PressEnds(c, b, vals, p, t1);
      assert false;
    }
  }

  /** Key events alternate exactly on the traces where every press that is followed by
      another was long enough to be released. */
  lemma AlternatesExactly(c: Config, b: Button, vals: seq<bit>)
    requires b.seen == 0
    ensures Alternates(c, b, vals) <==> FollowedPressesAreLong(c, vals)
  {
    if FollowedPressesAreLong(c, vals) {
      LongPressesAlternate(c, b, vals);
    }
    if Alternates(c, b, vals) {
      forall t1: nat, t2: nat
        | t1 < t2 && ReachesPress(c, vals, t1) && ReachesPress(c, vals, t2)
        ensures Held(c, vals, EndOfPress(c, vals, t1)) >= ReleaseFrom(c)
      {
        PressIsReach(c, b, vals, t1);
        PressIsReach(c, b, vals, t2);
        var t := NextPress(c, b, vals, t1, t2);
        assert ReportsBetween(c, b, vals, t1, t, 0);
        ReleasedWasLong(c, b, vals, t1, t);
      }
    }
  }

  /** On the GT the power key is released whenever it was pressed: its events
      alternate on every trace whatever. */
  lemma GtPowerKeyAlternates(c: Config, b: Button, vals: seq<bit>)
    requires b.seen == 0 && c.key == F20 && c.isDxp2800Gt
    ensures Alternates(c, b, vals)
  {
    forall t1: nat, t2: nat
      | t1 < t2 && ReachesPress(c, vals, t1) && ReachesPress(c, vals, t2)
      ensures Held(c, vals, EndOfPress(c, vals, t1)) >= ReleaseFrom(c)
    {
      HeldGrows(c, vals, t1 + 1, EndOfPress(c, vals, t1));
    }
    LongPressesAlternate(c, b, vals);
  }
}
