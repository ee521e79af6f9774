/** The button monitor: a timer samples two GPIO bits every 50 ms and turns the
    length of a press into key events. */
module Buttons {
  import opened Bytes

  const SATURATION: nat := 1200
  const RESET_HOLD: nat := 260
  const POWER_HOLD: nat := 100

  type bit = b: int | 0 <= b < 2

  datatype Key = F20 | F24

  /** The model string decides when the power key is reported. */
  datatype Config = Config(key: Key, active: bit, isDxp2800Gt: bool)

  datatype Button = Button(seen: nat, prestate: bit, lastReport: bit)

  /** One sample: the new state, and the key level reported, if any. */
  function Tick(c: Config, b: Button, val: bit): (Button, Option<bit>) {
    if val == c.active then
      if b.seen < SATURATION then
        var n := b.seen + 1;
        var press := match c.key
          case F24 => n == RESET_HOLD
          case F20 => (n == 1 && !c.isDxp2800Gt) || (n == POWER_HOLD && c.isDxp2800Gt);
        if press then (Button(n, val, 1), Some(1)) else (b.(seen := n, prestate := val), None)
      else (b.(prestate := val), None)
    else
      var release := match c.key
        case F24 => b.seen > RESET_HOLD
        case F20 => b.seen >= POWER_HOLD && val != b.prestate;
      if release then (Button(0, val, 0), Some(0)) else (b.(seen := 0, prestate := val), None)
  }

  /** A report on the input device: which button, and its level. */
  datatype KeyReport = KeyReport(index: nat, level: bit)

  function ReportOf(i: nat, o: Option<bit>): seq<KeyReport> {
    match o
    case None => []
    case Some(level) => [KeyReport(i, level)]
  }

  /** What the first k buttons report for one round of samples, in index order. */
  function RoundReports(configs: seq<Config>, mapped: seq<bool>,
                        states: seq<Button>, samples: seq<bit>, k: nat): seq<KeyReport>
    requires k <= |configs| == |mapped| == |states| == |samples|
  {
    if k == 0 then []
    else
      RoundReports(configs, mapped, states, samples, k - 1)
      + if mapped[k - 1] then ReportOf(k - 1, Tick(configs[k - 1], states[k - 1], samples[k - 1]).1) else []
  }

  class Monitor {
    const configs: seq<Config>
    const mapped: seq<bool>
    const seen: array<nat>
    const prestate: array<bit>
    const lastReport: array<bit>
    var reports: seq<KeyReport>

    ghost predicate Valid()
      reads this
    {
      && |configs| == |mapped| == seen.Length == prestate.Length == lastReport.Length
      && seen != lastReport as object && seen != prestate as object && prestate != lastReport
    }

    function At(i: nat): Button
      requires i < seen.Length == prestate.Length == lastReport.Length
      reads seen, prestate, lastReport
    {
      Button(seen[i], prestate[i], lastReport[i])
    }

    constructor (configs: seq<Config>, mapped: seq<bool>, initial: seq<Button>)
      requires |configs| == |mapped| == |initial|
      ensures Valid() && this.configs == configs && this.mapped == mapped && reports == []
      ensures forall i :: 0 <= i < |initial| ==> At(i) == initial[i]
    {
      this.configs, this.mapped := configs, mapped;
      seen := new nat[|initial|](i requires 0 <= i < |initial| => initial[i].seen);
      prestate := new bit[|initial|](i requires 0 <= i < |initial| => initial[i].prestate);
      lastReport := new bit[|initial|](i requires 0 <= i < |initial| => initial[i].lastReport);
      reports := [];
    }

    method Emit(i: nat, level: bit)
      requires Valid() && i < |configs|
      modifies lastReport, this`reports
      ensures reports == old(reports) + [KeyReport(i, level)]
      ensures lastReport[..] == old(lastReport[..])[i := level]
    {
      reports := reports + [KeyReport(i, level)];
      lastReport[i] := level;
    }

    /** The body of the loop for one mapped button. */
    method Sample(i: nat, val: bit)
      requires Valid() && i < |configs|
      modifies seen, prestate, lastReport, this`reports
      ensures At(i) == Tick(configs[i], old(At(i)), val).0
      ensures reports == old(reports) + ReportOf(i, Tick(configs[i], old(At(i)), val).1)
      ensures forall j: nat :: j < |configs| && j != i ==> At(j) == old(At(j))
    {
      var c := configs[i];
      if val == c.active {
        if seen[i] < SATURATION {
          seen[i] := seen[i] + 1;
          if c.key == F24 {
            if seen[i] == RESET_HOLD {
              Emit(i, 1);
            }
          } else if c.key == F20 {
            if (seen[i] == 1 && !c.isDxp2800Gt) || (seen[i] == POWER_HOLD && c.isDxp2800Gt) {
              Emit(i, 1);
            }
          }
        }
      } else {
        if c.key == F24 {
          if seen[i] > RESET_HOLD {
            Emit(i, 0);
          }
        } else {
          if seen[i] >= POWER_HOLD && val != prestate[i] {
            Emit(i, 0);
          }
        }
        seen[i] := 0;
      }
      prestate[i] := val;
    }

    function States(): (r: seq<Button>)
      requires |configs| == seen.Length == prestate.Length == lastReport.Length
      reads seen, prestate, lastReport
      ensures |r| == |configs|
    {
      seq(|configs|, i requires 0 <= i < |configs| reads seen, prestate, lastReport =>
          Button(seen[i], prestate[i], lastReport[i]))
    }

    /** btn_monitor */
    method BtnMonitor(samples: seq<bit>)
      requires Valid() && |samples| == |configs|
      modifies seen, prestate, lastReport, this`reports
      ensures forall i: nat :: i < |configs| ==>
                At(i) == if mapped[i] then Tick(configs[i], old(At(i)), samples[i]).0 else old(At(i))
      ensures reports == old(reports) + RoundReports(configs, mapped, old(States()), samples, |configs|)
    {
      var i := 0;
      ghost var start, states := reports, States();
      while i < |configs|
        invariant 0 <= i <= |configs| && Valid()
        invariant forall j: nat :: i <= j < |configs| ==> At(j) == states[j]
        invariant forall j: nat :: j < i ==>
                    At(j) == if mapped[j] then Tick(configs[j], states[j], samples[j]).0 else states[j]
        invariant reports == start + RoundReports(configs, mapped, states, samples, i)
      {
        if mapped[i] {
          Sample(i, samples[i]);
        }
        i := i + 1;
      }
    }
  }
}
