/** Rounds of the button monitor: what it reports on the input device over any number
    of timer ticks, computed from the presses of each button. */
module ButtonRounds {
  import opened Bytes
  import opened Buttons
  import opened ButtonTraces

  /** Each round samples n buttons. */
  predicate Rounds(rounds: seq<seq<bit>>, n: nat) {
    forall t: nat :: t < |rounds| ==> |rounds[t]| == n
  }

  /** The samples of one button. */
  function Column(rounds: seq<seq<bit>>, n: nat, i: nat): (vals: seq<bit>)
    requires Rounds(rounds, n) && i < n
    ensures |vals| == |rounds| && forall t: nat :: t < |rounds| ==> vals[t] == rounds[t][i]
  {
    seq(|rounds|, t requires 0 <= t < |rounds| => rounds[t][i])
  }

  /** The level that sample t of a trace reports: a press where a run of active samples
      reaches the reporting length, a release where one ends that is long enough. */
  function LevelAt(c: Config, vals: seq<bit>, t: nat): Option<bit>
    requires t < |vals|
  {
    if vals[t] == c.active then if Held(c, vals, t + 1) == PressAt(c) then Some(1) else None
    else if Held(c, vals, t) >= ReleaseFrom(c) then Some(0) else None
  }

  function Noted(levels: seq<bit>, level: Option<bit>): seq<bit> {
    match level
    case None => levels
    case Some(b) => levels + [b]
  }

  /** The levels of the first n samples, in order. */
  function Levels(c: Config, vals: seq<bit>, n: nat): seq<bit>
    requires n <= |vals|
  {
    if n == 0 then [] else Noted(Levels(c, vals, n - 1), LevelAt(c, vals, n - 1))
  }

  function Reported(reports: seq<KeyReport>, i: nat, level: Option<bit>): seq<KeyReport> {
    match level
    case None => reports
    case Some(b) => reports + [KeyReport(i, b)]
  }

  /** The levels of the first k buttons of a row as reports, in index order. */
  function ReportedRow(reports: seq<KeyReport>, row: seq<Option<bit>>, k: nat): seq<KeyReport>
    requires k <= |row|
  {
    if k == 0 then reports else Reported(ReportedRow(reports, row, k - 1), k - 1, row[k - 1])
  }

  /** The buttons that are mapped, and the samples of all, round by round. */
  datatype Trace = Trace(configs: seq<Config>, mapped: seq<bool>, rounds: seq<seq<bit>>) {
    ghost predicate Valid() {
      |configs| == |mapped| && Rounds(rounds, |configs|)
    }
  }

  function ButtonLevel(tr: Trace, t: nat, i: nat): Option<bit>
    requires tr.Valid() && t < |tr.rounds| && i < |tr.configs|
  {
    if tr.mapped[i] then LevelAt(tr.configs[i], Column(tr.rounds, |tr.configs|, i), t) else None
  }

  /** The levels of round t, button by button. */
  function Row(tr: Trace, t: nat): (row: seq<Option<bit>>)
    requires tr.Valid() && t < |tr.rounds|
    ensures |row| == |tr.configs|
  {
    seq(|tr.configs|, i requires 0 <= i < |tr.configs| => ButtonLevel(tr, t, i))
  }

  /** The reports of the first n rounds. */
  function ReportsOf(tr: Trace, n: nat): seq<KeyReport>
    requires tr.Valid() && n <= |tr.rounds|
  {
    if n == 0 then [] else ReportedRow(ReportsOf(tr, n - 1), Row(tr, n - 1), |tr.configs|)
  }

  // One button -----------------------------------------------------------------------------

  /** The levels reported for one button. */
  function LevelsOf(reports: seq<KeyReport>, i: nat): seq<bit> {
    if reports == [] then []
    else
      var last := reports[|reports| - 1];
      Noted(LevelsOf(reports[..|reports| - 1], i), if last.index == i then Some(last.level) else None)
  }

  lemma LevelsOfReported(reports: seq<KeyReport>, j: nat, level: Option<bit>, i: nat)
    ensures LevelsOf(Reported(reports, j, level), i) == Noted(LevelsOf(reports, i), if i == j then level else None)
  {
    if level.Some? {
      var s := reports + [KeyReport(j, level.value)];
      assert s[..|s| - 1] == reports;
    }
  }

  lemma {:induction false} LevelsOfRow(reports: seq<KeyReport>, row: seq<Option<bit>>, k: nat, i: nat)
    requires k <= |row| && i < |row|
    ensures LevelsOf(ReportedRow(reports, row, k), i) == Noted(LevelsOf(reports, i), if i < k then row[i] else None)
  {
    if k > 0 {
      var j := k - 1;
      LevelsOfRow(reports, row, j, i);
      LevelsOfReported(ReportedRow(reports, row, j), j, row[j], i);
    }
  }

  /** Of all that is reported, the levels of one button are those of its own samples, in
      order, if it is mapped, and none if it is not. */
  lemma {:induction false} OneButton(tr: Trace, n: nat, i: nat)
    requires tr.Valid() && n <= |tr.rounds| && i < |tr.configs|
    ensures LevelsOf(ReportsOf(tr, n), i)
            == if tr.mapped[i] then Levels(tr.configs[i], Column(tr.rounds, |tr.configs|, i), n) else []
  {
    if n > 0 {
      var t := n - 1;
      OneButton(tr, t, i);
      LevelsOfRow(ReportsOf(tr, t), Row(tr, t), |tr.configs|, i);
    }
  }

  // The monitor ----------------------------------------------------------------------------

  /** Each mapped button is where its first n samples take it from its start. */
  ghost predicate Fed(tr: Trace, n: nat, start: seq<Button>, states: seq<Button>)
    requires tr.Valid() && n <= |tr.rounds| && |start| == |states| == |tr.configs|
  {
    forall i: nat :: i < |tr.configs| && tr.mapped[i] ==>
      start[i].seen == 0 && states[i] == After(tr.configs[i], start[i], Column(tr.rounds, |tr.configs|, i)[..n])
  }

  lemma OneReport(c: Config, b: Button, vals: seq<bit>, t: nat)
    requires b.seen == 0 && t < |vals|
    ensures Tick(c, After(c, b, vals[..t]), vals[t]).1 == LevelAt(c, vals, t)
  {
    EventsAreThoseOfTheRuns(c, b, vals, t);
  }

  lemma MoreReports(reports: seq<KeyReport>, round: seq<KeyReport>, i: nat, level: Option<bit>)
    ensures reports + (round + ReportOf(i, level)) == Reported(reports + round, i, level)
    ensures reports + (round + []) == reports + round
  {
  }

  lemma {:induction false} RoundIsRow(tr: Trace, t: nat, start: seq<Button>, states: seq<Button>,
                                      reports: seq<KeyReport>, k: nat)
    requires tr.Valid() && t < |tr.rounds| && |start| == |states| == |tr.configs| && k <= |tr.configs|
    requires Fed(tr, t, start, states)
    ensures reports + RoundReports(tr.configs, tr.mapped, states, tr.rounds[t], k)
            == ReportedRow(reports, Row(tr, t), k)
  {
    if k == 0 {
      assert reports + [] == reports;
    } else {
      var i := k - 1;
      RoundIsRow(tr, t, start, states, reports, i);
      MoreReports(reports, RoundReports(tr.configs, tr.mapped, states, tr.rounds[t], i), i,
                  Tick(tr.configs[i], states[i], tr.rounds[t][i]).1);
      if tr.mapped[i] {
        OneReport(tr.configs[i], start[i], Column(tr.rounds, |tr.configs|, i), t);
      }
    }
  }

  lemma FedNext(tr: Trace, t: nat, start: seq<Button>, states: seq<Button>, states': seq<Button>)
    requires tr.Valid() && t < |tr.rounds| && |start| == |states| == |states'| == |tr.configs|
    requires Fed(tr, t, start, states)
    requires forall i: nat :: i < |tr.configs| && tr.mapped[i] ==>
               states'[i] == Tick(tr.configs[i], states[i], tr.rounds[t][i]).0
    ensures Fed(tr, t + 1, start, states')
  {
    forall i: nat | i < |tr.configs| && tr.mapped[i]
      ensures states'[i] == After(tr.configs[i], start[i], Column(tr.rounds, |tr.configs|, i)[..t + 1])
    {
      var vals := Column(tr.rounds, |tr.configs|, i);
      assert vals[..t + 1][..t] == vals[..t];
    }
  }

  /** One tick of the timer. */
  method RunRound(m: Monitor, round: seq<bit>, ghost tr: Trace, ghost t: nat, ghost start: seq<Button>)
    requires m.Valid() && tr.Valid() && tr.configs == m.configs && tr.mapped == m.mapped
    requires t < |tr.rounds| && round == tr.rounds[t] && |start| == |m.configs| && Fed(tr, t, start, m.States())
    requires m.reports == ReportsOf(tr, t)
    modifies m, m.seen, m.prestate, m.lastReport
    ensures Fed(tr, t + 1, start, m.States()) && m.reports == ReportsOf(tr, t + 1)
  {
    ghost var states := m.States();
    RoundIsRow(tr, t, start, states, m.reports, |m.configs|);
    m.BtnMonitor(round);
    ghost var states' := m.States();
    assert forall i: nat :: i < |m.configs| ==> states'[i] == m.At(i);
    FedNext(tr, t, start, states, states');
  }

  lemma EachButton(tr: Trace, reports: seq<KeyReport>)
    requires tr.Valid() && reports == ReportsOf(tr, |tr.rounds|)
    ensures forall i: nat :: i < |tr.configs| ==>
              LevelsOf(reports, i)
              == if tr.mapped[i] then Levels(tr.configs[i], Column(tr.rounds, |tr.configs|, i), |tr.rounds|) else []
  {
    forall i: nat | i < |tr.configs|
      ensures LevelsOf(reports, i)
              == if tr.mapped[i] then Levels(tr.configs[i], Column(tr.rounds, |tr.configs|, i), |tr.rounds|) else []
    {
      OneButton(tr, |tr.rounds|, i);
    }
  }

  /** The timer's ticks, one round each, from buttons that are not held. What is reported,
      in order; and of each button, if it is mapped, one press report wherever its samples
      reach the reporting length and one release report wherever a run of at least the
      release length ends, and nothing if it is not. */
  method RunRounds(m: Monitor, rounds: seq<seq<bit>>)
    requires m.Valid() && m.reports == [] && Rounds(rounds, |m.configs|)
    requires forall i: nat :: i < |m.configs| && m.mapped[i] ==> m.At(i).seen == 0
    modifies m, m.seen, m.prestate, m.lastReport
    ensures m.reports == ReportsOf(Trace(m.configs, m.mapped, rounds), |rounds|)
    ensures forall i: nat :: i < |m.configs| ==>
              LevelsOf(m.reports, i)
              == if m.mapped[i] then Levels(m.configs[i], Column(rounds, |m.configs|, i), |rounds|) else []
  {
    ghost var tr, start := Trace(m.configs, m.mapped, rounds), m.States();
    assert forall i: nat :: i < |m.configs| ==> start[i] == m.At(i);
    var t := 0;
    while t < |rounds|
      invariant 0 <= t <= |rounds|
      invariant Fed(tr, t, start, m.States()) && m.reports == ReportsOf(tr, t)
    {
      RunRound(m, rounds[t], tr, t, start);
      t := t + 1;
    }
    EachButton(tr, m.reports);
  }
}
