/** The disk-LED daemon: each poll repaints only the bays whose entry in the
    state file disagrees with the disks it counts. */
module HddLeds {
  const BAYS: nat := 6

  predicate IsBay(i: nat) {
    1 <= i <= BAYS
  }

  type Bays = s: set<nat> | forall i :: i in s ==> IsBay(i) witness {}

  /** The scan's non-blank lines: one per disk. */
  function Disks(scan: seq<string>): nat {
    if scan == [] then 0 else Disks(scan[..|scan| - 1]) + if scan[|scan| - 1] == "" then 0 else 1
  }

  lemma {:induction false} DisksGrow(scan: seq<string>, k: nat)
    requires k <= |scan|
    ensures Disks(scan[..k]) <= Disks(scan)
  {
    if k == |scan| {
      assert scan[..k] == scan;
    } else {
      DisksGrow(scan[..|scan| - 1], k);
      assert scan[..|scan| - 1][..k] == scan[..k];
    }
  }

  lemma DisksNext(scan: seq<string>, line: nat)
    requires line < |scan|
    ensures Disks(scan[..line + 1]) == Disks(scan[..line]) + (if scan[line] == "" then 0 else 1)
    ensures Disks(scan[..line + 1]) <= Disks(scan)
  {
    DisksGrow(scan, line + 1);
    assert scan[..line + 1][..line] == scan[..line];
  }

  /** The bays that n disks should light; the seventh disk and later have no bay. */
  function Full(n: nat): Bays {
    set i: nat | i <= BAYS && IsBay(i) && i <= n
  }

  predicate Grew(state: Bays, n: nat) {
    exists i: nat :: i in Full(n) && i !in state
  }

  /** Whether a poll writes this bay's LED: a new disk, a vanished disk, or an
      empty bay while some disk is new. */
  predicate Written(state: Bays, n: nat, bay: nat) {
    if bay in Full(n) then bay !in state else 1 <= bay <= BAYS && (bay in state || Grew(state, n))
  }

  /** The writes of one poll to bays 1..k, in order. */
  function Writes(state: Bays, n: nat, k: nat): seq<(nat, bool)>
    requires k <= BAYS
  {
    if k == 0 then [] else
      Writes(state, n, k - 1) + if Written(state, n, k) then [(k, k in Full(n))] else []
  }

  /** What a sequence of LED writes makes of the lit bays. */
  function Paint(lit: Bays, writes: seq<(nat, bool)>): Bays {
    if writes == [] then lit
    else
      var last := writes[|writes| - 1];
      var before := Paint(lit, writes[..|writes| - 1]);
      if !(1 <= last.0 <= BAYS) then before else if last.1 then before + {last.0} else before - {last.0}
  }

  lemma GrewNext(state: Bays, n: nat)
    requires 1 <= n <= BAYS
    ensures Full(n) == Full(n - 1) + {n}
    ensures Grew(state, n) <==> Grew(state, n - 1) || n !in state
  {
    assert n in Full(n);
    if Grew(state, n - 1) {
      var i :| i in Full(n - 1) && i !in state;
      assert i in Full(n);
    }
  }

  /** How one more bay extends the writes and what they paint. */
  lemma PaintNext(lit: Bays, state: Bays, n: nat, bay: nat)
    requires 1 <= bay <= BAYS
    ensures var before := Paint(lit, Writes(state, n, bay - 1));
            Paint(lit, Writes(state, n, bay))
            == if !Written(state, n, bay) then before else if bay in Full(n) then before + {bay} else before - {bay}
  {
    if Written(state, n, bay) {
      assert Writes(state, n, bay)[..|Writes(state, n, bay)| - 1] == Writes(state, n, bay - 1);
    } else {
      assert Writes(state, n, bay) == Writes(state, n, bay - 1);
    }
  }

  /** What the poll does at one bay, in terms of the two tests that it makes. */
  lemma NextWrite(state: Bays, n: nat, bay: nat)
    requires 1 <= bay <= BAYS
    ensures bay in Full(n) && bay !in state ==> Writes(state, n, bay) == Writes(state, n, bay - 1) + [(bay, true)]
    ensures bay in Full(n) && bay in state ==> Writes(state, n, bay) == Writes(state, n, bay - 1)
    ensures bay !in Full(n) && (bay in state || Grew(state, n)) ==>
              Writes(state, n, bay) == Writes(state, n, bay - 1) + [(bay, false)]
    ensures bay !in Full(n) && !(bay in state || Grew(state, n)) ==> Writes(state, n, bay) == Writes(state, n, bay - 1)
  {
  }

  /** After the k-th disk. */
  predicate Painted(state: Bays, n: nat, k: nat, newstate: Bays, changed: bool, writes: seq<(nat, bool)>)
    requires k <= BAYS
  {
    newstate == Full(k) && (changed <==> Grew(state, k)) && writes == Writes(state, n, k)
  }

  lemma NextDisk(state: Bays, n: nat, i: nat, newstate: Bays, changed: bool, writes: seq<(nat, bool)>)
    requires 1 <= i <= BAYS && i <= n && Painted(state, n, i - 1, newstate, changed, writes)
    ensures if i in state then Painted(state, n, i, newstate + {i}, changed, writes)
            else Painted(state, n, i, newstate + {i}, true, writes + [(i, true)])
  {
    GrewNext(state, i);
    assert i in Full(n);
    NextWrite(state, n, i);
  }

  lemma AllPainted(state: Bays, n: nat, k: nat, newstate: Bays, changed: bool, writes: seq<(nat, bool)>)
    requires k <= BAYS && (k == n || (k == BAYS && k <= n)) && Painted(state, n, k, newstate, changed, writes)
    ensures newstate == Full(k) == Full(n) && (changed <==> Grew(state, n)) && writes == Writes(state, n, k)
  {
    assert Full(k) == Full(n);
  }

  class Daemon {
    var state: Bays
    var log: seq<(nat, bool)>

    /** apply_one: solid white for a present disk, dark otherwise. */
    method Apply(bay: nat, present: bool)
      modifies this`log
      ensures log == old(log) + [(bay, present)]
    {
      log := log + [(bay, present)];
    }

    /** One turn of the loop over the disks. */
    method PaintDisk(i: nat, newstate: Bays, changed: bool,
                     ghost n: nat, ghost start: seq<(nat, bool)>, ghost writes: seq<(nat, bool)>)
      returns (newstate': Bays, changed': bool, ghost writes': seq<(nat, bool)>)
      requires 1 <= i <= BAYS && i <= n && Painted(state, n, i - 1, newstate, changed, writes) && log == start + writes
      modifies this`log
      ensures Painted(state, n, i, newstate', changed', writes') && log == start + writes'
    {
      NextDisk(state, n, i, newstate, changed, writes);
      newstate', changed', writes' := newstate + {i}, changed, writes;
      if i !in state {
        Apply(i, true);
        changed' := true;
        writes' := writes + [(i, true)];
      }
    }

    /** The loop over what the disk scan printed; it stops after the sixth disk. */
    method PaintDisks(scan: seq<string>) returns (i: nat, newstate: Bays, changed: bool)
      modifies this`log
      ensures 1 <= i <= BAYS + 1 && newstate == Full(i - 1) == Full(Disks(scan))
      ensures changed <==> Grew(state, Disks(scan))
      ensures log == old(log) + Writes(state, Disks(scan), i - 1)
    {
      newstate := {};
      i, changed := 1, false;
      var line := 0;
      ghost var n, writes := Disks(scan), [];
      while line < |scan|
        invariant line <= |scan| && i == Disks(scan[..line]) + 1 <= BAYS
        invariant Painted(state, n, i - 1, newstate, changed, writes) && log == old(log) + writes
      {
        DisksNext(scan, line);
        line := line + 1;
        if scan[line - 1] == "" { continue; }
        newstate, changed, writes := PaintDisk(i, newstate, changed, n, old(log), writes);
        i := i + 1;
        if i > BAYS { break; }
      }
      assert scan[..|scan|] == scan;
      AllPainted(state, n, i - 1, newstate, changed, writes);
    }

    /** One pass of the main loop. */
    method Poll(scan: seq<string>)
      modifies this
      ensures state == Full(Disks(scan))
      ensures log == old(log) + Writes(old(state), Disks(scan), BAYS)
    {
      var i, newstate, changed := PaintDisks(scan);
      ghost var n, shown := Disks(scan), i - 1;
      while i <= BAYS
        invariant shown < i <= BAYS + 1
        invariant state == old(state) && log == old(log) + Writes(state, n, i - 1)
      {
        assert i !in Full(shown);
        NextWrite(state, n, i);
        if i in state || changed {
          Apply(i, false);
        }
        i := i + 1;
      }
      state := newstate;
    }
  }

  /** After the writes for bays 1..k a written bay shows its disk, and any other
      bay is as it was. */
  lemma {:induction false} PaintAt(lit: Bays, state: Bays, n: nat, k: nat, bay: nat)
    requires k <= BAYS
    ensures bay in Paint(lit, Writes(state, n, k))
            <==> if bay <= k && Written(state, n, bay) then bay in Full(n) else bay in lit
  {
    if k > 0 {
      PaintAt(lit, state, n, k - 1, bay);
      PaintNext(lit, state, n, k);
    }
  }

  /** The lit bays and the state file after a run of polls; `repainted` collects
      the bays that some poll of the run wrote. */
  datatype Shown = Shown(lit: Bays, state: Bays, repainted: Bays)

  function Poll(s: Shown, n: nat): Shown {
    Shown(Paint(s.lit, Writes(s.state, n, BAYS)), Full(n),
          s.repainted + set i: nat | i <= BAYS && IsBay(i) && Written(s.state, n, i))
  }

  function Run(s: Shown, counts: seq<nat>): Shown {
    if counts == [] then s else Poll(Run(s, counts[..|counts| - 1]), counts[|counts| - 1])
  }

  predicate Right(s: Shown, bay: nat) {
    bay in s.lit <==> bay in s.state
  }

  /** The cache is exact: at the end of any run a bay shows what the state file
      says if and only if it did so at the start or some poll wrote it. */
  lemma {:induction false} RightExactly(s: Shown, counts: seq<nat>, bay: nat)
    requires 1 <= bay <= BAYS && s.repainted == {}
    ensures var e := Run(s, counts); Right(e, bay) <==> Right(s, bay) || bay in e.repainted
  {
    if counts != [] {
      var n := |counts| - 1;
      var before := Run(s, counts[..n]);
      RightExactly(s, counts[..n], bay);
      PaintAt(before.lit, before.state, counts[n], BAYS, bay);
      if Right(before, bay) && !Written(before.state, counts[n], bay) && bay in before.state {
        assert bay in Full(counts[n]);
      }
    }
  }

  /** Started in agreement, the lit bays and the state file are {1..min(n, 6)}
      after the last poll of every run, n being its disk count. */
  lemma CachedRepaintIsRight(s: Shown, counts: seq<nat>)
    requires s.lit == s.state && s.repainted == {} && counts != []
    ensures var e := Run(s, counts); e.lit == e.state == Full(counts[|counts| - 1])
  {
    var e := Run(s, counts);
    forall bay: nat | IsBay(bay)
      ensures bay in e.lit <==> bay in e.state
    {
      RightExactly(s, counts, bay);
    }
  }

  /** A poll writes no LED if and only if the state file already names the bays
      of its disks. */
  lemma SilentExactly(state: Bays, n: nat)
    ensures Writes(state, n, BAYS) == [] <==> state == Full(n)
  {
    if state == Full(n) {
      NothingWritten(state, n, BAYS);
    } else {
      var bay: nat :| IsBay(bay) && (bay in state) != (bay in Full(n));
      WriteStays(state, n, bay, BAYS);
    }
  }

  lemma {:induction false} NothingWritten(state: Bays, n: nat, k: nat)
    requires k <= BAYS && state == Full(n)
    ensures Writes(state, n, k) == []
  {
    if k > 0 {
      NothingWritten(state, n, k - 1);
    }
  }

  lemma {:induction false} WriteStays(state: Bays, n: nat, bay: nat, k: nat)
    requires 1 <= bay <= k <= BAYS && Written(state, n, bay)
    ensures Writes(state, n, k) != []
  {
    if bay < k {
      WriteStays(state, n, bay, k - 1);
    }
  }

  /** Whatever the LEDs and a stale state file say, a poll that sees no disk and one
      that then sees six have repainted every bay. */
  lemma EmptyThenFullHeals(s: Shown)
    ensures var e := Poll(Poll(s, 0), BAYS); e.lit == e.state == Full(BAYS)
  {
    var one := Poll(s, 0);
    forall bay: nat | IsBay(bay)
      ensures bay in Paint(one.lit, Writes(one.state, BAYS, BAYS))
    {
      PaintAt(one.lit, one.state, BAYS, BAYS, bay);
    }
  }

  /** A stale state file hides a dark LED for as long as the count stays. */
  lemma {:induction false} StaleFileKeepsLedDark(s: Shown, n: nat, polls: nat, bay: nat)
    requires bay in Full(n) && s.state == Full(n) && bay !in s.lit
    ensures var e := Run(s, seq(polls, _ => n)); bay !in e.lit && e.state == Full(n)
  {
    if polls > 0 {
      StaleFileKeepsLedDark(s, n, polls - 1, bay);
      assert seq(polls, _ => n)[..polls - 1] == seq(polls - 1, _ => n);
      NothingWritten(Full(n), n, BAYS);
    }
  }
}
