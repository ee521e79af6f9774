/** Whole runs of mailbox calls, and the drivers that are clients of them. */
module EcRuns {
  import opened Bytes
  import opened EcMailbox

  // Runs ---------------------------------------------------------------------------

  /** The host's view before and after each call of a run; `asked` says of each read
      whether its address went out. */
  ghost predicate Linked(hs: seq<Host>, calls: seq<Call>, outs: seq<Outcome>, asked: seq<bool>) {
    && |outs| == |calls| && |asked| == |calls| && |hs| == |calls| + 1
    && (forall i :: 0 <= i < |hs| ==> |hs[i].mem| == 256)
    && forall i :: 0 <= i < |calls| ==> Allowed(hs[i], calls[i], outs[i], asked[i], hs[i + 1])
  }

  /** A plain byte map to which the writes that reported success were applied. */
  function MapAfter(mem: seq<byte>, calls: seq<Call>, outs: seq<Outcome>, k: nat): (r: seq<byte>)
    requires |mem| == 256 && k <= |calls| == |outs|
    ensures |r| == 256
  {
    if k == 0 then mem
    else
      var before := MapAfter(mem, calls, outs, k - 1);
      match calls[k - 1]
      case Write(a, v) => if outs[k - 1].Done? then before[a := v] else before
      case Read(_) => before
  }

  /** Call j is a read that timed out after its address went out. */
  predicate Stranded(calls: seq<Call>, outs: seq<Outcome>, asked: seq<bool>, j: nat)
    requires j < |calls| == |outs| == |asked|
  {
    calls[j].Read? && outs[j].TimedOut? && asked[j]
  }

  predicate NoneStranded(calls: seq<Call>, outs: seq<Outcome>, asked: seq<bool>, k: nat)
    requires k <= |calls| == |outs| == |asked|
  {
    forall j :: 0 <= j < k ==> !Stranded(calls, outs, asked, j)
  }

  /** The view stays a plain byte map if and only if no read timed out after its
      address went out. A read that timed out sooner, and a write that failed, change
      nothing; the map itself is exact in every run. */
  lemma {:induction false} PlainExactly(hs: seq<Host>, calls: seq<Call>, outs: seq<Outcome>, asked: seq<bool>, k: nat)
    requires Linked(hs, calls, outs, asked) && k <= |calls|
    ensures hs[k].mem == MapAfter(hs[0].mem, calls, outs, k)
    ensures hs[k].stale.None? <==> hs[0].stale.None? && NoneStranded(calls, outs, asked, k)
  {
    if k > 0 {
      PlainExactly(hs, calls, outs, asked, k - 1);
      assert Allowed(hs[k - 1], calls[k - 1], outs[k - 1], asked[k - 1], hs[k]);
      assert NoneStranded(calls, outs, asked, k) <==>
             NoneStranded(calls, outs, asked, k - 1) && !Stranded(calls, outs, asked, k - 1);
    }
  }

  /** As long as none is stranded any interleaving of any run of calls is a run of a
      plain byte map: a write that fails is no write, a read that completes is right. */
  lemma RunRefinesMap(hs: seq<Host>, calls: seq<Call>, outs: seq<Outcome>, asked: seq<bool>, i: nat)
    requires Linked(hs, calls, outs, asked) && i < |calls|
    requires hs[0].stale.None? && NoneStranded(calls, outs, asked, i)
    ensures hs[i] == Host(MapAfter(hs[0].mem, calls, outs, i), None)
    ensures calls[i].Read? && outs[i].Done? ==> outs[i].value == MapAfter(hs[0].mem, calls, outs, i)[calls[i].address]
  {
    PlainExactly(hs, calls, outs, asked, i);
    assert Allowed(hs[i], calls[i], outs[i], asked[i], hs[i + 1]);
  }

  /** Read j left its answer behind: it was stranded itself, or it was given the
      answer of a read before it. */
  predicate LeavesAnswer(hs: seq<Host>, calls: seq<Call>, outs: seq<Outcome>, asked: seq<bool>, j: nat)
    requires j < |calls| == |outs| == |asked| && |hs| == |calls| + 1
  {
    calls[j].Read? && if outs[j].Done? then hs[j].stale.Some? else asked[j]
  }

  /** A read that leaves its answer hands it to the next read that completes, however
      far away, which leaves its own in turn: the shift never ends by itself. */
  lemma {:induction false} StrandedByteShiftsReads(
      hs: seq<Host>, calls: seq<Call>, outs: seq<Outcome>, asked: seq<bool>, j: nat, i: nat)
    requires Linked(hs, calls, outs, asked) && j < i < |calls|
    requires LeavesAnswer(hs, calls, outs, asked, j)
    requires forall l :: j < l < i && calls[l].Read? ==> outs[l].TimedOut?
    ensures hs[i].stale == Some(MapAfter(hs[0].mem, calls, outs, j)[calls[j].address])
    ensures calls[i].Read? && outs[i].Done? ==>
              && outs[i].value == MapAfter(hs[0].mem, calls, outs, j)[calls[j].address]
              && LeavesAnswer(hs, calls, outs, asked, i)
  {
    if j + 1 < i {
      StrandedByteShiftsReads(hs, calls, outs, asked, j, i - 1);
    } else {
      PlainExactly(hs, calls, outs, asked, j);
    }
    assert Allowed(hs[i - 1], calls[i - 1], outs[i - 1], asked[i - 1], hs[i]);
    assert Allowed(hs[i], calls[i], outs[i], asked[i], hs[i + 1]);
  }

  /** A run in which ec_read_memory strands its answer: the controller takes the read
      command and makes no step while the address waits. The read of the first address
      times out; that of the second, by then prompt, succeeds with the first's byte. */
  method TimedOutReadStrandsAnswer(mem: seq<byte>, first: byte, second: byte)
      returns (ret1: int, ret2: int, value: byte, ghost m: Mailbox)
    requires |mem| == 256
    ensures ret1 == -ETIMEDOUT && ret2 == 0 && value == mem[first]
    ensures fresh(m) && m.Ok() && HostIdle(m.ec) && Abs(m.ec) == Host(mem, Some(mem[second]))
  {
    var stall := 4 + TIMEOUT;
    var box := new Mailbox(k => if k == 2 || k >= stall then 1 else 0, Ec(false, 0, true, false, 0, Idle, mem));
    m := box;
    ghost var asked: bool;
    var v: byte := 0;
    ret1, v, asked := box.ReadMemory(first, v);
    ret2, value, asked := box.ReadMemory(second, v);
  }

  /** One call of either kind. */
  method MakeCall(m: Mailbox, c: Call) returns (o: Outcome, ghost sent: bool)
    requires m.Ok() && HostIdle(m.ec)
    modifies m
    ensures m.Ok() && HostIdle(m.ec) && m.clock >= old(m.clock)
    ensures Allowed(Abs(old(m.ec)), c, o, sent, Abs(m.ec))
    ensures Prompt(m.schedule, old(m.clock)) ==> o.Done?
  {
    var ret, value := 0, 0;
    sent := false;
    match c {
      case Read(a) => ret, value, sent := m.ReadMemory(a, 0);
      case Write(a, v) => ret := m.WriteMemory(a, v);
    }
    o := if ret == 0 then Done(value) else TimedOut;
  }

  /** Any caller: a run of calls against a controller that goes at any pace. What it
      sees is linked, so the lemmas above speak of it; until a read is stranded every
      read that completes gives the byte that the successful writes before it left. */
  method RunCalls(m: Mailbox, calls: seq<Call>)
    returns (outs: seq<Outcome>, ghost hs: seq<Host>, ghost asked: seq<bool>)
    requires m.Ok() && HostIdle(m.ec)
    modifies m
    ensures m.Ok() && HostIdle(m.ec)
    ensures Linked(hs, calls, outs, asked) && hs[0] == Abs(old(m.ec)) && hs[|calls|] == Abs(m.ec)
    ensures forall i :: 0 <= i < |calls| && NoneStranded(calls, outs, asked, i) && hs[0].stale.None?
                        && calls[i].Read? && outs[i].Done? ==>
              outs[i].value == MapAfter(hs[0].mem, calls, outs, i)[calls[i].address]
    ensures Prompt(m.schedule, old(m.clock)) ==> forall o :: o in outs ==> o.Done?
  {
    outs, hs, asked := [], [Abs(m.ec)], [];
    for i := 0 to |calls|
      invariant m.Ok() && HostIdle(m.ec) && m.clock >= old(m.clock)
      invariant Linked(hs, calls[..i], outs, asked) && hs[0] == Abs(old(m.ec)) && hs[i] == Abs(m.ec)
      invariant Prompt(m.schedule, old(m.clock)) ==> forall o :: o in outs ==> o.Done?
    {
      ghost var sent: bool;
      var o;
      o, sent := MakeCall(m, calls[i]);
      outs := outs + [o];
      hs := hs + [Abs(m.ec)];
      asked := asked + [sent];
    }
    assert calls[..|calls|] == calls;
    forall i | 0 <= i < |calls| && NoneStranded(calls, outs, asked, i) && hs[0].stale.None?
               && calls[i].Read? && outs[i].Done?
      ensures outs[i].value == MapAfter(hs[0].mem, calls, outs, i)[calls[i].address]
    {
      RunRefinesMap(hs, calls, outs, asked, i);
    }
  }

  // Clients ------------------------------------------------------------------------

  const FAN3_MODE: byte := 0xb4
  const FAN3_PWM: byte := 0xb5
  const FAN4_MODE: byte := 0xb6
  const FAN4_PWM: byte := 0xb7
  const MAX_PWM: byte := 0xc6
  const WDT_SWITCH: byte := 0x98
  const WDT_TIME_MSB: byte := 0xA2
  const WDT_TIME_LSB: byte := 0xA3

  predicate EachOldOrNew(old_: seq<byte>, new_: seq<byte>, target: map<byte, byte>)
    requires |old_| == 256 && |new_| == 256
  {
    forall a: byte :: new_[a] == old_[a] || (a in target && new_[a] == target[a])
  }

  predicate AllNew(old_: seq<byte>, new_: seq<byte>, target: map<byte, byte>)
    requires |old_| == 256 && |new_| == 256
  {
    forall a: byte :: new_[a] == if a in target then target[a] else old_[a]
  }

  /** ec_write_memory as its clients see it: the register is set or nothing happened. */
  method WriteRegister(m: Mailbox, a: byte, v: byte) returns (ret: int)
    requires m.Ok() && HostIdle(m.ec)
    modifies m
    ensures m.Ok() && HostIdle(m.ec) && Abs(m.ec).stale == Abs(old(m.ec)).stale && m.clock >= old(m.clock)
    ensures Abs(m.ec).mem == if ret == 0 then Abs(old(m.ec)).mem[a := v] else Abs(old(m.ec)).mem
    ensures Prompt(m.schedule, old(m.clock)) ==> ret == 0
    ensures m.calls == old(m.calls) + [Write(a, v)]
  {
    ret := m.WriteMemory(a, v);
  }

  /** set_sys_fan: no return code is looked at, so each register is set or is not,
      no other register changes, and the duty is never above its limit. */
  method SetSysFan(m: Mailbox, pwm: byte)
    requires m.Ok() && HostIdle(m.ec)
    modifies m
    ensures m.Ok() && HostIdle(m.ec) && Abs(m.ec).stale == Abs(old(m.ec)).stale && m.clock >= old(m.clock)
    ensures var duty := if pwm >= MAX_PWM then MAX_PWM else pwm;
            var target := map[FAN3_MODE := 1, FAN3_PWM := duty, FAN4_MODE := 1, FAN4_PWM := duty];
            && EachOldOrNew(Abs(old(m.ec)).mem, Abs(m.ec).mem, target)
            && (Prompt(m.schedule, old(m.clock)) ==> AllNew(Abs(old(m.ec)).mem, Abs(m.ec).mem, target))
            && m.calls == old(m.calls) + [Write(FAN3_MODE, 1), Write(FAN3_PWM, duty),
                                          Write(FAN4_MODE, 1), Write(FAN4_PWM, duty)]
  {
    var duty := pwm;
    if duty >= MAX_PWM {
      duty := MAX_PWM;
    }
    var r1 := WriteRegister(m, FAN3_MODE, 1);
    var r2 := WriteRegister(m, FAN3_PWM, duty);
    var r3 := WriteRegister(m, FAN4_MODE, 1);
    var r4 := WriteRegister(m, FAN4_PWM, duty);
  }

  /** wdt_update */
  method WdtUpdate(m: Mailbox, value: nat) returns (ret: int)
    requires m.Ok() && HostIdle(m.ec)
    modifies m
    ensures ret == 0
    ensures m.Ok() && HostIdle(m.ec) && Abs(m.ec).stale == Abs(old(m.ec)).stale && m.clock >= old(m.clock)
    ensures var target := map[WDT_TIME_MSB := value / 256 % 256, WDT_TIME_LSB := value % 256];
            && EachOldOrNew(Abs(old(m.ec)).mem, Abs(m.ec).mem, target)
            && (Prompt(m.schedule, old(m.clock)) ==> AllNew(Abs(old(m.ec)).mem, Abs(m.ec).mem, target))
    ensures m.calls == old(m.calls) + [Write(WDT_TIME_MSB, value / 256 % 256), Write(WDT_TIME_LSB, value % 256)]
  {
    var r1 := WriteRegister(m, WDT_TIME_MSB, value / 256 % 256);
    var r2 := WriteRegister(m, WDT_TIME_LSB, value % 256);
    ret := 0;
  }

  /** What a completed read gives: the byte that an earlier read left, else its answer. */
  function Heard(stale: Option<byte>, answer: byte): byte {
    if stale.Some? then stale.value else answer
  }

  /** The byte left behind after a read: a completed read leaves its answer if it was
      given another's, one that timed out leaves it if its address went out. */
  function Left(stale: Option<byte>, answer: byte, ok: bool, asked: bool): Option<byte> {
    if ok then if stale.Some? then Some(answer) else None
    else if asked then Some(answer)
    else stale
  }

  /** wdt_get_counter. Neither return code is looked at: a read that fails leaves its
      half of the counter to what the uninitialised local happened to hold, and if its
      address went out the low half is the high byte. */
  method WdtGetCounter(m: Mailbox, junk1: byte, junk2: byte)
    returns (counter: nat, ghost ok1: bool, ghost ok2: bool, ghost asked1: bool, ghost asked2: bool)
    requires m.Ok() && HostIdle(m.ec)
    modifies m
    ensures m.Ok() && HostIdle(m.ec) && Abs(m.ec).mem == Abs(old(m.ec)).mem && m.clock >= old(m.clock)
    ensures counter < 0x1_0000 && m.calls == old(m.calls) + [Read(WDT_TIME_MSB), Read(WDT_TIME_LSB)]
    ensures var (high, low) := (Abs(m.ec).mem[WDT_TIME_MSB], Abs(m.ec).mem[WDT_TIME_LSB]);
            var stale := Abs(old(m.ec)).stale;
            var between := Left(stale, high, ok1, asked1);
            && counter / 256 == (if ok1 then Heard(stale, high) else junk1)
            && counter % 256 == (if ok2 then Heard(between, low) else junk2)
            && Abs(m.ec).stale == Left(between, low, ok2, asked2)
    ensures Prompt(m.schedule, old(m.clock)) ==> ok1 && ok2
  {
    var tmp1, tmp2 := junk1, junk2;
    var ret: int;
    ret, tmp1, asked1 := m.ReadMemory(WDT_TIME_MSB, tmp1);
    ok1 := ret == 0;
    ret, tmp2, asked2 := m.ReadMemory(WDT_TIME_LSB, tmp2);
    ok2 := ret == 0;
    counter := Word(tmp1, tmp2);
    DivUnique(counter, 256, tmp1, tmp2);
  }

  /** wdt_start: its result is that of the switch alone, so success says nothing of
      the time-out registers, which may be old or new one by one. */
  method WdtStart(m: Mailbox, timeout: nat) returns (ret: int)
    requires m.Ok() && HostIdle(m.ec)
    modifies m
    ensures m.Ok() && HostIdle(m.ec) && Abs(m.ec).stale == Abs(old(m.ec)).stale && m.clock >= old(m.clock)
    ensures ret == 0 ==> Abs(m.ec).mem[WDT_SWITCH] == 1
    ensures ret != 0 ==> Abs(m.ec).mem[WDT_SWITCH] == Abs(old(m.ec)).mem[WDT_SWITCH]
    ensures var target := map[WDT_TIME_MSB := timeout / 256 % 256, WDT_TIME_LSB := timeout % 256, WDT_SWITCH := 1];
            && EachOldOrNew(Abs(old(m.ec)).mem, Abs(m.ec).mem, target)
            && (Prompt(m.schedule, old(m.clock)) ==> ret == 0 && AllNew(Abs(old(m.ec)).mem, Abs(m.ec).mem, target))
    ensures m.calls == old(m.calls) + [Write(WDT_TIME_MSB, timeout / 256 % 256), Write(WDT_TIME_LSB, timeout % 256),
                                       Write(WDT_SWITCH, 1)]
  {
    ret := WdtUpdate(m, timeout);
    ret := WriteRegister(m, WDT_SWITCH, 1);
  }

  /** On a prompt controller with no stranded byte the time-out that was started with
      reads back, modulo the sixteen bits that are sent. */
  method StartThenCount(m: Mailbox, timeout: nat, junk1: byte, junk2: byte) returns (counter: nat)
    requires m.Ok() && HostIdle(m.ec)
    modifies m
    ensures m.Ok() && HostIdle(m.ec)
    ensures Prompt(m.schedule, old(m.clock)) && Abs(old(m.ec)).stale.None? ==> counter == timeout % 0x1_0000
  {
    var ret := WdtStart(m, timeout);
    ghost var ok1: bool, ok2: bool, asked1: bool, asked2: bool;
    counter, ok1, ok2, asked1, asked2 := WdtGetCounter(m, junk1, junk2);
    WordOfHalves(timeout);
  }

  lemma WordOfHalves(v: nat)
    ensures Word(v / 256 % 256, v % 256) == v % 0x1_0000
  {
    var q := v / 0x1_0000;
    var r := v % 0x1_0000;
    assert v == q * 0x1_0000 + r;
    DivUnique(v, 256, q * 256 + r / 256, r % 256);
    DivUnique(q * 256 + r / 256, 256, q, r / 256);
  }
}
