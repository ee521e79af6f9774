/** The embedded-controller mailbox: the host side of the read (0x80) and write
    (0x81) commands of the ACPI Specification, sections 12.3.1 and 12.3.2, over the
    status register of section 12.2.1, against a controller that runs by itself
    between any two port accesses. */
module EcMailbox {
  import opened Bytes

  const READ_MEM: byte := 0x80
  const WRITE_MEM: byte := 0x81
  const TIMEOUT: nat := 5
  const ETIMEDOUT: int := 110

  // The controller ----------------------------------------------------------------

  datatype Phase =
    | Idle
    | ReadAddress
    | Produce(address: byte)
    | WriteAddress
    | WriteData(address: byte)
    | Commit(address: byte, value: byte)

  datatype Ec = Ec(
    ibf: bool, input: byte, isCommand: bool,
    obf: bool, output: byte,
    phase: Phase, mem: seq<byte>)

  predicate Valid(s: Ec) {
    |s.mem| == 256
  }

  function Consume(s: Ec): Ec {
    s.(ibf := false, phase :=
      if s.isCommand then
        if s.input == READ_MEM then ReadAddress else if s.input == WRITE_MEM then WriteAddress else Idle
      else
        match s.phase
        case ReadAddress => Produce(s.input)
        case WriteAddress => WriteData(s.input)
        case WriteData(a) => Commit(a, s.input)
        case _ => Idle)
  }

  /** One step of the firmware. A byte to produce waits until the host has taken the
      one before it, and a byte in hand is dealt with before the next is taken. */
  function EcStep(s: Ec): (r: Ec)
    requires Valid(s)
    ensures Valid(r)
  {
    match s.phase
    case Produce(a) => if s.obf then s else s.(obf := true, output := s.mem[a], phase := Idle)
    case Commit(a, v) => s.(mem := s.mem[a := v], phase := Idle)
    case _ => if s.ibf then Consume(s) else s
  }

  function EcRun(s: Ec, n: nat): (r: Ec)
    requires Valid(s)
    ensures Valid(r)
    decreases n
  {
    if n == 0 then s else EcRun(EcStep(s), n - 1)
  }

  /** Where the controller ends if the host does nothing. */
  function Drain(s: Ec): (r: Ec)
    requires Valid(s)
    ensures Valid(r)
  {
    EcStep(EcStep(EcStep(s)))
  }

  lemma DrainedStops(s: Ec)
    requires Valid(s)
    ensures EcStep(Drain(s)) == Drain(s)
  {
  }

  lemma {:induction false} RunDrains(s: Ec, n: nat)
    requires Valid(s)
    ensures Drain(EcRun(s, n)) == Drain(s)
    ensures s.obf ==> EcRun(s, n).obf && EcRun(s, n).output == s.output
    ensures !s.ibf ==> !EcRun(s, n).ibf
    decreases n
  {
    if n > 0 {
      DrainedStops(s);
      RunDrains(EcStep(s), n - 1);
    }
  }

  function Put(s: Ec, b: byte, isCommand: bool): Ec {
    s.(ibf := true, input := b, isCommand := isCommand)
  }

  function Take(s: Ec): Ec {
    s.(obf := false)
  }

  /** A byte put into an empty input buffer has the effect it would have had on a
      controller that had finished everything before it. */
  lemma PutDrains(s: Ec, b: byte, isCommand: bool)
    requires Valid(s) && !s.ibf
    ensures Drain(Put(s, b, isCommand)) == Drain(Put(Drain(s), b, isCommand))
  {
  }

  lemma TakeDrains(s: Ec)
    requires Valid(s) && s.obf
    ensures Drain(s).obf && Drain(s).output == s.output
    ensures Drain(Take(s)) == Drain(Take(Drain(s)))
  {
    match s.phase
    case Produce(a) =>
    case Commit(a, v) =>
    case _ =>
  }

  /** A controller with nothing left to do and nothing it waits to hand over. */
  predicate AtRest(d: Ec) {
    Valid(d) && !d.ibf && !d.phase.Produce? && !d.phase.Commit?
  }

  lemma AfterCommand(d: Ec, b: byte)
    requires AtRest(d)
    ensures Drain(Put(d, b, true)) == d.(input := b, isCommand := true, phase :=
              if b == READ_MEM then ReadAddress else if b == WRITE_MEM then WriteAddress else Idle)
  {
  }

  lemma AfterReadAddress(d: Ec, a: byte)
    requires AtRest(d) && d.phase.ReadAddress?
    ensures var d' := d.(input := a, isCommand := false);
            Drain(Put(d, a, false)) == if d.obf then d'.(phase := Produce(a))
            else d'.(phase := Idle, obf := true, output := d.mem[a])
  {
  }

  lemma AfterTake(d: Ec, a: byte)
    requires Valid(d) && d.obf && !d.ibf && (d.phase == Produce(a) || d.phase == Idle)
    ensures Drain(Take(d)) == if d.phase.Produce? then d.(phase := Idle, output := d.mem[a]) else d.(obf := false)
  {
  }

  lemma AfterWriteAddress(d: Ec, a: byte)
    requires AtRest(d) && d.phase.WriteAddress?
    ensures Drain(Put(d, a, false)) == d.(input := a, isCommand := false, phase := WriteData(a))
  {
  }

  lemma AfterWriteData(d: Ec, a: byte, v: byte)
    requires AtRest(d) && d.phase == WriteData(a)
    ensures Drain(Put(d, v, false)) == d.(input := v, isCommand := false, phase := Idle, mem := d.mem[a := v])
  {
  }

  /** Only a full output buffer can hold the controller up. */
  lemma BlockedMeansFull(s: Ec)
    requires Valid(s) && Drain(s).phase.Produce?
    ensures s.obf
  {
  }

  // What the host can count on -------------------------------------------------------

  /** Between calls: the byte map as it will be once the controller has finished, and
      a byte left in the output buffer by a read that gave up. */
  datatype Host = Host(mem: seq<byte>, stale: Option<byte>)

  predicate HostIdle(s: Ec)
    requires Valid(s)
  {
    AtRest(Drain(s))
  }

  function Abs(s: Ec): (h: Host)
    requires Valid(s)
    ensures |h.mem| == 256
  {
    var d := Drain(s);
    Host(d.mem, if d.obf then Some(d.output) else None)
  }

  datatype Call = Read(address: byte) | Write(address: byte, value: byte)
  datatype Outcome = Done(value: byte) | TimedOut

  /** What a call does to the host's view, whatever the interleaving; `asked` says
      whether a read's address went out. A read that gives up after that leaves its
      answer to arrive later, which can only happen when nothing was left before. */
  predicate Allowed(h: Host, c: Call, o: Outcome, asked: bool, h': Host)
    requires |h.mem| == 256
  {
    match c
    case Write(a, v) =>
      h' == if o.Done? then h.(mem := h.mem[a := v]) else h
    case Read(a) =>
      if o.Done? then
        match h.stale
        case None => o.value == h.mem[a] && h' == h
        case Some(x) => o.value == x && h' == h.(stale := Some(h.mem[a]))
      else if asked then
        h.stale.None? && h' == h.(stale := Some(h.mem[a]))
      else
        h' == h
  }

  /** The controller after n port accesses from time t on that do not touch its buffers. */
  function Waited(s: Ec, schedule: nat -> nat, t: nat, n: nat): (r: Ec)
    requires Valid(s)
    ensures Valid(r)
  {
    if n == 0 then s else EcRun(Waited(s, schedule, t, n - 1), schedule(t + n - 1))
  }

  /** Each of the first n polls from time t on finds the input buffer full. */
  ghost predicate FullFor(s: Ec, schedule: nat -> nat, t: nat, n: int)
    requires Valid(s)
  {
    forall k: nat :: 0 < k <= n ==> Waited(s, schedule, t, k).ibf
  }

  /** Each of the first n polls from time t on finds the output buffer empty. */
  ghost predicate EmptyFor(s: Ec, schedule: nat -> nat, t: nat, n: int)
    requires Valid(s)
  {
    forall k: nat :: 0 < k <= n ==> !Waited(s, schedule, t, k).obf
  }

  /** From time t on the controller makes at least one step before every port access. */
  ghost predicate Prompt(schedule: nat -> nat, t: nat) {
    forall k: nat :: k >= t ==> schedule(k) >= 1
  }

  /** The controller makes no step before the port accesses from t up to t + n. */
  ghost predicate Still(schedule: nat -> nat, t: nat, n: nat) {
    forall k: nat :: t <= k < t + n ==> schedule(k) == 0
  }

  lemma RestStays(s: Ec, n: nat)
    requires AtRest(s)
    ensures EcRun(s, n) == s
    decreases n
  {
  }

  /** A controller at rest that takes a command put at time t and then makes no step for
      as long as the address and the answer are waited for. */
  ghost predicate Stalls(s: Ec, schedule: nat -> nat, t: nat) {
    AtRest(s) && !s.obf && schedule(t + 2) == 1 && Still(schedule, t + 3, TIMEOUT + 1)
  }

  /** Where a controller at rest ends once a read has been asked of it. */
  function Asked(d: Ec, a: byte): Ec
    requires Valid(d)
  {
    var d' := d.(input := a, isCommand := false);
    if d.obf then d'.(phase := Produce(a)) else d'.(phase := Idle, obf := true, output := d.mem[a])
  }

  class Mailbox {
    const schedule: nat -> nat
    var ec: Ec
    var clock: nat
    var calls: seq<Call>

    constructor (schedule: nat -> nat, ec: Ec)
      ensures this.schedule == schedule && this.ec == ec && clock == 0 && calls == []
    {
      this.schedule := schedule;
      this.ec := ec;
      clock := 0;
      calls := [];
    }

    ghost predicate Ok()
      reads this
    {
      Valid(ec)
    }

    /** The controller runs until the host's next port access. */
    method Elapse()
      requires Ok()
      modifies this`ec, this`clock
      ensures Ok() && clock == old(clock) + 1 && ec == EcRun(old(ec), schedule(old(clock)))
      ensures Drain(ec) == Drain(old(ec))
      ensures old(ec.obf) ==> ec.obf && ec.output == old(ec.output)
      ensures !old(ec.ibf) ==> !ec.ibf
    {
      RunDrains(ec, schedule(clock));
      ec := EcRun(ec, schedule(clock));
      clock := clock + 1;
    }

    /** ec_read_status: bit 1 is IBF, bit 0 is OBF. */
    method ReadStatus() returns (status: byte)
      requires Ok()
      modifies this`ec, this`clock
      ensures Ok() && clock == old(clock) + 1 && ec == EcRun(old(ec), schedule(old(clock)))
      ensures Drain(ec) == Drain(old(ec))
      ensures old(ec.obf) ==> ec.obf && ec.output == old(ec.output)
      ensures !old(ec.ibf) ==> !ec.ibf
      ensures status / 2 % 2 == (if ec.ibf then 1 else 0) && status % 2 == (if ec.obf then 1 else 0)
    {
      Elapse();
      status := (if ec.ibf then 2 else 0) + (if ec.obf then 1 else 0);
    }

    /** The polling loop. */
    method PollInput() returns (ret: int)
      requires Ok()
      modifies this`ec, this`clock
      ensures Ok() && (ret == 0 || ret == -ETIMEDOUT) && old(clock) <= clock <= old(clock) + TIMEOUT
      ensures var polls := clock - old(clock);
              && ec == Waited(old(ec), schedule, old(clock), polls)
              && (ret == 0 ==> polls > 0 && !ec.ibf && FullFor(old(ec), schedule, old(clock), polls - 1))
              && (ret != 0 ==> polls == TIMEOUT && FullFor(old(ec), schedule, old(clock), TIMEOUT))
    {
      var timeout := TIMEOUT;
      ghost var s, t := ec, clock;
      while timeout > 0
        invariant Ok() && 0 <= timeout <= TIMEOUT && clock + timeout == t + TIMEOUT
        invariant ec == Waited(s, schedule, t, TIMEOUT - timeout)
        invariant FullFor(s, schedule, t, TIMEOUT - timeout)
      {
        var status := PollStatus(s, t);
        if status / 2 % 2 == 0 {
          return 0;
        }
        timeout := timeout - 1;
      }
      return -ETIMEDOUT;
    }

    /** ec_wait_command_ready: it ends with the first poll that finds the input buffer
        empty, or after five that do not. */
    method WaitCommandReady() returns (ret: int)
      requires Ok()
      modifies this`ec, this`clock
      ensures Ok() && Drain(ec) == Drain(old(ec)) && old(clock) <= clock <= old(clock) + TIMEOUT
      ensures ret == 0 || ret == -ETIMEDOUT
      ensures ret == 0 ==> !ec.ibf
      ensures var polls := clock - old(clock);
              && ec == Waited(old(ec), schedule, old(clock), polls)
              && (ret == 0 ==> polls > 0 && FullFor(old(ec), schedule, old(clock), polls - 1))
              && (ret != 0 ==> polls == TIMEOUT && FullFor(old(ec), schedule, old(clock), TIMEOUT))
      ensures var s := EcRun(old(ec), schedule(old(clock)));
              !s.ibf ==> ret == 0 && ec == s && clock == old(clock) + 1
      ensures Prompt(schedule, old(clock)) && !Drain(old(ec)).ibf ==> ret == 0
    {
      ghost var s, t := ec, clock;
      WaitedOnce(s, schedule, t);
      ret := PollInput();
      WaitedDrains(s, schedule, t, clock - t);
      PromptFrees(s, schedule, t);
    }

    /** The polling loop. */
    method PollOutput() returns (ret: int)
      requires Ok()
      modifies this`ec, this`clock
      ensures Ok() && (ret == 0 || ret == -ETIMEDOUT) && old(clock) <= clock <= old(clock) + TIMEOUT
      ensures var polls := clock - old(clock);
              && ec == Waited(old(ec), schedule, old(clock), polls)
              && (ret == 0 ==> polls > 0 && ec.obf && EmptyFor(old(ec), schedule, old(clock), polls - 1))
              && (ret != 0 ==> polls == TIMEOUT && EmptyFor(old(ec), schedule, old(clock), TIMEOUT))
    {
      var timeout := TIMEOUT;
      ghost var s, t := ec, clock;
      while timeout > 0
        invariant Ok() && 0 <= timeout <= TIMEOUT && clock + timeout == t + TIMEOUT
        invariant ec == Waited(s, schedule, t, TIMEOUT - timeout)
        invariant EmptyFor(s, schedule, t, TIMEOUT - timeout)
      {
        var status := PollStatus(s, t);
        if status % 2 == 1 {
          return 0;
        }
        timeout := timeout - 1;
      }
      return -ETIMEDOUT;
    }

    /** ec_wait_data_ready: it ends with the first poll that finds the output buffer full,
        or after five that do not. */
    method WaitDataReady() returns (ret: int)
      requires Ok()
      modifies this`ec, this`clock
      ensures Ok() && Drain(ec) == Drain(old(ec)) && old(clock) <= clock <= old(clock) + TIMEOUT
      ensures ret == 0 || ret == -ETIMEDOUT
      ensures ret == 0 ==> ec.obf
      ensures var polls := clock - old(clock);
              && ec == Waited(old(ec), schedule, old(clock), polls)
              && (ret == 0 ==> polls > 0 && EmptyFor(old(ec), schedule, old(clock), polls - 1))
              && (ret != 0 ==> polls == TIMEOUT && EmptyFor(old(ec), schedule, old(clock), TIMEOUT))
      ensures old(ec.obf) ==> ret == 0
      ensures Still(schedule, old(clock), TIMEOUT) && !old(ec.obf) ==> ret != 0 && clock == old(clock) + TIMEOUT
      ensures Prompt(schedule, old(clock)) && Drain(old(ec)).obf ==> ret == 0
    {
      ghost var s, t := ec, clock;
      ret := PollOutput();
      WaitedDrains(s, schedule, t, clock - t);
      StillStays(s, schedule, t, clock - t);
      PromptFills(s, schedule, t);
    }

    /** ec_read_status in a wait that began in state s at time t. */
    method PollStatus(ghost s: Ec, ghost t: nat) returns (status: byte)
      requires Valid(s) && t <= clock && ec == Waited(s, schedule, t, clock - t)
      modifies this`ec, this`clock
      ensures clock == old(clock) + 1 && ec == Waited(s, schedule, t, clock - t)
      ensures status / 2 % 2 == (if ec.ibf then 1 else 0) && status % 2 == (if ec.obf then 1 else 0)
    {
      status := ReadStatus();
    }

    /** ec_send_command and ec_send_data differ only in the port they write. */
    method Send(b: byte, isCommand: bool) returns (ret: int)
      requires Ok()
      modifies this`ec, this`clock
      ensures Ok() && (ret == 0 || ret == -ETIMEDOUT) && old(clock) <= clock <= old(clock) + TIMEOUT + 1
      ensures ret == 0 ==> Drain(ec) == Drain(Put(Drain(old(ec)), b, isCommand))
      ensures ret != 0 ==> Drain(ec) == Drain(old(ec))
      ensures var s := EcRun(old(ec), schedule(old(clock)));
              !s.ibf ==>
                ret == 0 && clock == old(clock) + 2 && ec == Put(EcRun(s, schedule(old(clock) + 1)), b, isCommand)
      ensures Prompt(schedule, old(clock)) && !Drain(old(ec)).ibf ==> ret == 0
    {
      ret := WaitCommandReady();
      if ret != 0 {
        return;
      }
      Elapse();
      PutDrains(ec, b, isCommand);
      ec := Put(ec, b, isCommand);
    }

    /** ec_receive_data; a time-out leaves the caller's byte as it was. */
    method ReceiveData(was: byte) returns (ret: int, data: byte)
      requires Ok()
      modifies this`ec, this`clock
      ensures Ok() && (ret == 0 || ret == -ETIMEDOUT) && old(clock) <= clock <= old(clock) + TIMEOUT + 1
      ensures ret == 0 ==>
                Drain(old(ec)).obf && data == Drain(old(ec)).output && Drain(ec) == Drain(Take(Drain(old(ec))))
      ensures ret != 0 ==> data == was && Drain(ec) == Drain(old(ec)) && !old(ec.obf)
      ensures Still(schedule, old(clock), TIMEOUT) && !old(ec.obf) ==> ret != 0 && clock == old(clock) + TIMEOUT
      ensures Prompt(schedule, old(clock)) && Drain(old(ec)).obf ==> ret == 0
    {
      data := was;
      ret := WaitDataReady();
      if ret != 0 {
        return;
      }
      Elapse();
      TakeDrains(ec);
      data := ec.output;
      ec := Take(ec);
    }

    /** The two sends of ec_read_memory; `asked` says whether the address went out. */
    method AskMemory(address: byte) returns (ret: int, ghost asked: bool)
      requires Ok() && HostIdle(ec)
      modifies this`ec, this`clock
      ensures Ok() && (ret == 0 || ret == -ETIMEDOUT) && asked == (ret == 0)
      ensures old(clock) <= clock <= old(clock) + 2 * (TIMEOUT + 1)
      ensures ret != 0 ==> HostIdle(ec) && Abs(ec) == Abs(old(ec))
      ensures ret == 0 ==> Drain(ec) == Asked(Drain(old(ec)), address)
      ensures Prompt(schedule, old(clock)) ==> ret == 0
      ensures Stalls(old(ec), schedule, old(clock)) ==> ret == 0 && !ec.obf && clock == old(clock) + 4
    {
      asked := false;
      ghost var d, s0 := Drain(ec), ec;
      if AtRest(ec) {
        RestStays(ec, schedule(clock));
        RestStays(ec, schedule(clock + 1));
      }
      ret := Send(READ_MEM, true);
      if ret != 0 {
        return;
      }
      AfterCommand(d, READ_MEM);
      ghost var d1 := Drain(ec);
      StalledRead(s0, address);
      ret := Send(address, false);
      if ret != 0 {
        return;
      }
      asked := true;
      AfterReadAddress(d1, address);
    }

    /** ec_read_memory; `was` is what the caller's variable held. A controller that takes
        the command and then makes no step lets the read time out with its answer still
        to come. */
    method ReadMemory(address: byte, was: byte) returns (ret: int, value: byte, ghost asked: bool)
      requires Ok() && HostIdle(ec)
      modifies this
      ensures calls == old(calls) + [Read(address)]
      ensures Ok() && HostIdle(ec) && (ret == 0 || ret == -ETIMEDOUT)
      ensures old(clock) <= clock <= old(clock) + 3 * (TIMEOUT + 1)
      ensures Allowed(Abs(old(ec)), Read(address), if ret == 0 then Done(value) else TimedOut, asked, Abs(ec))
      ensures ret != 0 ==> value == was
      ensures Prompt(schedule, old(clock)) ==> ret == 0
      ensures Stalls(old(ec), schedule, old(clock)) ==> ret != 0 && asked && clock == old(clock) + 4 + TIMEOUT
    {
      calls := calls + [Read(address)];
      value := was;
      ret, asked := AskMemory(address);
      if ret != 0 {
        return;
      }
      ghost var d2 := Drain(ec);
      if d2.phase.Produce? {
        BlockedMeansFull(ec);
      }
      ret, value := ReceiveData(was);
      if ret == 0 {
        AfterTake(d2, address);
      }
    }

    /** ec_write_memory */
    method WriteMemory(address: byte, value: byte) returns (ret: int)
      requires Ok() && HostIdle(ec)
      modifies this
      ensures calls == old(calls) + [Write(address, value)]
      ensures Ok() && HostIdle(ec) && (ret == 0 || ret == -ETIMEDOUT)
      ensures old(clock) <= clock <= old(clock) + 3 * (TIMEOUT + 1)
      ensures Allowed(Abs(old(ec)), Write(address, value), if ret == 0 then Done(0) else TimedOut, false, Abs(ec))
      ensures Prompt(schedule, old(clock)) ==> ret == 0
    {
      calls := calls + [Write(address, value)];
      ghost var d := Drain(ec);
      ret := Send(WRITE_MEM, true);
      if ret != 0 {
        return;
      }
      AfterCommand(d, WRITE_MEM);
      ghost var d1 := Drain(ec);
      ret := Send(address, false);
      if ret != 0 {
        return;
      }
      AfterWriteAddress(d1, address);
      ghost var d2 := Drain(ec);
      ret := Send(value, false);
      if ret == 0 {
        AfterWriteData(d2, address, value);
      }
    }
  }

  /** One step takes the read command, none leaves the address where it was put. */
  lemma StalledRead(s: Ec, address: byte)
    requires Valid(s)
    ensures AtRest(s) && !s.obf ==>
              var t := EcRun(Put(s, READ_MEM, true), 1);
              !t.ibf && EcRun(t, 0) == t && !Put(t, address, false).obf
  {
    if AtRest(s) {
      assert EcRun(Put(s, READ_MEM, true), 1) == EcRun(EcStep(Put(s, READ_MEM, true)), 0);
    }
  }

  /** Steps until the input buffer is free. */
  function InputDistance(s: Ec): nat {
    if !s.ibf then 0 else if s.phase.Produce? || s.phase.Commit? then 2 else 1
  }

  lemma {:induction false} InputApproaches(s: Ec, n: nat)
    requires Valid(s)
    ensures !Drain(s).ibf && n >= 1 ==>
              InputDistance(EcRun(s, n)) + 1 <= InputDistance(s) || InputDistance(EcRun(s, n)) == 0
    decreases n
  {
    if n >= 1 && !Drain(s).ibf {
      DrainedStops(s);
      assert EcRun(s, n) == EcRun(EcStep(s), n - 1);
      InputApproaches(EcStep(s), n - 1);
    }
  }

  /** Steps until the output buffer is full, if it is going to be. */
  function OutputDistance(s: Ec): nat {
    if s.obf then 0 else if s.phase.Produce? then 1 else if s.phase.Commit? then 3 else 2
  }

  lemma {:induction false} OutputApproaches(s: Ec, n: nat)
    requires Valid(s)
    ensures Drain(s).obf && n >= 1 ==>
              OutputDistance(EcRun(s, n)) + 1 <= OutputDistance(s) || OutputDistance(EcRun(s, n)) == 0
    decreases n
  {
    if n >= 1 && Drain(s).obf {
      DrainedStops(s);
      assert EcRun(s, n) == EcRun(EcStep(s), n - 1);
      OutputApproaches(EcStep(s), n - 1);
    }
  }

  lemma WaitedOnce(s: Ec, schedule: nat -> nat, t: nat)
    requires Valid(s)
    ensures Waited(s, schedule, t, 1) == EcRun(s, schedule(t))
  {
    assert Waited(s, schedule, t, 0) == s;
  }

  lemma {:induction false} WaitedDrains(s: Ec, schedule: nat -> nat, t: nat, n: nat)
    requires Valid(s)
    ensures var r := Waited(s, schedule, t, n);
            Drain(r) == Drain(s) && (s.obf ==> r.obf)
  {
    if n > 0 {
      WaitedDrains(s, schedule, t, n - 1);
      RunDrains(Waited(s, schedule, t, n - 1), schedule(t + n - 1));
    }
  }

  lemma {:induction false} StillStays(s: Ec, schedule: nat -> nat, t: nat, n: nat)
    requires Valid(s)
    ensures Still(schedule, t, n) ==> Waited(s, schedule, t, n) == s
  {
    if n > 0 && Still(schedule, t, n) {
      StillStays(s, schedule, t, n - 1);
    }
  }

  /** n polls have brought a distance down by as much, or to nothing. */
  predicate Nearer(distance: nat, n: nat, now: nat) {
    now == 0 || now + n <= distance
  }

  lemma {:induction false} PromptTakes(s: Ec, schedule: nat -> nat, t: nat, n: nat)
    requires Valid(s) && Prompt(schedule, t) && !Drain(s).ibf
    ensures Nearer(InputDistance(s), n, InputDistance(Waited(s, schedule, t, n)))
  {
    if n > 0 {
      var k := n - 1;
      PromptTakes(s, schedule, t, k);
      PromptTakesOnce(s, schedule, t, k);
    }
  }

  lemma PromptTakesOnce(s: Ec, schedule: nat -> nat, t: nat, k: nat)
    requires Valid(s) && Prompt(schedule, t) && !Drain(s).ibf
    ensures var before, after := Waited(s, schedule, t, k), Waited(s, schedule, t, k + 1);
            Nearer(InputDistance(before), 1, InputDistance(after))
  {
    WaitedDrains(s, schedule, t, k);
    InputApproaches(Waited(s, schedule, t, k), schedule(t + k));
  }

  lemma {:induction false} PromptGives(s: Ec, schedule: nat -> nat, t: nat, n: nat)
    requires Valid(s) && Prompt(schedule, t) && Drain(s).obf
    ensures Nearer(OutputDistance(s), n, OutputDistance(Waited(s, schedule, t, n)))
  {
    if n > 0 {
      var k := n - 1;
      PromptGives(s, schedule, t, k);
      PromptGivesOnce(s, schedule, t, k);
    }
  }

  lemma PromptGivesOnce(s: Ec, schedule: nat -> nat, t: nat, k: nat)
    requires Valid(s) && Prompt(schedule, t) && Drain(s).obf
    ensures var before, after := Waited(s, schedule, t, k), Waited(s, schedule, t, k + 1);
            Nearer(OutputDistance(before), 1, OutputDistance(after))
  {
    WaitedDrains(s, schedule, t, k);
    OutputApproaches(Waited(s, schedule, t, k), schedule(t + k));
  }

  /** A prompt controller that is going to take its byte has done so within five polls. */
  lemma PromptFrees(s: Ec, schedule: nat -> nat, t: nat)
    requires Valid(s)
    ensures Prompt(schedule, t) && !Drain(s).ibf ==> !Waited(s, schedule, t, TIMEOUT).ibf
  {
    if Prompt(schedule, t) && !Drain(s).ibf {
      PromptTakes(s, schedule, t, TIMEOUT);
    }
  }

  /** And one that is going to give a byte has given it. */
  lemma PromptFills(s: Ec, schedule: nat -> nat, t: nat)
    requires Valid(s)
    ensures Prompt(schedule, t) && Drain(s).obf ==> Waited(s, schedule, t, TIMEOUT).obf
  {
    if Prompt(schedule, t) && Drain(s).obf {
      PromptGives(s, schedule, t, TIMEOUT);
    }
  }
}
