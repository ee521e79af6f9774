/** The touch controller as the firmware loaders see it: the framing of a
    transfer and the state machine behind it, a NOR flash with a write-enable
    latch, a busy period and protection bits, and a program RAM. */
module Controller {
  import opened Bytes

  // Framing -----------------------------------------------------------------

  const MAGIC: seq<byte> := [0xab, 0xb5, 0xa5, 0x5a]
  const SELECT_FLASH: seq<byte> := [0xa5, 0x5a, 0xb5, 0xab, 0x00]
  const SELECT_PRAM: seq<byte> := [0xa5, 0x5a, 0xb5, 0xab, 0x01]
  const FINISH: seq<byte> := [0xab, 0xb5, 0xa5, 0x5a, 0x00, 0x00, 0x00, 0x00]

  /** A read of one byte of register 0x89, in which the controller keeps its version. */
  const READ_VERSION: seq<byte> := [0x5a, 0xa5, 0xab, 0xb5, 0x00, 0x00, 0x00, 0x01, 0x00, 0x80, 0x89]

  /** One loader frame: how many bytes the host will read back, a 24-bit offset
      (zero in flash frames) and the bytes it writes. */
  datatype Frame = Frame(readLen: nat, offset: nat, payload: seq<byte>)

  predicate Encodable(f: Frame) {
    f.readLen < 0x1_0000 && f.offset < 0x100_0000 && |f.payload| < 0x1_0000
  }

  function Encode(f: Frame): (s: seq<byte>)
    requires Encodable(f)
    ensures |s| == 11 + |f.payload|
  {
    MAGIC
    + [Hi(|f.payload|), Lo(|f.payload|), Hi(f.readLen), Lo(f.readLen)]
    + Addr24(f.offset)
    + f.payload
  }

  function Decode(s: seq<byte>): (r: Option<Frame>)
    ensures r.Some? ==> Encodable(r.value)
  {
    if |s| < 11 || s[..4] != MAGIC || |s| != 11 + Word(s[4], s[5]) then None
    else Some(Frame(Word(s[6], s[7]), FromAddr24(s[8], s[9], s[10]), s[11..]))
  }

  lemma FrameRoundTrip(f: Frame)
    requires Encodable(f)
    ensures Decode(Encode(f)) == Some(f)
    ensures |Encode(f)| == 11 + Word(Encode(f)[4], Encode(f)[5])
  {
    var s := Encode(f);
    assert s[..4] == MAGIC;
    assert s[11..] == f.payload;
    AddrRoundTrip(f.offset);
    assert s[8] == Addr24(f.offset)[0] && s[9] == Addr24(f.offset)[1] && s[10] == Addr24(f.offset)[2];
  }

  lemma Regroup(s: seq<byte>)
    requires |s| >= 11
    ensures s[..4] + [s[4], s[5], s[6], s[7]] + [s[8], s[9], s[10]] + s[11..] == s
  {
  }

  /** Whatever decodes is the encoding of what it decodes to. */
  lemma EncodeOfDecode(s: seq<byte>)
    requires Decode(s).Some?
    ensures Encode(Decode(s).value) == s
  {
    var f := Decode(s).value;
    AddrRoundTripBack(s[8], s[9], s[10]);
    var lengths := [Hi(|f.payload|), Lo(|f.payload|), Hi(f.readLen), Lo(f.readLen)];
    assert lengths == [s[4], s[5], s[6], s[7]] by {
      WordRoundTrip(s[4], s[5]);
      WordRoundTrip(s[6], s[7]);
    }
    Regroup(s);
  }

  // State -------------------------------------------------------------------

  const PAGE: nat := 256
  const MAX_SIZE: nat := 0x100_0000

  datatype Mode = App | FlashMode | PramMode

  /** `busy` counts the status reads that will still report "in progress".
      `faults` counts commands a data sheet forbids: anything but a status read
      while busy, a program or erase without the latch or under protection, a
      program that leaves its page or hits a cell that is not erased. */
  datatype State = State(
    mode: Mode,
    mem: seq<byte>,
    latch: bool,
    busy: nat,
    protection: nat,
    faults: nat,
    pram: seq<byte>,
    started: bool,
    version: byte)

  predicate Valid(d: State) {
    |d.mem| % PAGE == 0 && |d.mem| <= MAX_SIZE && |d.mem| > 0 && d.protection < 8
  }

  function Begin(d: State, latency: nat): State {
    d.(busy := latency, latch := latency > 0)
  }

  function Fault(d: State): State {
    d.(faults := d.faults + 1)
  }

  /** Page program of `data` from column `col` of the page at `page`: a cell can
      only lose bits, and the column counter wraps inside the page. */
  function ProgramCells(mem: seq<byte>, page: nat, col: nat, data: seq<byte>): (r: seq<byte>)
    requires page + PAGE <= |mem|
    ensures |r| == |mem|
    decreases |data|
  {
    if data == [] then mem
    else
      var a := page + col % PAGE;
      ProgramCells(mem[a := And(mem[a], data[0])], page, col + 1, data[1..])
  }

  predicate ProgramIsClean(mem: seq<byte>, addr: nat, data: seq<byte>) {
    addr % PAGE + |data| <= PAGE
    && addr + |data| <= |mem|
    && forall i :: addr <= i < addr + |data| ==> mem[i] == 0xFF
  }

  function Program(d: State, addr: nat, data: seq<byte>, latency: nat): (r: State)
    requires Valid(d) && addr < |d.mem|
    ensures Valid(r) && |r.mem| == |d.mem| && r.mode == d.mode && r.pram == d.pram && r.started == d.started
  {
    var d' := if ProgramIsClean(d.mem, addr, data) then d else Fault(d);
    Begin(d'.(mem := ProgramCells(d.mem, addr / PAGE * PAGE, addr % PAGE, data)), latency)
  }

  /** A flash command of which nothing is read back. */
  function Execute(d: State, cmd: seq<byte>, latency: nat): (r: State)
    requires Valid(d)
    ensures Valid(r) && |r.mem| == |d.mem| && r.mode == d.mode && r.pram == d.pram && r.started == d.started
  {
    if cmd == [] then d
    else if d.busy > 0 then Fault(d)
    else if cmd == [0x06] then d.(latch := true)
    else if cmd[0] == 0x01 && |cmd| == 2 then
      if !d.latch then Fault(d) else Begin(d.(protection := cmd[1] / 4 % 8), latency)
    else if cmd == [0xc7] then
      if !d.latch || d.protection != 0 then Fault(d)
      else Begin(d.(mem := Repeat(0xFF, |d.mem|)), latency)
    else if cmd[0] == 0x02 && |cmd| >= 5 then
      if !d.latch || d.protection != 0 then Fault(d)
      else Program(d, FromAddr24(cmd[1], cmd[2], cmd[3]) % |d.mem|, cmd[4..], latency)
    else d
  }

  function Overwrite(ram: seq<byte>, offset: nat, data: seq<byte>): (r: seq<byte>)
    ensures |r| == |ram|
  {
    if offset + |data| <= |ram| then ram[..offset] + data + ram[offset + |data|..] else ram
  }

  function Handle(d: State, f: Frame, latency: nat): (r: State)
    requires Valid(d)
    ensures Valid(r) && |r.mem| == |d.mem| && |r.pram| == |d.pram| && r.mode == d.mode && r.started == d.started
    ensures !d.mode.PramMode? ==> r.pram == d.pram
  {
    if d.mode.FlashMode? && f.readLen == 0 && f.offset == 0 then Execute(d, f.payload, latency)
    else if d.mode.PramMode? && f.readLen == 0 then d.(pram := Overwrite(d.pram, f.offset, f.payload))
    else d
  }

  /** Bytes written to the controller with no read after them. */
  function Deliver(d: State, s: seq<byte>, latency: nat): (r: State)
    requires Valid(d)
    ensures Valid(r) && |r.mem| == |d.mem| && |r.pram| == |d.pram|
  {
    if s == SELECT_FLASH then d.(mode := FlashMode)
    else if s == SELECT_PRAM then d.(mode := PramMode, started := false)
    else if d.mode.PramMode? && s == FINISH then d.(started := true)
    else
      match Decode(s)
      case None => d
      case Some(f) => Handle(d, f, latency)
  }

  lemma DeliverNothing(d: State, latency: nat)
    requires Valid(d)
    ensures Deliver(d, [], latency) == d
  {
  }

  lemma DeliverFrame(d: State, f: Frame, latency: nat)
    requires Valid(d) && Encodable(f)
    ensures Deliver(d, Encode(f), latency) == Handle(d, f, latency)
  {
    var s := Encode(f);
    assert |s| >= 11 && |SELECT_FLASH| == 5 && |SELECT_PRAM| == 5 && |FINISH| == 8;
    assert s != SELECT_FLASH && s != SELECT_PRAM && s != FINISH;
    assert Decode(s) == Some(f) by {
      FrameRoundTrip(f);
    }
  }

  function Status(d: State): byte
    requires Valid(d)
  {
    (if d.busy > 0 then 1 else 0) + (if d.latch then 2 else 0) + 4 * d.protection
  }

  /** One status read brings a running operation one step nearer its end. */
  function AfterStatus(d: State): State {
    if d.busy == 0 then d
    else d.(busy := d.busy - 1, latch := d.latch && d.busy > 1)
  }

  function Window(mem: seq<byte>, addr: nat, n: nat): (r: seq<byte>)
    requires |mem| > 0
    ensures |r| == n
  {
    seq(n, i => mem[(addr + i) % |mem|])
  }

  const ID: byte := 0xef

  function Reply(d: State, f: Frame, n: nat): (r: (seq<byte>, State))
    requires Valid(d)
    ensures |r.0| == n
    ensures Valid(r.1) && r.1.mem == d.mem && r.1.mode == d.mode && r.1.pram == d.pram && r.1.started == d.started
  {
    if d.mode.PramMode? && f.readLen == n && f.payload == [] && f.offset + n <= |d.pram| then
      (d.pram[f.offset..f.offset + n], d)
    else if !d.mode.FlashMode? || f.readLen != n || f.offset != 0 then (Repeat(0xFF, n), d)
    else if f.payload == [0x05] then (Repeat(Status(d), n), AfterStatus(d))
    else if d.busy > 0 then (Repeat(0xFF, n), Fault(d))
    else if f.payload == [0x9f] then (Repeat(ID, n), d)
    else if |f.payload| == 4 && f.payload[0] == 0x0b && n > 0 then
      ([0] + Window(d.mem, FromAddr24(f.payload[1], f.payload[2], f.payload[3]), n - 1), d)
    else (Repeat(0xFF, n), d)
  }

  /** What the controller answers to a write-then-read, and its state after. */
  function Answer(d: State, s: seq<byte>, n: nat): (r: (seq<byte>, State))
    requires Valid(d)
    ensures |r.0| == n
    ensures Valid(r.1) && r.1.mem == d.mem && r.1.mode == d.mode && r.1.pram == d.pram && r.1.started == d.started
  {
    match Decode(s)
    case None => (if s == READ_VERSION && n == 1 then [d.version] else Repeat(0xFF, n), d)
    case Some(f) => Reply(d, f, n)
  }

  lemma AnswerFrame(d: State, f: Frame, n: nat)
    requires Valid(d) && Encodable(f)
    ensures Answer(d, Encode(f), n) == Reply(d, f, n)
  {
    FrameRoundTrip(f);
  }

  lemma SmallMod(a: nat, n: nat)
    requires a < n
    ensures a % n == a
  {
  }

  // Programming an erased page ----------------------------------------------

  lemma {:induction false} ProgramInsidePage(mem: seq<byte>, page: nat, col: nat, data: seq<byte>)
    requires page + PAGE <= |mem|
    requires col + |data| <= PAGE
    ensures var r := ProgramCells(mem, page, col, data);
            forall i :: 0 <= i < |mem| ==>
              r[i] == if page + col <= i < page + col + |data| then And(mem[i], data[i - page - col]) else mem[i]
    decreases |data|
  {
    if data != [] {
      var a := page + col % PAGE;
      assert a == page + col;
      ProgramInsidePage(mem[a := And(mem[a], data[0])], page, col + 1, data[1..]);
    }
  }

  lemma PageOf(addr: nat, size: nat)
    requires size % PAGE == 0 && addr < size
    ensures addr / PAGE * PAGE + addr % PAGE == addr && addr / PAGE * PAGE + PAGE <= size
  {
  }

  /** What a program inside its page leaves: the image of its data, and every other cell
      as it was. */
  lemma ProgramLeaves(mem: seq<byte>, page: nat, col: nat, data: seq<byte>)
    requires page + PAGE <= |mem| && col + |data| <= PAGE
    ensures var r, lo, hi := ProgramCells(mem, page, col, data), page + col, page + col + |data|;
            && r == mem[..lo] + r[lo..hi] + mem[hi..]
            && forall i :: 0 <= i < |data| ==> r[lo..hi][i] == And(mem[lo + i], data[i])
  {
    ProgramInsidePage(mem, page, col, data);
    var r, lo, hi := ProgramCells(mem, page, col, data), page + col, page + col + |data|;
    assert r[..lo] == mem[..lo];
    assert r[hi..] == mem[hi..];
    InThree(r, lo, hi);
  }

  lemma InThree(s: seq<byte>, lo: nat, hi: nat)
    requires lo <= hi <= |s|
    ensures s == s[..lo] + s[lo..hi] + s[hi..]
  {
  }

  /** The data fits over the cells at addr: each of its bits that is set is set there. */
  predicate Fits(mem: seq<byte>, addr: nat, data: seq<byte>)
    requires addr + |data| <= |mem|
  {
    forall i :: 0 <= i < |data| ==> And(mem[addr + i], data[i]) == data[i]
  }

  lemma SameMiddle(left: seq<byte>, s: seq<byte>, t: seq<byte>, right: seq<byte>)
    requires |s| == |t|
    ensures left + s + right == left + t + right <==> s == t
  {
    if left + s + right == left + t + right {
      forall i | 0 <= i < |s| ensures s[i] == t[i] {
        assert s[i] == (left + s + right)[|left| + i];
        assert t[i] == (left + t + right)[|left| + i];
      }
    }
  }

  /** A page program that stays inside its page stores its data if and only if it has no
      bit to set. */
  lemma ProgramStoresExactly(mem: seq<byte>, addr: nat, data: seq<byte>)
    requires |mem| % PAGE == 0 && addr < |mem| && addr % PAGE + |data| <= PAGE
    ensures addr + |data| <= |mem|
    ensures ProgramCells(mem, addr / PAGE * PAGE, addr % PAGE, data) == mem[..addr] + data + mem[addr + |data|..]
            <==> Fits(mem, addr, data)
  {
    PageOf(addr, |mem|);
    var page, col := addr / PAGE * PAGE, addr % PAGE;
    ProgramLeaves(mem, page, col, data);
    var stored := ProgramCells(mem, page, col, data)[addr..addr + |data|];
    SameMiddle(mem[..addr], stored, data, mem[addr + |data|..]);
  }

  /** On erased cells a page program stores exactly its data. */
  lemma ProgramErased(mem: seq<byte>, addr: nat, data: seq<byte>)
    requires |mem| % PAGE == 0
    requires addr < |mem| && ProgramIsClean(mem, addr, data)
    ensures ProgramCells(mem, addr / PAGE * PAGE, addr % PAGE, data) == mem[..addr] + data + mem[addr + |data|..]
  {
    forall i | 0 <= i < |data| ensures And(mem[addr + i], data[i]) == data[i] {
      AndErased(data[i]);
    }
    ProgramStoresExactly(mem, addr, data);
  }
}
