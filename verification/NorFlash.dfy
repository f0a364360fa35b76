/** The SPI NOR flash behind the ESPI controller, as far as the driver can see it.

    Erasing sets bytes to 0xff, programming can only clear bits (the new byte is
    the AND of the old one and the data) and the address of a page program wraps
    inside its 256-byte page. Neither has any effect unless the write enable latch
    is set; both clear it. One command is one atomic step. */
module NorFlash {
  import opened Bits

  const PAGE := 256
  const SUBSECTOR := 4096
  const SECTOR := 65536
  const BLANK: byte := 255

  datatype Command =
    | WriteEnable
    | BulkErase
    | SectorErase(addr: uint32)
    | SubsectorErase(addr: uint32)
    | PageProgram(addr: uint32, data: seq<byte>)
    | Ready
  {
    predicate Erases() { BulkErase? || SectorErase? || SubsectorErase? }

    predicate Alters() { Erases() || PageProgram? }
  }

  datatype Nor = Nor(mem: seq<byte>, wel: bool)

  function AndByte(a: byte, b: byte): (r: byte)
    ensures a == BLANK ==> r == b
    ensures b == BLANK ==> r == a
    ensures a == 0 ==> r == 0
  {
    AndBound(a, b);
    AndBlank(a);
    AndBlank(b);
    AndCommutes(a, b);
    And(a, b)
  }

  lemma AndBlank(b: byte)
    ensures And(BLANK, b) == b
  {
    hide And, Pow2;
    Pow2OfEight();
    AndMask(8, b);
  }

  lemma {:induction false} AndCommutes(a: nat, b: nat)
    ensures And(a, b) == And(b, a)
  {
    if a != 0 && b != 0 {
      AndCommutes(a / 2, b / 2);
      AndUnfold(a, b);
      AndUnfold(b, a);
    }
  }

  function Fill(mem: seq<byte>, lo: int, len: nat): (r: seq<byte>)
    ensures |r| == |mem|
  {
    seq(|mem|, i requires 0 <= i < |mem| => if lo <= i < lo + len then BLANK else mem[i])
  }

  /** The data index that lands on byte `i` when programming starts at `addr`, going round the page. */
  function Lane(i: int, addr: int): nat { (i - addr) % PAGE }

  predicate Lands(i: int, addr: int, len: nat) { i / PAGE == addr / PAGE && Lane(i, addr) < len }

  function Program(mem: seq<byte>, addr: int, data: seq<byte>): (r: seq<byte>)
    ensures |r| == |mem|
  {
    seq(|mem|, i requires 0 <= i < |mem| =>
      if Lands(i, addr, |data|) then AndByte(mem[i], data[Lane(i, addr)]) else mem[i])
  }

  function Apply(n: Nor, c: Command): (r: Nor)
    ensures |r.mem| == |n.mem|
  {
    match c
    case WriteEnable => n.(wel := true)
    case Ready => n
    case _ => if n.wel then Nor(Alter(n.mem, c), false) else n
  }

  function Alter(mem: seq<byte>, c: Command): (r: seq<byte>)
    ensures |r| == |mem|
  {
    match c
    case BulkErase => Fill(mem, 0, |mem|)
    case SectorErase(addr) => Fill(mem, addr - addr % SECTOR, SECTOR)
    case SubsectorErase(addr) => Fill(mem, addr - addr % SUBSECTOR, SUBSECTOR)
    case PageProgram(addr, data) => Program(mem, addr, data)
    case _ => mem
  }

  function Replay(n: Nor, log: seq<Command>): (r: Nor)
    ensures |r.mem| == |n.mem|
  {
    if log == [] then n else Apply(Replay(n, log[..|log| - 1]), log[|log| - 1])
  }

  lemma {:induction false} ReplayConcat(n: Nor, a: seq<Command>, b: seq<Command>)
    ensures Replay(n, a + b) == Replay(Replay(n, a), b)
    decreases |b|
  {
    if b == [] {
      assert a + b == a;
    } else {
      ReplayConcat(n, a, b[..|b| - 1]);
      assert (a + b)[..|a + b| - 1] == a + b[..|b| - 1];
    }
  }

  lemma ReplayMore(n: Nor, log: seq<Command>, c: Command)
    ensures Replay(n, log + [c]) == Apply(Replay(n, log), c)
  {
    assert (log + [c])[..|log|] == log;
  }

  lemma ReplayStep(n: Nor, c: Command)
    ensures Replay(n, [c]) == Apply(n, c)
  {
    assert [c][..0] == [];
    assert Replay(n, []) == n;
  }

  /** WREN, one altering command, READY: the altering command takes effect. */
  lemma ReplayTriple(n: Nor, c: Command)
    requires c.Alters()
    ensures Replay(n, [WriteEnable, c, Ready]) == Nor(Alter(n.mem, c), false)
  {
    ReplayStep(n, WriteEnable);
    ReplayConcat(n, [WriteEnable], [c]);
    ReplayStep(n.(wel := true), c);
    ReplayConcat(n, [WriteEnable] + [c], [Ready]);
    ReplayStep(Nor(Alter(n.mem, c), false), Ready);
    assert [WriteEnable] + [c] + [Ready] == [WriteEnable, c, Ready];
  }

  // ---------------------------------------------------------------- where commands can reach

  /** Every byte the command may alter lies in [lo, hi). */
  predicate Within(c: Command, lo: int, hi: int) {
    match c
    case BulkErase => false
    case SectorErase(addr) => lo <= addr - addr % SECTOR && addr - addr % SECTOR + SECTOR <= hi
    case SubsectorErase(addr) => lo <= addr - addr % SUBSECTOR && addr - addr % SUBSECTOR + SUBSECTOR <= hi
    case PageProgram(addr, data) => lo <= addr && addr + |data| <= hi && addr % PAGE + |data| <= PAGE
    case _ => true
  }

  predicate Confined(log: seq<Command>, lo: int, hi: int) {
    forall k :: 0 <= k < |log| ==> Within(log[k], lo, hi)
  }

  lemma StepOutside(mem: seq<byte>, c: Command, lo: int, hi: int, i: nat)
    requires Within(c, lo, hi) && i < |mem| && !(lo <= i < hi)
    ensures Alter(mem, c)[i] == mem[i]
  {
    if c.PageProgram? && Lands(i, c.addr, |c.data|) {
      LaneInPage(i, c.addr, |c.data|);
    }
  }

  /** A program that does not run over the end of its page lands in address order. */
  lemma LaneInPage(i: int, addr: int, len: nat)
    requires addr % PAGE + len <= PAGE
    ensures Lands(i, addr, len) <==> addr <= i < addr + len
    ensures Lands(i, addr, len) ==> Lane(i, addr) == i - addr
  {
  }

  lemma {:induction false} ReplayOutside(n: Nor, log: seq<Command>, lo: int, hi: int, i: nat)
    requires Confined(log, lo, hi) && i < |n.mem| && !(lo <= i < hi)
    ensures Replay(n, log).mem[i] == n.mem[i]
    decreases |log|
  {
    if log != [] {
      var last := |log| - 1;
      ReplayOutside(n, log[..last], lo, hi, i);
      assert Within(log[last], lo, hi);
      StepOutside(Replay(n, log[..last]).mem, log[last], lo, hi, i);
    }
  }

  /** Without programs a byte keeps its value or becomes blank. */
  lemma {:induction false} ErasesOnlyBlank(n: Nor, log: seq<Command>, i: nat)
    requires forall k :: 0 <= k < |log| ==> !log[k].PageProgram?
    requires i < |n.mem|
    ensures Replay(n, log).mem[i] == n.mem[i] || Replay(n, log).mem[i] == BLANK
    decreases |log|
  {
    if log != [] {
      ErasesOnlyBlank(n, log[..|log| - 1], i);
    }
  }

  /** Without erases a zero byte stays zero: programming never sets a bit. */
  lemma {:induction false} ProgramsKeepZero(n: Nor, log: seq<Command>, i: nat)
    requires forall k :: 0 <= k < |log| ==> !log[k].Erases()
    requires i < |n.mem| && n.mem[i] == 0
    ensures Replay(n, log).mem[i] == 0
    decreases |log|
  {
    if log != [] {
      ProgramsKeepZero(n, log[..|log| - 1], i);
    }
  }

  /** Each altering command has its own WREN just before it and a READY just after it. */
  predicate Disciplined(log: seq<Command>) {
    forall k :: 0 <= k < |log| && log[k].Alters() ==>
      0 < k && log[k - 1] == WriteEnable && k + 1 < |log| && log[k + 1] == Ready
  }

  lemma DisciplinedStep(c: Command, rest: seq<Command>)
    requires c.Alters() && Disciplined(rest)
    ensures Disciplined([WriteEnable, c, Ready] + rest)
  {
    var all := [WriteEnable, c, Ready] + rest;
    forall k | 0 <= k < |all| && all[k].Alters()
      ensures 0 < k && all[k - 1] == WriteEnable && k + 1 < |all| && all[k + 1] == Ready
    {
      if k >= 3 { assert all[k] == rest[k - 3]; }
    }
  }

  lemma ConfinedConcat(a: seq<Command>, b: seq<Command>, lo: int, hi: int)
    requires Confined(a, lo, hi) && Confined(b, lo, hi)
    ensures Confined(a + b, lo, hi)
  {
  }

  // ---------------------------------------------------------------- the device

  /** What a driver procedure sent (the growth of the log) is a prefix of the plan, all of it if it succeeded. */
  predicate Ran(before: seq<Command>, after: seq<Command>, plan: seq<Command>, done: bool) {
    && before <= after
    && after[|before|..] <= plan
    && (done ==> after[|before|..] == plan)
  }

  /** A plan carried out in two steps. */
  lemma RanThen(base: seq<Command>, mid: seq<Command>, after: seq<Command>,
                done: seq<Command>, step: seq<Command>, rest: seq<Command>, ok: bool)
    requires mid == base + done && Ran(mid, after, step, ok)
    ensures Ran(base, after, done + (step + rest), ok && rest == [])
    ensures ok ==> after == base + (done + step) && (done + step) + rest == done + (step + rest)
  {
    var grown := after[|mid|..];
    assert after == base + (done + grown);
    assert after[|base|..] == done + grown;
    assert grown <= step;
    assert done + grown <= done + (step + rest);
    if ok && rest == [] { assert step + rest == step; }
  }

  lemma FaultedNone(fault: nat -> int, a: nat)
    ensures !Faulted(fault, a, a)
  {
  }

  lemma FaultedSplit(fault: nat -> int, a: nat, b: nat, c: nat)
    requires a <= b <= c
    ensures Faulted(fault, a, c) <==> Faulted(fault, a, b) || Faulted(fault, b, c)
  {
  }

  /** Some bus operation in the time window failed. */
  predicate Faulted(fault: nat -> int, start: nat, end: nat) {
    exists t: nat :: start <= t < end && fault(t) != 0
  }

  /** The ESPI controller with its chip. Each bus operation takes one tick of
      `clock`; `fault` says which ones fail, and with which error. A failed
      operation reaches neither the controller nor the chip. */
  class Device {
    const fault: nat -> int
    var clock: nat
    var faddr: uint32        // the FADDR register
    var ram: seq<byte>       // the controller's local memory
    var nor: Nor             // the chip
    ghost const origin: Nor  // the chip when the log began
    ghost var log: seq<Command>

    ghost predicate Valid()
      reads this
    {
      nor == Replay(origin, log) && |ram| == RAM && |nor.mem| <= TWO32
    }

    static const RAM := 256

    constructor (fault: nat -> int, nor: Nor)
      requires |nor.mem| <= TWO32
      ensures Valid() && this.nor == nor && log == [] && this.fault == fault && clock == 0
    {
      this.fault := fault;
      clock, faddr := 0, 0;
      ram := seq(RAM, _ => 0);
      this.nor := nor;
      origin := nor;
      log := [];
    }

    method Tick() returns (res: int)
      modifies this`clock
      ensures clock == old(clock) + 1 && res == fault(old(clock))
    {
      res := fault(clock);
      clock := clock + 1;
    }

    method SetAddress(addr: uint32) returns (res: int)
      modifies this`clock, this`faddr
      ensures clock == old(clock) + 1 && res == fault(old(clock))
      ensures faddr == if res == 0 then addr else old(faddr)
    {
      res := Tick();
      if res == 0 { faddr := addr; }
    }

    /** A write to the command register; the chip carries the command out. */
    method Issue(c: Command) returns (res: int)
      requires Valid()
      modifies this`clock, this`nor, this`log
      ensures Valid()
      ensures clock == old(clock) + 1 && res == fault(old(clock))
      ensures res == 0 ==> log == old(log) + [c] && nor == Apply(old(nor), c)
      ensures res != 0 ==> log == old(log) && nor == old(nor)
    {
      hide Replay, Apply;
      res := Tick();
      if res == 0 {
        ReplayMore(origin, log, c);
        nor := Apply(nor, c);
        log := log + [c];
      }
    }

    /** Host to local memory. */
    method LoadRam(data: seq<byte>) returns (res: int)
      requires Valid() && |data| <= RAM
      modifies this`clock, this`ram
      ensures Valid()
      ensures clock == old(clock) + 1 && res == fault(old(clock))
      ensures ram == if res == 0 then data + old(ram)[|data|..] else old(ram)
    {
      res := Tick();
      if res == 0 { ram := data + ram[|data|..]; }
    }

    /** Local memory to host. */
    method FetchRam(len: nat) returns (res: int, data: seq<byte>)
      requires Valid() && len <= RAM
      modifies this`clock
      ensures Valid()
      ensures clock == old(clock) + 1 && res == fault(old(clock))
      ensures res == 0 ==> data == ram[..len]
    {
      res := Tick();
      data := ram[..len];
    }

    /** Flash to local memory: `len` bytes from FADDR on; bytes past the end of the chip read as blank. */
    method ReadToRam(len: nat) returns (res: int)
      requires Valid() && len <= RAM
      modifies this`clock, this`ram
      ensures Valid()
      ensures clock == old(clock) + 1 && res == fault(old(clock))
      ensures res == 0 ==> ram[..len] == Window(nor.mem, faddr, len)
    {
      res := Tick();
      if res == 0 { ram := Window(nor.mem, faddr, len) + ram[len..]; }
    }
  }

  /** Nothing outside [lo, hi) differs. */
  predicate SameOutside(m0: seq<byte>, m: seq<byte>, lo: nat, hi: nat) {
    |m| == |m0| && forall i :: 0 <= i < |m0| && !(lo <= i < hi) ==> m[i] == m0[i]
  }

  function Window(mem: seq<byte>, addr: nat, len: nat): (r: seq<byte>)
    ensures |r| == len
  {
    seq(len, i requires 0 <= i < len => if addr + i < |mem| then mem[addr + i] else BLANK)
  }
}
