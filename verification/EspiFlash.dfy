/** The flash driver: programming a range in chunks and reading it back. */
module EspiFlash {
  import opened Bits
  import opened NorFlash
  import opened EspiErase

  const CHUNK := 128
  const HEADER := 256

  datatype WriteFlags = WriteFlags(dontErase: bool, dontWriteHeader: bool)

  // ---------------------------------------------------------------- the plan of a write

  function ChunkSize(len: nat): nat { if len > CHUNK then CHUNK else len }

  /** What the program loop issues for `data` at `addr`. */
  function WritePlan(data: seq<byte>, addr: uint32): (plan: seq<Command>)
    requires |data| < TWO32
    decreases |data|
  {
    if data == [] then []
    else
      var bsz := ChunkSize(|data|);
      [WriteEnable, PageProgram(addr, data[..bsz]), Ready] + WritePlan(data[bsz..], Wrap(addr + bsz))
  }

  function HeaderSkip(flags: WriteFlags): nat { if flags.dontWriteHeader then HEADER else 0 }

  /** espi_flash_write: the erase unless it is switched off, then the programming if the erase got through. */
  function FlashWritePlan(input: seq<byte>, off: uint32, flags: WriteFlags): (plan: seq<Command>)
    requires |input| < TWO32
    requires flags.dontErase && flags.dontWriteHeader ==> HEADER <= |input|
  {
    if !flags.dontErase && !EraseCompletes(off, |input|) then ErasePlan(off, |input|)
    else
      var skip := HeaderSkip(flags);
      (if flags.dontErase then [] else ErasePlan(off, |input|)) + WritePlan(input[skip..], Wrap(off + skip))
  }

  // ---------------------------------------------------------------- the effect of a write

  /** `data` ANDed into `mem` at `addr`, in address order. */
  function Masked(mem: seq<byte>, addr: nat, data: seq<byte>): (r: seq<byte>)
    ensures |r| == |mem|
  {
    seq(|mem|, i requires 0 <= i < |mem| =>
      if addr <= i < addr + |data| then AndByte(mem[i], data[i - addr]) else mem[i])
  }

  /** `data` stored into `mem` at `addr`. */
  function Put(mem: seq<byte>, addr: nat, data: seq<byte>): (r: seq<byte>)
    ensures |r| == |mem|
  {
    seq(|mem|, i requires 0 <= i < |mem| => if addr <= i < addr + |data| then data[i - addr] else mem[i])
  }

  predicate BlankIn(mem: seq<byte>, lo: nat, hi: nat) {
    forall i :: lo <= i < hi && i < |mem| ==> mem[i] == BLANK
  }

  /** No chunk of a write of `len` bytes at `addr` runs over the end of a page. */
  predicate PageSafe(addr: nat, len: nat) { SafeOffset(addr % PAGE, len) }

  /** The same for a start `r` bytes into a page. */
  predicate SafeOffset(r: nat, len: nat) { r == 0 || r == CHUNK || r + len <= PAGE }

  lemma AlignedIsPageSafe(addr: nat, len: nat)
    requires addr % CHUNK == 0
    ensures PageSafe(addr, len)
  {
  }

  lemma ChunkInPage(addr: nat, len: nat)
    requires PageSafe(addr, len)
    ensures addr % PAGE + ChunkSize(len) <= PAGE
    ensures PageSafe(addr + ChunkSize(len), len - ChunkSize(len))
  {
  }

  lemma WritePlanEmpty(addr: uint32)
    ensures WritePlan([], addr) == []
  {
  }

  lemma WritePlanFirst(data: seq<byte>, addr: uint32)
    requires 0 < |data| < TWO32
    ensures var bsz := ChunkSize(|data|);
      WritePlan(data, addr) ==
      [WriteEnable, PageProgram(addr, data[..bsz]), Ready] + WritePlan(data[bsz..], Wrap(addr + bsz))
  {
  }

  lemma WriteFirst(n: Nor, data: seq<byte>, addr: uint32)
    requires 0 < |data| < TWO32
    ensures var bsz := ChunkSize(|data|);
      Replay(n, WritePlan(data, addr)) ==
      Replay(Nor(Program(n.mem, addr, data[..bsz]), false), WritePlan(data[bsz..], Wrap(addr + bsz)))
  {
    var bsz := ChunkSize(|data|);
    var c := PageProgram(addr, data[..bsz]);
    ReplayTriple(n, c);
    ReplayConcat(n, [WriteEnable, c, Ready], WritePlan(data[bsz..], Wrap(addr + bsz)));
  }

  /** Programming a range chunk by chunk ANDs it into memory in address order and touches nothing
      else, provided no chunk crosses a page; in particular for every 128-aligned address. */
  lemma {:induction false} WriteEffect(n: Nor, data: seq<byte>, addr: uint32)
    requires PageSafe(addr, |data|) && addr + |data| <= |n.mem| < TWO32
    ensures Replay(n, WritePlan(data, addr)).mem == Masked(n.mem, addr, data)
    decreases |data|
  {
    hide Replay, WritePlan, Program, Masked, PageSafe, Wrap;
    if data == [] {
      WriteNothing(n, addr);
    } else {
      var bsz := ChunkSize(|data|);
      var head, rest, next := data[..bsz], data[bsz..], NoWrap(addr + bsz);
      var m := Nor(Program(n.mem, addr, head), false);
      ChunkInPage(addr, |data|);
      WriteFirst(n, data, addr);
      ProgramIsMasked(n.mem, addr, head);
      WriteEffect(m, rest, next);
      MaskedConcat(n.mem, addr, head, rest);
      assert head + rest == data;
    }
  }

  function NoWrap(x: nat): (r: uint32)
    requires x < TWO32
    ensures r == x == Wrap(x)
  {
    x
  }

  lemma WriteNothing(n: Nor, addr: uint32)
    ensures Replay(n, WritePlan([], addr)) == n && Masked(n.mem, addr, []) == n.mem
  {
  }

  lemma ProgramIsMasked(mem: seq<byte>, addr: nat, data: seq<byte>)
    requires addr % PAGE + |data| <= PAGE
    ensures Program(mem, addr, data) == Masked(mem, addr, data)
  {
    forall i | 0 <= i < |mem| ensures Program(mem, addr, data)[i] == Masked(mem, addr, data)[i] {
      LaneInPage(i, addr, |data|);
    }
  }

  lemma MaskedConcat(mem: seq<byte>, addr: nat, a: seq<byte>, b: seq<byte>)
    ensures Masked(Masked(mem, addr, a), addr + |a|, b) == Masked(mem, addr, a + b)
  {
  }

  /** On blank memory the AND is a store. */
  lemma WriteOnBlank(n: Nor, data: seq<byte>, addr: uint32)
    requires PageSafe(addr, |data|) && addr + |data| <= |n.mem| < TWO32
    requires BlankIn(n.mem, addr, addr + |data|)
    ensures Replay(n, WritePlan(data, addr)).mem == Put(n.mem, addr, data)
  {
    WriteEffect(n, data, addr);
  }

  /** The last byte waits for the last program: without that and its ready wait it is as it was. */
  lemma {:induction false} LastByteWaits(n: Nor, data: seq<byte>, addr: uint32, q: seq<Command>)
    requires data != [] && PageSafe(addr, |data|) && addr + |data| <= |n.mem| < TWO32
    requires q <= WritePlan(data, addr) && |q| + 1 < |WritePlan(data, addr)|
    ensures Replay(n, q).mem[addr + |data| - 1] == n.mem[addr + |data| - 1]
    decreases |data|
  {
    hide Replay, WritePlan, Alter, PageSafe, Wrap;
    var bsz := ChunkSize(|data|);
    var c, rest, next := PageProgram(addr, data[..bsz]), data[bsz..], NoWrap(addr + bsz);
    var head := [WriteEnable, c, Ready];
    WritePlanFirst(data, addr);
    ChunkInPage(addr, |data|);
    var last := addr + |data| - 1;
    if rest == [] {
      WritePlanEmpty(next);
      assert q <= [WriteEnable];
      ReplayOutside(n, q, 0, 0, last);
    } else {
      var part := q[..if |q| < 3 then |q| else 3];
      forall k | 0 <= k < |part| ensures Within(part[k], addr, addr + bsz) { assert part[k] == head[k]; }
      ReplayOutside(n, part, addr, addr + bsz, last);
      if |q| >= 3 {
        assert part == head && q == head + q[3..] && q[3..] <= WritePlan(rest, next);
        ReplayConcat(n, head, q[3..]);
        LastByteWaits(Replay(n, head), rest, next, q[3..]);
      } else {
        assert part == q;
      }
    }
  }

  lemma {:induction false} WritePlanEnd(data: seq<byte>, addr: uint32)
    requires 0 < |data| < TWO32
    ensures |WritePlan(data, addr)| >= 3 && WritePlan(data, addr)[|WritePlan(data, addr)| - 1] == Ready
    decreases |data|
  {
    hide WritePlan;
    var bsz := ChunkSize(|data|);
    WritePlanFirst(data, addr);
    if |data| > bsz { WritePlanEnd(data[bsz..], Wrap(addr + bsz)); } else { WritePlanEmpty(Wrap(addr + bsz)); }
  }

  /** A write over blank flash whose last byte is not blank itself is complete exactly from its last
      program on. */
  lemma WriteCommits(n: Nor, data: seq<byte>, addr: uint32, q: seq<Command>)
    requires data != [] && PageSafe(addr, |data|) && addr + |data| <= |n.mem| < TWO32
    requires BlankIn(n.mem, addr, addr + |data|) && data[|data| - 1] != BLANK && q <= WritePlan(data, addr)
    ensures |WritePlan(data, addr)| >= 3
    ensures Replay(n, q).mem == Put(n.mem, addr, data) <==> |q| + 1 >= |WritePlan(data, addr)|
    ensures Replay(n, q).mem[addr + |data| - 1] == data[|data| - 1] <==> |q| + 1 >= |WritePlan(data, addr)|
  {
    hide Replay, WritePlan, PageSafe, Put, BlankIn;
    var plan := WritePlan(data, addr);
    WritePlanEnd(data, addr);
    PutLast(n.mem, addr, data);
    if |q| + 1 < |plan| {
      LastByteWaits(n, data, addr, q);
    } else {
      WriteOnBlank(n, data, addr);
      if |q| < |plan| { NothingAfter(n, q, plan); } else { assert q == plan; }
    }
  }

  lemma PutLast(mem: seq<byte>, addr: nat, data: seq<byte>)
    requires data != [] && addr + |data| <= |mem|
    ensures Put(mem, addr, data)[addr + |data| - 1] == data[|data| - 1]
    ensures BlankIn(mem, addr, addr + |data|) ==> mem[addr + |data| - 1] == BLANK
  {
  }

  lemma NothingAfter(n: Nor, q: seq<Command>, plan: seq<Command>)
    requires q <= plan && |q| + 1 == |plan| && plan[|q|] == Ready
    ensures Replay(n, q).mem == Replay(n, plan).mem
  {
    assert plan[..|plan| - 1] == q;
  }

  lemma {:induction false} WritePlanShape(data: seq<byte>, addr: uint32)
    requires |data| < TWO32
    ensures Disciplined(WritePlan(data, addr))
    ensures forall k :: 0 <= k < |WritePlan(data, addr)| ==> !WritePlan(data, addr)[k].Erases()
    decreases |data|
  {
    if data != [] {
      var bsz := ChunkSize(|data|);
      WritePlanShape(data[bsz..], Wrap(addr + bsz));
      DisciplinedStep(PageProgram(addr, data[..bsz]), WritePlan(data[bsz..], Wrap(addr + bsz)));
    }
  }

  lemma {:induction false} WritePlanConfined(data: seq<byte>, addr: uint32, lo: int, hi: int)
    requires PageSafe(addr, |data|) && lo <= addr && addr + |data| <= hi < TWO32
    ensures Confined(WritePlan(data, addr), lo, hi)
    decreases |data|
  {
    if data != [] {
      var bsz := ChunkSize(|data|);
      ChunkInPage(addr, |data|);
      WritePlanConfined(data[bsz..], addr + bsz, lo, hi);
      assert Within(PageProgram(addr, data[..bsz]), lo, hi);
      ConfinedConcat([WriteEnable, PageProgram(addr, data[..bsz]), Ready], WritePlan(data[bsz..], addr + bsz), lo, hi);
    }
  }

  /** PageSafe is exact. If some chunk crosses a page, writing zeros clears the first byte of the page
      the write starts in, which is not one of the bytes that were to be written. */
  lemma WriteCrossing(n: Nor, base: nat, r: nat, zeros: seq<byte>)
    requires base % PAGE == 0 && r < PAGE && !SafeOffset(r, |zeros|)
    requires base + r + |zeros| <= |n.mem| < TWO32
    requires forall k :: 0 <= k < |zeros| ==> zeros[k] == 0
    ensures r > 0 && Replay(n, WritePlan(zeros, base + r)).mem[base] == 0
  {
    hide Replay, WritePlan, Program;
    if r + ChunkSize(|zeros|) > PAGE {
      FirstCrosses(n, base, r, zeros);
    } else {
      WriteFirst(n, zeros, base + r);
      FirstCrosses(Nor(Program(n.mem, base + r, zeros[..CHUNK]), false), base, r + CHUNK, zeros[CHUNK..]);
    }
  }

  lemma FirstCrosses(n: Nor, base: nat, r: nat, zeros: seq<byte>)
    requires base % PAGE == 0 && r < PAGE < r + ChunkSize(|zeros|)
    requires base + r + |zeros| <= |n.mem| < TWO32
    requires forall k :: 0 <= k < |zeros| ==> zeros[k] == 0
    ensures r > 0 && Replay(n, WritePlan(zeros, base + r)).mem[base] == 0
  {
    hide Replay, WritePlan, Program;
    var bsz := ChunkSize(|zeros|);
    var m := Nor(Program(n.mem, base + r, zeros[..bsz]), false);
    WriteFirst(n, zeros, base + r);
    ClearsPageStart(n.mem, base, r, zeros[..bsz]);
    StaysZero(m, zeros[bsz..], Wrap(base + r + bsz), base);
  }

  lemma StaysZero(n: Nor, data: seq<byte>, addr: uint32, i: nat)
    requires |data| < TWO32 && i < |n.mem| && n.mem[i] == 0
    ensures Replay(n, WritePlan(data, addr)).mem[i] == 0
  {
    WritePlanShape(data, addr);
    ProgramsKeepZero(n, WritePlan(data, addr), i);
  }

  lemma ClearsPageStart(mem: seq<byte>, base: nat, r: nat, data: seq<byte>)
    requires forall k :: 0 <= k < |data| ==> data[k] == 0
    requires base % PAGE == 0 && 0 < r < PAGE < r + |data| && base < |mem|
    ensures Program(mem, base + r, data)[base] == 0
  {
    LaneOfPageStart(base, r);
    AndCommutes(mem[base], 0);
  }

  lemma LaneOfPageStart(base: nat, r: nat)
    requires base % PAGE == 0 && 0 < r < PAGE
    ensures Lane(base, base + r) == PAGE - r && base / PAGE == (base + r) / PAGE
  {
  }

  // ---------------------------------------------------------------- the loops

  function RoundUp4(n: nat): nat { (n + 3) / 4 * 4 }

  lemma RoundUpChunk(size: nat)
    ensures size <= RoundUp4(size)
    ensures RoundUp4(ChunkSize(size)) + RoundUp4(size - ChunkSize(size)) == RoundUp4(size)
    ensures size > CHUNK ==> RoundUp4(CHUNK) == CHUNK
    ensures RoundUp4(0) == 0
  {
  }

  /** _espi_flash_write: program `sz` bytes of local memory at `addr`. */
  method ProgramChunk(dev: Device, sz: nat, addr: uint32) returns (res: int)
    requires dev.Valid() && sz <= CHUNK
    modifies dev
    ensures dev.Valid() && dev.clock >= old(dev.clock) && |dev.nor.mem| == |old(dev.nor).mem|
    ensures Ran(old(dev.log), dev.log, [WriteEnable, PageProgram(addr, old(dev.ram)[..sz]), Ready], res == 0)
    ensures res == 0 <==> !Faulted(dev.fault, old(dev.clock), dev.clock)
  {
    hide Replay;
    ghost var before := dev.log;
    res := dev.Issue(WriteEnable);
    if res != 0 { assert dev.log[|before|..] == []; return; }
    assert dev.log[|before|..] == [WriteEnable];
    res := dev.SetAddress(addr);
    if res != 0 { return; }
    res := dev.Issue(PageProgram(dev.faddr, dev.ram[..sz]));
    if res != 0 { return; }
    assert dev.log[|before|..] == [WriteEnable, PageProgram(addr, old(dev.ram)[..sz])];
    res := dev.Tick();  // _espi_flash_wait_done
    if res != 0 { return; }
    res := WaitReady(dev);
    assert res == 0 ==> dev.log[|before|..] == [WriteEnable, PageProgram(addr, old(dev.ram)[..sz]), Ready];
  }

  /** One turn of the program loop: stage the chunk in local memory, check it, program it. */
  method StageAndProgram(dev: Device, source: seq<byte>, bsz: nat, addr: uint32) returns (res: int)
    requires dev.Valid() && 0 < bsz <= CHUNK && RoundUp4(bsz) <= |source|
    modifies dev
    ensures dev.Valid() && dev.clock >= old(dev.clock) && |dev.nor.mem| == |old(dev.nor).mem|
    ensures Ran(old(dev.log), dev.log, [WriteEnable, PageProgram(addr, source[..bsz]), Ready], res == 0)
    ensures res == 0 <==> !Faulted(dev.fault, old(dev.clock), dev.clock)
  {
    hide Replay;
    var iosz := RoundUp4(bsz);
    res := dev.LoadRam(source[..iosz]);
    if res != 0 { assert dev.log[|dev.log|..] == []; return; }
    var tmp;
    res, tmp := dev.FetchRam(iosz);
    if res != 0 { assert dev.log[|dev.log|..] == []; return; }
    assert tmp == source[..iosz];  // the driver's DEBUG_CHECK_RAM assertion
    assert dev.ram[..bsz] == source[..bsz];
    ghost var tick := dev.clock;
    res := ProgramChunk(dev, bsz, addr);
    FaultedSplit(dev.fault, old(dev.clock), tick, dev.clock);
  }

  /** The program loop. With nothing to program it leaves `res0`, the caller's last result, alone. */
  method ProgramLoop(dev: Device, input: seq<byte>, size0: nat, addr0: uint32, res0: int) returns (res: int)
    requires dev.Valid() && size0 < TWO32 && RoundUp4(size0) <= |input|
    modifies dev
    ensures dev.Valid() && dev.clock >= old(dev.clock) && |dev.nor.mem| == |old(dev.nor).mem|
    ensures Ran(old(dev.log), dev.log, WritePlan(input[..size0], addr0), size0 == 0 || res == 0)
    ensures size0 > 0 ==> (res == 0 <==> !Faulted(dev.fault, old(dev.clock), dev.clock))
    ensures size0 == 0 ==> res == res0 && dev.clock == old(dev.clock)
  {
    hide Replay, WritePlan, RoundUp4, Wrap, Faulted;
    var addr: uint32, size: nat, pos: nat := addr0, size0, 0;
    FaultedNone(dev.fault, dev.clock);
    RoundUpChunk(size0);
    assert input[0..size0] == input[..size0];
    res := res0;
    ghost var done: seq<Command> := [];
    assert dev.log[|dev.log|..] == [];
    while size > 0
      invariant dev.Valid() && dev.clock >= old(dev.clock) && |dev.nor.mem| == |old(dev.nor).mem|
      invariant pos + size == size0 && RoundUp4(size) <= |input| - pos
      invariant dev.log == old(dev.log) + done
      invariant done + WritePlan(input[pos..size0], addr) == WritePlan(input[..size0], addr0)
      invariant !Faulted(dev.fault, old(dev.clock), dev.clock)
      invariant size < size0 ==> res == 0
      invariant size == size0 ==> res == res0 && dev.clock == old(dev.clock)
    {
      var bsz := if size > CHUNK then CHUNK else size;
      ghost var mid, tick, left := dev.log, dev.clock, input[pos..size0];
      ghost var step := [WriteEnable, PageProgram(addr, left[..bsz]), Ready];
      ghost var rest := WritePlan(left[bsz..], Wrap(addr + bsz));
      WritePlanFirst(left, addr);
      RoundUpChunk(size);
      SliceTurn(input, pos, size0, bsz);
      res := StageAndProgram(dev, input[pos..], bsz, addr);
      RanThen(old(dev.log), mid, dev.log, done, step, rest, res == 0);
      FaultedSplit(dev.fault, old(dev.clock), tick, dev.clock);
      if res != 0 { return; }
      pos := pos + bsz;
      size := size - bsz;
      addr := Wrap(addr + bsz);
      done := done + step;
    }
    WritePlanEmpty(addr);
    assert input[pos..size0] == [];
    assert dev.log[|old(dev.log)|..] == done == WritePlan(input[..size0], addr0);
  }

  /** The result is assigned on every path but one: nothing to erase and nothing to program. */
  predicate ResultAssigned(size: nat, flags: WriteFlags) {
    !flags.dontErase || size != HeaderSkip(flags)
  }

  /** espi_flash_write. */
  method WriteFlash(dev: Device, input: seq<byte>, size0: uint32, off: uint32, flags: WriteFlags) returns (res: int)
    requires dev.Valid() && RoundUp4(size0) <= |input|
    requires flags.dontErase && flags.dontWriteHeader ==> HEADER <= size0
    modifies dev
    ensures dev.Valid() && dev.clock >= old(dev.clock) && |dev.nor.mem| == |old(dev.nor).mem|
    ensures Ran(old(dev.log), dev.log, FlashWritePlan(input[..size0], off, flags),
                res == 0 && ResultAssigned(size0, flags))
    ensures ResultAssigned(size0, flags) ==>
      (res == 0 <==> (flags.dontErase || EraseCompletes(off, size0)) && !Faulted(dev.fault, old(dev.clock), dev.clock))
  {
    hide Replay, WritePlan, ErasePlan, EraseCompletes, Faulted, Wrap, RoundUp4;
    FaultedNone(dev.fault, dev.clock);
    RoundUpSkip(size0, HeaderSkip(flags));
    res := *;
    ghost var base, erasing := dev.log, [];
    assert dev.log[|base|..] == [];
    if !flags.dontErase {
      res := EraseFlash(dev, off, size0);
      if res != 0 {
        if EraseCompletes(off, size0) {
          EraseCompletesIff(off, size0);
          RanPrefix(base, dev.log, ErasePlan(off, size0),
                    WritePlan(input[..size0][HeaderSkip(flags)..], Wrap(off + HeaderSkip(flags))));
        }
        return;
      }
      EraseCompletesIff(off, size0);
      erasing := ErasePlan(off, size0);
    }
    var skip := HeaderSkip(flags);
    ghost var mid, tick := dev.log, dev.clock;
    ghost var writing := WritePlan(input[..size0][skip..], Wrap(off + skip));
    assert input[skip..][..size0 - skip] == input[..size0][skip..];
    res := ProgramLoop(dev, input[skip..], size0 - skip, Wrap(off + skip), res);
    assert mid == base + erasing;
    RanThen(base, mid, dev.log, erasing, writing, [], size0 == skip || res == 0);
    assert erasing + (writing + []) == erasing + writing;
    FaultedSplit(dev.fault, old(dev.clock), tick, dev.clock);
  }

  lemma SliceTurn(s: seq<byte>, pos: nat, end: nat, n: nat)
    requires pos + n <= end <= |s|
    ensures s[pos..][..n] == s[pos..end][..n] && s[pos..end][n..] == s[pos + n..end]
  {
  }

  lemma RoundUpSkip(size: nat, skip: nat)
    requires skip % 4 == 0
    ensures size <= RoundUp4(size) && (skip <= size ==> RoundUp4(size - skip) + skip == RoundUp4(size))
  {
    if skip <= size { DivUnique(size - skip + 3, 4, (size + 3) / 4 - skip / 4, (size + 3) % 4); }
  }

  lemma RanPrefix(base: seq<Command>, after: seq<Command>, plan: seq<Command>, rest: seq<Command>)
    requires Ran(base, after, plan, false)
    ensures Ran(base, after, plan + rest, false)
  {
    assert plan <= plan + rest;
  }

  /** An erasing write of whole subsectors, wherever it fits: with the header the range becomes the input;
      without it the header is left blank. Every other byte keeps its value. */
  lemma FlashWriteEffect(n: Nor, input: seq<byte>, off: uint32, flags: WriteFlags)
    requires !flags.dontErase
    requires off % SUBSECTOR == 0 && |input| % SUBSECTOR == 0 && |input| > 0
    requires off + |input| <= |n.mem| < WHOLE_CHIP
    ensures var skip := HeaderSkip(flags);
      Replay(n, FlashWritePlan(input, off, flags)).mem ==
      Put(Put(n.mem, off, input), off, seq(skip, _ => BLANK))
  {
    hide WritePlan, ErasePlan, Replay, EraseCompletes;
    var skip := HeaderSkip(flags);
    SubsectorIsPageStart(off);
    EraseCompletesIff(off, |input|);
    EraseEffectLinear(n, off, |input|);
    var m := Replay(n, ErasePlan(off, |input|));
    ReplayConcat(n, ErasePlan(off, |input|), WritePlan(input[skip..], off + skip));
    WriteOnBlank(m, input[skip..], off + skip);
    PutOnFill(n.mem, off, input, skip);
  }

  /** A write that does not erase ANDs the input into memory, with or without its header page. */
  lemma FlashWriteMasks(n: Nor, input: seq<byte>, off: uint32, flags: WriteFlags)
    requires flags.dontErase && (flags.dontWriteHeader ==> HEADER <= |input|)
    requires off % CHUNK == 0 && off + |input| <= |n.mem| < TWO32
    ensures Replay(n, FlashWritePlan(input, off, flags)).mem ==
      if flags.dontWriteHeader then Masked(n.mem, off + 256, input[256..]) else Masked(n.mem, off, input)
  {
    hide WritePlan, Replay, Masked;
    var skip := HeaderSkip(flags);
    ModShift(off, 2, CHUNK);
    AlignedIsPageSafe(off + skip, |input| - skip);
    WriteEffect(n, input[skip..], off + skip);
    assert [] + WritePlan(input[skip..], off + skip) == WritePlan(input[skip..], off + skip);
    assert input[0..] == input;
  }

  lemma SubsectorIsPageStart(off: nat)
    requires off % SUBSECTOR == 0
    ensures off % PAGE == 0 && (off + HEADER) % PAGE == 0
  {
    var q := off / SUBSECTOR;
    DivUnique(off, PAGE, 16 * q, 0);
    DivUnique(off + HEADER, PAGE, 16 * q + 1, 0);
  }

  lemma PutOnFill(mem: seq<byte>, off: nat, input: seq<byte>, skip: nat)
    requires skip <= |input|
    ensures Put(Fill(mem, off, |input|), off + skip, input[skip..]) ==
            Put(Put(mem, off, input), off, seq(skip, _ => BLANK))
  {
  }

  // ---------------------------------------------------------------- reading back

  /** espi_flash_read into `out` from index `at` on. The last chunk is transferred in whole words, so up
      to three bytes after the range are overwritten as well. */
  method ReadFlash(dev: Device, off: uint32, size0: uint32, out: array<byte>, at: nat) returns (res: int)
    requires dev.Valid() && off + size0 <= TWO32 && at + RoundUp4(size0) <= out.Length
    modifies dev`clock, dev`faddr, dev`ram, out
    ensures dev.Valid() && dev.clock >= old(dev.clock)
    ensures res == 0 <==> !Faulted(dev.fault, old(dev.clock), dev.clock)
    ensures res == 0 ==> out[at..at + size0] == Window(dev.nor.mem, off, size0)
    ensures SameOutside(old(out[..]), out[..], at, at + RoundUp4(size0))
  {
    hide Replay, RoundUp4, Window, Faulted, SameOutside;
    FaultedNone(dev.fault, dev.clock);
    RoundUpChunk(size0);
    ghost var was := out[..];
    ReadStarts(was, dev.nor.mem, at, off, RoundUp4(size0));
    var addr: nat, size: nat, pos: nat := off, size0, 0;
    while size > 0
      invariant dev.Valid() && dev.clock >= old(dev.clock)
      invariant pos + size == size0 && addr == off + pos && RoundUp4(size) + pos <= RoundUp4(size0)
      invariant pos <= RoundUp4(size0)
      invariant !Faulted(dev.fault, old(dev.clock), dev.clock)
      invariant out[..][at..at + pos] == Window(dev.nor.mem, off, pos)
      invariant SameOutside(was, out[..], at, at + RoundUp4(size0))
    {
      var bsz := if size > CHUNK then CHUNK else size;
      ghost var tick, before := dev.clock, out[..];
      RoundUpChunk(size);
      res := ReadStep(dev, bsz, addr, out, at + pos);
      FaultedSplit(dev.fault, old(dev.clock), tick, dev.clock);
      ReadFrame(was, before, out[..], at, RoundUp4(size0), pos, RoundUp4(bsz));
      if res != 0 { return; }
      ReadTurn(before, out[..], dev.nor.mem, at, off, pos, bsz, RoundUp4(bsz));
      pos, size, addr := pos + bsz, size - bsz, addr + bsz;
    }
    res := 0;
  }

  lemma ReadStarts(was: seq<byte>, mem: seq<byte>, at: nat, off: nat, size: nat)
    requires at <= |was|
    ensures was[at..at] == Window(mem, off, 0) && SameOutside(was, was, at, at + size)
  {
  }

  /** One turn stays inside the destination ... */
  lemma ReadFrame(was: seq<byte>, before: seq<byte>, now: seq<byte>, at: nat, size: nat, pos: nat, part: nat)
    requires SameOutside(was, before, at, at + size) && SameOutside(before, now, at + pos, at + pos + part)
    requires pos + part <= size
    ensures SameOutside(was, now, at, at + size)
  {
  }

  /** ... and appends what it reads. */
  lemma ReadTurn(before: seq<byte>, now: seq<byte>, mem: seq<byte>, at: nat, off: nat, pos: nat, bsz: nat, part: nat)
    requires SameOutside(before, now, at + pos, at + pos + part) && at + pos + bsz <= |now|
    requires before[at..at + pos] == Window(mem, off, pos)
    requires now[at + pos..at + pos + bsz] == Window(mem, off + pos, bsz)
    ensures now[at..at + (pos + bsz)] == Window(mem, off, pos + bsz)
  {
    hide Window;
    WindowConcat(mem, off, pos, bsz);
    assert now[at..at + pos] == before[at..at + pos];
    assert now[at..at + (pos + bsz)] == now[at..at + pos] + now[at + pos..at + pos + bsz];
  }

  lemma WindowConcat(mem: seq<byte>, addr: nat, a: nat, b: nat)
    ensures Window(mem, addr, a + b) == Window(mem, addr, a) + Window(mem, addr + a, b)
  {
  }

  /** One turn of the read loop. */
  method ReadStep(dev: Device, bsz: nat, addr: uint32, out: array<byte>, at: nat) returns (res: int)
    requires dev.Valid() && bsz <= CHUNK && at + RoundUp4(bsz) <= out.Length
    modifies dev`clock, dev`faddr, dev`ram, out
    ensures dev.Valid() && dev.clock >= old(dev.clock)
    ensures res == 0 <==> !Faulted(dev.fault, old(dev.clock), dev.clock)
    ensures res == 0 ==> out[..][at..at + bsz] == Window(dev.nor.mem, addr, bsz)
    ensures SameOutside(old(out[..]), out[..], at, at + RoundUp4(bsz))
  {
    hide Replay;
    res := ReadChunk(dev, bsz, addr);
    if res != 0 { return; }
    ghost var tick := dev.clock;
    var data;
    res, data := dev.FetchRam(RoundUp4(bsz));
    FaultedSplit(dev.fault, old(dev.clock), tick, dev.clock);
    if res != 0 { return; }
    assert data[..bsz] == Window(dev.nor.mem, addr, bsz);
    CopyOut(out, at, data);
    assert out[at..at + bsz] == out[at..at + |data|][..bsz];
  }

  /** _espi_flash_read_to_local. */
  method ReadChunk(dev: Device, bsz: nat, addr: uint32) returns (res: int)
    requires dev.Valid() && bsz <= CHUNK
    modifies dev`clock, dev`faddr, dev`ram
    ensures dev.Valid() && dev.clock >= old(dev.clock)
    ensures res == 0 <==> !Faulted(dev.fault, old(dev.clock), dev.clock)
    ensures res == 0 ==> dev.ram[..bsz] == Window(dev.nor.mem, addr, bsz)
  {
    hide Replay;
    res := dev.SetAddress(addr);
    if res != 0 { return; }
    res := dev.ReadToRam(bsz);
    if res != 0 { return; }
    res := dev.Tick();  // _espi_flash_wait_done
  }

  method CopyOut(out: array<byte>, at: nat, data: seq<byte>)
    requires at + |data| <= out.Length
    modifies out
    ensures out[at..at + |data|] == data
    ensures forall i :: 0 <= i < out.Length && !(at <= i < at + |data|) ==> out[i] == old(out[i])
  {
    forall i | 0 <= i < |data| { out[at + i] := data[i]; }
  }
}
