/** The erase loop of the flash driver: what it issues, what that does to the chip and
    that no other tiling of the range with 4 KiB and 64 KiB erases is shorter. */
module EspiErase {
  import opened Bits
  import opened NorFlash

  const WHOLE_CHIP := 0xffff_ffff
  const EINVAL := -22

  /** 32-bit wrap-around of a sum of two 32-bit numbers. */
  function Wrap(x: int): (r: uint32)
    requires 0 <= x < 2 * TWO32
  {
    if x < TWO32 then x else x - TWO32
  }

  // ---------------------------------------------------------------- erase: the plan

  /** The commands the erase loop issues: the bulk erase for the whole chip, otherwise a 64 KiB
      erase wherever one fits and a 4 KiB erase elsewhere, until neither fits. */
  function ErasePlan(addr: uint32, size: uint32): (plan: seq<Command>)
    decreases size
  {
    if size <= 0xfff then []
    else if addr == 0 && size == WHOLE_CHIP then [WriteEnable, BulkErase, Ready]
    else if addr % SECTOR == 0 && size > 0xffff then
      [WriteEnable, SectorErase(addr), Ready] + ErasePlan(Wrap(addr + SECTOR), size - SECTOR)
    else if addr % SUBSECTOR == 0 then
      [WriteEnable, SubsectorErase(addr), Ready] + ErasePlan(Wrap(addr + SUBSECTOR), size - SUBSECTOR)
    else []
  }

  /** The loop gets down to size zero. */
  predicate EraseCompletes(addr: uint32, size: uint32)
    decreases size
  {
    if size <= 0xfff then false
    else if addr == 0 && size == WHOLE_CHIP then true
    else if addr % SECTOR == 0 && size > 0xffff then
      size == SECTOR || EraseCompletes(Wrap(addr + SECTOR), size - SECTOR)
    else if addr % SUBSECTOR == 0 then
      size == SUBSECTOR || EraseCompletes(Wrap(addr + SUBSECTOR), size - SUBSECTOR)
    else false
  }

  lemma Alignment(a: nat)
    requires a < TWO32
    ensures Wrap(a + SECTOR) % SECTOR == a % SECTOR
    ensures Wrap(a + SECTOR) % SUBSECTOR == a % SUBSECTOR
    ensures Wrap(a + SUBSECTOR) % SUBSECTOR == a % SUBSECTOR
    ensures a % SECTOR == 0 ==> a % SUBSECTOR == 0 && a + SECTOR <= TWO32
    ensures a % SUBSECTOR == 0 ==> a + SUBSECTOR <= TWO32
    ensures a >= SECTOR ==> (a - SECTOR) % SUBSECTOR == a % SUBSECTOR
    ensures a >= SUBSECTOR ==> (a - SUBSECTOR) % SUBSECTOR == a % SUBSECTOR
  {
    WrapMod(a, 1, SECTOR, 0x1_0000);
    WrapMod(a, 16, SUBSECTOR, 0x10_0000);
    WrapMod(a, 1, SUBSECTOR, 0x10_0000);
    if a % SECTOR == 0 { SectorAligned(a); }
    if a % SUBSECTOR == 0 { NextMultiple(a, SUBSECTOR, 0x10_0000); }
    ModShift(a, 0 - 16, SUBSECTOR);
    ModShift(a, 0 - 1, SUBSECTOR);
  }

  lemma WrapMod(a: nat, k: nat, d: nat, all: nat)
    requires a < TWO32 && d > 0 && all * d == TWO32 && k <= all
    ensures k * d <= TWO32 && Wrap(a + k * d) % d == a % d
  {
    MulMono(k, all, d);
    ModShift(a, k, d);
    Distribute(k, all, d);
    ModShift(a, k - all, d);
  }

  lemma NextMultiple(a: nat, d: nat, all: nat)
    requires d > 0 && a % d == 0 && a < all * d
    ensures a + d <= all * d
  {
    var q := a / d;
    assert a == q * d;
    if q >= all { MulMono(all, q, d); }
    MulMono(q + 1, all, d);
    assert (q + 1) * d == q * d + d;
  }

  lemma SectorAligned(a: nat)
    requires a % SECTOR == 0
    ensures a % SUBSECTOR == 0 && (a < TWO32 ==> a + SECTOR <= TWO32)
  {
    DivUnique(a, SUBSECTOR, 16 * (a / SECTOR), 0);
    if a < TWO32 { NextMultiple(a, SECTOR, 0x1_0000); }
  }

  /** An erase completes exactly for the whole chip and for non-empty ranges of whole 4 KiB subsectors. */
  lemma {:induction false} EraseCompletesIff(addr: uint32, size: uint32)
    ensures EraseCompletes(addr, size) <==>
      (addr == 0 && size == WHOLE_CHIP) ||
      (addr % SUBSECTOR == 0 && size % SUBSECTOR == 0 && size >= SUBSECTOR)
    decreases size
  {
    if size > 0xfff && !(addr == 0 && size == WHOLE_CHIP) {
      Alignment(addr);
      Alignment(size);
      if addr % SECTOR == 0 && size > 0xffff {
        EraseCompletesIff(Wrap(addr + SECTOR), size - SECTOR);
      } else if addr % SUBSECTOR == 0 {
        EraseCompletesIff(Wrap(addr + SUBSECTOR), size - SUBSECTOR);
      }
    }
  }

  // ---------------------------------------------------------------- erase: the effect

  /** How far `i` lies after `addr` in the 32-bit address space. */
  function Distance(i: uint32, addr: uint32): nat {
    if i >= addr then i - addr else i - addr + TWO32
  }

  function Blanked(mem: seq<byte>, addr: uint32, size: uint32): (r: seq<byte>)
    requires |mem| <= TWO32
    ensures |r| == |mem|
  {
    seq(|mem|, i requires 0 <= i < |mem| => if Distance(i, addr) < size then BLANK else mem[i])
  }

  /** An erase blanks exactly the whole subsectors of [addr, addr + size), the range read modulo 2^32, and
      nothing if the range does not start at one. For an erase that completes that is the whole range. */
  lemma {:induction false} EraseEffect(n: Nor, addr: uint32, size: uint32)
    requires |n.mem| <= TWO32
    ensures Replay(n, ErasePlan(addr, size)).mem ==
      if addr == 0 && size == WHOLE_CHIP then Fill(n.mem, 0, |n.mem|)
      else if addr % SUBSECTOR == 0 then Blanked(n.mem, addr, size - size % SUBSECTOR)
      else n.mem
    decreases size
  {
    if addr == 0 && size == WHOLE_CHIP {
      ReplayTriple(n, BulkErase);
    } else if addr % SUBSECTOR == 0 && size > 0xfff {
      if addr % SECTOR == 0 && size > 0xffff {
        EraseEffectStep(n, addr, size, SectorErase(addr), SECTOR);
      } else {
        EraseEffectStep(n, addr, size, SubsectorErase(addr), SUBSECTOR);
      }
    } else {
      EraseNothing(n, addr, size);
    }
  }

  lemma {:induction false} EraseEffectStep(n: Nor, addr: uint32, size: uint32, c: Command, unit: nat)
    requires (c == SectorErase(addr) && unit == SECTOR) || (c == SubsectorErase(addr) && unit == SUBSECTOR)
    requires addr % unit == 0 && addr % SUBSECTOR == 0 && unit <= size && |n.mem| <= TWO32
    requires !(addr == 0 && size == WHOLE_CHIP)
    requires ErasePlan(addr, size) == [WriteEnable, c, Ready] + ErasePlan(Wrap(addr + unit), size - unit)
    ensures Replay(n, ErasePlan(addr, size)).mem == Blanked(n.mem, addr, size - size % SUBSECTOR)
    decreases size, 0
  {
    hide Replay, ErasePlan, EraseCompletes, Blanked, Alter, Fill, Wrap;
    var next, left := Wrap(addr + unit), size - unit;
    var m := Nor(Alter(n.mem, c), false);
    ReplayTriple(n, c);
    ReplayConcat(n, [WriteEnable, c, Ready], ErasePlan(next, left));
    FillsUnit(n.mem, addr, c, unit);
    Alignment(addr);
    Alignment(size);
    EraseEffect(m, next, left);
    BlankedStep(n.mem, addr, size - size % SUBSECTOR, unit);
  }

  lemma FillsUnit(mem: seq<byte>, addr: uint32, c: Command, unit: nat)
    requires (c == SectorErase(addr) && unit == SECTOR) || (c == SubsectorErase(addr) && unit == SUBSECTOR)
    requires addr % unit == 0
    ensures Alter(mem, c) == Fill(mem, addr, unit)
  {
  }

  lemma EraseNothing(n: Nor, addr: uint32, size: uint32)
    requires |n.mem| <= TWO32 && (addr % SUBSECTOR != 0 || size <= 0xfff) && !(addr == 0 && size == WHOLE_CHIP)
    ensures Replay(n, ErasePlan(addr, size)).mem == n.mem
    ensures size <= 0xfff ==> size % SUBSECTOR == size && Blanked(n.mem, addr, 0) == n.mem
  {
    hide Replay;
    if addr % SECTOR == 0 { SectorAligned(addr); }
    assert ErasePlan(addr, size) == [];
    ReplayNone(n);
  }

  lemma ReplayNone(n: Nor)
    ensures Replay(n, []) == n
  {
  }

  /** The first unit and what follows it, in the 32-bit address space. */
  lemma BlankedStep(mem: seq<byte>, addr: uint32, size: uint32, unit: nat)
    requires 0 < unit <= size && addr + unit <= TWO32 && |mem| <= TWO32
    ensures Blanked(mem, addr, size) == Blanked(Fill(mem, addr, unit), Wrap(addr + unit), size - unit)
  {
    forall i: nat | i < |mem|
      ensures (Distance(i, addr) < size) <==> (addr <= i < addr + unit || Distance(i, Wrap(addr + unit)) < size - unit)
    {
      DistanceStep(i, addr, size, unit);
    }
  }

  lemma DistanceStep(i: uint32, addr: uint32, size: uint32, unit: nat)
    requires 0 < unit <= size && addr + unit <= TWO32
    ensures (Distance(i, addr) < size) <==> (addr <= i < addr + unit || Distance(i, Wrap(addr + unit)) < size - unit)
  {
  }

  /** The effect for a range that does not wrap, in plain addresses. */
  lemma EraseEffectLinear(n: Nor, addr: uint32, size: uint32)
    requires addr % SUBSECTOR == 0 && size % SUBSECTOR == 0 && size > 0
    requires addr + size <= |n.mem| <= TWO32
    ensures Replay(n, ErasePlan(addr, size)).mem == Fill(n.mem, addr, size)
  {
    EraseCompletesIff(addr, size);
    EraseEffect(n, addr, size);
    assert Blanked(n.mem, addr, size) == Fill(n.mem, addr, size);
  }

  lemma {:induction false} ErasePlanShape(addr: uint32, size: uint32)
    ensures Disciplined(ErasePlan(addr, size))
    ensures forall k :: 0 <= k < |ErasePlan(addr, size)| ==> !ErasePlan(addr, size)[k].PageProgram?
    decreases size
  {
    if size > 0xfff && !(addr == 0 && size == WHOLE_CHIP) {
      if addr % SECTOR == 0 && size > 0xffff {
        ErasePlanShape(Wrap(addr + SECTOR), size - SECTOR);
        DisciplinedStep(SectorErase(addr), ErasePlan(Wrap(addr + SECTOR), size - SECTOR));
      } else if addr % SUBSECTOR == 0 {
        ErasePlanShape(Wrap(addr + SUBSECTOR), size - SUBSECTOR);
        DisciplinedStep(SubsectorErase(addr), ErasePlan(Wrap(addr + SUBSECTOR), size - SUBSECTOR));
      }
    }
  }

  /** Even an erase that gives up half way stays inside the range it was asked for. */
  lemma {:induction false} ErasePlanConfined(addr: uint32, size: uint32, lo: int, hi: int)
    requires lo <= addr && addr + size <= hi && addr + size <= TWO32
    requires !(addr == 0 && size == WHOLE_CHIP)
    ensures Confined(ErasePlan(addr, size), lo, hi)
    decreases size
  {
    if size > 0xfff {
      if addr % SECTOR == 0 && size > 0xffff {
        if size > SECTOR { ErasePlanConfined(addr + SECTOR, size - SECTOR, lo, hi); }
        ConfinedConcat([WriteEnable, SectorErase(addr), Ready], ErasePlan(Wrap(addr + SECTOR), size - SECTOR), lo, hi);
      } else if addr % SUBSECTOR == 0 {
        if size > SUBSECTOR { ErasePlanConfined(addr + SUBSECTOR, size - SUBSECTOR, lo, hi); }
        ConfinedConcat([WriteEnable, SubsectorErase(addr), Ready],
                       ErasePlan(Wrap(addr + SUBSECTOR), size - SUBSECTOR), lo, hi);
      }
    }
  }

  // ---------------------------------------------------------------- erase: as few commands as possible

  /** The addresses at which the erase loop issues an erase. */
  function EraseStarts(addr: int, size: int): (s: seq<int>)
    decreases size
  {
    if size <= 0 then []
    else if addr % SECTOR == 0 && size >= SECTOR then [addr] + EraseStarts(addr + SECTOR, size - SECTOR)
    else [addr] + EraseStarts(addr + SUBSECTOR, size - SUBSECTOR)
  }

  function EraseCount(log: seq<Command>): nat {
    if log == [] then 0 else (if log[0].Erases() then 1 else 0) + EraseCount(log[1..])
  }

  lemma {:induction false} EraseCountStep(c: Command, rest: seq<Command>)
    requires c.Erases()
    ensures EraseCount([WriteEnable, c, Ready] + rest) == 1 + EraseCount(rest)
  {
    var all := [WriteEnable, c, Ready] + rest;
    assert all[1..][1..][1..] == rest;
    assert EraseCount(all) == EraseCount(all[1..]);
    assert EraseCount(all[1..]) == 1 + EraseCount(all[1..][1..]);
  }

  lemma {:induction false} EraseCountIsStarts(addr: uint32, size: uint32)
    requires addr % SUBSECTOR == 0 && size % SUBSECTOR == 0 && addr + size <= TWO32
    ensures EraseCount(ErasePlan(addr, size)) == |EraseStarts(addr, size)|
    decreases size
  {
    if size > 0 {
      Alignment(addr);
      Alignment(size);
      if addr % SECTOR == 0 && size > 0xffff {
        EraseCountStep(SectorErase(addr), ErasePlan(Wrap(addr + SECTOR), size - SECTOR));
        if size > SECTOR { EraseCountIsStarts(addr + SECTOR, size - SECTOR); }
      } else {
        EraseCountStep(SubsectorErase(addr), ErasePlan(Wrap(addr + SUBSECTOR), size - SUBSECTOR));
        if size > SUBSECTOR { EraseCountIsStarts(addr + SUBSECTOR, size - SUBSECTOR); }
      }
    }
  }

  /** The aligned unit that an erase command covers. */
  predicate Covers(c: Command, i: int) {
    match c
    case SectorErase(addr) => i / SECTOR == addr / SECTOR
    case SubsectorErase(addr) => i / SUBSECTOR == addr / SUBSECTOR
    case _ => false
  }

  /** `cs` erases exactly the bytes of [lo, hi) with 4 KiB and 64 KiB commands. */
  ghost predicate Tiles(cs: seq<Command>, lo: int, hi: int) {
    forall i {:trigger CoveredBy(cs, i)} :: CoveredBy(cs, i) <==> lo <= i < hi
  }

  ghost predicate CoveredBy(cs: seq<Command>, i: int) {
    exists k :: 0 <= k < |cs| && Covers(cs[k], i)
  }

  /** A landmark is a subsector no other landmark can share an admissible erase with. */
  predicate Landmark(a: int, lo: int, hi: int) {
    && a % SUBSECTOR == 0
    && lo <= a < hi
    && (a % SECTOR == 0 || a - a % SECTOR < lo || hi < a - a % SECTOR + SECTOR)
  }

  lemma {:induction false} StartsAreLandmarks(addr: int, size: int, lo: int, hi: int)
    requires addr % SUBSECTOR == 0 && size % SUBSECTOR == 0 && size >= 0
    requires lo <= addr && addr + size == hi
    requires addr == lo || addr % SECTOR == 0 || addr - addr % SECTOR < lo || hi < addr - addr % SECTOR + SECTOR
    ensures forall k :: 0 <= k < |EraseStarts(addr, size)| ==>
      Landmark(EraseStarts(addr, size)[k], lo, hi) && EraseStarts(addr, size)[k] >= addr
    ensures forall j, k :: 0 <= j < k < |EraseStarts(addr, size)| ==>
      EraseStarts(addr, size)[j] != EraseStarts(addr, size)[k]
    decreases size
  {
    if size > 0 {
      NextSubsector(addr);
      if addr % SECTOR == 0 && size >= SECTOR {
        StartsAreLandmarks(addr + SECTOR, size - SECTOR, lo, hi);
      } else {
        StartsAreLandmarks(addr + SUBSECTOR, size - SUBSECTOR, lo, hi);
      }
    }
  }

  lemma NextSubsector(addr: int)
    requires addr % SUBSECTOR == 0
    ensures (addr + SUBSECTOR) % SUBSECTOR == 0
    ensures (addr + SECTOR) % SUBSECTOR == 0
    ensures (addr + SECTOR) % SECTOR == addr % SECTOR
    ensures (addr + SUBSECTOR) % SECTOR == 0 || (addr + SUBSECTOR) % SECTOR == addr % SECTOR + SUBSECTOR
  {
    ModShift(addr, 1, SUBSECTOR);
    ModShift(addr, 16, SUBSECTOR);
    ModShift(addr, 1, SECTOR);
    var q, r := addr / SECTOR, addr % SECTOR;
    assert addr == q * SECTOR + r;
    ModShift(r, 16 * q, SUBSECTOR);
    var k := r / SUBSECTOR;
    assert r == k * SUBSECTOR && k < 16;
    if k == 15 {
      DivUnique(addr + SUBSECTOR, SECTOR, q + 1, 0);
    } else {
      DivUnique(addr + SUBSECTOR, SECTOR, q, r + SUBSECTOR);
    }
  }

  lemma LandmarksApart(c: Command, a: int, b: int, lo: int, hi: int)
    requires Landmark(a, lo, hi) && Landmark(b, lo, hi)
    requires Covers(c, a) && Covers(c, b)
    requires forall i :: Covers(c, i) ==> lo <= i < hi
    ensures a == b
  {
    if c.SectorErase? {
      var first := c.addr - c.addr % SECTOR;
      assert Covers(c, first) && Covers(c, first + SECTOR - 1);
      assert a - a % SECTOR == first && b - b % SECTOR == first;
    }
  }

  lemma First(s: seq<nat>) returns (x: nat)
    requires s != []
    ensures x == s[0]
  {
    x := s[0];
  }

  /** Distinct numbers below `m` number at most `m`. */
  lemma {:induction false} Pigeonhole(s: seq<nat>, m: nat)
    requires forall k :: 0 <= k < |s| ==> s[k] < m
    requires forall j, k :: 0 <= j < k < |s| ==> s[j] != s[k]
    ensures |s| <= m
    decreases m
  {
    if m == 0 {
      if s != [] {
        var x := First(s);
        assert false;
      }
    } else if k :| 0 <= k < |s| && s[k] == m - 1 {
      Pigeonhole(s[..k] + s[k + 1..], m - 1);
    } else {
      Pigeonhole(s, m - 1);
    }
  }

  ghost function Finder(cs: seq<Command>, starts: seq<int>): (f: seq<nat>)
    requires forall k :: 0 <= k < |starts| ==> CoveredBy(cs, starts[k])
    ensures |f| == |starts|
    ensures forall k :: 0 <= k < |f| ==> f[k] < |cs| && Covers(cs[f[k]], starts[k])
  {
    if starts == [] then [] else [FirstCover(cs, starts[0])] + Finder(cs, starts[1..])
  }

  ghost function FirstCover(cs: seq<Command>, a: int): (k: nat)
    requires CoveredBy(cs, a)
    ensures k < |cs| && Covers(cs[k], a)
  {
    var j :| 0 <= j < |cs| && Covers(cs[j], a);
    j
  }

  /** No sequence of aligned 4 KiB and 64 KiB erases that erases exactly the range is shorter. */
  lemma EraseIsMinimal(addr: uint32, size: uint32, cs: seq<Command>)
    requires addr % SUBSECTOR == 0 && size % SUBSECTOR == 0 && addr + size <= TWO32
    requires Tiles(cs, addr, addr + size)
    ensures EraseCount(ErasePlan(addr, size)) <= |cs|
  {
    EraseCountIsStarts(addr, size);
    var starts := EraseStarts(addr, size);
    StartsAreLandmarks(addr, size, addr, addr + size);
    forall k | 0 <= k < |starts| ensures CoveredBy(cs, starts[k]) {
      assert Landmark(starts[k], addr, addr + size);
      assert CoveredBy(cs, starts[k]);
    }
    var f := Finder(cs, starts);
    forall j, k | 0 <= j < k < |f| ensures f[j] != f[k] {
      if f[j] == f[k] {
        var c := cs[f[j]];
        forall i | Covers(c, i) ensures addr <= i < addr + size { assert CoveredBy(cs, i); }
        LandmarksApart(c, starts[j], starts[k], addr, addr + size);
      }
    }
    Pigeonhole(f, |cs|);
  }

  // ---------------------------------------------------------------- erase: the loop

  /** _espi_flash_wait_ready, seen as one operation that finds the chip ready or fails. */
  method WaitReady(dev: Device) returns (res: int)
    requires dev.Valid()
    modifies dev`clock, dev`nor, dev`log
    ensures dev.Valid()
    ensures dev.clock == old(dev.clock) + 1 && res == dev.fault(old(dev.clock))
    ensures dev.log == if res == 0 then old(dev.log) + [Ready] else old(dev.log)
    ensures dev.nor == old(dev.nor)
  {
    res := dev.Issue(Ready);
  }

  function AtAddress(c: Command, faddr: uint32): Command {
    match c
    case SectorErase(_) => SectorErase(faddr)
    case SubsectorErase(_) => SubsectorErase(faddr)
    case _ => c
  }

  method EraseUnit(dev: Device, c: Command) returns (res: int)
    requires dev.Valid() && c.Erases()
    modifies dev
    ensures dev.Valid() && dev.clock >= old(dev.clock) && |dev.nor.mem| == |old(dev.nor).mem|
    ensures Ran(old(dev.log), dev.log, [WriteEnable, c, Ready], res == 0)
    ensures res == 0 <==> !Faulted(dev.fault, old(dev.clock), dev.clock)
  {
    hide Replay;
    ghost var before := dev.log;
    res := dev.Issue(WriteEnable);
    if res != 0 { assert dev.log[|before|..] == []; return; }
    assert dev.log[|before|..] == [WriteEnable];
    if !c.BulkErase? {
      res := dev.SetAddress(c.addr);
      if res != 0 { return; }
    }
    res := dev.Issue(AtAddress(c, dev.faddr));
    if res != 0 { return; }
    assert dev.log[|before|..] == [WriteEnable, c];
    res := WaitReady(dev);
    assert res == 0 ==> dev.log[|before|..] == [WriteEnable, c, Ready];
  }

  method EraseFlash(dev: Device, addr0: uint32, size0: uint32) returns (res: int)
    requires dev.Valid()
    modifies dev
    ensures dev.Valid() && dev.clock >= old(dev.clock) && |dev.nor.mem| == |old(dev.nor).mem|
    ensures Ran(old(dev.log), dev.log, ErasePlan(addr0, size0), res == 0)
    ensures res == 0 <==> EraseCompletes(addr0, size0) && !Faulted(dev.fault, old(dev.clock), dev.clock)
  {
    hide Replay;
    if size0 <= 0xfff { return EINVAL; }
    var addr: uint32, size: uint32 := addr0, size0;
    ghost var done: seq<Command> := [];
    while true
      invariant dev.Valid() && dev.clock >= old(dev.clock) && |dev.nor.mem| == |old(dev.nor).mem|
      invariant size > 0
      invariant dev.log == old(dev.log) + done
      invariant done + ErasePlan(addr, size) == ErasePlan(addr0, size0)
      invariant EraseCompletes(addr, size) <==> EraseCompletes(addr0, size0)
      invariant !Faulted(dev.fault, old(dev.clock), dev.clock)
      decreases size
    {
      var c: Command;
      if addr == 0 && size == WHOLE_CHIP {
        c := BulkErase;
        size := 0;
      } else if addr % SECTOR == 0 && size > 0xffff {
        c := SectorErase(addr);
        addr, size := Wrap(addr + SECTOR), size - SECTOR;
      } else if addr % SUBSECTOR == 0 && size > 0xfff {
        c := SubsectorErase(addr);
        addr, size := Wrap(addr + SUBSECTOR), size - SUBSECTOR;
      } else {
        return EINVAL;
      }
      ghost var mid, tick := dev.log, dev.clock;
      res := EraseUnit(dev, c);
      RanThen(old(dev.log), mid, dev.log, done, [WriteEnable, c, Ready], ErasePlan(addr, size), res == 0);
      FaultedSplit(dev.fault, old(dev.clock), tick, dev.clock);
      if res != 0 { return; }
      done := done + [WriteEnable, c, Ready];
      if size == 0 { return; }
    }
  }
}
