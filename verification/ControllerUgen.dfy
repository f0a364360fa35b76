/** The RPC side of a firmware upload: a session that is opened by an erase call, filled sector by
    sector, and that writes the header of a master image only at its very end. */
module ControllerUgen {
  import opened Bits
  import opened NorFlash
  import opened EspiErase
  import opened EspiFlash
  import opened XlnxBitstream
  import opened UsdrFlash
  import Base64

  const MASTER := 0x001c_0000
  const LIMIT := 2 * 1024 * 1024
  const SECTOR_CHARS := 344
  const GOLDEN_PARAM: uint32 := 1337
  const ENOEXEC := -8

  /** The static variables of the controller. */
  datatype State = State(length: uint32, offset: uint32, golden: bool, validated: bool, header: seq<byte>)
  {
    /** The end of the session, computed with 32-bit wrap-around as the code does. */
    function End(): uint32 { Wrap(offset + length) }

    predicate Valid() {
      && |header| == HEADER
      && (length == 0 ==> offset == 0)
      && length % HEADER == 0
      && End() <= LIMIT
      && (length > 0 && validated ==> offset + length <= LIMIT)
    }

    function Base(): uint32 { if golden then 0 else MASTER }

    /** Whether a sector at `at` reaches the end of the session. */
    predicate EndsAt(at: nat) { at + HEADER >= offset + length }

    function Reset(): State { this.(length := 0, offset := 0) }
  }

  // ---------------------------------------------------------------- the commands of a call

  function RoundUpSubsector(n: nat): (r: nat)
    ensures n <= r < n + SUBSECTOR && r % SUBSECTOR == 0
  {
    (n + 4095) / SUBSECTOR * SUBSECTOR
  }

  /** What opening a session sends: a master session blanks its range; a golden one replaces the boot
      sector first and blanks the rest afterwards. */
  function OpenPlan(length: uint32, golden: bool, page: seq<byte>): (plan: seq<Command>)
    requires 0 < length <= LIMIT && |page| == HEADER
  {
    if golden then
      ErasePlan(0, SUBSECTOR) + (WritePlan(page, 0) + ErasePlan(SUBSECTOR, RoundUpSubsector(length) - SUBSECTOR))
    else
      ErasePlan(MASTER, RoundUpSubsector(length))
  }

  /** The last erase of a golden session has nothing to do, and fails, unless the image is longer than the
      boot sector. */
  predicate OpenCompletes(length: uint32, golden: bool) { golden ==> length > SUBSECTOR }

  /** What storing a sector sends: the sector itself unless it is the header page, and the saved header
      at the end of a master session. */
  function StorePlan(s: State, at: uint32, page: seq<byte>): (plan: seq<Command>)
    requires |page| == |s.header| == HEADER && at < LIMIT
  {
    (if at != 0 then WritePlan(page, at + s.Base()) else []) +
    (if !s.golden && s.EndsAt(at) then WritePlan(s.header, s.Base()) else [])
  }

  function Opened(s: State, golden: bool, page: seq<byte>): State {
    s.(golden := golden, validated := true, header := page)
  }

  function Closed(s: State, at: nat): State { if s.EndsAt(at) then s.Reset() else s }

  // ---------------------------------------------------------------- the header page

  predicate HeaderBlank(mem: seq<byte>) { BlankIn(mem, MASTER, MASTER + HEADER) }

  /** While a master session is open and validated its header page is blank. */
  predicate Guarded(s: State, mem: seq<byte>) {
    s.length > 0 && s.validated && !s.golden ==> HeaderBlank(mem)
  }

  /** `run` blanked the header page and then programmed (part of) `header` there, and nothing else after. */
  ghost predicate HeaderProgrammed(n: Nor, run: seq<Command>, header: seq<byte>)
    requires |header| == HEADER
  {
    exists i :: 0 <= i <= |run| && HeaderBlank(Replay(n, run[..i]).mem) && run[i..] <= WritePlan(header, MASTER)
  }

  /** At every moment of the call the header page is blank or as it was; only the call that ends the
      session may then program `header` over the blank page. */
  ghost predicate HeaderKept(n: Nor, run: seq<Command>, ends: bool, header: seq<byte>)
    requires |header| == HEADER
  {
    forall k :: 0 <= k <= |run| ==>
      HeaderBlankOrSame(n.mem, Replay(n, run[..k]).mem) || (ends && HeaderProgrammed(n, run[..k], header))
  }

  predicate HeaderBlankOrSame(m0: seq<byte>, m: seq<byte>) {
    HeaderBlank(m) || (|m| == |m0| && forall i :: MASTER <= i < MASTER + HEADER && i < |m| ==> m[i] == m0[i])
  }

  lemma BlankOrSameThen(m0: seq<byte>, m1: seq<byte>, m2: seq<byte>)
    requires HeaderBlankOrSame(m0, m1) && HeaderBlankOrSame(m1, m2) && |m0| == |m1| == |m2|
    ensures HeaderBlankOrSame(m0, m2)
  {
  }

  /** Programs to other pages. */
  lemma {:induction false} ProgramsKeepPage(n: Nor, q: seq<Command>, i: nat)
    requires forall k :: 0 <= k < |q| ==> !q[k].Erases() && (q[k].PageProgram? ==> q[k].addr / PAGE != i / PAGE)
    requires i < |n.mem|
    ensures Replay(n, q).mem[i] == n.mem[i]
    decreases |q|
  {
    if q != [] {
      ProgramsKeepPage(n, q[..|q| - 1], i);
      assert q[|q| - 1] == q[..][|q| - 1];
    }
  }

  /** A sector goes out as two programs. */
  lemma SectorPlan(page: seq<byte>, addr: uint32)
    requires |page| == HEADER && addr + HEADER < TWO32
    ensures WritePlan(page, addr) ==
      [WriteEnable, PageProgram(addr, page[..CHUNK]), Ready,
       WriteEnable, PageProgram(addr + CHUNK, page[CHUNK..]), Ready]
  {
    hide WritePlan;
    var rest := page[CHUNK..];
    WritePlanFirst(page, addr);
    WritePlanFirst(rest, addr + CHUNK);
    WritePlanEmpty(addr + HEADER);
    assert rest[..CHUNK] == rest && rest[CHUNK..] == [];
  }

  lemma OutsidePage(addr: nat, i: nat)
    requires (addr < MASTER || addr >= MASTER + HEADER) && MASTER <= i < MASTER + HEADER
    ensures addr / PAGE != i / PAGE
  {
    DivUnique(i, PAGE, MASTER / PAGE, i - MASTER);
  }

  /** Neither of the two programs of a sector goes to the header page. */
  predicate AddrSpares(addr: nat) { addr + CHUNK < MASTER || addr >= MASTER + HEADER }

  /** Such a sector leaves the header page alone, whatever its alignment ... */
  lemma StoreKeepsHeader(n: Nor, addr: uint32, page: seq<byte>, q: seq<Command>)
    requires AddrSpares(addr) && addr + HEADER < TWO32 && |page| == HEADER && q <= WritePlan(page, addr)
    ensures HeaderBlankOrSame(n.mem, Replay(n, q).mem)
    ensures HeaderBlank(n.mem) ==> HeaderBlank(Replay(n, q).mem)
  {
    hide WritePlan, Replay;
    SectorPlan(page, addr);
    forall i: nat | MASTER <= i < MASTER + HEADER && i < |n.mem| ensures Replay(n, q).mem[i] == n.mem[i] {
      OutsidePage(addr, i);
      OutsidePage(addr + CHUNK, i);
      forall k | 0 <= k < |q| ensures !q[k].Erases() && (q[k].PageProgram? ==> q[k].addr / PAGE != i / PAGE) {
        assert q[k] == WritePlan(page, addr)[k];
      }
      ProgramsKeepPage(n, q, i);
    }
  }

  /** ... and any other one programs it. */
  lemma StoreHitsHeader(n: Nor, addr: uint32, zeros: seq<byte>)
    requires !AddrSpares(addr) && |zeros| == HEADER && MASTER + 2 * HEADER <= |n.mem| < TWO32
    requires forall k :: 0 <= k < HEADER ==> zeros[k] == 0
    ensures !HeaderBlank(Replay(n, WritePlan(zeros, addr)).mem)
  {
    hide WritePlan, Replay, Program;
    var m := Program(n.mem, addr, zeros[..CHUNK]);
    SectorEffect(n, zeros, addr);
    if addr >= MASTER {
      ProgramClears(n.mem, addr, zeros[..CHUNK], addr);
      ProgramClears(m, addr + CHUNK, zeros[CHUNK..], addr);
    } else {
      ProgramClears(m, addr + CHUNK, zeros[CHUNK..], addr + CHUNK);
    }
  }

  lemma SectorEffect(n: Nor, page: seq<byte>, addr: uint32)
    requires |page| == HEADER && addr + HEADER < TWO32
    ensures Replay(n, WritePlan(page, addr)).mem ==
      Program(Program(n.mem, addr, page[..CHUNK]), addr + CHUNK, page[CHUNK..])
  {
    hide WritePlan, Replay, Program;
    var first, second := PageProgram(addr, page[..CHUNK]), PageProgram(addr + CHUNK, page[CHUNK..]);
    SectorPlan(page, addr);
    assert WritePlan(page, addr) == [WriteEnable, first, Ready] + [WriteEnable, second, Ready];
    ReplayConcat(n, [WriteEnable, first, Ready], [WriteEnable, second, Ready]);
    ReplayTriple(n, first);
    ReplayTriple(Nor(Alter(n.mem, first), false), second);
  }

  /** A byte that is clear stays clear, and the first of the zeros clears its own. */
  lemma ProgramClears(mem: seq<byte>, addr: nat, zeros: seq<byte>, i: nat)
    requires i < |mem| && |zeros| > 0 && zeros[0] == 0 && (i == addr || mem[i] == 0)
    ensures Program(mem, addr, zeros)[i] == 0
  {
    if i == addr { assert Lane(i, addr) == 0 && Lands(i, addr, |zeros|); }
  }

  /** Erases blank whole subsectors, so they blank all of the header page or nothing of it. */
  lemma {:induction false} ErasesBlankOrKeep(n: Nor, q: seq<Command>)
    requires forall k :: 0 <= k < |q| ==> !q[k].PageProgram?
    ensures HeaderBlankOrSame(n.mem, Replay(n, q).mem)
    decreases |q|
  {
    hide Alter;
    if q != [] {
      var m, c := Replay(n, q[..|q| - 1]), q[|q| - 1];
      ErasesBlankOrKeep(n, q[..|q| - 1]);
      EraseBlanksOrKeeps(m.mem, c);
      BlankOrSameThen(n.mem, m.mem, Replay(n, q).mem);
    }
  }

  lemma EraseBlanksOrKeeps(mem: seq<byte>, c: Command)
    requires !c.PageProgram?
    ensures HeaderBlankOrSame(mem, Alter(mem, c))
  {
    match c
    case SectorErase(addr) => assert addr - addr % SECTOR == addr / SECTOR * SECTOR;
    case SubsectorErase(addr) => assert addr - addr % SUBSECTOR == addr / SUBSECTOR * SUBSECTOR;
    case _ =>
  }

  // ---------------------------------------------------------------- the calls

  predicate HeaderAccepted(mem: seq<byte>, page: seq<byte>, golden: bool) {
    && HeaderAt(mem, 0).0 == 0
    && Parse(Words(page)).0 == 0
    && Replaceable(HeaderAt(mem, 0).1, Parse(Words(page)).1, MASTER, golden)
  }

  function Sum(page: seq<byte>): nat {
    if page == [] then 0 else Sum(page[..|page| - 1]) + page[|page| - 1]
  }

  /** The checksum adds up the bytes. */
  lemma {:induction false} SumAdds(a: seq<byte>, b: seq<byte>)
    ensures Sum(a + b) == Sum(a) + Sum(b) && Sum([]) == 0 && forall x: byte :: Sum([x]) == x
    decreases |b|
  {
    forall x: byte ensures Sum([x]) == x { assert [x][..0] == []; }
    if b == [] {
      assert a + b == a;
    } else {
      assert (a + b)[..|a + b| - 1] == a + b[..|b| - 1];
      SumAdds(a, b[..|b| - 1]);
    }
  }

  /** A write request that carries a sector: text of the right length that decodes to 256 bytes with the right sum. */
  predicate WellFormedRequest(text: seq<byte>, checksum: uint32) {
    |text| == SECTOR_CHARS && |Base64.Decode(text)| == HEADER && Sum(Base64.Decode(text)) == checksum
  }

  /** When a write call succeeds, device failures aside. */
  predicate WriteAllowed(s: State, mem: seq<byte>, at: uint32, golden: bool, text: seq<byte>, checksum: uint32) {
    && WellFormedRequest(text, checksum)
    && at < s.End()
    && (if at == s.offset
        then HeaderAccepted(mem, Base64.Decode(text), golden) && OpenCompletes(s.length, golden)
        else s.validated)
  }

  /** The same in full: 344 characters that decode to 256 bytes adding up to the checksum, inside the
      session; on its first sector headers that fit each other, and an image longer than the boot sector
      if it is a golden one; on any other a session that has been through that. */
  lemma AllowedFields(s: State, mem: seq<byte>, at: uint32, golden: bool, text: seq<byte>, checksum: uint32)
    ensures var page, was := Base64.Decode(text), HeaderAt(mem, 0);
      var h := Parse(Words(page));
      WriteAllowed(s, mem, at, golden, text, checksum) <==>
        && |text| == 344 && |page| == 256 && Sum(page) == checksum
        && at < (s.offset + s.length) % 0x1_0000_0000
        && (if at != s.offset then s.validated
            else
              && was.0 == 0 && h.0 == 0 && h.1.devid == was.1.devid
              && (if golden then h.1.iprog && h.1.wbstar == 0x1c_0000 && s.length > 4096
                  else h.1.wbstar == 0 && was.1.wbstar == 0x1c_0000))
  {
    hide Parse, Words, HeaderAt, Base64.Decode, Sum;
    WrapIsMod(s.offset + s.length);
  }

  lemma WrapIsMod(x: nat)
    requires x < 2 * TWO32
    ensures Wrap(x) == x % TWO32
  {
  }

  /** All a write call may send. */
  function CallPlan(s: State, at: uint32, golden: bool, page: seq<byte>): (plan: seq<Command>)
    requires s.Valid() && at < s.End() && |page| == HEADER
  {
    if at == s.offset then
      OpenPlan(s.length, golden, page) +
      (if OpenCompletes(s.length, golden) then StorePlan(Opened(s, golden, page), at, page) else [])
    else if s.validated then StorePlan(s, at, page)
    else []
  }

  class Session {
    var length: uint32
    var offset: uint32
    var golden: bool
    var validated: bool
    var header: seq<byte>

    constructor ()
      ensures Now() == State(0, 0, false, false, seq(HEADER, _ => 0)) && Now().Valid()
    {
      length, offset, golden, validated := 0, 0, false, false;
      header := seq(HEADER, _ => 0);
    }

    function Now(): State
      reads this
    {
      State(length, offset, golden, validated, header)
    }

    /** SDR_FLASH_ERASE only opens a session; the chip is not touched yet. */
    method FlashErase(at: uint32, len: uint32) returns (res: int)
      requires Now().Valid()
      modifies this
      ensures Now().Valid()
      ensures res == 0 <==> Wrap(at + len) <= LIMIT && len % HEADER == 0 && len != 0
      ensures res == 0 ==> Now() == State(len, at, false, false, old(header))
      ensures res != 0 ==> Now() == State(0, 0, false, false, old(header))
    {
      length, offset, golden, validated := 0, 0, false, false;
      if Wrap(at + len) > LIMIT { return EspiErase.EINVAL; }
      if len % 256 != 0 { return EspiErase.EINVAL; }
      if len == 0 { return EspiErase.EINVAL; }
      length, offset := len, at;
      res := 0;
    }

    /** SDR_FLASH_WRITE_SECTOR, from the checks on the request on. */
    method WriteSector(dev: Device, at: uint32, checksum: uint32, param: uint32, text: seq<byte>) returns (res: int)
      requires Now().Valid() && dev.Valid()
      modifies this, dev
      ensures Now().Valid() && dev.Valid() && dev.clock >= old(dev.clock) && |dev.nor.mem| == |old(dev.nor).mem|
      ensures res == 0 <==>
        WriteAllowed(old(Now()), old(dev.nor.mem), at, param == GOLDEN_PARAM, text, checksum) &&
        !Faulted(dev.fault, old(dev.clock), dev.clock)
      // in full
      ensures var page, was := Base64.Decode(text), HeaderAt(old(dev.nor.mem), 0);
        var h := Parse(Words(page));
        res == 0 <==>
          && !Faulted(dev.fault, old(dev.clock), dev.clock)
          && |text| == 344 && |page| == 256 && Sum(page) == checksum
          && at < (old(offset) + old(length)) % 0x1_0000_0000
          && (if at != old(offset) then old(validated)
              else
                && was.0 == 0 && h.0 == 0 && h.1.devid == was.1.devid
                && (if param == 1337 then h.1.iprog && h.1.wbstar == 0x1c_0000 && old(length) > 4096
                    else h.1.wbstar == 0 && was.1.wbstar == 0x1c_0000))
      // a request that is not well formed or lies outside the session changes nothing
      ensures !(WellFormedRequest(text, checksum) && at < old(Now().End())) ==>
        Now() == old(Now()) && dev.log == old(dev.log) && dev.nor == old(dev.nor)
      ensures WellFormedRequest(text, checksum) && at < old(Now().End()) ==>
        Outcome(old(Now()), at, param == GOLDEN_PARAM, Base64.Decode(text), res == 0, old(dev.nor.mem),
                old(dev.log), dev.log, Now())
      // a header that is not accepted costs the session, not the flash
      ensures at == old(Now().offset) &&
              !HeaderAccepted(old(dev.nor.mem), Base64.Decode(text), param == GOLDEN_PARAM) ==>
        dev.log == old(dev.log)
    {
      hide Replay, CallPlan, OpenPlan, StorePlan, WellFormedRequest, HeaderAccepted, OpenCompletes, Outcome, Ran,
           HeaderAt, Parse, Words, Sum, Base64.Decode, Faulted;
      AllowedFields(Now(), dev.nor.mem, at, param == GOLDEN_PARAM, text, checksum);
      var page;
      res, page := ReceivePage(text, checksum);
      if res != 0 { return; }
      if at >= Wrap(offset + length) { return EspiErase.EINVAL; }

      ghost var s0, base, mem, golden0 := Now(), dev.log, dev.nor.mem, param == GOLDEN_PARAM;
      if offset == at {
        if length == 0 { return EspiErase.EINVAL; }
        res := Open(dev, at, page, param == GOLDEN_PARAM);
        if res != 0 {
          OutcomeOpenFailed(s0, at, golden0, page, mem, base, dev.log);
          return;
        }
      }
      if !validated {
        OutcomeUnchanged(s0, at, golden0, page, mem, base);
        return ENOEXEC;
      }

      var s1 := Now();
      ghost var mid, tick := dev.log, dev.clock;
      StoreFits(s1, at);
      var ends := at + 256 >= offset + length;
      if ends { length, offset := 0, 0; }
      res := StoreSector(dev, s1, at, page, ends);
      FaultedSplit(dev.fault, old(dev.clock), tick, dev.clock);
      OutcomeStored(s0, at, golden0, page, mem, base, mid, dev.log, res == 0);
    }

    /** The first sector of a session: check the header, then erase. Any failure ends the session. */
    method Open(dev: Device, at: uint32, page: seq<byte>, updateGolden: bool) returns (res: int)
      requires Now().Valid() && dev.Valid() && |page| == HEADER
      requires at == offset && at < Wrap(offset + length) && length != 0
      modifies this, dev
      ensures Now().Valid() && dev.Valid() && dev.clock >= old(dev.clock) && |dev.nor.mem| == |old(dev.nor).mem|
      ensures 0 < old(length) <= LIMIT
      ensures Ran(old(dev.log), dev.log, OpenPlan(old(length), updateGolden, page), res == 0)
      ensures Now() == if res == 0 then Opened(old(Now()), updateGolden, page) else old(Now()).Reset()
      ensures res == 0 <==>
        && HeaderAccepted(old(dev.nor.mem), page, updateGolden)
        && OpenCompletes(old(length), updateGolden)
        && !Faulted(dev.fault, old(dev.clock), dev.clock)
      ensures !HeaderAccepted(old(dev.nor.mem), page, updateGolden) ==> dev.log == old(dev.log)
    {
      hide Replay, OpenPlan, HeaderAccepted, OpenCompletes;
      OpeningFits(Now(), at);
      assert dev.log[|dev.log|..] == [];
      res := CheckFirmwareHeader(dev, page, updateGolden);
      if res != 0 {
        length, offset := 0, 0;
        return;
      }
      ghost var tick := dev.clock;
      res := OpenSession(dev, length, updateGolden, page);
      FaultedSplit(dev.fault, old(dev.clock), tick, dev.clock);
      if res != 0 {
        length, offset := 0, 0;
        return;
      }
      golden, validated := updateGolden, true;
      header := page;
    }
  }

  /** SDR_FLASH_READ: the 344 characters of the reply decode to the 256 bytes in flash. */
  method ReadSector(dev: Device, at: uint32, param: uint32) returns (res: int, text: seq<byte>)
    requires dev.Valid() && (if param == GOLDEN_PARAM then 0 else MASTER) + at + HEADER <= TWO32
    modifies dev`clock, dev`faddr, dev`ram
    ensures dev.Valid() && (res == 0 <==> !Faulted(dev.fault, old(dev.clock), dev.clock))
    ensures res == 0 ==>
      |text| == SECTOR_CHARS &&
      Base64.Decode(text) == Window(dev.nor.mem, (if param == GOLDEN_PARAM then 0 else MASTER) + at, HEADER)
  {
    hide Window, Base64.Encode, Base64.Decode;
    text := [];
    var base := if param == GOLDEN_PARAM then 0 else MASTER;
    var buf := new byte[HEADER];
    assert RoundUp4(HEADER) == HEADER;
    res := ReadFlash(dev, base + at, HEADER, buf, 0);
    if res != 0 { return; }
    var page := buf[0..HEADER];
    Base64.SectorLength(page);
    var b64buf := new byte[512];
    var k := Base64.EncodeInto(page, b64buf);
    text := b64buf[..k];
  }

  /** The sector text and its checksum. */
  method ReceivePage(text: seq<byte>, checksum: uint32) returns (res: int, page: seq<byte>)
    ensures res == 0 <==> WellFormedRequest(text, checksum)
    ensures res == 0 ==> page == Base64.Decode(text) && |page| == HEADER
  {
    hide Sum, Base64.Decode;
    page := [];
    if |text| != SECTOR_CHARS { return EspiErase.EINVAL, page; }
    var buf := new byte[HEADER + 3];
    var k := Base64.DecodeInto(text, buf);
    if k != HEADER { return EspiErase.EINVAL, page; }
    page := buf[..k];
    var vcheck := Checksum(page);
    res := if vcheck != checksum then EspiErase.EINVAL else 0;
  }

  method Checksum(page: seq<byte>) returns (sum: nat)
    ensures sum == Sum(page)
  {
    sum := 0;
    var k := 0;
    while k < |page|
      invariant 0 <= k <= |page| && sum == Sum(page[..k])
    {
      assert page[..k + 1][..k] == page[..k];
      sum := sum + page[k];
      k := k + 1;
    }
    assert page[..k] == page;
  }

  /** How a call on a sector inside the session may end when flash holds `mem`: what it sent is a prefix
      of its plan, nothing if it opens the session with a page that is not accepted; and the session is as
      before, closed, or as it should be after the sector. */
  predicate Outcome(s: State, at: uint32, golden: bool, page: seq<byte>, done: bool, mem: seq<byte>,
                    before: seq<Command>, after: seq<Command>, s': State)
    requires s.Valid() && at < s.End() && |page| == HEADER
  {
    var s1 := if at == s.offset then Opened(s, golden, page) else s;
    && Ran(before, after, CallPlan(s, at, golden, page), done)
    && (done ==> s' == Closed(s1, at))
    && (at == s.offset && after != before ==> HeaderAccepted(mem, page, golden))
    && ((s' == s && after == before) || s' == s.Reset() ||
        (s' == Closed(s1, at) && (at == s.offset ==>
           HeaderAccepted(mem, page, golden) &&
           OpenCompletes(s.length, golden) && before + OpenPlan(s.length, golden, page) <= after)))
  }

  lemma OpeningFits(s: State, at: uint32)
    requires s.Valid() && at == s.offset && at < s.End() && s.length != 0
    ensures s.offset + s.length <= LIMIT
  {
  }

  lemma StoreFits(s: State, at: uint32)
    requires at < Wrap(s.offset + s.length) && s.offset + s.length <= LIMIT
    ensures at < LIMIT && at + HEADER < TWO32
  {
  }

  lemma OutcomeUnchanged(s: State, at: uint32, golden: bool, page: seq<byte>, mem: seq<byte>, log: seq<Command>)
    requires s.Valid() && at < s.End() && |page| == HEADER
    ensures Outcome(s, at, golden, page, false, mem, log, log, s)
  {
    assert log[|log|..] == [];
  }

  lemma OutcomeOpenFailed(s: State, at: uint32, golden: bool, page: seq<byte>, mem: seq<byte>,
                          before: seq<Command>, after: seq<Command>)
    requires s.Valid() && at < s.End() && |page| == HEADER && at == s.offset
    requires 0 < s.length <= LIMIT && Ran(before, after, OpenPlan(s.length, golden, page), false)
    requires after != before ==> HeaderAccepted(mem, page, golden)
    ensures Outcome(s, at, golden, page, false, mem, before, after, s.Reset())
  {
    hide StorePlan, OpenPlan, HeaderAccepted;
    assert OpenPlan(s.length, golden, page) <= CallPlan(s, at, golden, page);
  }

  lemma OutcomeStored(s: State, at: uint32, golden: bool, page: seq<byte>, mem: seq<byte>,
                      before: seq<Command>, mid: seq<Command>, after: seq<Command>, done: bool)
    requires s.Valid() && at < s.End() && |page| == HEADER && at < LIMIT
    requires if at == s.offset
             then 0 < s.length <= LIMIT && HeaderAccepted(mem, page, golden) && OpenCompletes(s.length, golden) &&
                  Ran(before, mid, OpenPlan(s.length, golden, page), true)
             else s.validated && mid == before
    requires Ran(mid, after, StorePlan(if at == s.offset then Opened(s, golden, page) else s, at, page), done)
    ensures Outcome(s, at, golden, page, done, mem, before, after,
                    Closed(if at == s.offset then Opened(s, golden, page) else s, at))
  {
    hide StorePlan, OpenPlan, HeaderAccepted;
    var s1 := if at == s.offset then Opened(s, golden, page) else s;
    var opening := if at == s.offset then OpenPlan(s.length, golden, page) else [];
    var store := StorePlan(s1, at, page);
    assert mid == before + opening;
    RanThen(before, mid, after, opening, store, [], done);
    assert opening + (store + []) == opening + store;
    assert [] + store == store;
  }

  /** The end of the write call. */
  method StoreSector(dev: Device, s: State, at: uint32, page: seq<byte>, ends: bool) returns (res: int)
    requires dev.Valid() && |page| == |s.header| == HEADER && at < LIMIT && ends == s.EndsAt(at)
    modifies dev
    ensures dev.Valid() && dev.clock >= old(dev.clock) && |dev.nor.mem| == |old(dev.nor).mem|
    ensures Ran(old(dev.log), dev.log, StorePlan(s, at, page), res == 0)
    ensures res == 0 <==> !Faulted(dev.fault, old(dev.clock), dev.clock)
  {
    hide Replay, WritePlan;
    RoundUpExact(HEADER);
    assert page[..HEADER] == page && page[0..] == page && s.header[..HEADER] == s.header && s.header[0..] == s.header;
    assert dev.log[|dev.log|..] == [];
    ghost var base, body := dev.log, [];
    ghost var tail := if !s.golden && ends then WritePlan(s.header, s.Base()) else [];
    res := 0;
    if at != 0 {
      body := WritePlan(page, at + s.Base());
      assert body == FlashWritePlan(page, at + s.Base(), NO_ERASE);
      res := WriteFlash(dev, page, HEADER, at + s.Base(), NO_ERASE);
      if res != 0 { RanPrefix(base, dev.log, body, tail); return; }
    }
    assert dev.log == base + body;
    if !s.golden && ends {
      ghost var tick, mid := dev.clock, dev.log;
      assert tail == FlashWritePlan(s.header, s.Base(), NO_ERASE);
      res := WriteFlash(dev, s.header, HEADER, s.Base(), NO_ERASE);
      FaultedSplit(dev.fault, old(dev.clock), tick, dev.clock);
      RanThen(base, mid, dev.log, body, tail, [], res == 0);
      assert body + (tail + []) == body + tail;
    }
    assert StorePlan(s, at, page) == body + tail;
  }

  /** check_firmware_header. The header of the current master image is read and parsed but decides nothing. */
  method CheckFirmwareHeader(dev: Device, page: seq<byte>, golden: bool) returns (res: int)
    requires dev.Valid() && |page| == HEADER
    modifies dev`clock, dev`faddr, dev`ram
    ensures dev.Valid() && dev.clock >= old(dev.clock)
    ensures res == 0 <==> HeaderAccepted(dev.nor.mem, page, golden) && !Faulted(dev.fault, old(dev.clock), dev.clock)
  {
    hide Replay, Parse, Words, Window, Replaceable;
    var data := new byte[2 * HEADER];
    res := ReadFlash(dev, 0, HEADER, data, 0);
    if res != 0 { return EspiErase.EINVAL; }
    ghost var tick := dev.clock;
    ghost var goldenPage := data[0..HEADER];
    res := ReadFlash(dev, MASTER, HEADER, data, HEADER);
    FaultedSplit(dev.fault, old(dev.clock), tick, dev.clock);
    if res != 0 { return EspiErase.EINVAL; }
    assert data[..HEADER] == goldenPage;
    var image, imageMaster, file;
    res, image := ParseHeader(Words(data[..HEADER]));
    if res != 0 { return EspiErase.EINVAL; }
    res, imageMaster := ParseHeader(Words(data[HEADER..]));
    res, file := ParseHeader(Words(page));
    if res != 0 { return EspiErase.EINVAL; }
    res := CheckImage(image, file, MASTER, golden);
    if res != 0 { return EspiErase.EINVAL; }
    tick := dev.clock;
    res := dev.Tick();  // reading the running revision
    FaultedSplit(dev.fault, old(dev.clock), tick, dev.clock);
  }

  /** The erases and, for a golden image, the boot sector. */
  method OpenSession(dev: Device, length: uint32, golden: bool, page: seq<byte>) returns (res: int)
    requires dev.Valid() && 0 < length <= LIMIT && |page| == HEADER
    modifies dev
    ensures dev.Valid() && dev.clock >= old(dev.clock) && |dev.nor.mem| == |old(dev.nor).mem|
    ensures Ran(old(dev.log), dev.log, OpenPlan(length, golden, page), res == 0)
    ensures res == 0 <==> OpenCompletes(length, golden) && !Faulted(dev.fault, old(dev.clock), dev.clock)
  {
    hide Replay, ErasePlan, WritePlan, EraseCompletes;
    RoundUpExact(HEADER);
    assert page[..HEADER] == page && page[0..] == page;
    if golden {
      ghost var base := dev.log;
      ghost var boot, head := ErasePlan(0, SUBSECTOR), FlashWritePlan(page, 0, NO_ERASE);
      ghost var rest := ErasePlan(SUBSECTOR, RoundUpSubsector(length) - SUBSECTOR);
      assert head == WritePlan(page, 0);
      EraseCompletesIff(0, SUBSECTOR);
      EraseCompletesIff(SUBSECTOR, RoundUpSubsector(length) - SUBSECTOR);
      res := EraseFlash(dev, 0, SUBSECTOR);
      if res != 0 { RanPrefix(base, dev.log, boot, head + rest); return; }
      ghost var tick, mid := dev.clock, dev.log;
      assert mid == base + boot;
      res := WriteFlash(dev, page, HEADER, 0, NO_ERASE);
      FaultedSplit(dev.fault, old(dev.clock), tick, dev.clock);
      RanThen(base, mid, dev.log, boot, head, rest, res == 0);
      if res != 0 { return; }
      tick, mid := dev.clock, dev.log;
      res := EraseFlash(dev, SUBSECTOR, RoundUpSubsector(length) - SUBSECTOR);
      FaultedSplit(dev.fault, old(dev.clock), tick, dev.clock);
      RanThen(base, mid, dev.log, boot + head, rest, [], res == 0);
      assert boot + head + (rest + []) == boot + (head + rest);
    } else {
      EraseCompletesIff(MASTER, RoundUpSubsector(length));
      res := EraseFlash(dev, MASTER, RoundUpSubsector(length));
    }
  }

  // ---------------------------------------------------------------- safety over all runs

  lemma RoundUpFacts(length: nat)
    requires 0 < length <= LIMIT
    ensures RoundUpSubsector(length) >= SUBSECTOR && MASTER + RoundUpSubsector(length) < WHOLE_CHIP
    ensures MASTER % SUBSECTOR == 0
  {
  }

  lemma OpenMasterPrefix(n: Nor, length: uint32, page: seq<byte>, q: seq<Command>)
    requires 0 < length <= LIMIT && |page| == HEADER && |n.mem| <= TWO32
    requires q <= OpenPlan(length, false, page)
    ensures HeaderBlankOrSame(n.mem, Replay(n, q).mem)
    ensures q == OpenPlan(length, false, page) ==> HeaderBlank(Replay(n, q).mem)
  {
    hide Replay, ErasePlan, EraseCompletes;
    var size := RoundUpSubsector(length);
    RoundUpFacts(length);
    EraseProgress(n, MASTER, size, q);
    EraseCompletesIff(MASTER, size);
    ErasesSomething(MASTER, size, ErasePlan(MASTER, size));
  }

  lemma StoreKeepsBlank(n: Nor, s: State, at: uint32, page: seq<byte>, q: seq<Command>)
    requires |page| == |s.header| == HEADER && at < LIMIT && (at == 0 || at >= HEADER)
    requires !s.golden && !s.EndsAt(at) && q <= StorePlan(s, at, page) && HeaderBlank(n.mem)
    ensures HeaderBlank(Replay(n, q).mem)
  {
    hide Replay, WritePlan;
    assert StorePlan(s, at, page) == if at != 0 then WritePlan(page, at + MASTER) else [];
    if at == 0 {
      assert q == [];
      NothingSent(n);
    } else {
      StoreKeepsHeader(n, at + MASTER, page, q);
    }
  }

  lemma NothingSent(n: Nor)
    ensures Replay(n, []) == n
  {
  }

  /** Where a call on a master session stands after any prefix of what it sends. */
  lemma MasterCallPrefix(n: Nor, s: State, at: uint32, page: seq<byte>, q: seq<Command>)
    requires s.Valid() && at < s.End() && |page| == HEADER && |n.mem| <= TWO32
    requires at == 0 || at >= HEADER
    requires at != s.offset ==> !s.golden
    requires q <= CallPlan(s, at, false, page) && Guarded(s, n.mem)
    requires !s.EndsAt(at)
    ensures HeaderBlankOrSame(n.mem, Replay(n, q).mem)
    ensures s.length > 0 && at == s.offset && OpenPlan(s.length, false, page) <= q ==> HeaderBlank(Replay(n, q).mem)
    ensures s.length > 0 && at != s.offset && s.validated ==> HeaderBlank(Replay(n, q).mem)
  {
    hide Replay, OpenPlan, StorePlan;
    if at == s.offset {
      var open, s1 := OpenPlan(s.length, false, page), Opened(s, false, page);
      PrefixOfConcat(q, open, StorePlan(s1, at, page));
      if |q| <= |open| {
        OpenMasterPrefix(n, s.length, page, q);
      } else {
        OpenMasterPrefix(n, s.length, page, open);
        ReplayConcat(n, open, q[|open|..]);
        StoreKeepsBlank(Replay(n, open), s1, at, page, q[|open|..]);
      }
    } else if s.validated {
      StoreKeepsBlank(n, s, at, page, q);
    } else {
      NothingSent(n);
    }
  }

  /** The call that ends a session: the sector, then the header. */
  lemma EndingPrefix(n: Nor, s: State, at: uint32, page: seq<byte>, q: seq<Command>)
    requires |page| == |s.header| == HEADER && at < LIMIT && (at == 0 || at >= HEADER) && !s.golden
    requires HeaderBlank(n.mem)
    requires q <= StorePlan(s, at, page)
    ensures HeaderBlank(Replay(n, q).mem) || HeaderProgrammed(n, q, s.header)
  {
    hide Replay, WritePlan, HeaderBlank;
    var body := if at != 0 then WritePlan(page, at + MASTER) else [];
    var head := if s.EndsAt(at) then WritePlan(s.header, MASTER) else [];
    PrefixOfConcat(q, body, head);
    NothingSent(n);
    if |q| <= |body| {
      if at == 0 { assert q == []; } else { StoreKeepsHeader(n, at + MASTER, page, q); }
    } else {
      if at != 0 { StoreKeepsHeader(n, at + MASTER, page, body); }
      assert q[..|body|] == body;
    }
  }

  /** Where the ending call of a master session stands after any prefix of what it sends. */
  lemma MasterEndPrefix(n: Nor, s: State, at: uint32, page: seq<byte>, q: seq<Command>)
    requires s.Valid() && at < s.End() && |page| == HEADER && |n.mem| <= TWO32
    requires at == 0 || at >= HEADER
    requires at != s.offset ==> !s.golden
    requires q <= CallPlan(s, at, false, page) && Guarded(s, n.mem)
    ensures HeaderBlankOrSame(n.mem, Replay(n, q).mem) || HeaderProgrammed(n, q, SavedHeader(s, at, page))
    ensures HeaderBlankOrSame(n.mem, Replay(n, q).mem) || (s.length > 0 && s.validated && at != s.offset) ||
            (0 < s.length <= LIMIT && at == s.offset && OpenPlan(s.length, false, page) <= q)
  {
    hide Replay, OpenPlan, StorePlan, HeaderProgrammed;
    if at == s.offset {
      var open, s1 := OpenPlan(s.length, false, page), Opened(s, false, page);
      PrefixOfConcat(q, open, StorePlan(s1, at, page));
      if |q| <= |open| {
        OpenMasterPrefix(n, s.length, page, q);
      } else {
        OpenMasterPrefix(n, s.length, page, open);
        ReplayConcat(n, open, q[|open|..]);
        EndingPrefix(Replay(n, open), s1, at, page, q[|open|..]);
        if HeaderProgrammed(Replay(n, open), q[|open|..], page) { ProgrammedLater(n, open, q[|open|..], page); }
      }
    } else if s.validated {
      EndingPrefix(n, s, at, page, q);
    } else {
      NothingSent(n);
    }
  }

  lemma ProgrammedLater(n: Nor, a: seq<Command>, b: seq<Command>, header: seq<byte>)
    requires |header| == HEADER && HeaderProgrammed(Replay(n, a), b, header)
    ensures HeaderProgrammed(n, a + b, header)
  {
    hide Replay, WritePlan, HeaderBlank;
    var i :| 0 <= i <= |b| && HeaderBlank(Replay(Replay(n, a), b[..i]).mem) && b[i..] <= WritePlan(header, MASTER);
    ReplayConcat(n, a, b[..i]);
    assert (a + b)[..|a| + i] == a + b[..i] && (a + b)[|a| + i..] == b[i..];
  }

  /** Opening a golden session blanks or keeps the header page of the master image. */
  lemma GoldenOpenPrefix(n: Nor, length: uint32, page: seq<byte>, q: seq<Command>)
    requires 0 < length <= LIMIT && |page| == HEADER && q <= OpenPlan(length, true, page)
    ensures HeaderBlankOrSame(n.mem, Replay(n, q).mem)
  {
    hide Replay, ErasePlan, WritePlan, HeaderBlankOrSame;
    var boot, head := ErasePlan(0, SUBSECTOR), WritePlan(page, 0);
    var rest := ErasePlan(SUBSECTOR, RoundUpSubsector(length) - SUBSECTOR);
    PrefixOfConcat(q, boot, head + rest);
    ErasePrefix(n, 0, SUBSECTOR, if |q| <= |boot| then q else boot);
    if |q| > |boot| {
      var m, q1 := Replay(n, boot), q[|boot|..];
      ReplayConcat(n, boot, q1);
      PrefixOfConcat(q1, head, rest);
      var part := if |q1| <= |head| then q1 else head;
      StoreKeepsHeader(m, 0, page, part);
      BlankOrSameThen(n.mem, m.mem, Replay(m, part).mem);
      if |q1| > |head| {
        var m2, q2 := Replay(m, head), q1[|head|..];
        ReplayConcat(m, head, q2);
        ErasePrefix(m2, SUBSECTOR, RoundUpSubsector(length) - SUBSECTOR, q2);
        BlankOrSameThen(n.mem, m2.mem, Replay(m2, q2).mem);
      }
    }
  }

  lemma ErasePrefix(n: Nor, addr: uint32, size: uint32, q: seq<Command>)
    requires q <= ErasePlan(addr, size)
    ensures HeaderBlankOrSame(n.mem, Replay(n, q).mem)
  {
    hide Replay, ErasePlan, HeaderBlankOrSame;
    ErasePlanShape(addr, size);
    assert forall k :: 0 <= k < |q| ==> q[k] == ErasePlan(addr, size)[k];
    ErasesBlankOrKeep(n, q);
  }

  /** Where a call on a golden session stands after any prefix of what it sends. */
  lemma GoldenCallPrefix(n: Nor, s: State, at: uint32, golden: bool, page: seq<byte>, q: seq<Command>)
    requires s.Valid() && at < s.End() && |page| == HEADER && Spares(false, at) && !OnMaster(s, at, golden)
    requires q <= CallPlan(s, at, golden, page)
    ensures HeaderBlankOrSame(n.mem, Replay(n, q).mem)
  {
    hide Replay, OpenPlan, WritePlan, HeaderBlankOrSame;
    NothingSent(n);
    if at == s.offset {
      var open, store := OpenPlan(s.length, true, page), if at != 0 then WritePlan(page, at) else [];
      assert open + [] == open && store + [] == store;
      PrefixOfConcat(q, open, store);
      GoldenOpenPrefix(n, s.length, page, if |q| <= |open| then q else open);
      if |q| > |open| {
        var m, q1 := Replay(n, open), q[|open|..];
        ReplayConcat(n, open, q1);
        StoreKeepsHeader(m, at, page, q1);
        BlankOrSameThen(n.mem, m.mem, Replay(m, q1).mem);
      }
    } else if s.validated && at != 0 {
      assert WritePlan(page, at) + [] == WritePlan(page, at);
      StoreKeepsHeader(n, at, page, q);
    } else {
      BlankOrSameNow(n.mem);
    }
  }

  lemma BlankOrSameNow(mem: seq<byte>)
    ensures HeaderBlankOrSame(mem, mem)
  {
  }

  /** A header that was programmed in full over the blank page is in place. */
  lemma ProgrammedIsInPlace(n: Nor, run: seq<Command>, header: seq<byte>)
    requires |header| == HEADER && HeaderBlank(Replay(n, run).mem) && MASTER + HEADER <= |n.mem| < TWO32
    ensures Window(Replay(n, run + WritePlan(header, MASTER)).mem, MASTER, HEADER) == header
  {
    hide Replay, WritePlan;
    var m := Replay(n, run);
    ReplayConcat(n, run, WritePlan(header, MASTER));
    WriteOnBlank(m, header, MASTER);
    assert |Put(m.mem, MASTER, header)| == |m.mem|;
    assert Put(m.mem, MASTER, header)[MASTER..MASTER + HEADER] == header;
  }

  /** The page a call on sector `at` programs as the header: its own if it opens the session. */
  function SavedHeader(s: State, at: uint32, page: seq<byte>): seq<byte> { if at == s.offset then page else s.header }

  predicate OnMaster(s: State, at: uint32, golden: bool) { if at == s.offset then !golden else !s.golden }

  /** The offsets at which a sector stays out of the header page of the master image. In a master session
      sector 0 is set aside; a golden session may reach as far as the master image. */
  predicate Spares(master: bool, at: nat) { if master then at == 0 || at >= HEADER else AddrSpares(at) }

  /** The header of an open, validated master session was accepted when flash held `m0`. */
  predicate Vouched(s: State, m0: seq<byte>) {
    s.length > 0 && s.validated && !s.golden ==> HeaderAccepted(m0, s.header, false)
  }

  /** After any prefix of what a call at such an offset sends, golden or not, the header page is blank or
      as it was, unless the call ends a master session and programs the header. */
  lemma CallKeepsHeader(n: Nor, s: State, at: uint32, golden: bool, page: seq<byte>, run: seq<Command>)
    requires s.Valid() && at < s.End() && |page| == HEADER && |n.mem| <= TWO32
    requires Guarded(s, n.mem) && run <= CallPlan(s, at, golden, page) && Spares(OnMaster(s, at, golden), at)
    ensures HeaderKept(n, run, OnMaster(s, at, golden) && s.EndsAt(at), SavedHeader(s, at, page))
  {
    hide Replay, CallPlan, HeaderProgrammed, HeaderBlankOrSame;
    forall k | 0 <= k <= |run|
      ensures HeaderBlankOrSame(n.mem, Replay(n, run[..k]).mem) ||
              (OnMaster(s, at, golden) && s.EndsAt(at) && HeaderProgrammed(n, run[..k], SavedHeader(s, at, page)))
    {
      PrefixOfPrefix(run, CallPlan(s, at, golden, page), k);
      if OnMaster(s, at, golden) {
        CallPlanIgnoresGolden(s, at, golden, page);
        if s.EndsAt(at) {
          MasterEndPrefix(n, s, at, page, run[..k]);
        } else {
          MasterCallPrefix(n, s, at, page, run[..k]);
        }
      } else {
        GoldenCallPrefix(n, s, at, golden, page, run[..k]);
      }
    }
  }

  /** A call in a guarded state keeps the header page, whatever it carries and wherever it stops. */
  ghost predicate CallKeeps(at: uint32, golden: bool, n: Nor, s: State, page: seq<byte>, run: seq<Command>) {
    s.Valid() && at < s.End() && |page| == HEADER && |n.mem| <= TWO32 && Guarded(s, n.mem) &&
    (at == s.offset || s.golden == golden) && run <= CallPlan(s, at, golden, page) ==>
      HeaderKept(n, run, !golden && s.EndsAt(at), SavedHeader(s, at, page))
  }

  /** The offsets are exact, in a master session and in a golden one. */
  lemma CallKeepsIff(at: uint32, golden: bool)
    requires at < LIMIT
    ensures (forall n, s, page, run :: CallKeeps(at, golden, n, s, page, run)) <==> Spares(!golden, at)
  {
    hide CallKeeps;
    if Spares(!golden, at) {
      forall n, s, page, run ensures CallKeeps(at, golden, n, s, page, run) {
        CallKeepsThere(at, golden, n, s, page, run);
      }
    } else {
      var n, s, page, run := CallHits(at, golden);
    }
  }

  lemma CallKeepsThere(at: uint32, golden: bool, n: Nor, s: State, page: seq<byte>, run: seq<Command>)
    requires Spares(!golden, at)
    ensures CallKeeps(at, golden, n, s, page, run)
  {
    hide CallPlan, HeaderKept, Guarded;
    if s.Valid() && at < s.End() && |page| == HEADER && |n.mem| <= TWO32 && Guarded(s, n.mem) &&
       (at == s.offset || s.golden == golden) && run <= CallPlan(s, at, golden, page) {
      CallKeepsHeader(n, s, at, golden, page, run);
    }
  }

  /** A sector of zeros, in a session that is as long as sessions get, over a blank chip. */
  lemma CallHits(at: uint32, golden: bool) returns (n: Nor, s: State, page: seq<byte>, run: seq<Command>)
    requires at < LIMIT && !Spares(!golden, at)
    ensures !CallKeeps(at, golden, n, s, page, run)
  {
    hide Replay, WritePlan;
    n := Nor(seq(2 * LIMIT, _ => BLANK), false);
    page := seq(HEADER, _ => 0);
    s := State(LIMIT, 0, golden, true, page);
    var addr: uint32 := at + s.Base();
    run := WritePlan(page, addr);
    assert run + [] == run && CallPlan(s, at, golden, page) == run;
    StoreHitsHeader(n, addr, page);
    BlankStays(n.mem, Replay(n, run).mem);
    assert run[..|run|] == run;
  }

  lemma BlankStays(m0: seq<byte>, m: seq<byte>)
    requires HeaderBlank(m0) && |m| == |m0|
    ensures HeaderBlankOrSame(m0, m) ==> HeaderBlank(m)
  {
  }

  /** One call, whatever becomes of it. At an offset that spares the header page a guarded session stays
      guarded, and the header page of the master image is programmed by no call but the one that ends a
      master session, over a page that the session blanked, with a page that was accepted when the session
      opened. A golden call leaves the session guarded anywhere. */
  lemma CallGuard(n: Nor, s: State, at: uint32, golden: bool, page: seq<byte>, done: bool, m0: seq<byte>,
                  before: seq<Command>, after: seq<Command>, s': State)
    requires s.Valid() && at < s.End() && |page| == HEADER && |n.mem| <= TWO32
    requires Guarded(s, n.mem) && Outcome(s, at, golden, page, done, n.mem, before, after, s')
    ensures (OnMaster(s, at, golden) ==> Spares(true, at)) ==> Guarded(s', Replay(n, after[|before|..]).mem)
    ensures Vouched(s, m0) ==> Vouched(s', if at == s.offset && s' != s then n.mem else m0)
    ensures Spares(OnMaster(s, at, golden), at) ==>
      HeaderKept(n, after[|before|..], OnMaster(s, at, golden) && s.EndsAt(at), SavedHeader(s, at, page))
    ensures OnMaster(s, at, golden) && Spares(true, at) ==> forall k :: 0 <= k <= |after[|before|..]| ==>
      HeaderBlankOrSame(n.mem, Replay(n, after[|before|..][..k]).mem) ||
      (if at == s.offset
       then
         && 0 < s.length <= LIMIT && HeaderAccepted(n.mem, page, false)
         && OpenPlan(s.length, false, page) <= after[|before|..]
       else s.length > 0 && s.validated && (Vouched(s, m0) ==> HeaderAccepted(m0, s.header, false)))
  {
    hide Replay, OpenPlan, StorePlan, CallPlan, HeaderProgrammed, HeaderBlankOrSame, HeaderAccepted, HeaderKept;
    var run := after[|before|..];
    NothingSent(n);
    if Spares(OnMaster(s, at, golden), at) { CallKeepsHeader(n, s, at, golden, page, run); }
    if OnMaster(s, at, golden) && Spares(true, at) {
      CallPlanIgnoresGolden(s, at, golden, page);
      forall k | 0 <= k <= |run|
        ensures HeaderBlankOrSame(n.mem, Replay(n, run[..k]).mem) || (s.length > 0 && s.validated && at != s.offset) ||
                (0 < s.length <= LIMIT && at == s.offset && OpenPlan(s.length, false, page) <= run)
      {
        PrefixOfPrefix(run, CallPlan(s, at, false, page), k);
        MasterEndPrefix(n, s, at, page, run[..k]);
      }
      if !s.EndsAt(at) { MasterCallPrefix(n, s, at, page, run); }
      if at == s.offset { OpenPlanSome(s, at, page); }
    }
  }

  /** Opening a session sends something. */
  lemma OpenPlanSome(s: State, at: uint32, page: seq<byte>)
    requires s.Valid() && at < s.End() && |page| == HEADER && at == s.offset
    ensures OpenPlan(s.length, false, page) != []
  {
    hide ErasePlan;
    RoundUpFacts(s.length);
    var c := ErasePlanStart(MASTER, RoundUpSubsector(s.length));
  }

  lemma CallPlanIgnoresGolden(s: State, at: uint32, golden: bool, page: seq<byte>)
    requires s.Valid() && at < s.End() && |page| == HEADER && (at == s.offset ==> !golden)
    ensures CallPlan(s, at, golden, page) == CallPlan(s, at, false, page)
  {
  }

  datatype Call =
    | Erase(offset: uint32, length: uint32)
    | Write(offset: uint32, checksum: uint32, param: uint32, text: seq<byte>)

  /** What one call did: the session and the chip before it, and the commands it sent. */
  datatype Step = Step(before: State, chip: Nor, run: seq<Command>)

  /** A write call that carries a sector of the session. */
  predicate Served(c: Call, t: Step) {
    && c.Write? && WellFormedRequest(c.text, c.checksum)
    && |t.before.header| == HEADER && t.before.Valid() && c.offset < t.before.End()
  }

  /** The call carries a sector to a master session. */
  predicate MasterCall(c: Call, t: Step) {
    Served(c, t) && OnMaster(t.before, c.offset, c.param == GOLDEN_PARAM)
  }

  /** The call carries no sector into the header page of the master image. */
  predicate Apart(c: Call, t: Step) { Served(c, t) ==> Spares(MasterCall(c, t), c.offset) }

  /** No master call before call `n` and after the last erase call did so. (A golden one may have: the
      session that opens next blanks the page.) */
  ghost predicate Undamaged(calls: seq<Call>, steps: seq<Step>, n: nat)
    requires n <= |calls| && n <= |steps|
  {
    n == 0 || calls[n - 1].Erase? ||
    ((MasterCall(calls[n - 1], steps[n - 1]) ==> Apart(calls[n - 1], steps[n - 1])) && Undamaged(calls, steps, n - 1))
  }

  /** A call keeps the header page of the master image, but for one that ends a master session and
      programs it. */
  ghost predicate StepSafe(c: Call, t: Step) {
    Served(c, t) ==>
      HeaderKept(t.chip, t.run, MasterCall(c, t) && t.before.EndsAt(c.offset),
                 SavedHeader(t.before, c.offset, Base64.Decode(c.text)))
  }

  /** The call opened a master session with the page `h`: at that moment the golden header in flash and
      `h` parsed, `h` may replace what is there, and the call went on to blank the whole range. */
  ghost predicate Opens(c: Call, t: Step, h: seq<byte>) {
    && Served(c, t) && c.offset == t.before.offset && c.param != GOLDEN_PARAM && Base64.Decode(c.text) == h
    && HeaderAt(t.chip.mem, 0).0 == 0 && Parse(Words(h)).0 == 0
    && Replaceable(HeaderAt(t.chip.mem, 0).1, Parse(Words(h)).1, MASTER, false)
    && 0 < t.before.length <= LIMIT && OpenPlan(t.before.length, false, h) <= t.run
  }

  /** Call `i`, among the first `n`, opened a session with `h`, and no erase call followed. */
  ghost predicate OpenedAt(calls: seq<Call>, steps: seq<Step>, i: int, n: nat, h: seq<byte>) {
    && 0 <= i < n <= |steps| && n <= |calls| && Opens(calls[i], steps[i], h)
    && forall j :: i < j < n ==> calls[j].Write?
  }

  /** Some call among the first `n` opened with `h` the session that call `n` is part of. */
  ghost predicate WasOpened(calls: seq<Call>, steps: seq<Step>, n: nat, h: seq<byte>) {
    exists i :: OpenedAt(calls, steps, i, n, h)
  }

  /** Whenever, during call `k`, the header page is neither blank nor as it was, the call is one of a
      master session, and the page holds programmed bytes of the page that this or an earlier call of the
      session opened it with. */
  ghost predicate HeaderValidated(calls: seq<Call>, steps: seq<Step>, k: nat)
    requires k < |calls| && k < |steps|
  {
    var c, t := calls[k], steps[k];
    if Served(c, t) then
      var h := SavedHeader(t.before, c.offset, Base64.Decode(c.text));
      forall j :: 0 <= j <= |t.run| ==>
        HeaderBlankOrSame(t.chip.mem, Replay(t.chip, t.run[..j]).mem) ||
        (MasterCall(c, t) && HeaderProgrammed(t.chip, t.run[..j], h) && WasOpened(calls, steps, k + 1, h))
    else t.run == []
  }

  /** How a call leaves the session, as far as its header is concerned, and what it programs. */
  ghost predicate StepEnds(c: Call, t: Step, s': State) {
    (!Served(c, t) ==> t.run == []) &&
    if c.Erase? then !s'.validated
    else if Served(c, t) then
      var page := Base64.Decode(c.text);
      && (s'.length > 0 && s'.validated && !s'.golden ==> s' == t.before || Opens(c, t, s'.header))
      && (MasterCall(c, t) && Apart(c, t) && Guarded(t.before, t.chip.mem) ==>
           forall k :: 0 <= k <= |t.run| ==>
             HeaderBlankOrSame(t.chip.mem, Replay(t.chip, t.run[..k]).mem) ||
             (if c.offset == t.before.offset then Opens(c, t, page) else t.before.length > 0 && t.before.validated))
    else s' == t.before
  }

  /** The header of an open, validated master session is that of call `i`. */
  ghost predicate Held(calls: seq<Call>, steps: seq<Step>, i: int, s: State) {
    s.length > 0 && s.validated && !s.golden ==> OpenedAt(calls, steps, i, |steps|, s.header)
  }

  lemma HeldNext(calls: seq<Call>, steps: seq<Step>, t: Step, i: int, s': State) returns (i': int)
    requires |steps| < |calls| && Held(calls, steps, i, t.before) && StepEnds(calls[|steps|], t, s')
    ensures Held(calls, steps + [t], i', s')
  {
    hide Opens, Served;
    var all := steps + [t];
    i' := if s' == t.before then i else |steps|;
    if s'.length > 0 && s'.validated && !s'.golden && s' == t.before {
      assert OpenedAt(calls, steps, i, |steps|, s'.header) && all[i] == steps[i];
    }
  }

  lemma HeaderValidatedNow(calls: seq<Call>, steps: seq<Step>, t: Step, i: int, s': State)
    requires |steps| < |calls| && Held(calls, steps, i, t.before)
    requires StepEnds(calls[|steps|], t, s') && StepSafe(calls[|steps|], t)
    requires Apart(calls[|steps|], t) && Guarded(t.before, t.chip.mem)
    ensures HeaderValidated(calls, steps + [t], |steps|)
  {
    hide Opens, HeaderBlankOrSame, HeaderProgrammed, Replay, Guarded, Spares;
    var k, c, all := |steps|, calls[|steps|], steps + [t];
    if Served(c, t) {
      var h := SavedHeader(t.before, c.offset, Base64.Decode(c.text));
      forall j | 0 <= j <= |t.run| && !HeaderBlankOrSame(t.chip.mem, Replay(t.chip, t.run[..j]).mem)
        ensures MasterCall(c, t) && HeaderProgrammed(t.chip, t.run[..j], h) && WasOpened(calls, all, k + 1, h)
      {
        if c.offset == t.before.offset {
          assert OpenedAt(calls, all, k, k + 1, h);
        } else {
          assert all[i] == steps[i];
          assert OpenedAt(calls, all, i, k + 1, h);
        }
      }
    }
  }

  lemma HeaderValidatedLater(calls: seq<Call>, steps: seq<Step>, t: Step, k: nat)
    requires k < |steps| <= |calls| && HeaderValidated(calls, steps, k)
    ensures HeaderValidated(calls, steps + [t], k)
  {
    hide Opens, HeaderBlankOrSame, HeaderProgrammed, Replay, OnMaster, WellFormedRequest, MasterCall;
    var all, r := steps + [t], steps[k];
    var h := SavedHeader(r.before, calls[k].offset, if calls[k].Write? then Base64.Decode(calls[k].text) else []);
    if WasOpened(calls, steps, k + 1, h) {
      var i :| OpenedAt(calls, steps, i, k + 1, h);
      assert all[i] == steps[i];
      assert OpenedAt(calls, all, i, k + 1, h);
    }
  }

  /** The steps follow one another from the chip `n` to the chip `m`. */
  ghost predicate Chained(n: Nor, steps: seq<Step>, m: Nor) {
    if steps == [] then m == n
    else
      var last := steps[|steps| - 1];
      Chained(n, steps[..|steps| - 1], last.chip) && m == Replay(last.chip, last.run)
  }

  /** What the run promises of call `k`: if neither it nor an earlier master call of the session carries a
      sector into the header page of the master image, the call is safe for that page, an open, validated
      master session has a blank one before it, and (if no validated session was carried in) whatever
      header it programs was validated, and its range erased, in the session it is part of. */
  ghost predicate CallSafe(calls: seq<Call>, steps: seq<Step>, k: nat, carried: bool)
    requires k < |calls| && k < |steps|
  {
    Undamaged(calls, steps, k) ==>
      && Guarded(steps[k].before, steps[k].chip.mem)
      && (Apart(calls[k], steps[k]) ==>
           StepSafe(calls[k], steps[k]) && (!carried ==> HeaderValidated(calls, steps, k)))
  }

  /** Any sequence of calls, on any chip, with any pattern of device failures. */
  method Serve(session: Session, dev: Device, calls: seq<Call>) returns (codes: seq<int>, ghost steps: seq<Step>)
    requires session.Now().Valid() && dev.Valid() && Guarded(session.Now(), dev.nor.mem)
    modifies session, dev
    ensures session.Now().Valid() && dev.Valid() && |codes| == |steps| == |calls|
    ensures Chained(old(dev.nor), steps, dev.nor)
    ensures forall k :: 0 <= k < |calls| ==> CallSafe(calls, steps, k, old(session.validated))
    ensures Undamaged(calls, steps, |calls|) ==> Guarded(session.Now(), dev.nor.mem)
  {
    hide Replay, Guarded, StepSafe, StepEnds, Chained, HeaderValidated, Held, Undamaged, CallSafe, Apart, MasterCall;
    codes, steps := [], [];
    ghost var origin: int, carried := -1, session.validated;
    ChainedNone(dev.nor);
    HeldAtStart(calls, session.Now());
    for k := 0 to |calls|
      invariant session.Now().Valid() && dev.Valid() && |codes| == |steps| == k
      invariant Undamaged(calls, steps, k) ==> Guarded(session.Now(), dev.nor.mem)
      invariant Chained(old(dev.nor), steps, dev.nor)
      invariant forall j :: 0 <= j < k ==> CallSafe(calls, steps, j, carried)
      invariant !carried ==> Held(calls, steps, origin, session.Now())
    {
      var code;
      ghost var t;
      code, t := ServeOne(session, dev, calls[k]);
      ChainedNext(old(dev.nor), steps, t, dev.nor);
      UndamagedNext(calls, steps, t);
      CallSafeNow(calls, steps, t, origin, session.Now(), carried);
      forall j | 0 <= j < k ensures CallSafe(calls, steps + [t], j, carried) {
        CallSafeLater(calls, steps, t, j, carried);
      }
      if !carried { origin := HeldNext(calls, steps, t, origin, session.Now()); }
      codes, steps := codes + [code], steps + [t];
    }
  }

  lemma UndamagedNext(calls: seq<Call>, steps: seq<Step>, t: Step)
    requires |steps| < |calls|
    ensures Undamaged(calls, steps + [t], |steps| + 1) <==>
      calls[|steps|].Erase? ||
      ((MasterCall(calls[|steps|], t) ==> Apart(calls[|steps|], t)) && Undamaged(calls, steps, |steps|))
  {
    UndamagedLater(calls, steps, t, |steps|);
  }

  lemma {:induction false} UndamagedLater(calls: seq<Call>, steps: seq<Step>, t: Step, k: nat)
    requires k <= |steps| < |calls|
    ensures Undamaged(calls, steps + [t], k) == Undamaged(calls, steps, k)
    decreases k
  {
    hide Apart, MasterCall;
    if k > 0 { UndamagedLater(calls, steps, t, k - 1); }
  }

  lemma CallSafeNow(calls: seq<Call>, steps: seq<Step>, t: Step, i: int, s': State, carried: bool)
    requires |steps| < |calls| && StepEnds(calls[|steps|], t, s') && (!carried ==> Held(calls, steps, i, t.before))
    requires Undamaged(calls, steps, |steps|) ==> Guarded(t.before, t.chip.mem)
    requires Guarded(t.before, t.chip.mem) && Apart(calls[|steps|], t) ==> StepSafe(calls[|steps|], t)
    ensures CallSafe(calls, steps + [t], |steps|, carried)
  {
    hide Guarded, Apart, StepSafe, StepEnds, Held, HeaderValidated, Undamaged;
    UndamagedLater(calls, steps, t, |steps|);
    if !carried && Guarded(t.before, t.chip.mem) && Apart(calls[|steps|], t) {
      HeaderValidatedNow(calls, steps, t, i, s');
    }
  }

  lemma CallSafeLater(calls: seq<Call>, steps: seq<Step>, t: Step, k: nat, carried: bool)
    requires k < |steps| < |calls| && CallSafe(calls, steps, k, carried)
    ensures CallSafe(calls, steps + [t], k, carried)
  {
    hide Guarded, Apart, StepSafe, HeaderValidated, Undamaged;
    UndamagedLater(calls, steps, t, k);
    assert (steps + [t])[k] == steps[k];
    if HeaderValidated(calls, steps, k) { HeaderValidatedLater(calls, steps, t, k); }
  }

  lemma HeldAtStart(calls: seq<Call>, s: State)
    ensures !s.validated ==> Held(calls, [], -1, s)
  {
  }

  lemma ChainedNone(n: Nor)
    ensures Chained(n, [], n)
  {
  }

  lemma ChainedNext(n: Nor, steps: seq<Step>, t: Step, m: Nor)
    requires Chained(n, steps, t.chip) && m == Replay(t.chip, t.run)
    ensures Chained(n, steps + [t], m)
  {
    assert (steps + [t])[..|steps|] == steps;
  }

  lemma FreshSessionGuarded(s: State, mem: seq<byte>)
    requires !s.validated
    ensures Guarded(s, mem)
  {
  }

  method ServeOne(session: Session, dev: Device, c: Call) returns (code: int, ghost t: Step)
    requires session.Now().Valid() && dev.Valid()
    modifies session, dev
    ensures session.Now().Valid() && dev.Valid()
    ensures t.before == old(session.Now()) && t.chip == old(dev.nor) && dev.nor == Replay(t.chip, t.run)
    ensures StepEnds(c, t, session.Now())
    ensures Guarded(t.before, t.chip.mem) && Apart(c, t) ==> StepSafe(c, t)
    ensures c.Erase? || (Guarded(t.before, t.chip.mem) && (MasterCall(c, t) ==> Apart(c, t))) ==>
      Guarded(session.Now(), dev.nor.mem)
  {
    hide Replay, Guarded, HeaderKept;
    ghost var s, n := session.Now(), dev.nor;
    match c {
      case Erase(at, len) =>
        code := session.FlashErase(at, len);
        FreshSessionGuarded(session.Now(), dev.nor.mem);
        NothingSent(n);
        t := Step(s, n, []);
      case Write(at, checksum, param, text) =>
        code, t := ServeWrite(session, dev, at, checksum, param, text);
    }
  }

  method ServeWrite(session: Session, dev: Device, at: uint32, checksum: uint32, param: uint32, text: seq<byte>)
    returns (code: int, ghost t: Step)
    requires session.Now().Valid() && dev.Valid()
    modifies session, dev
    ensures session.Now().Valid() && dev.Valid()
    ensures t.before == old(session.Now()) && t.chip == old(dev.nor) && dev.nor == Replay(t.chip, t.run)
    ensures var c := Call.Write(at, checksum, param, text);
      && StepEnds(c, t, session.Now())
      && (Guarded(t.before, t.chip.mem) && Apart(c, t) ==> StepSafe(c, t))
      && (Guarded(t.before, t.chip.mem) && (MasterCall(c, t) ==> Apart(c, t)) ==>
           Guarded(session.Now(), dev.nor.mem))
  {
    hide Replay, OpenPlan, StorePlan, CallPlan, Guarded, WriteAllowed, HeaderBlank, HeaderKept, Outcome, StepSafe,
         StepEnds, Apart, MasterCall, HeaderAccepted, State.End, Sum, Base64.Decode;
    ghost var s, before, n := session.Now(), dev.log, dev.nor;
    code := session.WriteSector(dev, at, checksum, param, text);
    if WellFormedRequest(text, checksum) && at < s.End() {
      LogGrew(s, at, param == GOLDEN_PARAM, Base64.Decode(text), code == 0, n.mem, before, dev.log, session.Now());
      ghost var run := dev.log[|before|..];
      t := Step(s, n, run);
      ReplayConcat(dev.origin, before, run);
      assert dev.log == before + run;
      ServedStep(Call.Write(at, checksum, param, text), t, code == 0, before, dev.log, session.Now());
    } else {
      t := Step(s, n, []);
      NothingSent(n);
      RefusedStep(Call.Write(at, checksum, param, text), t);
    }
  }

  lemma LogGrew(s: State, at: uint32, golden: bool, page: seq<byte>, done: bool, mem: seq<byte>,
                before: seq<Command>, after: seq<Command>, s': State)
    requires s.Valid() && at < s.End() && |page| == HEADER && Outcome(s, at, golden, page, done, mem, before, after, s')
    ensures before <= after
  {
    hide CallPlan, OpenPlan, HeaderAccepted;
  }

  lemma RefusedStep(c: Call, t: Step)
    requires c.Write? && !Served(c, t) && t.run == []
    ensures StepSafe(c, t) && StepEnds(c, t, t.before)
  {
  }

  lemma ServedStep(c: Call, t: Step, done: bool, before: seq<Command>, after: seq<Command>, s': State)
    requires Served(c, t) && before <= after && t.run == after[|before|..] && |t.chip.mem| <= TWO32
    requires Outcome(t.before, c.offset, c.param == GOLDEN_PARAM, Base64.Decode(c.text), done, t.chip.mem,
                     before, after, s')
    ensures StepEnds(c, t, s')
    ensures Guarded(t.before, t.chip.mem) && Apart(c, t) ==> StepSafe(c, t)
    ensures Guarded(t.before, t.chip.mem) && (MasterCall(c, t) ==> Apart(c, t)) ==>
      Guarded(s', Replay(t.chip, t.run).mem)
  {
    hide Replay, OpenPlan, StorePlan, CallPlan, Guarded, HeaderKept, HeaderBlankOrSame, Vouched, HeaderAccepted,
         Outcome, Opens, Spares;
    var golden, page := c.param == GOLDEN_PARAM, Base64.Decode(c.text);
    if Guarded(t.before, t.chip.mem) {
      CallGuard(t.chip, t.before, c.offset, golden, page, done, [], before, after, s');
    }
    if c.offset == t.before.offset && !golden && 0 < t.before.length <= LIMIT &&
       HeaderAccepted(t.chip.mem, page, false) && OpenPlan(t.before.length, false, page) <= t.run {
      ServedOpens(c, t);
    }
    ServedSession(c, t, done, before, after, s');
  }

  lemma ServedOpens(c: Call, t: Step)
    requires Served(c, t) && c.offset == t.before.offset && c.param != GOLDEN_PARAM
    requires 0 < t.before.length <= LIMIT && HeaderAccepted(t.chip.mem, Base64.Decode(c.text), false)
    requires OpenPlan(t.before.length, false, Base64.Decode(c.text)) <= t.run
    ensures Opens(c, t, Base64.Decode(c.text))
  {
    hide OpenPlan, Parse, Words, Replaceable, HeaderAt, WellFormedRequest;
  }

  lemma ServedSession(c: Call, t: Step, done: bool, before: seq<Command>, after: seq<Command>, s': State)
    requires Served(c, t) && before <= after && t.run == after[|before|..]
    requires Outcome(t.before, c.offset, c.param == GOLDEN_PARAM, Base64.Decode(c.text), done, t.chip.mem,
                     before, after, s')
    ensures s'.length > 0 && s'.validated && !s'.golden ==> s' == t.before || Opens(c, t, s'.header)
  {
    hide OpenPlan, StorePlan, CallPlan, HeaderAccepted, Opens;
    var page := Base64.Decode(c.text);
    if c.offset == t.before.offset && s'.length > 0 && s'.validated && !s'.golden && s' != t.before {
      assert before + OpenPlan(t.before.length, false, page) <= after;
      assert OpenPlan(t.before.length, false, page) <= t.run;
      ServedOpens(c, t);
    }
  }
}
