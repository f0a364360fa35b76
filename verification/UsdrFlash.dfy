/** The flashing tool: how it orders an update, and what a crash at any point of it leaves in flash. */
module UsdrFlash {
  import opened Bits
  import opened NorFlash
  import opened EspiErase
  import opened EspiFlash
  import opened XlnxBitstream

  const OUT_SIZE := 16 * 1024 * 1024
  const GOLDEN_HEADER := 4096

  const ERASING := WriteFlags(false, false)
  const BODY_ONLY := WriteFlags(false, true)
  const NO_ERASE := WriteFlags(true, false)

  // ---------------------------------------------------------------- prefixes of a plan

  /** A prefix of a concatenation is a prefix of the first part, or the first part and a prefix of the second. */
  lemma PrefixOfConcat(q: seq<Command>, a: seq<Command>, b: seq<Command>)
    requires q <= a + b
    ensures if |q| <= |a| then q <= a else a < q && q[|a|..] <= b && q == a + q[|a|..]
  {
    if |q| <= |a| {
      assert q == (a + b)[..|q|] == a[..|q|];
    } else {
      assert q == (a + b)[..|q|];
      assert a == (a + b)[..|a|] == q[..|a|];
      assert q[|a|..] == b[..|q| - |a|];
    }
  }

  predicate HasErase(log: seq<Command>) { exists k :: 0 <= k < |log| && log[k].Erases() }

  predicate Same(m0: seq<byte>, m: seq<byte>, lo: nat, hi: nat) {
    |m| == |m0| && forall i :: lo <= i < hi && i < |m0| ==> m[i] == m0[i]
  }

  lemma ConfinedPrefix(q: seq<Command>, plan: seq<Command>, lo: int, hi: int)
    requires q <= plan && Confined(plan, lo, hi)
    ensures Confined(q, lo, hi)
  {
    forall k | 0 <= k < |q| ensures Within(q[k], lo, hi) { assert q[k] == plan[k]; }
  }

  lemma ConfinedSame(n: Nor, q: seq<Command>, plan: seq<Command>, lo: nat, hi: nat)
    requires q <= plan && Confined(plan, lo, hi)
    ensures SameOutside(n.mem, Replay(n, q).mem, lo, hi)
  {
    ConfinedPrefix(q, plan, lo, hi);
    forall i | 0 <= i < |n.mem| && !(lo <= i < hi) ensures Replay(n, q).mem[i] == n.mem[i] {
      ReplayOutside(n, q, lo, hi, i);
    }
  }

  lemma ErasePlanStart(off: uint32, size: uint32) returns (c: Command)
    requires off % SUBSECTOR == 0 && size % SUBSECTOR == 0 && size > 0 && off + size <= TWO32
    ensures |ErasePlan(off, size)| >= 3
    ensures ErasePlan(off, size)[..2] == [WriteEnable, c] && c.Erases()
    ensures forall n: Nor :: BlankIn(Alter(n.mem, c), off, off + SUBSECTOR)
  {
    c := if off % SECTOR == 0 && size > 0xffff then SectorErase(off) else SubsectorErase(off);
  }

  lemma AfterFirstErase(n: Nor, c: Command, rest: seq<Command>, lo: nat, hi: nat)
    requires c.Erases() && BlankIn(Alter(n.mem, c), lo, hi)
    requires forall k :: 0 <= k < |rest| ==> !rest[k].PageProgram?
    ensures BlankIn(Replay(n, [WriteEnable] + [c] + rest).mem, lo, hi)
  {
    hide Alter;
    var on := Nor(n.mem, true);
    var m := Nor(Alter(n.mem, c), false);
    ReplayStep(n, WriteEnable);
    ReplayStep(on, c);
    ReplayConcat(n, [WriteEnable], [c]);
    ReplayConcat(n, [WriteEnable] + [c], rest);
    forall i: int | lo <= i < hi && i < |n.mem| ensures Replay(m, rest).mem[i] == BLANK {
      ErasesOnlyBlank(m, rest, i);
    }
  }

  lemma OneWriteEnable(n: Nor)
    ensures Replay(n, []).mem == n.mem && Replay(n, [WriteEnable]).mem == n.mem
  {
    ReplayStep(n, WriteEnable);
  }

  /** The first subsector of an erase is blank from the first erase command on; before it nothing has changed. */
  lemma EraseProgress(n: Nor, off: uint32, size: uint32, q: seq<Command>)
    requires off % SUBSECTOR == 0 && size % SUBSECTOR == 0 && size > 0 && off + size <= TWO32
    requires q <= ErasePlan(off, size)
    ensures if HasErase(q) then BlankIn(Replay(n, q).mem, off, off + SUBSECTOR) else Replay(n, q).mem == n.mem
  {
    hide ErasePlan, Replay, Alter, BlankIn;
    var plan := ErasePlan(off, size);
    var c := ErasePlanStart(off, size);
    assert plan[0] == plan[..2][0] && plan[1] == plan[..2][1];
    if |q| < 2 {
      assert q == [] || q == [WriteEnable];
      OneWriteEnable(n);
    } else {
      assert q[1] == c;
      ErasePlanShape(off, size);
      assert forall k :: 0 <= k < |q[2..]| ==> q[2..][k] == plan[k + 2];
      AfterFirstErase(n, c, q[2..], off, off + SUBSECTOR);
      assert q == [WriteEnable] + [c] + q[2..];
    }
  }

  // ---------------------------------------------------------------- the master update

  /** Erase everything, program the body, program the header. */
  function MasterPlan(image: seq<byte>, off: uint32): (plan: seq<Command>)
    requires HEADER <= |image| < TWO32
  {
    FlashWritePlan(image, off, BODY_ONLY) +
    (if EraseCompletes(off, |image|) then FlashWritePlan(image[..HEADER], off, NO_ERASE) else [])
  }

  /** What a crash may leave: nothing outside the region has changed, and from the first erase on the
      header is blank unless the body is complete. */
  predicate MasterSafe(m0: seq<byte>, log: seq<Command>, m: seq<byte>, image: seq<byte>, off: nat) {
    && SameOutside(m0, m, off, off + |image|)
    && (if HasErase(log) then BlankIn(m, off, off + HEADER) || BodyComplete(m, image, off) else m == m0)
  }

  predicate BodyComplete(m: seq<byte>, image: seq<byte>, off: nat) {
    off + |image| <= |m| && forall i :: HEADER <= i < |image| ==> m[off + i] == image[i]
  }

  predicate UpdateFits(n: Nor, image: seq<byte>, off: nat) {
    && off % SUBSECTOR == 0 && |image| % SUBSECTOR == 0 && |image| > 0
    && off + |image| <= |n.mem| < WHOLE_CHIP
  }

  lemma MasterPlanParts(n: Nor, image: seq<byte>, off: uint32)
    requires UpdateFits(n, image, off)
    ensures EraseCompletes(off, |image|)
    ensures Wrap(off + HEADER) == off + HEADER && Wrap(off) == off
    ensures FlashWritePlan(image, off, BODY_ONLY) == ErasePlan(off, |image|) + WritePlan(image[HEADER..], off + HEADER)
    ensures FlashWritePlan(image[..HEADER], off, NO_ERASE) == WritePlan(image[..HEADER], off)
  {
    hide WritePlan, ErasePlan;
    EraseCompletesIff(off, |image|);
    assert image[..HEADER][0..] == image[..HEADER];
    assert [] + WritePlan(image[..HEADER], off) == WritePlan(image[..HEADER], off);
  }

  lemma MasterErasePhase(n: Nor, image: seq<byte>, off: uint32, q: seq<Command>)
    requires UpdateFits(n, image, off) && q <= ErasePlan(off, |image|)
    ensures MasterSafe(n.mem, q, Replay(n, q).mem, image, off)
  {
    hide ErasePlan, Replay;
    EraseProgress(n, off, |image|, q);
    ErasePlanConfined(off, |image|, off, off + |image|);
    ConfinedSame(n, q, ErasePlan(off, |image|), off, off + |image|);
  }

  lemma MasterBodyPhase(n: Nor, image: seq<byte>, off: uint32, m: Nor, q: seq<Command>)
    requires UpdateFits(n, image, off) && m.mem == Fill(n.mem, off, |image|)
    requires q <= WritePlan(image[HEADER..], off + HEADER)
    ensures SameOutside(n.mem, Replay(m, q).mem, off, off + |image|)
    ensures BlankIn(Replay(m, q).mem, off, off + HEADER)
  {
    hide WritePlan, Replay;
    SubsectorIsPageStart(off);
    WritePlanConfined(image[HEADER..], off + HEADER, off + HEADER, off + |image|);
    ConfinedSame(m, q, WritePlan(image[HEADER..], off + HEADER), off + HEADER, off + |image|);
  }

  lemma MasterHeaderPhase(n: Nor, image: seq<byte>, off: uint32, m: Nor, q: seq<Command>)
    requires UpdateFits(n, image, off)
    requires m.mem == Put(Put(n.mem, off, image), off, seq(HEADER, _ => BLANK))
    requires q <= WritePlan(image[..HEADER], off)
    ensures SameOutside(n.mem, Replay(m, q).mem, off, off + |image|)
    ensures BodyComplete(Replay(m, q).mem, image, off)
    ensures q == WritePlan(image[..HEADER], off) ==> Replay(m, q).mem == Put(n.mem, off, image)
  {
    hide WritePlan, Replay;
    SubsectorIsPageStart(off);
    WritePlanConfined(image[..HEADER], off, off, off + HEADER);
    ConfinedSame(m, q, WritePlan(image[..HEADER], off), off, off + HEADER);
    WriteOnBlank(m, image[..HEADER], off);
    assert Put(m.mem, off, image[..HEADER]) == Put(n.mem, off, image);
  }

  /** Crash safety: stop the update after any number of device commands. */
  lemma MasterCrashSafe(n: Nor, image: seq<byte>, off: uint32, q: seq<Command>)
    requires UpdateFits(n, image, off) && q <= MasterPlan(image, off)
    ensures MasterSafe(n.mem, q, Replay(n, q).mem, image, off)
    ensures q == MasterPlan(image, off) ==> Replay(n, q).mem == Put(n.mem, off, image)
  {
    hide WritePlan, ErasePlan, Replay, FlashWritePlan;
    var erase := ErasePlan(off, |image|);
    var body, head := WritePlan(image[HEADER..], off + HEADER), WritePlan(image[..HEADER], off);
    MasterPlanParts(n, image, off);
    PrefixOfConcat(q, erase + body, head);
    if |q| <= |erase + body| {
      PrefixOfConcat(q, erase, body);
      if |q| <= |erase| {
        MasterErasePhase(n, image, off, q);
      } else {
        ReplayConcat(n, erase, q[|erase|..]);
        EraseEffectLinear(n, off, |image|);
        MasterBodyPhase(n, image, off, Replay(n, erase), q[|erase|..]);
        ErasesSomething(off, |image|, q);
      }
    } else {
      assert q == (erase + body) + q[|erase + body|..];
      ReplayConcat(n, erase + body, q[|erase + body|..]);
      FlashWriteEffect(n, image, off, BODY_ONLY);
      MasterHeaderPhase(n, image, off, Replay(n, erase + body), q[|erase + body|..]);
      assert erase <= q;
      ErasesSomething(off, |image|, q);
    }
    HeadNonEmpty(image[..HEADER], off);
  }

  lemma HeadNonEmpty(data: seq<byte>, addr: uint32)
    requires 0 < |data| < TWO32
    ensures |WritePlan(data, addr)| > 0
  {
  }

  lemma ErasesSomething(off: uint32, size: uint32, q: seq<Command>)
    requires EraseCompletes(off, size) && ErasePlan(off, size) <= q
    ensures HasErase(q)
  {
    assert q[1] == ErasePlan(off, size)[1];
    assert q[1].Erases();
  }

  /** Whenever the header found after a crash parses, the flash has not been touched or the body is complete. */
  lemma AcceptedMeansComplete(m0: seq<byte>, log: seq<Command>, m: seq<byte>, image: seq<byte>, off: nat)
    requires MasterSafe(m0, log, m, image, off) && HEADER <= |image| && off + |image| <= |m|
    requires Parse(Words(m[off..off + HEADER])).0 == 0
    ensures m == m0 || BodyComplete(m, image, off)
  {
    hide Parse, Words;
    var page := m[off..off + HEADER];
    if forall k :: 0 <= k < |page| ==> page[k] == BLANK { BlankPageRejected(page); }
  }

  // ---------------------------------------------------------------- the golden update

  /** The golden image sits at address zero; its first subsector is rewritten before the rest is erased. */
  function GoldenPlan(image: seq<byte>): (plan: seq<Command>)
    requires GOLDEN_HEADER < |image| < TWO32
  {
    FlashWritePlan(image[..GOLDEN_HEADER], 0, ERASING) +
    FlashWritePlan(image[GOLDEN_HEADER..], GOLDEN_HEADER, ERASING)
  }

  /** What a crash may leave: the old body is untouched or the new first subsector is in place. */
  predicate GoldenSafe(m0: seq<byte>, m: seq<byte>, image: seq<byte>)
    requires GOLDEN_HEADER <= |image|
  {
    && SameOutside(m0, m, 0, |image|)
    && (Same(m0, m, GOLDEN_HEADER, |image|) || HeaderComplete(m, image))
  }

  predicate HeaderComplete(m: seq<byte>, image: seq<byte>)
    requires GOLDEN_HEADER <= |image|
  {
    GOLDEN_HEADER <= |m| && m[..GOLDEN_HEADER] == image[..GOLDEN_HEADER]
  }

  lemma FlashWriteConfined(input: seq<byte>, off: uint32)
    requires off % SUBSECTOR == 0 && |input| % SUBSECTOR == 0 && |input| > 0
    requires off + |input| < WHOLE_CHIP
    ensures Confined(FlashWritePlan(input, off, ERASING), off, off + |input|)
  {
    hide WritePlan, ErasePlan, EraseCompletes;
    SubsectorIsPageStart(off);
    EraseCompletesIff(off, |input|);
    ErasePlanConfined(off, |input|, off, off + |input|);
    WritePlanConfined(input, off, off, off + |input|);
    assert input[0..] == input;
    ConfinedConcat(ErasePlan(off, |input|), WritePlan(input, off), off, off + |input|);
  }

  lemma ErasingWrite(n: Nor, input: seq<byte>, off: uint32)
    requires UpdateFits(n, input, off)
    ensures Replay(n, FlashWritePlan(input, off, ERASING)).mem == Put(n.mem, off, input)
    ensures FlashWritePlan(input, off, ERASING) != []
  {
    hide Replay, WritePlan;
    FlashWriteEffect(n, input, off, ERASING);
    EraseCompletesIff(off, |input|);
    assert Put(Put(n.mem, off, input), off, seq(0, _ => BLANK)) == Put(n.mem, off, input);
  }

  /** Crash safety of the golden update, and its final effect. */
  lemma GoldenCrashSafe(n: Nor, image: seq<byte>, q: seq<Command>)
    requires UpdateFits(n, image, 0) && |image| > GOLDEN_HEADER && q <= GoldenPlan(image)
    ensures GoldenSafe(n.mem, Replay(n, q).mem, image)
    ensures q == GoldenPlan(image) ==> Replay(n, q).mem == Put(n.mem, 0, image)
  {
    hide FlashWritePlan, Replay;
    var head, body := image[..GOLDEN_HEADER], image[GOLDEN_HEADER..];
    var first, second := FlashWritePlan(head, 0, ERASING), FlashWritePlan(body, GOLDEN_HEADER, ERASING);
    var m := Replay(n, first);
    PrefixOfConcat(q, first, second);
    FlashWriteConfined(head, 0);
    FlashWriteConfined(body, GOLDEN_HEADER);
    ErasingWrite(n, head, 0);
    ErasingWrite(m, body, GOLDEN_HEADER);
    if |q| <= |first| {
      ConfinedSame(n, q, first, 0, GOLDEN_HEADER);
      assert |q| < |first + second|;
    } else {
      var q' := q[|first|..];
      ReplayConcat(n, first, q');
      ConfinedSame(m, q', second, GOLDEN_HEADER, |image|);
      assert Replay(m, q').mem[..GOLDEN_HEADER] == head;
      assert Put(Put(n.mem, 0, head), GOLDEN_HEADER, body) == Put(n.mem, 0, image);
    }
  }

  lemma ErasingParts(n: Nor, input: seq<byte>, off: uint32)
    requires UpdateFits(n, input, off)
    ensures EraseCompletes(off, |input|) && PageSafe(off, |input|)
    ensures FlashWritePlan(input, off, ERASING) == ErasePlan(off, |input|) + WritePlan(input, off)
    ensures var m := Replay(n, ErasePlan(off, |input|));
      BlankIn(m.mem, off, off + |input|) && Put(m.mem, off, input) == Put(n.mem, off, input)
  {
    hide Replay, WritePlan, ErasePlan, EraseCompletes;
    EraseCompletesIff(off, |input|);
    SubsectorIsPageStart(off);
    EraseEffectLinear(n, off, |input|);
    assert input[0..] == input;
  }

  lemma EraseKeepsOrBlanks(n: Nor, off: uint32, size: uint32, q: seq<Command>, i: nat)
    requires q <= ErasePlan(off, size) && i < |n.mem|
    ensures Replay(n, q).mem[i] == n.mem[i] || Replay(n, q).mem[i] == BLANK
  {
    hide Replay, ErasePlan;
    ErasePlanShape(off, size);
    assert forall k :: 0 <= k < |q| ==> q[k] == ErasePlan(off, size)[k];
    ErasesOnlyBlank(n, q, i);
  }

  /** An erasing write whose last byte is neither blank nor the old one is complete exactly from its last
      program on. */
  lemma ErasingWriteCommits(n: Nor, input: seq<byte>, off: uint32, q: seq<Command>)
    requires UpdateFits(n, input, off) && q <= FlashWritePlan(input, off, ERASING)
    requires input[|input| - 1] != BLANK && input[|input| - 1] != n.mem[off + |input| - 1]
    ensures |FlashWritePlan(input, off, ERASING)| >= 3
    ensures Replay(n, q).mem[off + |input| - 1] == input[|input| - 1] <==>
      |q| + 1 >= |FlashWritePlan(input, off, ERASING)|
    ensures Replay(n, q).mem == Put(n.mem, off, input) <==> |q| + 1 >= |FlashWritePlan(input, off, ERASING)|
  {
    hide Replay, WritePlan, ErasePlan, FlashWritePlan, EraseCompletes, PageSafe, BlankIn, Put;
    var erase, write := ErasePlan(off, |input|), WritePlan(input, off);
    ErasingParts(n, input, off);
    PutLast(n.mem, off, input);
    PrefixOfConcat(q, erase, write);
    WriteCommits(Replay(n, erase), input, off, if |q| <= |erase| then [] else q[|erase|..]);
    if |q| <= |erase| {
      EraseKeepsOrBlanks(n, off, |input|, q, off + |input| - 1);
    } else {
      ReplayConcat(n, erase, q[|erase|..]);
    }
  }

  /** The golden image is not crash safe in the sense of the master image: the new boot subsector, which
      carries the header, stands over an incomplete body exactly from the last program of the first write
      to before the last program of the second. */
  lemma GoldenGap(n: Nor, image: seq<byte>, q: seq<Command>)
    requires UpdateFits(n, image, 0) && |image| > GOLDEN_HEADER && q <= GoldenPlan(image)
    requires var end := image[|image| - 1]; end != BLANK && end != n.mem[|image| - 1]
    requires var end := image[GOLDEN_HEADER - 1]; end != BLANK && end != n.mem[GOLDEN_HEADER - 1]
    ensures HeaderComplete(Replay(n, q).mem, image) && Replay(n, q).mem != Put(n.mem, 0, image) <==>
      |FlashWritePlan(image[..GOLDEN_HEADER], 0, ERASING)| <= |q| + 1 < |GoldenPlan(image)|
    ensures HeaderComplete(Replay(n, q).mem, image) ==> HeaderAt(Replay(n, q).mem, 0) == Parse(Words(image[..HEADER]))
  {
    hide FlashWritePlan, Replay, Parse, Words, Put, HeaderComplete, SameOutside;
    var head, body := image[..GOLDEN_HEADER], image[GOLDEN_HEADER..];
    var first, second := FlashWritePlan(head, 0, ERASING), FlashWritePlan(body, GOLDEN_HEADER, ERASING);
    var m := Replay(n, first);
    PrefixOfConcat(q, first, second);
    FlashWriteConfined(head, 0);
    FlashWriteConfined(body, GOLDEN_HEADER);
    ErasingWrite(n, head, 0);
    ConfinedSame(n, first, first, 0, GOLDEN_HEADER);
    BodyByteStays(n.mem, m.mem, image);
    ErasingWriteCommits(n, head, 0, if |q| <= |first| then q else first);
    ErasingWriteCommits(m, body, GOLDEN_HEADER, if |q| <= |first| then [] else q[|first|..]);
    if |q| <= |first| {
      ConfinedSame(n, q, first, 0, GOLDEN_HEADER);
      HeaderCompleteIff(n.mem, Replay(n, q).mem, image);
      BodyByteStays(n.mem, Replay(n, q).mem, image);
    } else {
      var q' := q[|first|..];
      ReplayConcat(n, first, q');
      ConfinedSame(m, q', second, GOLDEN_HEADER, |image|);
      HeadStays(n.mem, Replay(m, q').mem, image);
    }
    HeaderOf(Replay(n, q).mem, image);
  }

  /** The last byte of the body tells that the image is not complete. */
  lemma BodyByteStays(m0: seq<byte>, m: seq<byte>, image: seq<byte>)
    requires GOLDEN_HEADER < |image| <= |m0| && SameOutside(m0, m, 0, GOLDEN_HEADER)
    ensures |m| == |m0| && m[|image| - 1] == m0[|image| - 1]
    ensures image[|image| - 1] != m0[|image| - 1] ==> m != Put(m0, 0, image)
  {
    PutLast(m0, 0, image);
  }

  lemma HeadStays(m0: seq<byte>, m: seq<byte>, image: seq<byte>)
    requires GOLDEN_HEADER < |image| <= |m0|
    requires SameOutside(Put(m0, 0, image[..GOLDEN_HEADER]), m, GOLDEN_HEADER, |image|)
    ensures HeaderComplete(m, image)
    ensures Put(Put(m0, 0, image[..GOLDEN_HEADER]), GOLDEN_HEADER, image[GOLDEN_HEADER..]) == Put(m0, 0, image)
  {
  }

  lemma HeaderCompleteIff(m0: seq<byte>, m: seq<byte>, image: seq<byte>)
    requires GOLDEN_HEADER < |image| <= |m0| && SameOutside(m0, m, 0, GOLDEN_HEADER)
    ensures HeaderComplete(m, image) <==> m == Put(m0, 0, image[..GOLDEN_HEADER])
  {
    var p := Put(m0, 0, image[..GOLDEN_HEADER]);
    assert p[..GOLDEN_HEADER] == image[..GOLDEN_HEADER];
    if HeaderComplete(m, image) {
      forall i | 0 <= i < |m| ensures m[i] == p[i] {
        if i < GOLDEN_HEADER { assert m[i] == m[..GOLDEN_HEADER][i] == image[..GOLDEN_HEADER][i]; }
      }
    }
  }

  lemma HeaderOf(m: seq<byte>, image: seq<byte>)
    requires GOLDEN_HEADER <= |image|
    ensures HeaderComplete(m, image) ==> HeaderAt(m, 0) == Parse(Words(image[..HEADER]))
  {
    hide Parse, Words;
    if HeaderComplete(m, image) {
      assert m[..GOLDEN_HEADER][..HEADER] == m[..HEADER] && image[..GOLDEN_HEADER][..HEADER] == image[..HEADER];
      assert Window(m, 0, HEADER) == m[..HEADER];
    }
  }

  // ---------------------------------------------------------------- the tool

  function RoundUp64K(n: nat): (r: nat)
    ensures n <= r < n + SECTOR && r % SECTOR == 0
  {
    if n % SECTOR == 0 then n else (n + SECTOR) / SECTOR * SECTOR
  }

  function AllBlank(len: nat): (s: seq<byte>)
    ensures |s| == len && forall i :: 0 <= i < len ==> s[i] == BLANK
  {
    seq(len, _ => BLANK)
  }

  /** The file in the output buffer, after the `-C` switch has blanked its second half megabyte. */
  function OutputBuffer(file: seq<byte>, corrupt: bool): (s: seq<byte>)
    requires |file| <= OUT_SIZE
    ensures |s| == OUT_SIZE
  {
    var buffer := file + AllBlank(OUT_SIZE - |file|);
    if corrupt then buffer[..512 * 1024] + AllBlank(512 * 1024) + buffer[1024 * 1024..] else buffer
  }

  /** The image that is written: the buffer up to the file length, rounded up to whole 64 KiB sectors. */
  function Image(file: seq<byte>, corrupt: bool): (s: seq<byte>)
    requires |file| <= OUT_SIZE
    ensures |s| == RoundUp64K(|file|)
  {
    assert RoundUp64K(|file|) <= OUT_SIZE;
    OutputBuffer(file, corrupt)[..RoundUp64K(|file|)]
  }

  function HeaderAt(mem: seq<byte>, addr: nat): (r: (int, ImageParams)) { Parse(Words(Window(mem, addr, HEADER))) }

  function FileHeader(file: seq<byte>): (r: (int, ImageParams))
    requires |file| <= OUT_SIZE
  {
    Parse(Words(OutputBuffer(file, false)[..HEADER]))
  }

  /** The checks before anything is written. */
  predicate UpdateAllowed(mem: seq<byte>, file: seq<byte>, masterOffset: uint32, golden: bool)
    requires |file| <= OUT_SIZE
  {
    && HeaderAt(mem, 0).0 == 0
    && FileHeader(file).0 == 0
    && Replaceable(HeaderAt(mem, 0).1, FileHeader(file).1, masterOffset, golden)
  }

  // ---------------------------------------------------------------- the boot chain

  /** The golden image at address zero fits the device that was there and makes it go on at the master image. */
  predicate GoldenInPlace(m0: seq<byte>, m: seq<byte>, masterOffset: uint32) {
    var was, h := HeaderAt(m0, 0), HeaderAt(m, 0);
    was.0 == 0 && h.0 == 0 && h.1.devid == was.1.devid && h.1.iprog && h.1.wbstar == masterOffset
  }

  /** The master image fits the device, names no other image, and stands where the golden image, which is
      unchanged, points. */
  predicate MasterInPlace(m0: seq<byte>, m: seq<byte>, masterOffset: uint32) {
    var g, h := HeaderAt(m, 0), HeaderAt(m, masterOffset);
    && g == HeaderAt(m0, 0) && g.0 == 0 && g.1.wbstar == masterOffset && masterOffset != 0
    && h.0 == 0 && h.1.devid == g.1.devid && h.1.wbstar == 0
  }

  lemma HeaderOfPut(mem: seq<byte>, off: nat, image: seq<byte>, at: nat)
    requires HEADER <= |image| && off + |image| <= |mem|
    ensures HeaderAt(Put(mem, off, image), off) == Parse(Words(image[..HEADER]))
    ensures at + HEADER <= off ==> HeaderAt(Put(mem, off, image), at) == HeaderAt(mem, at)
  {
    hide Parse, Words;
    assert Window(Put(mem, off, image), off, HEADER) == image[..HEADER];
    if at + HEADER <= off { assert Window(Put(mem, off, image), at, HEADER) == Window(mem, at, HEADER); }
  }

  /** An image that passed the check and was written puts the boot chain in place. */
  lemma ChainInPlace(mem: seq<byte>, image: seq<byte>, masterOffset: uint32, golden: bool)
    requires HEADER <= |image| && (if golden then 0 else masterOffset) + |image| <= |mem|
    requires HeaderAt(mem, 0).0 == 0 && Parse(Words(image[..HEADER])).0 == 0
    requires Replaceable(HeaderAt(mem, 0).1, Parse(Words(image[..HEADER])).1, masterOffset, golden)
    requires golden || masterOffset % SUBSECTOR == 0
    ensures golden ==> GoldenInPlace(mem, Put(mem, 0, image), masterOffset)
    ensures !golden ==> MasterInPlace(mem, Put(mem, masterOffset, image), masterOffset)
  {
    hide HeaderAt, Put, Parse, Words;
    HeaderOfPut(mem, if golden then 0 else masterOffset, image, 0);
  }

  lemma ImageHeader(file: seq<byte>, corrupt: bool)
    requires 0 < |file| <= OUT_SIZE
    ensures HEADER <= |Image(file, corrupt)| && Parse(Words(Image(file, corrupt)[..HEADER])) == FileHeader(file)
  {
    hide Parse, Words;
    assert Image(file, corrupt)[..HEADER] == OutputBuffer(file, false)[..HEADER];
  }

  /** The image byte by byte: the file and then 0xff, with the second half megabyte blanked on demand. */
  lemma ImageByte(file: seq<byte>, corrupt: bool, i: nat)
    requires |file| <= OUT_SIZE && i < |Image(file, corrupt)|
    ensures Image(file, corrupt)[i] ==
      if (corrupt && 0x8_0000 <= i < 0x10_0000) || i >= |file| then 0xff else file[i]
    ensures |Image(file, corrupt)| % 0x1_0000 == 0 && |file| <= |Image(file, corrupt)| < |file| + 0x1_0000
  {
  }

  /** The file is the firmware that runs and that the master slot holds. */
  predicate UpToDate(mem: seq<byte>, file: seq<byte>, masterOffset: uint32, running: uint32)
    requires |file| <= OUT_SIZE
  {
    FileHeader(file).1.usrAccess2 == running && HeaderAt(mem, masterOffset).1.usrAccess2 == running
  }

  /** One check: the header of the file, from the first 256 bytes of the output buffer. */
  lemma FileHeaderKept(file: seq<byte>, buffer: seq<byte>)
    requires |file| <= OUT_SIZE && buffer == file + AllBlank(OUT_SIZE - |file|)
    ensures buffer == OutputBuffer(file, false)
  {
  }

  /** An empty file has a blank header, so it is refused. */
  lemma EmptyFileRefused(file: seq<byte>)
    requires |file| <= OUT_SIZE && FileHeader(file).0 == 0
    ensures |file| > 0
  {
    hide Parse, Words;
    if file == [] { BlankPageRejected(OutputBuffer(file, false)[..HEADER]); }
  }

  /** main, from the check of the flash contents to the comparison after the write. The exit code is 0
      when the file was written, 4 when a check or a device operation failed and 9 when there was
      nothing to do; `errors` counts the 256-byte pages that read back differently. */
  method Update(dev: Device, file: seq<byte>, masterOffset: uint32, golden: bool, force: bool, corrupt: bool,
                running: uint32)
    returns (code: int, errors: nat)
    requires dev.Valid() && |file| <= OUT_SIZE
    requires (if golden then 0 else masterOffset) + RoundUp64K(|file|) <= |dev.nor.mem| < WHOLE_CHIP
    requires masterOffset + HEADER <= TWO32
    modifies dev
    ensures dev.Valid() && dev.clock >= old(dev.clock) && old(dev.log) <= dev.log
    // every state the chip goes through is safe to crash in
    ensures golden && file != [] ==> GoldenRun(old(dev.nor), dev.log[|old(dev.log)|..], Image(file, corrupt))
    ensures !golden ==> MasterRun(old(dev.nor), dev.log[|old(dev.log)|..], Image(file, corrupt), masterOffset)
    // nothing is sent unless the checks passed
    ensures dev.log != old(dev.log) ==>
      UpdateAllowed(old(dev.nor.mem), file, masterOffset, golden) &&
      (force || !UpToDate(old(dev.nor.mem), file, masterOffset, running))
    // success means exactly the image in place, and it reads back without an error
    ensures code == 0 ==>
      dev.nor.mem == Put(old(dev.nor.mem), if golden then 0 else masterOffset, Image(file, corrupt)) && errors == 0
    ensures code == 0 <==>
      && UpdateAllowed(old(dev.nor.mem), file, masterOffset, golden)
      && (force || !UpToDate(old(dev.nor.mem), file, masterOffset, running))
      && (golden || masterOffset % SUBSECTOR == 0)
      && !Faulted(dev.fault, old(dev.clock), dev.clock)
    // the boot chain after it, and what it takes, field by field
    ensures code == 0 && golden ==> GoldenInPlace(old(dev.nor.mem), dev.nor.mem, masterOffset)
    ensures code == 0 && !golden ==> MasterInPlace(old(dev.nor.mem), dev.nor.mem, masterOffset)
    ensures var was, h := HeaderAt(old(dev.nor.mem), 0), FileHeader(file);
      var inMaster := HeaderAt(old(dev.nor.mem), masterOffset);
      var fits := was.0 == 0 && h.0 == 0 && h.1.devid == was.1.devid &&
        (if golden then h.1.iprog && h.1.wbstar == masterOffset
         else h.1.wbstar == 0 && was.1.wbstar == masterOffset && masterOffset != 0);
      var same := h.1.usrAccess2 == running && inMaster.1.usrAccess2 == running && !force;
      && (code == 0 <==> fits && !same && (golden || masterOffset % 0x1000 == 0) &&
                         !Faulted(dev.fault, old(dev.clock), dev.clock))
      && (code == 9 <==> fits && same && !Faulted(dev.fault, old(dev.clock), dev.clock))
  {
    hide Replay, Parse, Words, OutputBuffer, Image, MasterRun, GoldenRun, Put, HeaderAt, FileHeader,
         GoldenInPlace, MasterInPlace;
    assert dev.log[|dev.log|..] == [];
    NothingDone(dev.nor, file, corrupt, masterOffset);
    var outb := new byte[OUT_SIZE](_ => BLANK);
    var go, outa := Check(dev, file, masterOffset, golden, force, running, outb);
    if go != 0 { return go, 0; }
    EmptyFileRefused(file);
    var total := RoundUp64K(|file|);
    if corrupt { outa := outa[..512 * 1024] + AllBlank(512 * 1024) + outa[1024 * 1024..]; }
    BufferIsOutput(file, corrupt, outa);

    ghost var tick := dev.clock;
    var off := if golden then 0 else masterOffset;
    var res;
    if golden {
      res := WriteGolden(dev, outa, total);
    } else {
      res := WriteMaster(dev, outa, total, off);
    }
    FaultedSplit(dev.fault, old(dev.clock), tick, dev.clock);
    if res != 0 { return 4, 0; }

    tick := dev.clock;
    res := ReadFlash(dev, off, total, outb, 0);
    FaultedSplit(dev.fault, old(dev.clock), tick, dev.clock);
    if res != 0 { return 4, 0; }
    errors := Compare(outa, outb, total);
    WindowOfPut(old(dev.nor.mem), off, outa[..total]);
    ImageHeader(file, corrupt);
    ChainInPlace(old(dev.nor.mem), Image(file, corrupt), masterOffset, golden);
    code := 0;
  }

  lemma WindowOfPut(mem: seq<byte>, off: nat, data: seq<byte>)
    requires off + |data| <= |mem|
    ensures Window(Put(mem, off, data), off, |data|) == data
  {
  }

  /** The part of main before anything is written. */
  method Check(dev: Device, file: seq<byte>, masterOffset: uint32, golden: bool, force: bool, running: uint32,
               outb: array<byte>)
    returns (code: int, outa: seq<byte>)
    requires dev.Valid() && |file| <= OUT_SIZE && outb.Length == OUT_SIZE
    requires masterOffset + HEADER <= TWO32
    modifies dev`clock, dev`faddr, dev`ram, outb
    ensures dev.Valid() && dev.clock >= old(dev.clock)
    ensures code == 0 ==> outa == file + AllBlank(OUT_SIZE - |file|)
    ensures code == 0 <==>
      && UpdateAllowed(dev.nor.mem, file, masterOffset, golden)
      && (force || !UpToDate(dev.nor.mem, file, masterOffset, running))
      && !Faulted(dev.fault, old(dev.clock), dev.clock)
    ensures code == 9 <==>
      && UpdateAllowed(dev.nor.mem, file, masterOffset, golden)
      && !force && UpToDate(dev.nor.mem, file, masterOffset, running)
      && !Faulted(dev.fault, old(dev.clock), dev.clock)
  {
    hide Replay, Parse, Words, OutputBuffer, Window, Replaceable;
    var res := ReadFlash(dev, 0, HEADER, outb, 0);
    if res != 0 { return 4, []; }
    ghost var tick := dev.clock;
    ghost var goldenPage := outb[..HEADER];
    assert goldenPage == outb[0..HEADER];
    res := ReadFlash(dev, masterOffset, HEADER, outb, HEADER);
    FaultedSplit(dev.fault, old(dev.clock), tick, dev.clock);
    if res != 0 { return 4, []; }
    assert outb[..HEADER] == goldenPage;

    var image, imageMaster, fileParams;
    res, image := ParseHeader(Words(outb[..HEADER]));
    if res != 0 { return 4, []; }
    res, imageMaster := ParseHeader(Words(outb[HEADER..2 * HEADER]));

    outa := file + AllBlank(OUT_SIZE - |file|);
    FileHeaderKept(file, outa);
    res, fileParams := ParseHeader(Words(outa[..HEADER]));
    if res != 0 { return 4, outa; }
    res := CheckImage(image, fileParams, masterOffset, golden);
    if res != 0 { return 4, outa; }
    if fileParams.usrAccess2 == running && imageMaster.usrAccess2 == fileParams.usrAccess2 && !force {
      return 9, outa;
    }
    code := 0;
  }

  lemma NothingDone(n: Nor, file: seq<byte>, corrupt: bool, off: uint32)
    requires |file| <= OUT_SIZE
    ensures MasterRun(n, [], Image(file, corrupt), off)
    ensures file != [] ==> GoldenRun(n, [], Image(file, corrupt))
  {
    hide OutputBuffer;
    assert Replay(n, []) == n;
    var none: seq<Command> := [];
    assert forall k :: 0 <= k <= |none| ==> none[..k] == none;
  }

  lemma BufferIsOutput(file: seq<byte>, corrupt: bool, outa: seq<byte>)
    requires |file| <= OUT_SIZE
    requires var plain := file + AllBlank(OUT_SIZE - |file|);
      outa == if corrupt then plain[..512 * 1024] + AllBlank(512 * 1024) + plain[1024 * 1024..] else plain
    ensures outa == OutputBuffer(file, corrupt) && outa[..RoundUp64K(|file|)] == Image(file, corrupt)
  {
  }

  /** Every state on the way from `n`, command by command, is safe. */
  ghost predicate MasterRun(n: Nor, run: seq<Command>, image: seq<byte>, off: nat) {
    forall k :: 0 <= k <= |run| ==> MasterSafe(n.mem, run[..k], Replay(n, run[..k]).mem, image, off)
  }

  ghost predicate GoldenRun(n: Nor, run: seq<Command>, image: seq<byte>) {
    GOLDEN_HEADER < |image| &&
    forall k :: 0 <= k <= |run| ==> GoldenSafe(n.mem, Replay(n, run[..k]).mem, image)
  }

  lemma MasterRunSafe(n: Nor, image: seq<byte>, off: uint32, run: seq<Command>)
    requires |image| % SECTOR == 0 && |image| > 0 && off + |image| <= |n.mem| < WHOLE_CHIP
    requires run <= MasterPlan(image, off)
    ensures MasterRun(n, run, image, off)
    ensures off % SUBSECTOR == 0 && run == MasterPlan(image, off) ==> Replay(n, run).mem == Put(n.mem, off, image)
  {
    hide Replay, MasterSafe, Put, FlashWritePlan, WritePlan, MasterPlan;
    SectorIsSubsector(|image|);
    if off % SUBSECTOR == 0 {
      MasterCrashSafe(n, image, off, run);
      forall k | 0 <= k <= |run| ensures MasterSafe(n.mem, run[..k], Replay(n, run[..k]).mem, image, off) {
        PrefixOfPrefix(run, MasterPlan(image, off), k);
        MasterCrashSafe(n, image, off, run[..k]);
      }
    } else {
      MisalignedPlan(image, off);
      forall k | 0 <= k <= |run| ensures MasterSafe(n.mem, run[..k], Replay(n, run[..k]).mem, image, off) {
        assert run[..k] == [];
        NothingSafe(n, image, off);
      }
    }
  }

  lemma PrefixOfPrefix(run: seq<Command>, plan: seq<Command>, k: nat)
    requires run <= plan && k <= |run|
    ensures run[..k] <= plan
  {
  }

  lemma SectorIsSubsector(size: nat)
    requires size % SECTOR == 0
    ensures size % SUBSECTOR == 0
  {
    DivUnique(size, SUBSECTOR, 16 * (size / SECTOR), 0);
  }

  lemma MisalignedPlan(image: seq<byte>, off: uint32)
    requires HEADER <= |image| < WHOLE_CHIP && off % SUBSECTOR != 0
    ensures MasterPlan(image, off) == [] && !EraseCompletes(off, |image|)
  {
    EraseCompletesIff(off, |image|);
    if off % SECTOR == 0 { SectorIsSubsector(off); }
  }

  lemma NothingSafe(n: Nor, image: seq<byte>, off: nat)
    ensures MasterSafe(n.mem, [], Replay(n, []).mem, image, off)
  {
    assert Replay(n, []) == n;
  }

  lemma GoldenRunSafe(n: Nor, image: seq<byte>, run: seq<Command>)
    requires |image| % SECTOR == 0 && |image| > 0 && |image| <= |n.mem| < WHOLE_CHIP
    requires run <= GoldenPlan(image)
    ensures GoldenRun(n, run, image)
    ensures run == GoldenPlan(image) ==> Replay(n, run).mem == Put(n.mem, 0, image)
  {
    hide Replay, Put, FlashWritePlan, GoldenSafe, GoldenPlan;
    SectorIsSubsector(|image|);
    GoldenCrashSafe(n, image, run);
    forall k | 0 <= k <= |run| ensures GoldenSafe(n.mem, Replay(n, run[..k]).mem, image) {
      PrefixOfPrefix(run, GoldenPlan(image), k);
      GoldenCrashSafe(n, image, run[..k]);
    }
  }

  /** The body with the erase, then the header without one. */
  method WriteMaster(dev: Device, outa: seq<byte>, total: uint32, off: uint32) returns (res: int)
    requires dev.Valid() && total % SECTOR == 0 && 0 < total <= |outa| && off + total <= |dev.nor.mem| < WHOLE_CHIP
    modifies dev
    ensures dev.Valid() && dev.clock >= old(dev.clock) && old(dev.log) <= dev.log
    ensures MasterRun(old(dev.nor), dev.log[|old(dev.log)|..], outa[..total], off)
    ensures res == 0 ==> dev.nor.mem == Put(old(dev.nor.mem), off, outa[..total])
    ensures res == 0 <==> off % SUBSECTOR == 0 && !Faulted(dev.fault, old(dev.clock), dev.clock)
  {
    hide Replay, FlashWritePlan, MasterRun, Put, EraseCompletes;
    ghost var base, image := dev.log, outa[..total];
    ghost var first, second := FlashWritePlan(image, off, BODY_ONLY), FlashWritePlan(image[..HEADER], off, NO_ERASE);
    SectorIsSubsector(total);
    EraseCompletesIff(off, total);
    RoundUpExact(total);
    res := WriteFlash(dev, outa, total, off, BODY_ONLY);
    if res == 0 {
      ghost var tick, mid := dev.clock, dev.log;
      assert mid == base + first;
      assert outa[..HEADER] == image[..HEADER];
      RoundUpExact(HEADER);
      res := WriteFlash(dev, outa, HEADER, off, NO_ERASE);
      FaultedSplit(dev.fault, old(dev.clock), tick, dev.clock);
      RanThen(base, mid, dev.log, first, second, [], res == 0);
      assert first + (second + []) == first + second;
    } else {
      assert first <= MasterPlan(image, off);
    }
    ghost var run := dev.log[|base|..];
    assert run <= MasterPlan(image, off);
    MasterRunSafe(old(dev.nor), image, off, run);
    ReplayConcat(dev.origin, base, run);
    assert dev.log == base + run;
  }

  lemma RoundUpExact(size: nat)
    requires size % SUBSECTOR == 0 || size == HEADER
    ensures RoundUp4(size) == size
  {
    if size % SUBSECTOR == 0 { DivUnique(size + 3, 4, 1024 * (size / SUBSECTOR), 3); }
  }

  /** The first subsector, then the rest. */
  method WriteGolden(dev: Device, outa: seq<byte>, total: uint32) returns (res: int)
    requires dev.Valid() && total % SECTOR == 0 && 0 < total <= |outa| && total <= |dev.nor.mem| < WHOLE_CHIP
    modifies dev
    ensures dev.Valid() && dev.clock >= old(dev.clock) && old(dev.log) <= dev.log
    ensures GoldenRun(old(dev.nor), dev.log[|old(dev.log)|..], outa[..total])
    ensures res == 0 ==> dev.nor.mem == Put(old(dev.nor.mem), 0, outa[..total])
    ensures res == 0 <==> !Faulted(dev.fault, old(dev.clock), dev.clock)
  {
    hide Replay, FlashWritePlan, GoldenRun, Put, EraseCompletes;
    ghost var base, image := dev.log, outa[..total];
    ghost var first := FlashWritePlan(image[..GOLDEN_HEADER], 0, ERASING);
    ghost var second := FlashWritePlan(image[GOLDEN_HEADER..], GOLDEN_HEADER, ERASING);
    SectorIsSubsector(total);
    EraseCompletesIff(0, GOLDEN_HEADER);
    EraseCompletesIff(GOLDEN_HEADER, total - GOLDEN_HEADER);
    RoundUpExact(GOLDEN_HEADER);
    assert outa[..GOLDEN_HEADER] == image[..GOLDEN_HEADER];
    res := WriteFlash(dev, outa, GOLDEN_HEADER, 0, ERASING);
    if res == 0 {
      ghost var tick, mid := dev.clock, dev.log;
      assert mid == base + first;
      assert outa[GOLDEN_HEADER..][..total - GOLDEN_HEADER] == image[GOLDEN_HEADER..];
      RoundUpExact(total - GOLDEN_HEADER);
      res := WriteFlash(dev, outa[GOLDEN_HEADER..], total - GOLDEN_HEADER, GOLDEN_HEADER, ERASING);
      FaultedSplit(dev.fault, old(dev.clock), tick, dev.clock);
      RanThen(base, mid, dev.log, first, second, [], res == 0);
      assert first + (second + []) == first + second;
    }
    ghost var run := dev.log[|base|..];
    assert run <= GoldenPlan(image);
    GoldenRunSafe(old(dev.nor), image, run);
    ReplayConcat(dev.origin, base, run);
    assert dev.log == base + run;
  }

  /** The page-by-page comparison. */
  method Compare(outa: seq<byte>, outb: array<byte>, total: nat) returns (errors: nat)
    requires total <= |outa| && total <= outb.Length
    ensures errors == 0 <==> outa[..total] == outb[..total]
  {
    errors := 0;
    var off := 0;
    while off < total
      invariant errors == 0 <==>
        outa[..if off < total then off else total] == outb[..if off < total then off else total]
    {
      var rem := total - off;
      if rem > 256 { rem := 256; }
      var end := off + rem;
      assert outa[..end] == outa[..off] + outa[off..end] && outb[..end] == outb[..off] + outb[off..end];
      if outa[off..end] != outb[off..end] { errors := errors + 1; }
      off := off + 256;
    }
  }
}
