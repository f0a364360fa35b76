/** A whole upload through the RPC: a client that opens a session and sends the sectors in order. */
module ControllerUpload {
  import opened Bits
  import opened NorFlash
  import opened EspiErase
  import opened EspiFlash
  import opened XlnxBitstream
  import opened UsdrFlash
  import opened ControllerUgen
  import Base64

  predicate UploadFits(n: Nor, image: seq<byte>, base: nat) {
    && 0 < |image| <= LIMIT && |image| % HEADER == 0
    && base + RoundUpSubsector(|image|) <= |n.mem| < WHOLE_CHIP
  }

  function Sectors(image: seq<byte>): nat { |image| / HEADER }

  function SectorOf(image: seq<byte>, k: nat): (page: seq<byte>)
    requires |image| % HEADER == 0 && k < Sectors(image)
    ensures |page| == HEADER
  {
    image[HEADER * k..HEADER * k + HEADER]
  }

  /** The image followed by the blank rest of its last subsector. */
  function Padded(image: seq<byte>): (p: seq<byte>)
    requires 0 < |image| <= LIMIT
    ensures |p| == RoundUpSubsector(|image|)
  {
    image + seq(RoundUpSubsector(|image|) - |image|, _ => BLANK)
  }

  // ---------------------------------------------------------------- a master image

  /** Flash after the first `k` sectors: the region is blank but for the body sectors sent so far. */
  function Progress(m0: seq<byte>, image: seq<byte>, k: nat): (m: seq<byte>)
    requires HEADER <= HEADER * k <= |image|
    ensures |m| == |m0|
  {
    Put(Fill(m0, MASTER, RoundUpSubsector(|image|)), MASTER + HEADER, image[HEADER..HEADER * k])
  }

  lemma ProgressStep(m0: seq<byte>, image: seq<byte>, k: nat)
    requires |image| % HEADER == 0 && 1 <= k < Sectors(image)
    ensures HEADER * k + HEADER <= |image|
    ensures Put(Progress(m0, image, k), MASTER + HEADER * k, SectorOf(image, k)) == Progress(m0, image, k + 1)
  {
  }

  lemma ProgressDone(n: Nor, image: seq<byte>)
    requires UploadFits(n, image, MASTER)
    ensures HEADER <= HEADER * Sectors(image) == |image|
    ensures Progress(n.mem, image, Sectors(image)) ==
      Put(Put(n.mem, MASTER, Padded(image)), MASTER, seq(HEADER, _ => BLANK))
  {
  }

  lemma SectorBlank(n: Nor, image: seq<byte>, k: nat)
    requires UploadFits(n, image, MASTER) && 1 <= k < Sectors(image)
    ensures HEADER * k <= |image|
    ensures BlankIn(Progress(n.mem, image, k), MASTER + HEADER * k, MASTER + HEADER * k + HEADER)
    ensures BlankIn(Progress(n.mem, image, k), MASTER, MASTER + HEADER)
    ensures SameOutside(n.mem, Progress(n.mem, image, k), MASTER, MASTER + |Padded(image)|)
  {
  }

  lemma SectorPage(base: nat, k: nat)
    requires base % HEADER == 0
    ensures (base + HEADER * k) % PAGE == 0 && PageSafe(base + HEADER * k, HEADER)
  {
    DivUnique(base + HEADER * k, PAGE, base / HEADER + k, 0);
  }

  lemma PaddedFits(n: Nor, image: seq<byte>)
    requires UploadFits(n, image, MASTER)
    ensures UpdateFits(n, Padded(image), MASTER) && HEADER <= |image|
    ensures Padded(image)[..HEADER] == image[..HEADER]
  {
  }

  /** Any prefix of the opening erase is safe, and all of it leaves the region blank. */
  lemma OpeningSafe(n: Nor, image: seq<byte>, q: seq<Command>)
    requires UploadFits(n, image, MASTER)
    requires q <= ErasePlan(MASTER, RoundUpSubsector(|image|))
    ensures MasterSafe(n.mem, q, Replay(n, q).mem, Padded(image), MASTER)
    ensures q == ErasePlan(MASTER, RoundUpSubsector(|image|)) ==>
      HasErase(q) && HEADER <= |image| && Replay(n, q).mem == Progress(n.mem, image, 1)
  {
    hide Replay, ErasePlan, MasterSafe, EraseCompletes;
    PaddedFits(n, image);
    MasterErasePhase(n, Padded(image), MASTER, q);
    if q == ErasePlan(MASTER, RoundUpSubsector(|image|)) {
      EraseCompletesIff(MASTER, RoundUpSubsector(|image|));
      ErasesSomething(MASTER, RoundUpSubsector(|image|), q);
      EraseEffectLinear(n, MASTER, RoundUpSubsector(|image|));
      assert Put(Fill(n.mem, MASTER, RoundUpSubsector(|image|)), MASTER + HEADER, image[HEADER..HEADER * 1]) ==
             Fill(n.mem, MASTER, RoundUpSubsector(|image|));
    }
  }

  lemma LogOf(base: seq<Command>, run: seq<Command>, log: seq<Command>)
    requires base + run <= log
    ensures log == base + (run + log[|base + run|..]) == (base + run) + log[|base + run|..]
  {
  }

  lemma HasEraseConcat(a: seq<Command>, b: seq<Command>)
    requires HasErase(a)
    ensures HasErase(a + b)
  {
    var k :| 0 <= k < |a| && a[k].Erases();
    assert (a + b)[k] == a[k];
  }

  /** Any prefix of a body sector is safe: the header is still blank. */
  lemma SectorSafe(n: Nor, run: seq<Command>, image: seq<byte>, k: nat, q: seq<Command>)
    requires UploadFits(n, image, MASTER) && 1 <= k < Sectors(image)
    requires HasErase(run) && HEADER * k <= |image| && Replay(n, run).mem == Progress(n.mem, image, k)
    requires q <= WritePlan(SectorOf(image, k), MASTER + HEADER * k)
    ensures MasterSafe(n.mem, run + q, Replay(n, run + q).mem, Padded(image), MASTER)
    ensures q == WritePlan(SectorOf(image, k), MASTER + HEADER * k) ==>
      HEADER * (k + 1) <= |image| && Replay(n, run + q).mem == Progress(n.mem, image, k + 1)
  {
    hide Replay, WritePlan, Progress, Padded, HasErase, PageSafe, SectorOf;
    var m, at, page := Replay(n, run), MASTER + HEADER * k, SectorOf(image, k);
    ReplayConcat(n, run, q);
    HasEraseConcat(run, q);
    SectorBlank(n, image, k);
    ProgressStep(n.mem, image, k);
    SectorPage(MASTER, k);
    WritePlanConfined(page, at, at, at + HEADER);
    ConfinedSame(m, q, WritePlan(page, at), at, at + HEADER);
    WriteOnBlank(m, page, at);
  }

  /** Any prefix of the header is safe: the body is complete. All of it completes the image. */
  lemma HeaderSafe(n: Nor, run: seq<Command>, image: seq<byte>, q: seq<Command>)
    requires UploadFits(n, image, MASTER) && HasErase(run)
    requires HEADER <= HEADER * Sectors(image) <= |image|
    requires Replay(n, run).mem == Progress(n.mem, image, Sectors(image))
    requires q <= WritePlan(image[..HEADER], MASTER)
    ensures MasterSafe(n.mem, run + q, Replay(n, run + q).mem, Padded(image), MASTER)
    ensures q == WritePlan(image[..HEADER], MASTER) ==>
      Replay(n, run + q).mem == Put(n.mem, MASTER, Padded(image))
  {
    hide Replay, WritePlan, Progress, Padded, HasErase;
    ReplayConcat(n, run, q);
    HasEraseConcat(run, q);
    PaddedFits(n, image);
    ProgressDone(n, image);
    MasterHeaderPhase(n, Padded(image), MASTER, Replay(n, run), q);
  }

  /** The session of an upload before sector `k` is sent. */
  predicate SessionAt(s: State, image: seq<byte>, k: nat, golden: bool) {
    && s.Valid() && s.length == |image| && s.offset == 0
    && (k > 0 ==> s.validated && s.golden == golden && HEADER <= |image| && s.header == image[..HEADER])
  }

  /** Flash and log before sector `k` of a master upload is sent. */
  predicate MasterAt(n: Nor, run: seq<Command>, image: seq<byte>, k: nat) {
    if k == 0 then run == []
    else HasErase(run) && HEADER * k <= |image| && Replay(n, run).mem == Progress(n.mem, image, k)
  }

  /** The plan of sector `k`: opening, body sector, header, whichever apply. */
  lemma MasterCallPlan(n: Nor, s: State, image: seq<byte>, k: nat)
    requires UploadFits(n, image, MASTER) && k < Sectors(image) && SessionAt(s, image, k, false)
    ensures HEADER * k < s.End() && HEADER * k + HEADER <= |image| && HEADER * k < LIMIT
    ensures (HEADER * k == s.offset <==> k == 0) && (k > 0 ==> s.validated) && s.length == |image|
    ensures 0 < |image| <= LIMIT && |image| % HEADER == 0 && (s.EndsAt(HEADER * k) <==> k + 1 == Sectors(image))
    ensures CallPlan(s, HEADER * k, false, SectorOf(image, k)) ==
      BodyPlan(image, k) +
      (if k + 1 == Sectors(image) then WritePlan(image[..HEADER], MASTER) else [])
  {
    hide ErasePlan, WritePlan;
    var page := SectorOf(image, k);
    assert s.End() == |image|;
    if k == 0 {
      assert page == image[..HEADER];
      var tail := if 1 == Sectors(image) then WritePlan(page, MASTER) else [];
      assert [] + tail == tail;
      assert StorePlan(Opened(s, false, page), 0, page) == tail;
    }
  }

  /** What sector `k` sends but for the header at the end. */
  function BodyPlan(image: seq<byte>, k: nat): seq<Command>
    requires 0 < |image| <= LIMIT && |image| % HEADER == 0 && k < Sectors(image)
  {
    if k == 0 then ErasePlan(MASTER, RoundUpSubsector(|image|)) else WritePlan(SectorOf(image, k), MASTER + HEADER * k)
  }

  lemma BodySafe(n: Nor, run: seq<Command>, image: seq<byte>, k: nat, q: seq<Command>)
    requires UploadFits(n, image, MASTER) && k < Sectors(image) && MasterAt(n, run, image, k) && q <= BodyPlan(image, k)
    ensures MasterSafe(n.mem, run + q, Replay(n, run + q).mem, Padded(image), MASTER)
    ensures q == BodyPlan(image, k) ==> HasErase(run + q) && MasterAt(n, run + q, image, k + 1)
  {
    hide Replay, WritePlan, ErasePlan, Progress, Padded, HasErase, MasterSafe, SectorOf;
    if k == 0 {
      assert run + q == q;
      OpeningSafe(n, image, q);
    } else {
      SectorSafe(n, run, image, k, q);
      HasEraseConcat(run, q);
    }
  }

  /** Where an upload stands after any prefix of what sector `k` sends. */
  lemma MasterSectorSafe(n: Nor, run: seq<Command>, s: State, image: seq<byte>, k: nat, q: seq<Command>)
    requires UploadFits(n, image, MASTER) && k < Sectors(image)
    requires SessionAt(s, image, k, false) && MasterAt(n, run, image, k)
    requires HEADER * k < s.End() && q <= CallPlan(s, HEADER * k, false, SectorOf(image, k))
    ensures MasterSafe(n.mem, run + q, Replay(n, run + q).mem, Padded(image), MASTER)
    ensures q == CallPlan(s, HEADER * k, false, SectorOf(image, k)) ==>
      if k + 1 == Sectors(image) then Replay(n, run + q).mem == Put(n.mem, MASTER, Padded(image))
      else MasterAt(n, run + q, image, k + 1)
  {
    hide Replay, WritePlan, BodyPlan, CallPlan, Progress, Padded, HasErase, MasterSafe, SectorOf, Put, Sectors,
         State.Valid, State.End, SessionAt, UploadFits, RoundUpSubsector;
    MasterCallPlan(n, s, image, k);
    var body, head := BodyPlan(image, k), if k + 1 == Sectors(image) then WritePlan(image[..HEADER], MASTER) else [];
    PrefixOfConcat(q, body, head);
    if |q| <= |body| {
      BodySafe(n, run, image, k, q);
      if k + 1 == Sectors(image) { HeadNonEmpty(image[..HEADER], MASTER); }
    } else {
      BodySafe(n, run, image, k, body);
      ProgressDone(n, image);
      HeaderSafe(n, run + body, image, q[|body|..]);
      RunThen(run, body, q);
    }
  }

  lemma RunThen(run: seq<Command>, body: seq<Command>, q: seq<Command>)
    requires body <= q
    ensures run + q == (run + body) + q[|body|..] && q == body + q[|body|..]
  {
  }

  /** A safe run followed by a call that is safe at every point. */
  lemma RunGrows(n: Nor, run: seq<Command>, more: seq<Command>, image: seq<byte>)
    requires MasterRun(n, run, image, MASTER)
    requires forall q :: q <= more ==> MasterSafe(n.mem, run + q, Replay(n, run + q).mem, image, MASTER)
    ensures MasterRun(n, run + more, image, MASTER)
  {
    hide MasterSafe, Replay;
    forall k | 0 <= k <= |run + more|
      ensures MasterSafe(n.mem, (run + more)[..k], Replay(n, (run + more)[..k]).mem, image, MASTER)
    {
      if k <= |run| {
        assert (run + more)[..k] == run[..k];
      } else {
        assert (run + more)[..k] == run + more[..k - |run|];
        assert more[..k - |run|] <= more;
      }
    }
  }

  lemma {:induction false} SumBound(page: seq<byte>)
    ensures Sum(page) <= 255 * |page|
  {
    if page != [] { SumBound(page[..|page| - 1]); }
  }

  /** A client request for one sector, and that the controller finds it well formed. */
  method SendSector(session: Session, dev: Device, at: uint32, page: seq<byte>, param: uint32) returns (res: int)
    requires session.Now().Valid() && dev.Valid() && |page| == HEADER && at < session.Now().End()
    modifies session, dev
    ensures session.Now().Valid() && dev.Valid() && dev.clock >= old(dev.clock) && old(dev.log) <= dev.log
    ensures Outcome(old(session.Now()), at, param == GOLDEN_PARAM, page, res == 0, old(dev.nor.mem),
                    old(dev.log), dev.log, session.Now())
    ensures dev.nor == Replay(old(dev.nor), dev.log[|old(dev.log)|..])
    ensures res == 0 <==>
      && (if at == old(session.offset)
          then HeaderAccepted(old(dev.nor.mem), page, param == GOLDEN_PARAM) &&
               OpenCompletes(old(session.length), param == GOLDEN_PARAM)
          else old(session.validated))
      && !Faulted(dev.fault, old(dev.clock), dev.clock)
  {
    hide Replay, CallPlan, OpenPlan, StorePlan, Sum, Base64.Encode, Base64.Decode, HeaderAccepted;
    ghost var before := dev.log;
    SumBound(page);
    Base64.SectorLength(page);
    var text := Base64.Encode(page);
    res := session.WriteSector(dev, at, Sum(page), param, text);
    ReplayConcat(dev.origin, before, dev.log[|before|..]);
    assert dev.log == before + dev.log[|before|..];
  }

  /** Where one turn leaves the upload. */
  lemma MasterStepped(n: Nor, run: seq<Command>, image: seq<byte>, k: nat, s: State, done: bool,
                      before: seq<Command>, after: seq<Command>, s': State)
    requires UploadFits(n, image, MASTER) && k < Sectors(image) && MasterRun(n, run, Padded(image), MASTER)
    requires SessionAt(s, image, k, false) && MasterAt(n, run, image, k) && HEADER * k < s.End() && s'.Valid()
    requires Outcome(s, HEADER * k, false, SectorOf(image, k), done, Replay(n, run).mem, before, after, s')
    ensures before <= after && MasterRun(n, run + after[|before|..], Padded(image), MASTER)
    ensures done ==>
      var sent := after[|before|..];
      if k + 1 == Sectors(image) then Replay(n, run + sent).mem == Put(n.mem, MASTER, Padded(image))
      else SessionAt(s', image, k + 1, false) && MasterAt(n, run + sent, image, k + 1)
  {
    hide Replay, CallPlan, Padded, MasterRun, Put, MasterAt, SectorOf, Outcome, Closed, Opened;
    MasterCallPlan(n, s, image, k);
    OutcomeSent(s, HEADER * k, false, SectorOf(image, k), done, Replay(n, run).mem, before, after, s', k == 0);
    MasterCallSafe(n, run, s, image, k, after[|before|..]);
    if done { NextSession(s, image, k, false, SectorOf(image, k), s'); }
  }

  /** One turn of a master upload. `n` is the chip and `base` the log when the upload began. */
  method MasterStep(session: Session, dev: Device, image: seq<byte>, k: nat,
                    ghost n: Nor, ghost base: seq<Command>, ghost run: seq<Command>)
    returns (res: int, ghost run': seq<Command>)
    requires session.Now().Valid() && dev.Valid() && UploadFits(n, image, MASTER) && k < Sectors(image)
    requires SessionAt(session.Now(), image, k, false) && MasterAt(n, run, image, k)
    requires dev.log == base + run && dev.nor == Replay(n, run) && MasterRun(n, run, Padded(image), MASTER)
    modifies session, dev
    ensures session.Now().Valid() && dev.Valid() && dev.clock >= old(dev.clock)
    ensures dev.log == base + run' && dev.nor == Replay(n, run') && MasterRun(n, run', Padded(image), MASTER)
    ensures res == 0 <==>
      (k == 0 ==> HeaderAccepted(n.mem, image[..HEADER], false)) && !Faulted(dev.fault, old(dev.clock), dev.clock)
    ensures res == 0 ==>
      if k + 1 == Sectors(image) then dev.nor.mem == Put(n.mem, MASTER, Padded(image))
      else SessionAt(session.Now(), image, k + 1, false) && MasterAt(n, run', image, k + 1)
  {
    hide Replay, CallPlan, Padded, MasterRun, Put, MasterAt, SectorOf, Outcome, HeaderAccepted, SessionAt, Sectors,
         Faulted, State.Valid, State.End, UploadFits, Device.Valid;
    ghost var s, before := session.Now(), dev.log;
    MasterCallPlan(n, s, image, k);
    FirstCall(n, run, image, k);
    res := SendSector(session, dev, HEADER * k, SectorOf(image, k), 0);
    ghost var sent := dev.log[|before|..];
    run' := run + sent;
    LogOf(base, run, dev.log);
    ReplayConcat(n, run, sent);
    MasterStepped(n, run, image, k, s, res == 0, before, dev.log, session.Now());
  }

  /** Before the first sector nothing was sent, and that sector is the header page. */
  lemma FirstCall(n: Nor, run: seq<Command>, image: seq<byte>, k: nat)
    requires (UploadFits(n, image, MASTER) || UploadFits(n, image, 0)) && k < Sectors(image)
    ensures |image| % HEADER == 0
    ensures MasterAt(n, run, image, k) && k == 0 ==> Replay(n, run) == n
    ensures GoldenAt(n, run, image, k) && k == 0 ==> Replay(n, run) == n
    ensures HEADER <= |image| && (k == 0 ==> SectorOf(image, k) == image[..HEADER])
  {
  }

  /** What an outcome says about the log, and about the session of a call that succeeds. */
  lemma OutcomeSent(s: State, at: uint32, golden: bool, page: seq<byte>, done: bool, mem: seq<byte>,
                    before: seq<Command>, after: seq<Command>, s': State, opening: bool)
    requires s.Valid() && at < s.End() && |page| == HEADER
    requires Outcome(s, at, golden, page, done, mem, before, after, s') && (opening <==> at == s.offset)
    ensures before <= after && after[|before|..] <= CallPlan(s, at, golden, page)
    ensures done ==> after[|before|..] == CallPlan(s, at, golden, page)
    ensures done ==> s' == Closed(if opening then Opened(s, golden, page) else s, at)
  {
    hide CallPlan, OpenPlan, HeaderAccepted;
  }

  /** A whole run that grows by what sector `k` sends. */
  lemma MasterCallSafe(n: Nor, run: seq<Command>, s: State, image: seq<byte>, k: nat, sent: seq<Command>)
    requires UploadFits(n, image, MASTER) && k < Sectors(image) && MasterRun(n, run, Padded(image), MASTER)
    requires SessionAt(s, image, k, false) && MasterAt(n, run, image, k)
    requires HEADER * k < s.End() && sent <= CallPlan(s, HEADER * k, false, SectorOf(image, k))
    ensures MasterRun(n, run + sent, Padded(image), MASTER)
    ensures sent == CallPlan(s, HEADER * k, false, SectorOf(image, k)) ==>
      if k + 1 == Sectors(image) then Replay(n, run + sent).mem == Put(n.mem, MASTER, Padded(image))
      else MasterAt(n, run + sent, image, k + 1)
  {
    hide Replay, CallPlan, Padded, MasterSafe, MasterRun, Put, MasterAt, SectorOf;
    forall q | q <= sent ensures MasterSafe(n.mem, run + q, Replay(n, run + q).mem, Padded(image), MASTER) {
      MasterSectorSafe(n, run, s, image, k, q);
    }
    MasterSectorSafe(n, run, s, image, k, sent);
    RunGrows(n, run, sent, Padded(image));
  }

  /** Uploading a master image in order. A crash at any point leaves the header blank or the body
      complete; success leaves exactly the padded image; nothing outside its region changes. It
      succeeds exactly if the first sector is an acceptable header and no device operation fails. */
  method UploadMaster(session: Session, dev: Device, image: seq<byte>) returns (res: int)
    requires session.Now().Valid() && dev.Valid() && UploadFits(dev.nor, image, MASTER)
    modifies session, dev
    ensures session.Now().Valid() && dev.Valid() && dev.clock >= old(dev.clock) && old(dev.log) <= dev.log
    ensures MasterRun(old(dev.nor), dev.log[|old(dev.log)|..], Padded(image), MASTER)
    ensures res == 0 ==> dev.nor.mem == Put(old(dev.nor.mem), MASTER, Padded(image))
    ensures res == 0 <==>
      HeaderAccepted(old(dev.nor.mem), image[..HEADER], false) && !Faulted(dev.fault, old(dev.clock), dev.clock)
    ensures res == 0 ==> MasterInPlace(old(dev.nor.mem), dev.nor.mem, MASTER)
    ensures var was, h := HeaderAt(old(dev.nor.mem), 0), HeaderAt(image, 0);
      res == 0 <==>
        && was.0 == 0 && was.1.wbstar == 0x1c_0000 && h.0 == 0 && h.1.devid == was.1.devid && h.1.wbstar == 0
        && !Faulted(dev.fault, old(dev.clock), dev.clock)
  {
    hide Replay, Progress, Padded, HasErase, MasterRun, Put, HeaderAccepted, MasterAt, SessionAt, MasterInPlace,
         HeaderAt, Parse, Words;
    AcceptedFields(dev.nor.mem, image, false);
    ghost var n, base := dev.nor, dev.log;
    ghost var run: seq<Command> := [];
    assert base + run == base;
    NothingRun(n, Padded(image));
    res := session.FlashErase(0, |image|);
    var count := |image| / HEADER;
    var k := 0;
    UploadStarts(session.Now(), n, image);
    while k < count
      invariant 0 <= k <= count && session.Now().Valid() && dev.Valid()
      invariant dev.log == base + run && dev.nor == Replay(n, run) && MasterRun(n, run, Padded(image), MASTER)
      invariant dev.clock >= old(dev.clock) && !Faulted(dev.fault, old(dev.clock), dev.clock)
      invariant k > 0 ==> HeaderAccepted(n.mem, image[..HEADER], false)
      invariant k < count ==> SessionAt(session.Now(), image, k, false) && MasterAt(n, run, image, k)
      invariant k == count ==> dev.nor.mem == Put(n.mem, MASTER, Padded(image))
    {
      ghost var tick := dev.clock;
      res, run := MasterStep(session, dev, image, k, n, base, run);
      FaultedSplit(dev.fault, old(dev.clock), tick, dev.clock);
      assert dev.log[|base|..] == run;
      if res != 0 { return; }
      k := k + 1;
    }
    assert dev.log[|base|..] == run;
    UploadedMaster(n, image);
    res := 0;
  }

  /** What it takes for a header to be accepted, field by field. */
  lemma AcceptedFields(mem: seq<byte>, image: seq<byte>, golden: bool)
    requires HEADER <= |image|
    ensures var was, h := HeaderAt(mem, 0), HeaderAt(image, 0);
      HeaderAccepted(mem, image[..HEADER], golden) <==>
        && was.0 == 0 && h.0 == 0 && h.1.devid == was.1.devid
        && (if golden then h.1.iprog && h.1.wbstar == 0x1c_0000 else h.1.wbstar == 0 && was.1.wbstar == 0x1c_0000)
  {
    hide Parse, Words;
    assert Window(image, 0, HEADER) == image[..HEADER];
  }

  lemma UploadedMaster(n: Nor, image: seq<byte>)
    requires UploadFits(n, image, MASTER) && HeaderAccepted(n.mem, image[..HEADER], false)
    ensures MasterInPlace(n.mem, Put(n.mem, MASTER, Padded(image)), MASTER)
  {
    hide HeaderAt, Parse, Words, Put, MasterInPlace;
    assert Padded(image)[..HEADER] == image[..HEADER];
    ChainInPlace(n.mem, Padded(image), MASTER, false);
  }

  lemma UploadStarts(s: State, n: Nor, image: seq<byte>)
    requires 0 < |image| <= LIMIT && s.Valid() && s.length == |image| && s.offset == 0
    ensures SessionAt(s, image, 0, false) && SessionAt(s, image, 0, true)
    ensures MasterAt(n, [], image, 0) && GoldenAt(n, [], image, 0)
  {
  }

  lemma NothingRun(n: Nor, image: seq<byte>)
    ensures Replay(n, []) == n && MasterRun(n, [], image, MASTER)
  {
    var none: seq<Command> := [];
    assert forall k :: 0 <= k <= |none| ==> none[..k] == none;
  }

  lemma NextSession(s: State, image: seq<byte>, k: nat, golden: bool, page: seq<byte>, s': State)
    requires |image| % HEADER == 0 && k + 1 <= Sectors(image) && SessionAt(s, image, k, golden)
    requires 0 < |image| <= LIMIT && page == SectorOf(image, k)
    requires s' == Closed(if k == 0 then Opened(s, golden, page) else s, HEADER * k) && s'.Valid()
    ensures k + 1 < Sectors(image) ==> SessionAt(s', image, k + 1, golden)
  {
  }

  // ---------------------------------------------------------------- a golden image

  /** Flash after the first `k` sectors of a golden image, which sits at address zero. */
  function GoldenProgress(m0: seq<byte>, image: seq<byte>, k: nat): (m: seq<byte>)
    requires HEADER * k <= |image|
    ensures |m| == |m0|
  {
    Put(Fill(m0, 0, RoundUpSubsector(|image|)), 0, image[..HEADER * k])
  }

  /** What a crash may leave: the old body is untouched or the new boot page is in place. */
  predicate BootSafe(m0: seq<byte>, m: seq<byte>, image: seq<byte>) {
    && SameOutside(m0, m, 0, RoundUpSubsector(|image|))
    && (Same(m0, m, SUBSECTOR, RoundUpSubsector(|image|)) || BootComplete(m, image))
  }

  predicate BootComplete(m: seq<byte>, image: seq<byte>) {
    HEADER <= |m| && HEADER <= |image| && m[..HEADER] == image[..HEADER]
  }

  ghost predicate GoldenUploadRun(n: Nor, run: seq<Command>, image: seq<byte>) {
    forall k :: 0 <= k <= |run| ==> BootSafe(n.mem, Replay(n, run[..k]).mem, image)
  }

  predicate GoldenAt(n: Nor, run: seq<Command>, image: seq<byte>, k: nat) {
    if k == 0 then run == []
    else HEADER * k <= |image| && Replay(n, run).mem == GoldenProgress(n.mem, image, k)
  }

  lemma GoldenSectorBlank(n: Nor, image: seq<byte>, k: nat)
    requires UploadFits(n, image, 0) && 1 <= k < Sectors(image)
    ensures HEADER * k + HEADER <= |image|
    ensures BlankIn(GoldenProgress(n.mem, image, k), HEADER * k, HEADER * k + HEADER)
    ensures BootComplete(GoldenProgress(n.mem, image, k), image)
    ensures SameOutside(n.mem, GoldenProgress(n.mem, image, k), 0, RoundUpSubsector(|image|))
    ensures Put(GoldenProgress(n.mem, image, k), HEADER * k, SectorOf(image, k)) == GoldenProgress(n.mem, image, k + 1)
  {
  }

  lemma GoldenSectorSafe(n: Nor, run: seq<Command>, image: seq<byte>, k: nat, q: seq<Command>)
    requires UploadFits(n, image, 0) && 1 <= k < Sectors(image)
    requires HEADER * k <= |image| && Replay(n, run).mem == GoldenProgress(n.mem, image, k)
    requires q <= WritePlan(SectorOf(image, k), HEADER * k)
    ensures BootSafe(n.mem, Replay(n, run + q).mem, image)
    ensures q == WritePlan(SectorOf(image, k), HEADER * k) ==> GoldenAt(n, run + q, image, k + 1)
  {
    hide Replay, WritePlan, GoldenProgress, PageSafe, SectorOf;
    var m, at, page := Replay(n, run), HEADER * k, SectorOf(image, k);
    ReplayConcat(n, run, q);
    GoldenSectorBlank(n, image, k);
    SectorPage(0, k);
    WritePlanConfined(page, at, at, at + HEADER);
    ConfinedSame(m, q, WritePlan(page, at), at, at + HEADER);
    WriteOnBlank(m, page, at);
    assert Replay(m, q).mem[..HEADER] == m.mem[..HEADER];
  }

  /** The opening: blank the boot sector, write the boot page, blank the rest. */
  lemma GoldenOpeningSafe(n: Nor, image: seq<byte>, q: seq<Command>)
    requires UploadFits(n, image, 0) && |image| > SUBSECTOR
    requires q <= OpenPlan(|image|, true, image[..HEADER])
    ensures BootSafe(n.mem, Replay(n, q).mem, image)
    ensures q == OpenPlan(|image|, true, image[..HEADER]) ==> GoldenAt(n, q, image, 1)
  {
    hide Replay, WritePlan, ErasePlan, EraseCompletes;
    var size := RoundUpSubsector(|image|);
    var boot, head := ErasePlan(0, SUBSECTOR), WritePlan(image[..HEADER], 0);
    var rest := ErasePlan(SUBSECTOR, size - SUBSECTOR);
    GoldenOpeningEffect(n, image);
    PrefixOfConcat(q, boot, head + rest);
    if |q| <= |boot| {
      ErasePlanConfined(0, SUBSECTOR, 0, SUBSECTOR);
      ConfinedSame(n, q, boot, 0, SUBSECTOR);
    } else {
      var m, q1 := Replay(n, boot), q[|boot|..];
      ReplayConcat(n, boot, q1);
      PrefixOfConcat(q1, head, rest);
      if |q1| <= |head| {
        WritePlanConfined(image[..HEADER], 0, 0, HEADER);
        ConfinedSame(m, q1, head, 0, HEADER);
      } else {
        var m2, q2 := Replay(m, head), q1[|head|..];
        ReplayConcat(m, head, q2);
        ErasePlanConfined(SUBSECTOR, size - SUBSECTOR, SUBSECTOR, size);
        ConfinedSame(m2, q2, rest, SUBSECTOR, size);
        assert Replay(m2, q2).mem[..HEADER] == m2.mem[..HEADER] == image[..HEADER];
      }
    }
    RestNonEmpty(size);
  }

  lemma RestNonEmpty(size: nat)
    requires size % SUBSECTOR == 0 && SUBSECTOR < size <= TWO32 - 1
    ensures ErasePlan(SUBSECTOR, size - SUBSECTOR) != []
  {
  }

  lemma GoldenOpeningEffect(n: Nor, image: seq<byte>)
    requires UploadFits(n, image, 0) && |image| > SUBSECTOR
    ensures RoundUpSubsector(|image|) > SUBSECTOR
    ensures Replay(n, ErasePlan(0, SUBSECTOR)).mem == Fill(n.mem, 0, SUBSECTOR)
    ensures var m := Replay(n, ErasePlan(0, SUBSECTOR));
      Replay(m, WritePlan(image[..HEADER], 0)).mem == Put(m.mem, 0, image[..HEADER])
    ensures var m := Replay(Replay(n, ErasePlan(0, SUBSECTOR)), WritePlan(image[..HEADER], 0));
      Replay(m, ErasePlan(SUBSECTOR, RoundUpSubsector(|image|) - SUBSECTOR)).mem == GoldenProgress(n.mem, image, 1)
  {
    hide Replay, WritePlan, ErasePlan;
    var size := RoundUpSubsector(|image|);
    EraseEffectLinear(n, 0, SUBSECTOR);
    var m := Replay(n, ErasePlan(0, SUBSECTOR));
    WriteOnBlank(m, image[..HEADER], 0);
    var m2 := Replay(m, WritePlan(image[..HEADER], 0));
    EraseEffectLinear(m2, SUBSECTOR, size - SUBSECTOR);
    assert image[..HEADER * 1] == image[..HEADER];
    assert Fill(Put(Fill(n.mem, 0, SUBSECTOR), 0, image[..HEADER]), SUBSECTOR, size - SUBSECTOR) ==
           GoldenProgress(n.mem, image, 1);
  }

  lemma GoldenCallPlan(n: Nor, s: State, image: seq<byte>, k: nat)
    requires UploadFits(n, image, 0) && |image| > SUBSECTOR && k < Sectors(image) && SessionAt(s, image, k, true)
    ensures HEADER * k < s.End() && HEADER * k + HEADER <= |image| && HEADER * k < LIMIT
    ensures (HEADER * k == s.offset <==> k == 0) && (k > 0 ==> s.validated) && s.length == |image|
    ensures CallPlan(s, HEADER * k, true, SectorOf(image, k)) ==
      if k == 0 then OpenPlan(|image|, true, image[..HEADER]) else WritePlan(SectorOf(image, k), HEADER * k)
  {
    hide ErasePlan, WritePlan, OpenPlan;
    var page := SectorOf(image, k);
    assert s.End() == |image|;
    if k == 0 {
      assert page == image[..HEADER];
      assert StorePlan(Opened(s, true, page), 0, page) == [];
      assert OpenPlan(|image|, true, page) + [] == OpenPlan(|image|, true, page);
    } else {
      assert WritePlan(page, HEADER * k) + [] == WritePlan(page, HEADER * k);
    }
  }

  lemma GoldenCallSafe(n: Nor, run: seq<Command>, s: State, image: seq<byte>, k: nat, q: seq<Command>)
    requires UploadFits(n, image, 0) && |image| > SUBSECTOR && k < Sectors(image)
    requires SessionAt(s, image, k, true) && GoldenAt(n, run, image, k)
    requires HEADER * k < s.End() && q <= CallPlan(s, HEADER * k, true, SectorOf(image, k))
    ensures BootSafe(n.mem, Replay(n, run + q).mem, image)
    ensures q == CallPlan(s, HEADER * k, true, SectorOf(image, k)) ==> GoldenAt(n, run + q, image, k + 1)
  {
    hide Replay, WritePlan, OpenPlan, CallPlan, GoldenProgress, SectorOf, BootSafe;
    GoldenCallPlan(n, s, image, k);
    if k == 0 {
      assert run + q == q;
      GoldenOpeningSafe(n, image, q);
    } else {
      GoldenSectorSafe(n, run, image, k, q);
    }
  }

  // what a crash in the middle leaves

  function GoldenDoneMem(m0: seq<byte>, image: seq<byte>): seq<byte> {
    Put(Fill(m0, 0, RoundUpSubsector(|image|)), 0, image)
  }

  /** The last byte of the image and that of its boot page tell whether they are written. */
  predicate Telling(m0: seq<byte>, image: seq<byte>) {
    && HEADER <= |image| <= |m0|
    && image[|image| - 1] != BLANK && image[|image| - 1] != m0[|image| - 1]
    && image[HEADER - 1] != BLANK && image[HEADER - 1] != m0[HEADER - 1]
  }

  lemma NotComplete(m0: seq<byte>, m: seq<byte>, image: seq<byte>)
    requires |m| == |m0| && Telling(m0, image)
    ensures m[|image| - 1] != image[|image| - 1] ==> m != GoldenDoneMem(m0, image)
    ensures m[HEADER - 1] != image[HEADER - 1] ==> !BootComplete(m, image)
  {
    PutLast(Fill(m0, 0, RoundUpSubsector(|image|)), 0, image);
    if BootComplete(m, image) { assert m[..HEADER][HEADER - 1] == image[..HEADER][HEADER - 1]; }
  }

  /** During the opening the boot page is in place exactly from its last program on. */
  lemma OpeningGap(n: Nor, image: seq<byte>, q: seq<Command>)
    requires UploadFits(n, image, 0) && |image| > SUBSECTOR && Telling(n.mem, image)
    requires q <= OpenPlan(|image|, true, image[..HEADER])
    ensures Replay(n, q).mem != GoldenDoneMem(n.mem, image)
    ensures BootComplete(Replay(n, q).mem, image) <==>
      |q| + 1 >= |ErasePlan(0, SUBSECTOR)| + |WritePlan(image[..HEADER], 0)|
  {
    hide Replay, WritePlan, ErasePlan, BootComplete, GoldenDoneMem, BlankIn;
    var size, header := RoundUpSubsector(|image|), image[..HEADER];
    var boot, head, rest := ErasePlan(0, SUBSECTOR), WritePlan(header, 0), ErasePlan(SUBSECTOR, size - SUBSECTOR);
    NotComplete(n.mem, Replay(n, q).mem, image);
    WritePlanEnd(header, 0);
    ErasePlanConfined(0, SUBSECTOR, 0, SUBSECTOR);
    PrefixOfConcat(q, boot, head + rest);
    if |q| <= |boot| {
      EraseKeepsOrBlanks(n, 0, SUBSECTOR, q, HEADER - 1);
      ConfinedSame(n, q, boot, 0, SUBSECTOR);
    } else {
      ReplayConcat(n, boot, q[|boot|..]);
      ConfinedSame(n, boot, boot, 0, SUBSECTOR);
      BootBlank(n);
      BootPageGap(n, Replay(n, boot), image, q[|boot|..]);
    }
  }

  /** ... once the boot sector is blank. */
  lemma BootPageGap(n: Nor, m: Nor, image: seq<byte>, q: seq<Command>)
    requires UploadFits(n, image, 0) && |image| > SUBSECTOR && Telling(n.mem, image)
    requires SameOutside(n.mem, m.mem, 0, SUBSECTOR) && BlankIn(m.mem, 0, HEADER)
    requires q <= WritePlan(image[..HEADER], 0) + ErasePlan(SUBSECTOR, RoundUpSubsector(|image|) - SUBSECTOR)
    ensures Replay(m, q).mem != GoldenDoneMem(n.mem, image)
    ensures BootComplete(Replay(m, q).mem, image) <==> |q| + 1 >= |WritePlan(image[..HEADER], 0)|
  {
    hide Replay, WritePlan, ErasePlan, BootComplete, GoldenDoneMem, BlankIn, Put;
    var size, header := RoundUpSubsector(|image|), image[..HEADER];
    var head, rest := WritePlan(header, 0), ErasePlan(SUBSECTOR, size - SUBSECTOR);
    PrefixOfConcat(q, head, rest);
    WritePlanConfined(header, 0, 0, HEADER);
    var part := if |q| <= |head| then q else head;
    ConfinedSame(m, part, head, 0, HEADER);
    WriteCommits(m, header, 0, part);
    BootPut(m.mem, image);
    NotComplete(n.mem, Replay(m, part).mem, image);
    if |q| > |head| {
      ReplayConcat(m, head, q[|head|..]);
      RestGap(n, Replay(m, head), image, q[|head|..]);
    }
  }

  lemma RestGap(n: Nor, m: Nor, image: seq<byte>, q: seq<Command>)
    requires UploadFits(n, image, 0) && |image| > SUBSECTOR && Telling(n.mem, image)
    requires SameOutside(n.mem, m.mem, 0, SUBSECTOR) && BootComplete(m.mem, image)
    requires q <= ErasePlan(SUBSECTOR, RoundUpSubsector(|image|) - SUBSECTOR)
    ensures Replay(m, q).mem != GoldenDoneMem(n.mem, image) && BootComplete(Replay(m, q).mem, image)
  {
    hide Replay, ErasePlan, BootComplete, GoldenDoneMem;
    var size := RoundUpSubsector(|image|);
    ErasePlanConfined(SUBSECTOR, size - SUBSECTOR, SUBSECTOR, size);
    ConfinedSame(m, q, ErasePlan(SUBSECTOR, size - SUBSECTOR), SUBSECTOR, size);
    EraseKeepsOrBlanks(m, SUBSECTOR, size - SUBSECTOR, q, |image| - 1);
    BootStays(m.mem, Replay(m, q).mem, image, SUBSECTOR, size);
    NotComplete(n.mem, Replay(m, q).mem, image);
  }

  lemma BootBlank(n: Nor)
    requires SUBSECTOR <= |n.mem| < WHOLE_CHIP
    ensures BlankIn(Replay(n, ErasePlan(0, SUBSECTOR)).mem, 0, HEADER)
  {
    hide Replay, ErasePlan;
    EraseEffectLinear(n, 0, SUBSECTOR);
  }

  lemma BootPut(m: seq<byte>, image: seq<byte>)
    requires HEADER <= |image| && HEADER <= |m|
    ensures BootComplete(Put(m, 0, image[..HEADER]), image)
  {
  }

  /** A crash of a golden upload leaves the new boot page, which has the header, over an incomplete image
      exactly from the last program of that page to before the last program of the last sector. */
  lemma GoldenUploadGap(n: Nor, run: seq<Command>, image: seq<byte>, k: nat, q: seq<Command>)
    requires UploadFits(n, image, 0) && |image| > SUBSECTOR && Telling(n.mem, image)
    requires k < Sectors(image) && GoldenAt(n, run, image, k)
    requires q <= if k == 0 then OpenPlan(|image|, true, image[..HEADER]) else WritePlan(SectorOf(image, k), HEADER * k)
    ensures BootComplete(Replay(n, run + q).mem, image) <==>
      k > 0 || |q| + 1 >= |ErasePlan(0, SUBSECTOR)| + |WritePlan(image[..HEADER], 0)|
    ensures Replay(n, run + q).mem == GoldenDoneMem(n.mem, image) <==>
      k + 1 == Sectors(image) && |q| + 1 >= |WritePlan(SectorOf(image, k), HEADER * k)|
  {
    hide Replay, WritePlan, ErasePlan, OpenPlan, GoldenProgress, GoldenDoneMem, SectorOf;
    if k == 0 {
      assert run + q == q;
      OpeningGap(n, image, q);
    } else {
      ReplayConcat(n, run, q);
      SectorGap(n, Replay(n, run), image, k, q);
    }
  }

  lemma SectorGap(n: Nor, m: Nor, image: seq<byte>, k: nat, q: seq<Command>)
    requires UploadFits(n, image, 0) && |image| > SUBSECTOR && Telling(n.mem, image) && 1 <= k < Sectors(image)
    requires HEADER * k <= |image| && m.mem == GoldenProgress(n.mem, image, k)
    requires q <= WritePlan(SectorOf(image, k), HEADER * k)
    ensures BootComplete(Replay(m, q).mem, image)
    ensures Replay(m, q).mem == GoldenDoneMem(n.mem, image) <==>
      k + 1 == Sectors(image) && |q| + 1 >= |WritePlan(SectorOf(image, k), HEADER * k)|
  {
    hide Replay, WritePlan, GoldenProgress, GoldenDoneMem, PageSafe, SectorOf, Put, BootComplete;
    var at, page := HEADER * k, SectorOf(image, k);
    GoldenSectorBlank(n, image, k);
    SectorPage(0, k);
    WritePlanConfined(page, at, at, at + HEADER);
    ConfinedSame(m, q, WritePlan(page, at), at, at + HEADER);
    BootStays(m.mem, Replay(m, q).mem, image, at, at + HEADER);
    LastOf(n, image, k);
    NotComplete(n.mem, Replay(m, q).mem, image);
    if k + 1 == Sectors(image) {
      WriteCommits(m, page, at, q);
    }
  }

  lemma BootStays(m0: seq<byte>, m: seq<byte>, image: seq<byte>, lo: nat, hi: nat)
    requires BootComplete(m0, image) && SameOutside(m0, m, lo, hi) && lo >= HEADER
    ensures BootComplete(m, image)
  {
    assert m[..HEADER] == m0[..HEADER];
  }

  lemma LastOf(n: Nor, image: seq<byte>, k: nat)
    requires UploadFits(n, image, 0) && 1 <= k < Sectors(image)
    ensures HEADER * k + HEADER <= |image|
    ensures k + 1 < Sectors(image) ==>
      HEADER * k + HEADER < |image| && GoldenProgress(n.mem, image, k)[|image| - 1] == BLANK
    ensures k + 1 == Sectors(image) ==>
      HEADER * k + HEADER == |image| && SectorOf(image, k)[HEADER - 1] == image[|image| - 1] &&
      GoldenProgress(n.mem, image, k + 1) == GoldenDoneMem(n.mem, image)
  {
    if k + 1 == Sectors(image) { GoldenDone(n.mem, image); }
  }

  lemma GoldenRunGrows(n: Nor, run: seq<Command>, more: seq<Command>, image: seq<byte>)
    requires GoldenUploadRun(n, run, image)
    requires forall q :: q <= more ==> BootSafe(n.mem, Replay(n, run + q).mem, image)
    ensures GoldenUploadRun(n, run + more, image)
  {
    hide BootSafe, Replay;
    forall k | 0 <= k <= |run + more| ensures BootSafe(n.mem, Replay(n, (run + more)[..k]).mem, image) {
      if k <= |run| {
        assert (run + more)[..k] == run[..k];
      } else {
        assert (run + more)[..k] == run + more[..k - |run|];
        assert more[..k - |run|] <= more;
      }
    }
  }

  lemma GoldenCallGrows(n: Nor, run: seq<Command>, s: State, image: seq<byte>, k: nat, sent: seq<Command>)
    requires UploadFits(n, image, 0) && |image| > SUBSECTOR && k < Sectors(image) && GoldenUploadRun(n, run, image)
    requires SessionAt(s, image, k, true) && GoldenAt(n, run, image, k)
    requires HEADER * k < s.End() && sent <= CallPlan(s, HEADER * k, true, SectorOf(image, k))
    ensures GoldenUploadRun(n, run + sent, image)
    ensures sent == CallPlan(s, HEADER * k, true, SectorOf(image, k)) ==> GoldenAt(n, run + sent, image, k + 1)
  {
    hide Replay, CallPlan, BootSafe, GoldenUploadRun, GoldenAt, SectorOf;
    forall q | q <= sent ensures BootSafe(n.mem, Replay(n, run + q).mem, image) {
      GoldenCallSafe(n, run, s, image, k, q);
    }
    GoldenCallSafe(n, run, s, image, k, sent);
    GoldenRunGrows(n, run, sent, image);
  }

  lemma NothingGoldenRun(n: Nor, image: seq<byte>)
    ensures Replay(n, []) == n && GoldenUploadRun(n, [], image)
  {
    var none: seq<Command> := [];
    assert forall k :: 0 <= k <= |none| ==> none[..k] == none;
  }

  lemma GoldenStepped(n: Nor, run: seq<Command>, image: seq<byte>, k: nat, s: State, done: bool,
                      before: seq<Command>, after: seq<Command>, s': State)
    requires UploadFits(n, image, 0) && |image| > SUBSECTOR && k < Sectors(image) && GoldenUploadRun(n, run, image)
    requires SessionAt(s, image, k, true) && GoldenAt(n, run, image, k) && HEADER * k < s.End() && s'.Valid()
    requires Outcome(s, HEADER * k, true, SectorOf(image, k), done, Replay(n, run).mem, before, after, s')
    ensures before <= after && GoldenUploadRun(n, run + after[|before|..], image)
    ensures done ==> GoldenAt(n, run + after[|before|..], image, k + 1)
    ensures done && k + 1 < Sectors(image) ==> SessionAt(s', image, k + 1, true)
  {
    hide Replay, CallPlan, GoldenUploadRun, GoldenAt, SectorOf, Outcome, Closed, Opened;
    GoldenCallPlan(n, s, image, k);
    OutcomeSent(s, HEADER * k, true, SectorOf(image, k), done, Replay(n, run).mem, before, after, s', k == 0);
    GoldenCallGrows(n, run, s, image, k, after[|before|..]);
    if done { NextSession(s, image, k, true, SectorOf(image, k), s'); }
  }

  /** One turn of a golden upload. */
  method GoldenStep(session: Session, dev: Device, image: seq<byte>, k: nat,
                    ghost n: Nor, ghost base: seq<Command>, ghost run: seq<Command>)
    returns (res: int, ghost run': seq<Command>)
    requires session.Now().Valid() && dev.Valid() && UploadFits(n, image, 0) && |image| > SUBSECTOR
    requires k < Sectors(image)
    requires SessionAt(session.Now(), image, k, true) && GoldenAt(n, run, image, k)
    requires dev.log == base + run && dev.nor == Replay(n, run) && GoldenUploadRun(n, run, image)
    modifies session, dev
    ensures session.Now().Valid() && dev.Valid() && dev.clock >= old(dev.clock)
    ensures dev.log == base + run' && dev.nor == Replay(n, run') && GoldenUploadRun(n, run', image)
    ensures res == 0 <==>
      (k == 0 ==> HeaderAccepted(n.mem, image[..HEADER], true)) && !Faulted(dev.fault, old(dev.clock), dev.clock)
    ensures res == 0 ==> GoldenAt(n, run', image, k + 1)
    ensures res == 0 && k + 1 < Sectors(image) ==> SessionAt(session.Now(), image, k + 1, true)
  {
    hide Replay, CallPlan, GoldenUploadRun, GoldenAt, SectorOf, Outcome, HeaderAccepted, SessionAt, Sectors, Faulted,
         State.Valid, State.End, UploadFits, Device.Valid;
    ghost var s, before := session.Now(), dev.log;
    GoldenCallPlan(n, s, image, k);
    FirstCall(n, run, image, k);
    res := SendSector(session, dev, HEADER * k, SectorOf(image, k), GOLDEN_PARAM);
    ghost var sent := dev.log[|before|..];
    run' := run + sent;
    LogOf(base, run, dev.log);
    ReplayConcat(n, run, sent);
    GoldenStepped(n, run, image, k, s, res == 0, before, dev.log, session.Now());
  }

  /** Uploading a golden image longer than the boot sector, in order. A crash at any point leaves the
      old body or the new boot page; success leaves exactly the image in its blanked region. */
  method UploadGolden(session: Session, dev: Device, image: seq<byte>) returns (res: int)
    requires session.Now().Valid() && dev.Valid() && UploadFits(dev.nor, image, 0) && |image| > SUBSECTOR
    modifies session, dev
    ensures session.Now().Valid() && dev.Valid() && dev.clock >= old(dev.clock) && old(dev.log) <= dev.log
    ensures GoldenUploadRun(old(dev.nor), dev.log[|old(dev.log)|..], image)
    ensures res == 0 ==> dev.nor.mem == Put(Fill(old(dev.nor.mem), 0, RoundUpSubsector(|image|)), 0, image)
    ensures res == 0 ==> GoldenInPlace(old(dev.nor.mem), dev.nor.mem, MASTER)
    ensures var was, h := HeaderAt(old(dev.nor.mem), 0), HeaderAt(image, 0);
      res == 0 <==>
        && was.0 == 0 && h.0 == 0 && h.1.devid == was.1.devid && h.1.iprog && h.1.wbstar == 0x1c_0000
        && !Faulted(dev.fault, old(dev.clock), dev.clock)
    ensures res == 0 <==>
      HeaderAccepted(old(dev.nor.mem), image[..HEADER], true) && !Faulted(dev.fault, old(dev.clock), dev.clock)
  {
    hide Replay, GoldenProgress, GoldenUploadRun, HeaderAccepted, SessionAt, GoldenInPlace, HeaderAt, Parse, Words;
    AcceptedFields(dev.nor.mem, image, true);
    ghost var n, base := dev.nor, dev.log;
    ghost var run: seq<Command> := [];
    assert base + run == base;
    NothingGoldenRun(n, image);
    res := session.FlashErase(0, |image|);
    var count := |image| / HEADER;
    var k := 0;
    UploadStarts(session.Now(), n, image);
    while k < count
      invariant 0 <= k <= count && session.Now().Valid() && dev.Valid()
      invariant dev.log == base + run && dev.nor == Replay(n, run) && GoldenUploadRun(n, run, image)
      invariant dev.clock >= old(dev.clock) && !Faulted(dev.fault, old(dev.clock), dev.clock)
      invariant k > 0 ==> HeaderAccepted(n.mem, image[..HEADER], true)
      invariant GoldenAt(n, run, image, k)
      invariant k < count ==> SessionAt(session.Now(), image, k, true)
    {
      ghost var tick := dev.clock;
      res, run := GoldenStep(session, dev, image, k, n, base, run);
      FaultedSplit(dev.fault, old(dev.clock), tick, dev.clock);
      assert dev.log[|base|..] == run;
      if res != 0 { return; }
      k := k + 1;
    }
    assert dev.log[|base|..] == run;
    GoldenDone(n.mem, image);
    UploadedGolden(n, image);
    res := 0;
  }

  lemma UploadedGolden(n: Nor, image: seq<byte>)
    requires UploadFits(n, image, 0) && HeaderAccepted(n.mem, image[..HEADER], true)
    ensures GoldenInPlace(n.mem, Put(Fill(n.mem, 0, RoundUpSubsector(|image|)), 0, image), MASTER)
  {
    hide HeaderAt, Parse, Words, Put;
    HeaderOfPut(Fill(n.mem, 0, RoundUpSubsector(|image|)), 0, image, 0);
  }

  lemma GoldenDone(m0: seq<byte>, image: seq<byte>)
    requires |image| % HEADER == 0
    ensures HEADER * Sectors(image) == |image|
    ensures GoldenProgress(m0, image, Sectors(image)) == Put(Fill(m0, 0, RoundUpSubsector(|image|)), 0, image)
  {
    assert image[..|image|] == image;
  }
}
