/** The Xilinx bitstream header parser, against the packet list a header stands for. */
module XlnxBitstream {
  import opened Bits
  import opened Wrappers

  const W_DUMMY: uint32 := 0xffff_ffff
  const W_BYTEORD: uint32 := 0x0000_00bb
  const W_BUSWIDTH: uint32 := 0x1122_0044
  const W_SYNCWORD: uint32 := 0xAA99_5566
  const W_NOP: uint32 := 0x2000_0000

  type uint16 = x: int | 0 <= x < 0x1_0000

  const REG_CMD := 0x0080
  const REG_IDCODE := 0x0180
  const REG_AXSS := 0x01A0
  const REG_WBSTAR := 0x0200
  const CMD_IPROG: uint32 := 0xf

  const EINVAL := -22
  const ENOENT := -2

  datatype ImageParams = ImageParams(devid: uint32, wbstar: uint32, usrAccess2: uint32, iprog: bool)

  const NoParams := ImageParams(0, 0, 0, false)

  // ---------------------------------------------------------------- packets

  /** A NOP, or a type-1 write of `count` words to a configuration register. Only the last write of a
      header may be cut short, with fewer data words than it announces. */
  datatype Packet = Nop | Write(reg: uint16, count: byte, data: seq<uint32>)
  {
    predicate Valid() { Write? ==> |data| <= count }

    predicate Complete() { Nop? || |data| == count }

    function Encode(): (ws: seq<uint32>)
    {
      if Nop? then [W_NOP] else [WriteWord(reg, count)] + data
    }
  }

  function WriteWord(reg: uint16, count: byte): (w: uint32)
    ensures IsWriteWord(w) && WriteReg(w) == reg && WriteCount(w) == count
    ensures w != W_NOP
  {
    0x3000_0000 + reg * 0x100 + count
  }

  predicate IsWriteWord(w: uint32) { w / 0x100_0000 == 0x30 }

  function WriteReg(w: uint32): uint16 { w / 0x100 % 0x1_0000 }

  function WriteCount(w: uint32): byte { w % 0x100 }

  lemma WriteWordUnique(w: uint32)
    requires IsWriteWord(w)
    ensures w == WriteWord(WriteReg(w), WriteCount(w))
  {
  }

  /** All packets valid and all but the last complete. */
  predicate WellFormed(ps: seq<Packet>) {
    && (forall k :: 0 <= k < |ps| ==> ps[k].Valid())
    && (forall k :: 0 <= k < |ps| - 1 ==> ps[k].Complete())
  }

  predicate AllComplete(ps: seq<Packet>) {
    WellFormed(ps) && (ps == [] || ps[|ps| - 1].Complete())
  }

  function EncodeAll(ps: seq<Packet>): (ws: seq<uint32>)
  {
    if ps == [] then [] else EncodeAll(ps[..|ps| - 1]) + ps[|ps| - 1].Encode()
  }

  /** All the words written to one register, in order. */
  function WordsFor(ps: seq<Packet>, reg: nat): (ws: seq<uint32>) {
    if ps == [] then []
    else
      var last := ps[|ps| - 1];
      WordsFor(ps[..|ps| - 1], reg) + (if last.Write? && last.reg == reg then last.data else [])
  }

  function LastOr0(ws: seq<uint32>): uint32 { if ws == [] then 0 else ws[|ws| - 1] }

  /** What a packet list says about the image. */
  function Meaning(ps: seq<Packet>): ImageParams {
    ImageParams(LastOr0(WordsFor(ps, REG_IDCODE)),
                LastOr0(WordsFor(ps, REG_WBSTAR)),
                LastOr0(WordsFor(ps, REG_AXSS)),
                CMD_IPROG in WordsFor(ps, REG_CMD))
  }

  predicate Identifies(ps: seq<Packet>) {
    WordsFor(ps, REG_IDCODE) != [] && WordsFor(ps, REG_WBSTAR) != []
  }

  // ---------------------------------------------------------------- reading packets back

  predicate Unrecognised(w: uint32) { w != W_NOP && !IsWriteWord(w) }

  /** The packet at the start of `ws`, cut short if `ws` ends inside it. */
  function Front(ws: seq<uint32>): (p: Packet)
    requires ws != [] && !Unrecognised(ws[0])
    ensures p.Valid() && p.Encode() <= ws
    ensures !p.Complete() ==> p.Encode() == ws
  {
    if ws[0] == W_NOP then Nop
    else
      WriteWordUnique(ws[0]);
      var n := WriteCount(ws[0]);
      Write(WriteReg(ws[0]), n, if n >= |ws| then ws[1..] else ws[1..1 + n])
  }

  /** The packets at the start of `ws`, and whether they are all of it. */
  function Decode(ws: seq<uint32>): (r: (seq<Packet>, bool))
    decreases |ws|
  {
    if ws == [] then ([], true)
    else if Unrecognised(ws[0]) then ([], false)
    else
      var p := Front(ws);
      var (ps, ok) := Decode(ws[|p.Encode()|..]);
      ([p] + ps, ok)
  }

  lemma {:induction false} EncodeFirst(p: Packet, ps: seq<Packet>)
    ensures EncodeAll([p] + ps) == p.Encode() + EncodeAll(ps)
    decreases |ps|
  {
    hide Packet.Encode;
    var all := [p] + ps;
    if ps == [] {
      assert all[..0] == [];
      assert EncodeAll(all) == EncodeAll([]) + p.Encode();
    } else {
      assert all[..|ps|] == [p] + ps[..|ps| - 1];
      EncodeFirst(p, ps[..|ps| - 1]);
    }
  }

  lemma WellFormedTail(p: Packet, ps: seq<Packet>)
    requires WellFormed([p] + ps)
    ensures p.Valid() && WellFormed(ps) && (ps != [] ==> p.Complete())
    ensures AllComplete([p] + ps) ==> AllComplete(ps) && p.Complete()
  {
    var all := [p] + ps;
    assert all[0] == p;
    assert forall k :: 0 <= k < |ps| ==> ps[k] == all[k + 1];
  }

  lemma FrontOfEncoding(p: Packet, tail: seq<uint32>)
    requires p.Valid() && (p.Complete() || tail == [])
    ensures !Unrecognised(p.Encode()[0]) && Front(p.Encode() + tail) == p
  {
    var ws := p.Encode() + tail;
    if p.Write? {
      assert ws[0] == WriteWord(p.reg, p.count);
      if p.count >= |ws| { assert ws[1..] == p.data; } else { assert ws[1..1 + p.count] == p.data; }
    }
  }

  lemma DecodeFirst(p: Packet, tail: seq<uint32>)
    requires p.Valid() && (p.Complete() || tail == [])
    ensures Decode(p.Encode() + tail) == ([p] + Decode(tail).0, Decode(tail).1)
  {
    hide WriteWord, IsWriteWord, WriteReg, WriteCount, Front;
    var ws := p.Encode() + tail;
    FrontOfEncoding(p, tail);
    assert ws[|p.Encode()|..] == tail;
  }

  /** What was encoded is what is decoded; a word that starts no packet stops the decoder. */
  lemma {:induction false} DecodeEncode(ps: seq<Packet>, rest: seq<uint32>)
    requires WellFormed(ps)
    requires rest != [] ==> AllComplete(ps) && Unrecognised(rest[0])
    ensures Decode(EncodeAll(ps) + rest) == (ps, rest == [])
    decreases |ps|
  {
    hide WellFormed, AllComplete, IsWriteWord, EncodeAll, Decode, Packet.Encode;
    EncodeNothing();
    if ps == [] {
      DecodeStop(rest);
      assert EncodeAll(ps) + rest == rest;
    } else {
      var p, qs := ps[0], ps[1..];
      assert ps == [p] + qs;
      WellFormedTail(p, qs);
      EncodeFirst(p, qs);
      assert EncodeAll(ps) + rest == p.Encode() + (EncodeAll(qs) + rest);
      DecodeFirst(p, EncodeAll(qs) + rest);
      DecodeEncode(qs, rest);
    }
  }

  lemma DecodeStop(rest: seq<uint32>)
    requires rest != [] ==> Unrecognised(rest[0])
    ensures Decode(rest) == ([], rest == [])
  {
  }

  lemma EncodeNothing()
    ensures EncodeAll([]) == []
  {
  }

  /** What was decoded encodes to what was read, up to the first word that starts no packet. */
  lemma {:induction false} EncodeDecode(ws: seq<uint32>)
    ensures WellFormed(Decode(ws).0)
    ensures EncodeAll(Decode(ws).0) <= ws
    ensures Decode(ws).1 ==> EncodeAll(Decode(ws).0) == ws
    ensures !Decode(ws).1 ==> AllComplete(Decode(ws).0) && Stops(ws, |EncodeAll(Decode(ws).0)|)
    decreases |ws|
  {
    hide WriteWord, IsWriteWord, WriteReg, WriteCount, Front, EncodeAll;
    EncodeNothing();
    if ws != [] && !Unrecognised(ws[0]) {
      var p := Front(ws);
      var tail := ws[|p.Encode()|..];
      var ps := Decode(tail).0;
      EncodeDecode(tail);
      if !p.Complete() { DecodeNothing(tail); }
      WellFormedCons(p, ps);
      EncodeFirst(p, ps);
      PrefixConcat(p.Encode(), EncodeAll(ps), tail, ws);
    }
  }

  predicate Stops(ws: seq<uint32>, n: nat) { n < |ws| && Unrecognised(ws[n]) }

  lemma PrefixConcat(a: seq<uint32>, b: seq<uint32>, tail: seq<uint32>, ws: seq<uint32>)
    requires a <= ws && tail == ws[|a|..] && b <= tail
    ensures a + b <= ws && (b == tail ==> a + b == ws)
    ensures Stops(tail, |b|) ==> Stops(ws, |a + b|)
  {
  }

  lemma DecodeNothing(ws: seq<uint32>)
    requires ws == []
    ensures Decode(ws) == ([], true)
  {
  }

  lemma WellFormedCons(p: Packet, ps: seq<Packet>)
    requires p.Valid() && WellFormed(ps) && (p.Complete() || ps == [])
    ensures WellFormed([p] + ps)
    ensures AllComplete(ps) && p.Complete() ==> AllComplete([p] + ps)
  {
    var all := [p] + ps;
    assert forall k :: 0 < k < |all| ==> all[k] == ps[k - 1];
  }

  // ---------------------------------------------------------------- the whole header

  predicate PreambleWord(w: uint32) { w == W_DUMMY || w == W_BYTEORD || w == W_BUSWIDTH }

  predicate IsPreamble(ws: seq<uint32>) {
    forall k :: 0 <= k < |ws| ==> PreambleWord(ws[k])
  }

  /** The number of dummy and bus words at the start. */
  function PreambleLength(ws: seq<uint32>): (n: nat)
    ensures n <= |ws| && IsPreamble(ws[..n]) && (n < |ws| ==> !PreambleWord(ws[n]))
  {
    if ws == [] || !PreambleWord(ws[0]) then 0
    else
      var n := PreambleLength(ws[1..]);
      assert ws[..1 + n] == [ws[0]] + ws[1..][..n];
      1 + n
  }

  predicate BusDetected(preamble: seq<uint32>) { W_BYTEORD in preamble && W_BUSWIDTH in preamble }

  /** The header as a reader of packet lists sees it: the result code and the parameters. */
  function Parse(ws: seq<uint32>): (r: (int, ImageParams)) {
    var n := PreambleLength(ws);
    if n < |ws| && ws[n] != W_SYNCWORD then (EINVAL, NoParams)
    else if !BusDetected(ws[..n]) then (EINVAL, NoParams)
    else
      var (ps, ok) := Decode(if n < |ws| then ws[n + 1..] else []);
      (if !ok then EINVAL else if Identifies(ps) then 0 else ENOENT, Meaning(ps))
  }

  function Header(preamble: seq<uint32>, ps: seq<Packet>): seq<uint32>
    requires WellFormed(ps)
  {
    preamble + [W_SYNCWORD] + EncodeAll(ps)
  }

  lemma {:induction false} PreambleOf(preamble: seq<uint32>, rest: seq<uint32>)
    requires IsPreamble(preamble) && (rest != [] ==> !PreambleWord(rest[0]))
    ensures PreambleLength(preamble + rest) == |preamble|
  {
    if preamble == [] {
      assert preamble + rest == rest;
    } else {
      assert (preamble + rest)[1..] == preamble[1..] + rest;
      PreambleOf(preamble[1..], rest);
    }
  }

  /** Serialise any preamble and packet list and parse the result: the last word written to each
      identifying register comes back, IPROG is seen exactly if some command word asks for it, and the
      header is accepted exactly if both bus words preceded the sync word and both IDCODE and WBSTAR
      are written. */
  lemma ParseHeaderList(preamble: seq<uint32>, ps: seq<Packet>)
    requires IsPreamble(preamble) && WellFormed(ps)
    ensures Parse(Header(preamble, ps)) ==
      if !BusDetected(preamble) then (EINVAL, NoParams)
      else (if Identifies(ps) then 0 else ENOENT, Meaning(ps))
  {
    hide EncodeAll, Decode, Meaning, WordsFor, BusDetected, PreambleLength, IsPreamble;
    var ws, n, body := Header(preamble, ps), |preamble|, EncodeAll(ps);
    assert ws == preamble + ([W_SYNCWORD] + body);
    PreambleOf(preamble, [W_SYNCWORD] + body);
    assert ws[..n] == preamble && ws[n + 1..] == body;
    DecodeEncode(ps, []);
    assert body + [] == body;
  }

  /** Conversely every accepted header is the serialisation of a preamble with both bus words and a
      packet list that writes IDCODE and WBSTAR. */
  lemma AcceptedIsHeader(ws: seq<uint32>) returns (preamble: seq<uint32>, ps: seq<Packet>)
    requires Parse(ws).0 == 0
    ensures IsPreamble(preamble) && WellFormed(ps) && ws == Header(preamble, ps)
    ensures BusDetected(preamble) && Identifies(ps) && Parse(ws).1 == Meaning(ps)
  {
    hide Parse, Decode, EncodeAll, Meaning, WordsFor;
    AcceptedShape(ws);
    var n := PreambleLength(ws);
    var rest := ws[n + 1..];
    preamble, ps := ws[..n], Decode(rest).0;
    EncodeDecode(rest);
    assert ws == ws[..n] + [ws[n]] + rest;
  }

  lemma NothingIdentified()
    ensures !Identifies([])
  {
  }

  lemma AcceptedShape(ws: seq<uint32>)
    requires Parse(ws).0 == 0
    ensures var n := PreambleLength(ws);
      && n < |ws| && ws[n] == W_SYNCWORD && BusDetected(ws[..n])
      && var (ps, ok) := Decode(ws[n + 1..]);
      && ok && Identifies(ps) && Parse(ws).1 == Meaning(ps)
  {
    hide Meaning, BusDetected, Decode, WordsFor, PreambleLength, IsPreamble;
    DecodeNothing([]);
    NothingIdentified();
  }

  /** A header that is all 0xff, as after an erase, is rejected. */
  lemma BlankRejected(ws: seq<uint32>)
    requires forall k :: 0 <= k < |ws| ==> ws[k] == W_DUMMY
    ensures Parse(ws) == (EINVAL, NoParams)
  {
    var n := PreambleLength(ws);
    assert W_BYTEORD !in ws[..n];
  }

  // ---------------------------------------------------------------- the parser

  lemma WordsForPush(ps: seq<Packet>, p: Packet, reg: nat)
    ensures WordsFor(ps + [p], reg) == WordsFor(ps, reg) + (if p.Write? && p.reg == reg then p.data else [])
  {
    assert (ps + [p])[..|ps|] == ps;
  }

  /** One more data word for the last write. */
  lemma MeaningGrow(ps: seq<Packet>, reg: uint16, count: byte, data: seq<uint32>, w: uint32)
    ensures var was, now := Meaning(ps + [Write(reg, count, data)]), Meaning(ps + [Write(reg, count, data + [w])]);
      now == (if reg == REG_IDCODE then was.(devid := w)
              else if reg == REG_WBSTAR then was.(wbstar := w)
              else if reg == REG_CMD then was.(iprog := was.iprog || w == CMD_IPROG)
              else if reg == REG_AXSS then was.(usrAccess2 := w)
              else was)
    ensures forall r :: (WordsFor(ps + [Write(reg, count, data + [w])], r) ==
                         WordsFor(ps + [Write(reg, count, data)], r) + (if r == reg then [w] else []))
  {
    forall r
      ensures WordsFor(ps + [Write(reg, count, data + [w])], r) ==
        WordsFor(ps + [Write(reg, count, data)], r) + (if r == reg then [w] else [])
    {
      WordsForPush(ps, Write(reg, count, data), r);
      WordsForPush(ps, Write(reg, count, data + [w]), r);
    }
  }

  /** A packet without data changes nothing. */
  lemma MeaningSame(ps: seq<Packet>, p: Packet)
    requires p.Write? ==> p.data == []
    ensures Meaning(ps + [p]) == Meaning(ps) && (Identifies(ps + [p]) <==> Identifies(ps))
  {
    forall r ensures WordsFor(ps + [p], r) == WordsFor(ps, r) { WordsForPush(ps, p, r); }
  }

  /** What the block state machine has established after reading `words`. */
  predicate Tracks(words: seq<uint32>, ps: seq<Packet>, stat: ImageParams, devidFound: bool, wbstarFound: bool) {
    && words == EncodeAll(ps)
    && stat == Meaning(ps)
    && (devidFound <==> WordsFor(ps, REG_IDCODE) != [])
    && (wbstarFound <==> WordsFor(ps, REG_WBSTAR) != [])
  }

  lemma TracksNext(words: seq<uint32>, ps: seq<Packet>, stat: ImageParams, df: bool, wf: bool, w: uint32, p: Packet)
    requires Tracks(words, ps, stat, df, wf)
    requires p.Encode() == [w] && (p.Write? ==> p.data == [])
    ensures Tracks(words + [w], ps + [p], stat, df, wf)
  {
    assert (ps + [p])[..|ps|] == ps;
    MeaningSame(ps, p);
    WordsForPush(ps, p, REG_IDCODE);
    WordsForPush(ps, p, REG_WBSTAR);
  }

  lemma TracksData(words: seq<uint32>, ps: seq<Packet>, stat: ImageParams, df: bool, wf: bool, w: uint32,
                   reg: uint16, count: byte, data: seq<uint32>)
    requires Tracks(words, ps + [Write(reg, count, data)], stat, df, wf)
    ensures Tracks(words + [w], ps + [Write(reg, count, data + [w])],
                   if reg == REG_IDCODE then stat.(devid := w)
                   else if reg == REG_WBSTAR then stat.(wbstar := w)
                   else if reg == REG_CMD then stat.(iprog := stat.iprog || w == CMD_IPROG)
                   else if reg == REG_AXSS then stat.(usrAccess2 := w)
                   else stat,
                   df || reg == REG_IDCODE, wf || reg == REG_WBSTAR)
  {
    hide Meaning, WordsFor;
    var p, q := Write(reg, count, data), Write(reg, count, data + [w]);
    MeaningGrow(ps, reg, count, data, w);
    assert (ps + [p])[..|ps|] == ps && (ps + [q])[..|ps|] == ps;
    assert q.Encode() == p.Encode() + [w];
    assert EncodeAll(ps + [q]) == EncodeAll(ps + [p]) + [w];
  }

  lemma TracksResult(words: seq<uint32>, ps: seq<Packet>, stat: ImageParams, df: bool, wf: bool, rest: seq<uint32>)
    requires Tracks(words, ps, stat, df, wf) && WellFormed(ps)
    requires rest != [] ==> AllComplete(ps) && Unrecognised(rest[0])
    ensures Decode(words + rest) == (ps, rest == []) && stat == Meaning(ps) && (Identifies(ps) <==> df && wf)
  {
    DecodeEncode(ps, rest);
  }

  /** xlnx_btstrm_parse_header; `mem` holds the words after their byte swap. */
  method ParseHeader(mem: seq<uint32>) returns (res: int, stat: ImageParams)
    ensures (res, stat) == Parse(mem)
  {
    var ptr, len := 0, |mem|;
    var devidFound, wbstarFound := false, false;
    stat := NoParams;

    var boSeen, bwSeen, synced := false, false, false;
    while ptr < len
      invariant 0 <= ptr <= len && IsPreamble(mem[..ptr]) && !synced
      invariant boSeen <==> W_BYTEORD in mem[..ptr]
      invariant bwSeen <==> W_BUSWIDTH in mem[..ptr]
    {
      var w := mem[ptr];
      if w == W_DUMMY {
      } else if w == W_BYTEORD {
        boSeen := true;
      } else if w == W_BUSWIDTH {
        bwSeen := true;
      } else {
        PreambleOf(mem[..ptr], mem[ptr..]);
        assert mem == mem[..ptr] + mem[ptr..];
        if w != W_SYNCWORD { return EINVAL, stat; }
        synced := true;
        break;
      }
      ptr := ptr + 1;
    }
    ghost var n := ptr;
    if !synced {
      PreambleOf(mem, []);
      assert mem == mem + [] && mem[..n] == mem;
    } else {
      ptr := ptr + 1;
    }
    assert PreambleLength(mem) == n;
    if !boSeen || !bwSeen { return EINVAL, stat; }
    res, stat := ParseBlocks(mem, ptr);
    assert (if n < |mem| then mem[n + 1..] else []) == mem[ptr..];
  }

  /** The block state machine of the parser, from word `start` on. */
  method ParseBlocks(mem: seq<uint32>, start: nat) returns (res: int, stat: ImageParams)
    requires start <= |mem|
    ensures var (ps, ok) := Decode(mem[start..]);
      res == (if !ok then EINVAL else if Identifies(ps) then 0 else ENOENT) && stat == Meaning(ps)
  {
    hide Decode, EncodeAll, Meaning, WordsFor, IsWriteWord, WriteReg, WriteCount, WriteWord;
    var ptr, len := start, |mem|;
    var devidFound, wbstarFound := false, false;
    stat := NoParams;
    var inParam, blkPcount: nat := false, 0;
    var inDevid, inWbstar, inIcmd, inAxss := false, false, false, false;
    ghost var done: seq<Packet>, reg: uint16, count: byte, data: seq<uint32> := [], 0, 0, [];
    TracksNothing();
    assert mem[start..ptr] == [];
    while ptr < len
      invariant start <= ptr <= len
      invariant AllComplete(done)
      invariant !inParam ==> Tracks(mem[start..ptr], done, stat, devidFound, wbstarFound)
      invariant inParam ==>
        && |data| < count && blkPcount == count - |data|
        && inDevid == (reg == REG_IDCODE) && inWbstar == (reg == REG_WBSTAR)
        && inIcmd == (reg == REG_CMD) && inAxss == (reg == REG_AXSS)
        && Tracks(mem[start..ptr], done + [Write(reg, count, data)], stat, devidFound, wbstarFound)
    {
      var w := mem[ptr];
      assert mem[start..ptr + 1] == mem[start..ptr] + [w];
      if inParam {
        TracksData(mem[start..ptr], done, stat, devidFound, wbstarFound, w, reg, count, data);
        blkPcount := blkPcount - 1;
        if blkPcount == 0 { inParam := false; }
        if inDevid {
          stat := stat.(devid := w);
          devidFound := true;
        } else if inWbstar {
          stat := stat.(wbstar := w);
          wbstarFound := true;
        } else if inIcmd {
          if w == CMD_IPROG { stat := stat.(iprog := true); }
        } else if inAxss {
          stat := stat.(usrAccess2 := w);
        }
        data := data + [w];
        if !inParam {
          AllCompletePush(done, Write(reg, count, data));
          done := done + [Write(reg, count, data)];
        }
      } else if w == W_NOP {
        TracksNext(mem[start..ptr], done, stat, devidFound, wbstarFound, w, Nop);
        AllCompletePush(done, Nop);
        done := done + [Nop];
      } else if w / 0x100_0000 == 0x30 {
        var blkParam := w / 0x100 % 0x1_0000;
        blkPcount := w % 0x100;
        WriteWordOf(w, blkParam, blkPcount);
        TracksNext(mem[start..ptr], done, stat, devidFound, wbstarFound, w, Write(blkParam, blkPcount, []));
        if blkPcount > 0 {
          inParam := true;
          inDevid := blkParam == REG_IDCODE;
          inWbstar := blkParam == REG_WBSTAR;
          inIcmd := blkParam == REG_CMD;
          inAxss := blkParam == REG_AXSS;
          reg, count, data := blkParam, blkPcount, [];
        } else {
          AllCompletePush(done, Write(blkParam, 0, []));
          done := done + [Write(blkParam, 0, [])];
        }
      } else {
        UnrecognisedWord(w);
        TracksResult(mem[start..ptr], done, stat, devidFound, wbstarFound, mem[ptr..]);
        assert mem[start..] == mem[start..ptr] + mem[ptr..];
        return EINVAL, stat;
      }
      ptr := ptr + 1;
    }
    assert mem[start..] == mem[start..ptr] + [];
    ghost var ps := if inParam then done + [Write(reg, count, data)] else done;
    TracksResult(mem[start..ptr], ps, stat, devidFound, wbstarFound, []);
    res := if devidFound && wbstarFound then 0 else ENOENT;
  }

  lemma TracksNothing()
    ensures Tracks([], [], NoParams, false, false)
  {
  }

  lemma WriteWordOf(w: uint32, reg: uint16, count: byte)
    requires w / 0x100_0000 == 0x30 && reg == w / 0x100 % 0x1_0000 && count == w % 0x100
    ensures Write(reg, count, []).Encode() == [w]
  {
    WriteWordUnique(w);
  }

  lemma UnrecognisedWord(w: uint32)
    requires w / 0x100_0000 != 0x30 && w != W_NOP
    ensures Unrecognised(w)
  {
  }

  lemma AllCompletePush(ps: seq<Packet>, p: Packet)
    requires AllComplete(ps) && p.Valid() && p.Complete()
    ensures AllComplete(ps + [p])
  {
  }

  /** The words of a byte buffer, most significant byte first. */
  function Words(bytes: seq<byte>): (ws: seq<uint32>)
    ensures |ws| == |bytes| / 4
  {
    seq(|bytes| / 4, i requires 0 <= i < |bytes| / 4 =>
      BigEndian(bytes[4 * i], bytes[4 * i + 1], bytes[4 * i + 2], bytes[4 * i + 3]))
  }

  function BigEndian(b0: int, b1: int, b2: int, b3: int): uint32
    requires 0 <= b0 < 0x100 && 0 <= b1 < 0x100 && 0 <= b2 < 0x100 && 0 <= b3 < 0x100
  {
    b0 * 0x100_0000 + b1 * 0x1_0000 + b2 * 0x100 + b3
  }

  /** An erased header page is no header. */
  lemma BlankPageRejected(bytes: seq<byte>)
    requires forall k :: 0 <= k < |bytes| ==> bytes[k] == 0xff
    ensures Parse(Words(bytes)) == (EINVAL, NoParams)
  {
    BlankRejected(Words(bytes));
  }

  // ---------------------------------------------------------------- headers in bytes

  /** A word as the file has it, most significant byte first. */
  function WordBytes(w: uint32): (bs: seq<byte>)
    ensures |bs| == 4
  {
    [w / 0x100_0000, w / 0x1_0000 % 0x100, w / 0x100 % 0x100, w % 0x100]
  }

  function AllBytes(ws: seq<uint32>): (bs: seq<byte>)
    ensures |bs| == 4 * |ws|
  {
    if ws == [] then [] else AllBytes(ws[..|ws| - 1]) + WordBytes(ws[|ws| - 1])
  }

  lemma {:induction false} AllBytesAt(ws: seq<uint32>, i: nat)
    requires i < |ws|
    ensures AllBytes(ws)[4 * i..4 * i + 4] == WordBytes(ws[i])
    decreases |ws|
  {
    hide WordBytes;
    var n := |ws| - 1;
    var front, last := AllBytes(ws[..n]), WordBytes(ws[n]);
    if i < n {
      AllBytesAt(ws[..n], i);
      assert (front + last)[4 * i..4 * i + 4] == front[4 * i..4 * i + 4];
    } else {
      assert (front + last)[4 * n..4 * n + 4] == last;
    }
  }

  lemma BytesOfWord(w: uint32)
    ensures var b := WordBytes(w); BigEndian(b[0], b[1], b[2], b[3]) == w
  {
    var p, q := w / 0x100, w / 0x1_0000;
    DivUnique(w, 0x1_0000, p / 0x100, p % 0x100 * 0x100 + w % 0x100);
    DivUnique(w, 0x100_0000, q / 0x100, q % 0x100 * 0x1_0000 + w % 0x1_0000);
  }

  lemma WordsOfBytes(ws: seq<uint32>)
    ensures Words(AllBytes(ws)) == ws
  {
    hide BigEndian, WordBytes, AllBytes;
    var bs := AllBytes(ws);
    forall i | 0 <= i < |ws| ensures Words(bs)[i] == ws[i] {
      AllBytesAt(ws, i);
      BytesOfWord(ws[i]);
      var b := bs[4 * i..4 * i + 4];
      assert b[0] == bs[4 * i] && b[1] == bs[4 * i + 1] && b[2] == bs[4 * i + 2] && b[3] == bs[4 * i + 3];
    }
  }

  /** A type-1 packet that writes `count` words to the configuration register at address `a`: bits 31 to
      29 are 001, 28 and 27 are 10, the address starts at bit 13. */
  function Type1Write(a: nat, count: byte): (w: uint32)
    requires a < 32
  {
    1 * 0x2000_0000 + 2 * 0x800_0000 + a * 0x2000 + count
  }

  lemma Type1IsWriteWord(a: nat, count: byte)
    requires a < 32
    ensures a * 0x20 < 0x1_0000 && WriteWord(a * 0x20, count) == Type1Write(a, count)
  {
  }

  /** The registers by their addresses: CMD is 4, IDCODE 12, AXSS 13 and WBSTAR 16; IPROG is command 15. */
  lemma Registers(ps: seq<Packet>)
    ensures Meaning(ps).devid == LastOr0(WordsFor(ps, 12 * 0x20))
    ensures Meaning(ps).wbstar == LastOr0(WordsFor(ps, 16 * 0x20))
    ensures Meaning(ps).usrAccess2 == LastOr0(WordsFor(ps, 13 * 0x20))
    ensures Meaning(ps).iprog <==> 15 in WordsFor(ps, 4 * 0x20)
    ensures Identifies(ps) <==> WordsFor(ps, 12 * 0x20) != [] && WordsFor(ps, 16 * 0x20) != []
  {
  }

  /** The accepted headers, in full: dummy words and the two bus words, each of these at least once, then the
      sync word, then NOPs and register writes (the last one may be cut short) among which the device and
      the boot address get a value. */
  lemma AcceptedIff(ws: seq<uint32>)
    ensures Parse(ws).0 == 0 <==> exists preamble, ps :: Frames(ws, preamble, ps)
  {
    hide Parse, EncodeAll, WordsFor, Meaning;
    if Parse(ws).0 == 0 {
      var preamble, ps := AcceptedIsHeader(ws);
      Registers(ps);
      assert Frames(ws, preamble, ps);
    }
    forall preamble, ps | Frames(ws, preamble, ps) ensures Parse(ws).0 == 0 {
      Registers(ps);
      ParseHeaderList(preamble, ps);
    }
  }

  predicate Frames(ws: seq<uint32>, preamble: seq<uint32>, ps: seq<Packet>) {
    && (forall k :: 0 <= k < |preamble| ==> preamble[k] in {0xffff_ffff, 0x0000_00bb, 0x1122_0044})
    && 0x0000_00bb in preamble && 0x1122_0044 in preamble
    && (forall k :: 0 <= k < |ps| && ps[k].Write? ==>
          if k == |ps| - 1 then |ps[k].data| <= ps[k].count else |ps[k].data| == ps[k].count)
    && ws == preamble + [0xaa99_5566] + EncodeAll(ps)
    && WordsFor(ps, 12 * 0x20) != [] && WordsFor(ps, 16 * 0x20) != []
  }

  /** A header of the usual shape, word by word: any device, boot address and user word, with IPROG or
      another command in its place. */
  function UsualHeader(devid: uint32, wbstar: uint32, access: uint32, cmd: uint32): seq<uint32> {
    [0xffff_ffff, 0x0000_00bb, 0x1122_0044, 0xffff_ffff, 0xaa99_5566, 0x2000_0000,
     Type1Write(12, 1), devid, Type1Write(16, 1), wbstar, Type1Write(13, 1), access, Type1Write(4, 1), cmd]
  }

  /** Its bytes are read back as those fields. */
  lemma UsualHeaderParses(devid: uint32, wbstar: uint32, access: uint32, cmd: uint32)
    ensures Parse(Words(AllBytes(UsualHeader(devid, wbstar, access, cmd)))) ==
      (0, ImageParams(devid, wbstar, access, cmd == 15))
  {
    hide Parse, Words, AllBytes, WordsFor, EncodeAll, WellFormed, IsPreamble, BusDetected, WriteWord, Type1Write;
    var preamble := [W_DUMMY, W_BYTEORD, W_BUSWIDTH, W_DUMMY];
    var ps := [Nop, Write(12 * 0x20, 1, [devid]), Write(16 * 0x20, 1, [wbstar]), Write(13 * 0x20, 1, [access]),
               Write(4 * 0x20, 1, [cmd])];
    WordsOfBytes(UsualHeader(devid, wbstar, access, cmd));
    UsualPackets(preamble, ps, devid, wbstar, access, cmd);
    ParseHeaderList(preamble, ps);
    Registers(ps);
  }

  lemma UsualPackets(preamble: seq<uint32>, ps: seq<Packet>, devid: uint32, wbstar: uint32, access: uint32, cmd: uint32)
    requires preamble == [W_DUMMY, W_BYTEORD, W_BUSWIDTH, W_DUMMY]
    requires ps == [Nop, Write(12 * 0x20, 1, [devid]), Write(16 * 0x20, 1, [wbstar]), Write(13 * 0x20, 1, [access]),
                    Write(4 * 0x20, 1, [cmd])]
    ensures IsPreamble(preamble) && BusDetected(preamble) && WellFormed(ps)
    ensures Header(preamble, ps) == UsualHeader(devid, wbstar, access, cmd)
    ensures WordsFor(ps, 12 * 0x20) == [devid] && WordsFor(ps, 16 * 0x20) == [wbstar]
    ensures WordsFor(ps, 13 * 0x20) == [access] && WordsFor(ps, 4 * 0x20) == [cmd]
  {
    hide EncodeAll, WordsFor, Packet.Encode, Type1Write, WordsOf;
    assert preamble[1] == W_BYTEORD && preamble[2] == W_BUSWIDTH;
    EncodeFive(ps[0], ps[1], ps[2], ps[3], ps[4]);
    EncodeNop();
    EncodeOne(12, devid);
    EncodeOne(16, wbstar);
    EncodeOne(13, access);
    EncodeOne(4, cmd);
    UsualWords(ps[0], ps[1], ps[2], ps[3], ps[4],
               12 * 0x20, devid, 16 * 0x20, wbstar, 13 * 0x20, access, 4 * 0x20, cmd);
  }

  lemma UsualWords(a: Packet, b: Packet, c: Packet, d: Packet, e: Packet,
                   i: uint16, x: uint32, j: uint16, y: uint32, k: uint16, z: uint32, l: uint16, v: uint32)
    requires a.Nop? && b == Write(i, 1, [x]) && c == Write(j, 1, [y]) && d == Write(k, 1, [z]) && e == Write(l, 1, [v])
    requires i != j && i != k && i != l && j != k && j != l && k != l
    ensures WordsFor([a, b, c, d, e], i) == [x] && WordsFor([a, b, c, d, e], j) == [y]
    ensures WordsFor([a, b, c, d, e], k) == [z] && WordsFor([a, b, c, d, e], l) == [v]
  {
    hide WordsFor;
    WordsForFive(a, b, c, d, e, i);
    WordsForFive(a, b, c, d, e, j);
    WordsForFive(a, b, c, d, e, k);
    WordsForFive(a, b, c, d, e, l);
  }

  lemma EncodeNop()
    ensures Nop.Encode() == [W_NOP]
  {
  }

  lemma EncodeOne(a: nat, w: uint32)
    requires a < 32
    ensures a * 0x20 < 0x1_0000 && Write(a * 0x20, 1, [w]).Encode() == [Type1Write(a, 1), w]
  {
    Type1IsWriteWord(a, 1);
  }

  lemma EncodePush(ps: seq<Packet>, p: Packet)
    ensures EncodeAll(ps + [p]) == EncodeAll(ps) + p.Encode()
  {
    hide Packet.Encode;
    assert (ps + [p])[..|ps|] == ps;
  }

  lemma EncodeFive(a: Packet, b: Packet, c: Packet, d: Packet, e: Packet)
    ensures EncodeAll([a, b, c, d, e]) == a.Encode() + b.Encode() + c.Encode() + d.Encode() + e.Encode()
  {
    hide Packet.Encode, EncodeAll;
    EncodeNothing();
    EncodePush([], a);
    EncodePush([a], b);
    EncodePush([a, b], c);
    EncodePush([a, b, c], d);
    EncodePush([a, b, c, d], e);
    assert [] + [a] == [a] && [a] + [b] == [a, b] && [a, b] + [c] == [a, b, c] && [a, b, c] + [d] == [a, b, c, d];
    assert [a, b, c, d] + [e] == [a, b, c, d, e] && [] + a.Encode() == a.Encode();
  }

  function WordsOf(p: Packet, reg: nat): seq<uint32> { if p.Write? && p.reg == reg then p.data else [] }

  lemma WordsForMore(ps: seq<Packet>, p: Packet, reg: nat)
    ensures WordsFor(ps + [p], reg) == WordsFor(ps, reg) + WordsOf(p, reg) && WordsFor([], reg) == []
  {
    WordsForPush(ps, p, reg);
  }

  lemma WordsForFive(a: Packet, b: Packet, c: Packet, d: Packet, e: Packet, reg: nat)
    ensures WordsFor([a, b, c, d, e], reg) ==
      WordsOf(a, reg) + WordsOf(b, reg) + WordsOf(c, reg) + WordsOf(d, reg) + WordsOf(e, reg)
  {
    hide WordsFor, WordsOf;
    WordsForMore([], a, reg);
    WordsForMore([a], b, reg);
    WordsForMore([a, b], c, reg);
    WordsForMore([a, b, c], d, reg);
    WordsForMore([a, b, c, d], e, reg);
    assert [] + [a] == [a] && [a] + [b] == [a, b] && [a, b] + [c] == [a, b, c] && [a, b, c] + [d] == [a, b, c, d];
    assert [a, b, c, d] + [e] == [a, b, c, d, e] && [] + WordsOf(a, reg) == WordsOf(a, reg);
  }

  // ---------------------------------------------------------------- which image may replace which

  /** The same device; a golden image must chain to the master image at `wbstar`; a master image must name
      no other image and be the one the golden image in flash names. */
  predicate Replaceable(golden: ImageParams, image: ImageParams, wbstar: uint32, goldenImage: bool) {
    && golden.devid == image.devid
    && (if goldenImage then image.wbstar == wbstar && image.iprog
        else image.wbstar == 0 && golden.wbstar == wbstar && wbstar != 0)
  }

  /** Where the device goes on from an image: IPROG starts over at the address in WBSTAR. */
  function Jump(image: ImageParams): Option<uint32> { if image.iprog then Some(image.wbstar) else None }

  /** A golden image may be written exactly if it fits the device and jumps to the master image; a master
      image exactly if it fits the device, has no address in it, and stands where the golden image points. */
  lemma ReplaceableIff(golden: ImageParams, image: ImageParams, wbstar: uint32)
    ensures Replaceable(golden, image, wbstar, true) <==> golden.devid == image.devid && Jump(image) == Some(wbstar)
    ensures Replaceable(golden, image, wbstar, false) <==>
      golden.devid == image.devid && image.wbstar == 0 && wbstar != 0 &&
      (Jump(golden) == Some(wbstar) || (!golden.iprog && golden.wbstar == wbstar))
  {
  }

  /** The check does not look at IPROG in a master image: one that passes ends the boot chain exactly if
      it has none, and otherwise starts over at the golden image. */
  lemma MasterEndsChainIff(golden: ImageParams, image: ImageParams, wbstar: uint32)
    requires Replaceable(golden, image, wbstar, false)
    ensures Jump(image) == None <==> !image.iprog
    ensures image.iprog ==> Jump(image) == Some(0)
  {
  }

  /** xlnx_btstrm_iprgcheck. */
  method CheckImage(golden: ImageParams, image: ImageParams, wbstar: uint32, goldenImage: bool) returns (res: int)
    ensures res == if Replaceable(golden, image, wbstar, goldenImage) then 0 else EINVAL
    ensures res == 0 && goldenImage ==> image.devid == golden.devid && Jump(image) == Some(wbstar)
    ensures res == 0 && !goldenImage ==>
      image.devid == golden.devid && image.wbstar == 0 && golden.wbstar == wbstar && wbstar != 0
    ensures image.devid == golden.devid && goldenImage && Jump(image) == Some(wbstar) ==> res == 0
    ensures image.devid == golden.devid && !goldenImage && image.wbstar == 0 && golden.wbstar == wbstar != 0 ==>
      res == 0
  {
    if golden.devid != image.devid { return EINVAL; }
    if image.wbstar == wbstar && !goldenImage { return EINVAL; }
    if goldenImage && (image.wbstar != wbstar || !image.iprog) { return EINVAL; }
    if !goldenImage && image.wbstar != 0 { return EINVAL; }
    if !goldenImage && golden.wbstar != wbstar { return EINVAL; }
    res := 0;
  }
}
