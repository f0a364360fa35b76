/** The 64-byte control packets of LimeSDR boards: a byte string is cut into packets, byte-swapped as the
    command asks for, and read back. */
module Lms64c {
  import opened Bits
  import opened Wrappers

  const DATA_LENGTH := 56

  const CMD_SI5356_WR: byte := 0x11
  const CMD_SI5351_WR: byte := 0x13
  const CMD_LMS7002_WR: byte := 0x21
  const CMD_LMS7002_RD: byte := 0x22
  const CMD_ADF4002_WR: byte := 0x31
  const CMD_BRDSPI_WR: byte := 0x55
  const CMD_BRDSPI_RD: byte := 0x56
  const CMD_BRDSPI8_RD: byte := 0x58
  const CMD_ANALOG_VAL_WR: byte := 0x61
  const CMD_ANALOG_VAL_RD: byte := 0x62

  // ---------------------------------------------------------------- the tables

  function BlockRatio(cmd: byte): (r: nat)
    ensures 1 <= r <= 4
  {
    if cmd == CMD_SI5351_WR || cmd == CMD_SI5356_WR || cmd == CMD_LMS7002_RD || cmd == CMD_BRDSPI_RD ||
       cmd == CMD_BRDSPI8_RD then 2
    else if cmd == CMD_ADF4002_WR then 3
    else if cmd == CMD_LMS7002_WR || cmd == CMD_BRDSPI_WR || cmd == CMD_ANALOG_VAL_WR then 4
    else 1
  }

  function MaxData(cmd: byte): (r: nat)
    ensures r == 14 || r == 28 || r == 56
  {
    if cmd == CMD_LMS7002_RD || cmd == CMD_BRDSPI_RD then DATA_LENGTH / 2
    else if cmd == CMD_ANALOG_VAL_RD then DATA_LENGTH / 4
    else DATA_LENGTH
  }

  datatype Modifier = Plain | Int16 | Int32

  function ModifierOf(cmd: byte): Modifier {
    if cmd == CMD_LMS7002_WR || cmd == CMD_BRDSPI_WR then Int32
    else if cmd == CMD_LMS7002_RD || cmd == CMD_BRDSPI_RD then Int16
    else Plain
  }

  /** Whether a reply holds 16-bit data in 32-bit words. */
  predicate WordReply(cmd: byte) { cmd == CMD_LMS7002_RD || cmd == CMD_BRDSPI_RD }

  function WordSize(m: Modifier): (r: nat)
    ensures r > 0
  {
    match m
    case Plain => 1
    case Int16 => 2
    case Int32 => 4
  }

  /** The commands by their numbers. Whatever is swapped word by word is counted in words as well. */
  lemma Tables(cmd: byte)
    ensures BlockRatio(cmd) ==
      if cmd in {0x11, 0x13, 0x22, 0x56, 0x58} then 2 else if cmd == 0x31 then 3
      else if cmd in {0x21, 0x55, 0x61} then 4 else 1
    ensures MaxData(cmd) == if cmd in {0x22, 0x56} then 28 else if cmd == 0x62 then 14 else 56
    ensures WordSize(ModifierOf(cmd)) == if cmd in {0x21, 0x55} then 4 else if cmd in {0x22, 0x56} then 2 else 1
    ensures WordReply(cmd) <==> cmd in {0x22, 0x56}
    ensures !ModifierOf(cmd).Plain? ==> BlockRatio(cmd) == WordSize(ModifierOf(cmd))
  {
  }

  // ---------------------------------------------------------------- packets

  datatype Packet =
    Packet(cmd: byte, status: byte, blockCount: byte, periphID: byte, reserved: seq<byte>, data: seq<byte>)
  {
    predicate Valid() { |reserved| == 4 && |data| == DATA_LENGTH }
  }

  /** The mirror image of place `i` in its word. */
  function Mirror(word: nat, i: nat): (r: nat)
    requires word > 0
  {
    i / word * word + (word - 1 - i % word)
  }

  /** How many packets it takes, and how many bytes go into packet `k`. */
  function Count(length: nat, max: nat): nat
    requires max > 0
  {
    (length + max - 1) / max
  }

  function Part(length: nat, max: nat, k: nat): nat {
    if length <= k * max then 0 else if length - k * max > max then max else length - k * max
  }

  function ByteAt(d: seq<byte>, i: nat): byte { if i < |d| then d[i] else 0 }

  /** The payload for `n` bytes of `d` from `off` on: mirrored word by word, then zeros. */
  ghost predicate IsPayload(x: seq<byte>, d: seq<byte>, off: nat, n: nat, m: Modifier) {
    && |x| == DATA_LENGTH && n <= DATA_LENGTH
    && (forall i :: 0 <= i < n ==> x[i] == ByteAt(d, off + Mirror(WordSize(m), i)))
    && (forall i :: n <= i < DATA_LENGTH ==> x[i] == 0)
  }

  /** Packet `k` of a byte string holds its k-th part. Without data it keeps what was there. */
  ghost predicate IsPacket(p: Packet, before: Packet, k: nat, cmd: byte, status: byte, id: byte,
                           data: Option<seq<byte>>, length: nat)
    requires before.Valid()
  {
    var max, m := MaxData(cmd), ModifierOf(cmd);
    var n := Part(length, max, k);
    && p.Valid() && p.cmd == cmd && p.status == status && p.periphID == id && p.reserved == [0, 0, 0, 0]
    && p.blockCount == n / BlockRatio(cmd)
    && (match data
        case None => p.data == before.data[..n] + seq(DATA_LENGTH - n, _ => 0)
        case Some(d) => IsPayload(p.data, d, k * max, n, m))
  }

  /** The payload loops and the clearing of the tail. The word loops handle whole words only. */
  method Payload(before: seq<byte>, d: seq<byte>, off: nat, n: nat, m: Modifier) returns (x: seq<byte>)
    requires |before| == DATA_LENGTH && n <= DATA_LENGTH && off + n <= |d| && n % WordSize(m) == 0
    ensures IsPayload(x, d, off, n, m)
  {
    hide Mirror;
    x := before;
    var i := 0;
    match m {
      case Int32 =>
        while i < n
          invariant 0 <= i <= n && i % 4 == 0 && |x| == DATA_LENGTH
          invariant forall j :: 0 <= j < i ==> x[j] == ByteAt(d, off + Mirror(4, j))
        {
          Word32(i, n);
          x := x[i := d[off + i + 3]][i + 1 := d[off + i + 2]][i + 2 := d[off + i + 1]][i + 3 := d[off + i]];
          i := i + 4;
        }
      case Int16 =>
        while i < n
          invariant 0 <= i <= n && i % 2 == 0 && |x| == DATA_LENGTH
          invariant forall j :: 0 <= j < i ==> x[j] == ByteAt(d, off + Mirror(2, j))
        {
          Word16(i, n);
          x := x[i := d[off + i + 1]][i + 1 := d[off + i]];
          i := i + 2;
        }
      case Plain =>
        while i < n
          invariant 0 <= i <= n && |x| == DATA_LENGTH
          invariant forall j :: 0 <= j < i ==> x[j] == ByteAt(d, off + Mirror(1, j))
        {
          Word8(i);
          x := x[i := d[off + i]];
          i := i + 1;
        }
    }
    x := x[..n] + seq(DATA_LENGTH - n, _ => 0);
  }

  lemma Word32(i: nat, n: nat)
    requires i % 4 == 0 && n % 4 == 0 && i < n
    ensures i + 4 <= n && Mirror(4, i) == i + 3 && Mirror(4, i + 1) == i + 2 && Mirror(4, i + 2) == i + 1
    ensures Mirror(4, i + 3) == i
  {
  }

  lemma Word16(i: nat, n: nat)
    requires i % 2 == 0 && n % 2 == 0 && i < n
    ensures i + 2 <= n && Mirror(2, i) == i + 1 && Mirror(2, i + 1) == i
  {
  }

  lemma Word8(i: nat)
    ensures Mirror(1, i) == i
  {
  }

  /** The body of the packet loop. */
  method OnePacket(before: Packet, k: nat, cmd: byte, status: byte, id: byte, data: Option<seq<byte>>, length: nat,
                   n: nat, off: nat) returns (p: Packet)
    requires before.Valid() && n == Part(length, MaxData(cmd), k) && off == k * MaxData(cmd) && off + n <= length
    requires data.Some? ==> length <= |data.value| && length % WordSize(ModifierOf(cmd)) == 0
    ensures p.Valid() && IsPacket(p, before, k, cmd, status, id, data, length)
  {
    hide Mirror, IsPayload, BlockRatio, ModifierOf;
    var payload;
    match data {
      case None => payload := before.data[..n] + seq(DATA_LENGTH - n, _ => 0);
      case Some(d) =>
        PartWords(length, k, cmd);
        payload := Payload(before.data, d, off, n, ModifierOf(cmd));
        PayloadLength(payload, d, off, n, ModifierOf(cmd));
    }
    BlockCountFits(n, BlockRatio(cmd));
    p := Packet(cmd, status, n / BlockRatio(cmd), id, [0, 0, 0, 0], payload);
  }

  lemma PayloadLength(x: seq<byte>, d: seq<byte>, off: nat, n: nat, m: Modifier)
    requires IsPayload(x, d, off, n, m)
    ensures |x| == DATA_LENGTH
  {
  }

  /** lms64c_fill_packet: the packets that fit are filled; the result is their number if all of the data
      found room. Commands that swap words take whole words. */
  method FillPacket(cmd: byte, status: byte, id: byte, data: Option<seq<byte>>, length: nat, out: array<Packet>)
    returns (r: int)
    requires forall k :: 0 <= k < out.Length ==> out[k].Valid()
    requires data.Some? ==> length <= |data.value| && length % WordSize(ModifierOf(cmd)) == 0
    modifies out
    ensures forall k :: 0 <= k < out.Length && k < Count(length, MaxData(cmd)) ==>
      IsPacket(out[k], old(out[k]), k, cmd, status, id, data, length)
    ensures forall k :: Count(length, MaxData(cmd)) <= k < out.Length ==> out[k] == old(out[k])
    ensures forall k :: 0 <= k < out.Length && k < Count(length, MaxData(cmd)) ==>
      && out[k].cmd == cmd && out[k].status == status && out[k].periphID == id && out[k].reserved == [0, 0, 0, 0]
      && |out[k].data| == 56
    ensures r == if Count(length, MaxData(cmd)) <= out.Length then Count(length, MaxData(cmd)) else -1
  {
    hide Mirror, IsPayload, IsPacket, Count, BlockRatio, MaxData, ModifierOf;
    var maxdata := MaxData(cmd);
    var remaining, k, off := length, 0, 0;
    while k < out.Length && remaining != 0
      invariant 0 <= k <= out.Length && remaining == length - off && 0 <= off <= length
      invariant if k * maxdata <= length then off == k * maxdata else off == length && (k - 1) * maxdata < length
      invariant remaining == 0 ==> k * maxdata >= length && (k > 0 ==> (k - 1) * maxdata < length)
      invariant forall j :: 0 <= j < k ==> IsPacket(out[j], old(out[j]), j, cmd, status, id, data, length)
      invariant forall j :: k <= j < out.Length ==> out[j] == old(out[j])
    {
      var n := if remaining > maxdata then maxdata else remaining;
      out[k] := OnePacket(out[k], k, cmd, status, id, data, length, n, off);
      assert (k + 1) * maxdata == k * maxdata + maxdata;
      k, remaining, off := k + 1, remaining - n, off + n;
    }
    CountWhere(length, maxdata, k, remaining == 0);
    forall j | 0 <= j < k { PacketHead(out[j], old(out[j]), j, cmd, status, id, data, length); }
    r := if remaining == 0 then k else -1;
  }

  lemma PacketHead(p: Packet, before: Packet, k: nat, cmd: byte, status: byte, id: byte, data: Option<seq<byte>>,
                   length: nat)
    requires before.Valid() && IsPacket(p, before, k, cmd, status, id, data, length)
    ensures p.cmd == cmd && p.status == status && p.periphID == id && p.reserved == [0, 0, 0, 0] && |p.data| == 56
  {
    hide IsPayload;
  }

  lemma BlockCountFits(n: nat, ratio: nat)
    requires n <= DATA_LENGTH && 1 <= ratio <= 4
    ensures 0 <= n / ratio < 256
  {
  }

  /** Every part is whole words if the length is. */
  lemma PartWords(length: nat, k: nat, cmd: byte)
    requires length % WordSize(ModifierOf(cmd)) == 0
    ensures Part(length, MaxData(cmd), k) % WordSize(ModifierOf(cmd)) == 0
  {
    var max, w := MaxData(cmd), WordSize(ModifierOf(cmd));
    var c := max / w;
    assert max == c * w;
    if length > k * max {
      assert k * (c * w) == (k * c) * w;
      Distribute(length / w, k * c, w);
      DivUnique(length - k * max, w, length / w - k * c, 0);
      DivUnique(max, w, c, 0);
    }
  }

  lemma CountWhere(length: nat, max: nat, k: nat, finished: bool)
    requires max > 0
    requires finished ==> k * max >= length && (k > 0 ==> (k - 1) * max < length)
    requires !finished ==> k * max < length
    ensures if finished then Count(length, max) == k else Count(length, max) > k
  {
    if finished {
      assert k > 0 ==> (k - 1) * max == k * max - max;
      DivUnique(length + max - 1, max, k, length + max - 1 - k * max);
    } else {
      var c := (length + max - 1) / max;
      if c <= k {
        assert c * max <= k * max by { MulMono(c, k, max); }
      }
    }
  }

  // ---------------------------------------------------------------- replies

  predicate AllValid(ps: seq<Packet>) { forall k :: 0 <= k < |ps| ==> ps[k].Valid() }

  /** Byte `p` of a reply: the packets' data one after the other, or the low halves of 32-bit words. */
  function ReplyByte(cmd: byte, ps: seq<Packet>, p: nat): byte
    requires AllValid(ps)
  {
    if WordReply(cmd) then
      if ps != [] then ByteAt(ps[0].data, 4 * (p / 2) + 3 - p % 2) else 0
    else if p / DATA_LENGTH < |ps| then ps[p / DATA_LENGTH].data[p % DATA_LENGTH] else 0
  }

  /** The sixteen-bit values of a word reply, least significant byte first, are the low halves of the
      packet's words, which have the most significant byte first. */
  lemma WordReplyValue(cmd: byte, ps: seq<Packet>, k: nat)
    requires AllValid(ps) && ps != [] && (cmd == 0x22 || cmd == 0x56) && k < 14
    ensures var d: seq<int> := ps[0].data;
      var word := d[4 * k] * 0x100_0000 + d[4 * k + 1] * 0x1_0000 + d[4 * k + 2] * 0x100 + d[4 * k + 3];
      ReplyByte(cmd, ps, 2 * k) + ReplyByte(cmd, ps, 2 * k + 1) * 0x100 == word % 0x1_0000
  {
    DivUnique(2 * k, 2, k, 0);
    DivUnique(2 * k + 1, 2, k, 1);
    var d: seq<int> := ps[0].data;
    var high, low := d[4 * k] * 0x100 + d[4 * k + 1], d[4 * k + 2] * 0x100 + d[4 * k + 3];
    DivUnique(high * 0x1_0000 + low, 0x1_0000, high, low);
  }

  /** lms64c_parse_packet. The word form reads whole words of one packet only. */
  method ParsePacket(cmd: byte, input: seq<Packet>, data: array<byte>, length: nat) returns (r: int)
    requires AllValid(input) && length <= data.Length
    requires WordReply(cmd) ==> length <= DATA_LENGTH / 2 && length % 2 == 0
    modifies data
    ensures r == if length <= DATA_LENGTH * |input| then 0 else -1
    ensures forall p :: 0 <= p < length && p < DATA_LENGTH * |input| ==> data[p] == ReplyByte(cmd, input, p)
    ensures forall p :: 0 <= p < data.Length && (p >= length || p >= DATA_LENGTH * |input|) ==> data[p] == old(data[p])
  {
    hide ReplyByte;
    var i, off, remaining := 0, 0, length;
    while i < |input| && remaining != 0
      invariant 0 <= i <= |input| && remaining == length - off && 0 <= off <= length
      invariant off == if i * DATA_LENGTH < length then i * DATA_LENGTH else length
      invariant forall p :: 0 <= p < off ==> data[p] == ReplyByte(cmd, input, p)
      invariant forall p :: off <= p < data.Length ==> data[p] == old(data[p])
    {
      var bsz := if remaining > DATA_LENGTH then DATA_LENGTH else remaining;
      ParsePart(cmd, input, i, data, off, bsz);
      off, remaining, i := off + bsz, remaining - bsz, i + 1;
    }
    r := if remaining == 0 then 0 else -1;
  }

  /** The part of one packet. */
  method ParsePart(cmd: byte, input: seq<Packet>, i: nat, data: array<byte>, off: nat, bsz: nat)
    requires AllValid(input) && i < |input| && off == i * DATA_LENGTH && bsz <= DATA_LENGTH && off + bsz <= data.Length
    requires WordReply(cmd) ==> i == 0 && bsz <= DATA_LENGTH / 2 && bsz % 2 == 0
    modifies data
    ensures forall p :: off <= p < off + bsz ==> data[p] == ReplyByte(cmd, input, p)
    ensures forall p :: 0 <= p < data.Length && !(off <= p < off + bsz) ==> data[p] == old(data[p])
  {
    var d := input[i].data;
    var j := 0;
    if WordReply(cmd) {
      while j < bsz
        invariant 0 <= j <= bsz && j % 2 == 0
        invariant forall p :: off <= p < off + j ==> data[p] == ReplyByte(cmd, input, p)
        invariant forall p :: 0 <= p < data.Length && !(off <= p < off + j) ==> data[p] == old(data[p])
      {
        data[off + j] := d[2 * (j + 1) + 1];
        data[off + j + 1] := d[2 * (j + 1)];
        j := j + 2;
      }
    } else {
      while j < bsz
        invariant 0 <= j <= bsz
        invariant forall p :: off <= p < off + j ==> data[p] == ReplyByte(cmd, input, p)
        invariant forall p :: 0 <= p < data.Length && !(off <= p < off + j) ==> data[p] == old(data[p])
      {
        Place(i, j);
        data[off + j] := d[j];
        j := j + 1;
      }
    }
  }

  lemma Place(i: nat, j: nat)
    requires j < DATA_LENGTH
    ensures (i * DATA_LENGTH + j) / DATA_LENGTH == i && (i * DATA_LENGTH + j) % DATA_LENGTH == j
  {
    DivUnique(i * DATA_LENGTH + j, DATA_LENGTH, i, j);
  }

  // ---------------------------------------------------------------- there and back

  /** What lms64c_fill_packet makes of `d`. */
  ghost predicate Filled(ps: seq<Packet>, before: seq<Packet>, cmd: byte, status: byte, id: byte, d: seq<byte>) {
    && AllValid(ps) && AllValid(before) && |ps| == |before| == Count(|d|, MaxData(cmd))
    && |d| % WordSize(ModifierOf(cmd)) == 0
    && forall k :: 0 <= k < |ps| ==> IsPacket(ps[k], before[k], k, cmd, status, id, Some(d), |d|)
  }

  lemma PartOf(length: nat, max: nat, p: nat)
    requires max > 0 && p < length
    ensures p / max < Count(length, max) && p % max < Part(length, max, p / max) <= max && p == p / max * max + p % max
  {
    var q := p / max;
    Distribute(length, length, max);
    if Count(length, max) <= q {
      var c := Count(length, max);
      assert c * max <= q * max by { MulMono(c, q, max); }
    }
  }

  lemma MirrorIn(word: nat, i: nat, n: nat)
    requires word > 0 && n % word == 0 && i < n
    ensures Mirror(word, i) < n && Mirror(word, Mirror(word, i)) == i
  {
    var q, r := i / word, i % word;
    DivUnique(Mirror(word, i), word, q, word - 1 - r);
    var m := n / word;
    if q >= m { MulMono(m, q, word); }
    assert q + 1 <= m;
    MulMono(q + 1, m, word);
    assert (q + 1) * word == q * word + word;
  }

  /** Every byte of the data is in its packet, at its mirrored place: nothing is lost or out of order. */
  lemma ByteInPacket(ps: seq<Packet>, before: seq<Packet>, cmd: byte, status: byte, id: byte, d: seq<byte>, p: nat)
    requires Filled(ps, before, cmd, status, id, d) && p < |d|
    ensures var max, w := MaxData(cmd), WordSize(ModifierOf(cmd));
      p / max < |ps| && Mirror(w, p % max) < Part(|d|, max, p / max) && ps[p / max].data[Mirror(w, p % max)] == d[p]
  {
    hide Mirror, Count, MaxData, ModifierOf, BlockRatio;
    var max, w := MaxData(cmd), WordSize(ModifierOf(cmd));
    var k := p / max;
    PartOf(|d|, max, p);
    PartWords(|d|, k, cmd);
    MirrorIn(w, p % max, Part(|d|, max, k));
    assert IsPacket(ps[k], before[k], k, cmd, status, id, Some(d), |d|);
  }

  /** The blocks that the packets say they hold. */
  function Blocks(ps: seq<Packet>): nat {
    if ps == [] then 0 else Blocks(ps[..|ps| - 1]) + ps[|ps| - 1].blockCount
  }

  /** The blocks of all packets add up to the data exactly if the data are whole blocks and no packet but
      the last ends within one: of the commands only 0x31, with blocks of three bytes, has such packets. */
  lemma BlocksAddUpIff(ps: seq<Packet>, before: seq<Packet>, cmd: byte, status: byte, id: byte, d: seq<byte>)
    requires Filled(ps, before, cmd, status, id, d)
    ensures Blocks(ps) * BlockRatio(cmd) == |d| <==> |d| % BlockRatio(cmd) == 0 && (cmd != 0x31 || |d| <= 56)
  {
    hide IsPacket, IsPayload, Count, WordSize, ModifierOf, BlockRatio, MaxData, Blocks;
    var n, ratio, max := |ps|, BlockRatio(cmd), MaxData(cmd);
    assert ps[..n] == ps;
    CountBounds(|d|, max);
    BlocksSoFar(ps, before, cmd, status, id, d, n);
    RatioFits(cmd);
    if cmd == 0x31 && |d| > 56 { assert n >= 2 by { if n <= 1 { MulMono(n, 1, max); } } }
  }

  lemma RatioFits(cmd: byte)
    ensures cmd != 0x31 ==> MaxData(cmd) % BlockRatio(cmd) == 0
    ensures cmd == 0x31 ==> MaxData(cmd) == 56 && BlockRatio(cmd) == 3
  {
  }

  lemma CountBounds(length: nat, max: nat)
    requires max > 0
    ensures Count(length, max) * max >= length && (length > 0 ==> (Count(length, max) - 1) * max < length)
  {
    var c := Count(length, max);
    assert length + max - 1 == c * max + (length + max - 1) % max;
    assert (c - 1) * max == c * max - max;
  }

  /** What `n` packets may say they hold: at most the bytes up to there, all of them if those are whole
      blocks, and less if a full packet is not. */
  predicate SaysAtMost(sum: nat, length: nat, max: nat, ratio: nat, n: nat)
    requires ratio > 0
  {
    var upTo := if n * max < length then n * max else length;
    && sum <= upTo
    && (length % ratio == 0 && (max % ratio == 0 || length <= max) ==> sum == upTo)
    && (max % ratio != 0 && max < length && n > 0 ==> sum < upTo)
  }

  lemma {:induction false} BlocksSoFar(ps: seq<Packet>, before: seq<Packet>, cmd: byte, status: byte, id: byte,
                                       d: seq<byte>, n: nat)
    requires Filled(ps, before, cmd, status, id, d) && n <= |ps|
    ensures SaysAtMost(Blocks(ps[..n]) * BlockRatio(cmd), |d|, MaxData(cmd), BlockRatio(cmd), n)
    decreases n
  {
    hide IsPacket, Count, WordSize, ModifierOf, BlockRatio, MaxData, Part, SaysAtMost;
    var max, ratio := MaxData(cmd), BlockRatio(cmd);
    if n == 0 {
      assert ps[..0] == [];
      NothingSaid(|d|, max, ratio);
    } else {
      BlocksSoFar(ps, before, cmd, status, id, d, n - 1);
      assert ps[..n][..n - 1] == ps[..n - 1] && ps[..n][n - 1] == ps[n - 1];
      BlockCountOf(ps[n - 1], before[n - 1], n - 1, cmd, status, id, d);
      SaysMore(Blocks(ps[..n - 1]), |d|, max, ratio, n - 1);
    }
  }

  lemma NothingSaid(length: nat, max: nat, ratio: nat)
    requires ratio > 0
    ensures SaysAtMost(0 * ratio, length, max, ratio, 0)
  {
  }

  lemma SaysMore(blocks: nat, length: nat, max: nat, ratio: nat, k: nat)
    requires max > 0 && ratio > 0 && SaysAtMost(blocks * ratio, length, max, ratio, k)
    ensures SaysAtMost((blocks + Part(length, max, k) / ratio) * ratio, length, max, ratio, k + 1)
  {
    hide Part;
    PartBlocks(length, max, ratio, k);
    var more := Part(length, max, k) / ratio;
    assert (blocks + more) * ratio == blocks * ratio + more * ratio;
  }

  lemma BlockCountOf(p: Packet, before: Packet, k: nat, cmd: byte, status: byte, id: byte, d: seq<byte>)
    requires before.Valid() && IsPacket(p, before, k, cmd, status, id, Some(d), |d|)
    ensures p.blockCount == Part(|d|, MaxData(cmd), k) / BlockRatio(cmd)
  {
    hide IsPayload;
  }

  lemma PartBlocks(length: nat, max: nat, ratio: nat, k: nat)
    requires max > 0 && ratio > 0
    ensures var part, upTo := Part(length, max, k), if k * max < length then k * max else length;
      && part / ratio * ratio <= part
      && (if (k + 1) * max < length then (k + 1) * max else length) == upTo + part
      && (length % ratio == 0 && (max % ratio == 0 || length <= max) ==> part / ratio * ratio == part)
      && (k == 0 && max < length && max % ratio != 0 ==> part / ratio * ratio < part)
  {
    var part := Part(length, max, k);
    PartEnds(length, max, k);
    RoundedDown(part, ratio);
    if length % ratio == 0 && max % ratio == 0 { WholePart(length, max, ratio, k); }
  }

  lemma PartEnds(length: nat, max: nat, k: nat)
    requires max > 0
    ensures var part, upTo := Part(length, max, k), if k * max < length then k * max else length;
      && (if (k + 1) * max < length then (k + 1) * max else length) == upTo + part
      && (length <= max ==> part == 0 || part == length) && (k == 0 && max < length ==> part == max)
  {
    assert (k + 1) * max == k * max + max;
    if k > 0 { MulMono(1, k, max); }
  }

  lemma RoundedDown(x: nat, d: nat)
    requires d > 0
    ensures x / d * d <= x && (x % d == 0 <==> x / d * d == x)
  {
    assert x == x / d * d + x % d;
  }

  lemma WholePart(length: nat, max: nat, ratio: nat, k: nat)
    requires ratio > 0 && length % ratio == 0 && max % ratio == 0
    ensures Part(length, max, k) % ratio == 0
  {
    var a, b := length / ratio, max / ratio;
    assert length == a * ratio && max == b * ratio;
    assert k * (b * ratio) == (k * b) * ratio;
    if k * max < length {
      Distribute(a, k * b, ratio);
      DivUnique(length - k * max, ratio, a - k * b, 0);
    }
  }

  /** Parsing after filling, for the commands that fill whole packets: every word comes back mirrored; a
      byte is its own mirror image, so without a modifier it is the identity. */
  lemma ParseOfFill(ps: seq<Packet>, before: seq<Packet>, cmd: byte, status: byte, id: byte, d: seq<byte>, p: nat)
    requires Filled(ps, before, cmd, status, id, d) && p < |d| && MaxData(cmd) == DATA_LENGTH
    ensures Mirror(WordSize(ModifierOf(cmd)), p) < |d|
    ensures ReplyByte(cmd, ps, p) == d[Mirror(WordSize(ModifierOf(cmd)), p)]
    ensures ModifierOf(cmd).Plain? ==> ReplyByte(cmd, ps, p) == d[p]
  {
    hide Mirror, Count, ModifierOf, BlockRatio, IsPacket, WordSize;
    var w := WordSize(ModifierOf(cmd));
    var q := Mirror(w, p);
    MirrorIn(w, p, |d|);
    ByteInPacket(ps, before, cmd, status, id, d, q);
    MirrorPart(w, p, ModifierOf(cmd));
    if ModifierOf(cmd).Plain? { OneByteWord(ModifierOf(cmd)); Word8(p); }
  }

  lemma OneByteWord(m: Modifier)
    requires m.Plain?
    ensures WordSize(m) == 1
  {
  }

  /** Mirroring stays in the packet. */
  lemma MirrorPart(w: nat, p: nat, m: Modifier)
    requires w == WordSize(m)
    ensures Mirror(w, p) / DATA_LENGTH == p / DATA_LENGTH
    ensures Mirror(w, Mirror(w, p) % DATA_LENGTH) == p % DATA_LENGTH
  {
    match m
    case Plain => MirrorInPart(1, 56, p);
    case Int16 => MirrorInPart(2, 28, p);
    case Int32 => MirrorInPart(4, 14, p);
  }

  lemma MirrorInPart(w: nat, c: nat, p: nat)
    requires w > 0 && c * w == DATA_LENGTH
    ensures Mirror(w, p) / DATA_LENGTH == p / DATA_LENGTH
    ensures Mirror(w, Mirror(w, p) % DATA_LENGTH) == p % DATA_LENGTH
  {
    hide Mirror;
    var k, i := p / DATA_LENGTH, p % DATA_LENGTH;
    assert p == (k * c) * w + i by { assert k * (c * w) == (k * c) * w; }
    DivUnique(DATA_LENGTH, w, c, 0);
    MirrorSum(w, k * c, i);
    MirrorIn(w, i, DATA_LENGTH);
    Place(k, Mirror(w, i));
  }

  lemma MirrorSum(w: nat, c: nat, i: nat)
    requires w > 0
    ensures Mirror(w, c * w + i) == c * w + Mirror(w, i)
  {
    assert (c + i / w) * w == c * w + i / w * w;
    DivUnique(c * w + i, w, c + i / w, i % w);
  }

  /** A command with smaller packets: within one packet the data come back ... */
  lemma ParseOfSmallFill(ps: seq<Packet>, before: seq<Packet>, cmd: byte, status: byte, id: byte, d: seq<byte>, p: nat)
    requires Filled(ps, before, cmd, status, id, d) && ModifierOf(cmd).Plain? && p < |d| <= MaxData(cmd)
    ensures ReplyByte(cmd, ps, p) == d[p]
  {
    hide Mirror, Count, ModifierOf, BlockRatio, IsPacket, WordSize;
    ByteInPacket(ps, before, cmd, status, id, d, p);
    OneByteWord(ModifierOf(cmd));
    Word8(p);
    DivUnique(p, MaxData(cmd), 0, p);
    PlainReply(cmd);
  }

  lemma PlainReply(cmd: byte)
    requires ModifierOf(cmd).Plain?
    ensures !WordReply(cmd)
  {
  }

  /** ... and the first byte of the second packet does not: the reader finds the clear tail of the first. */
  lemma ParseOfCutFill(ps: seq<Packet>, before: seq<Packet>, cmd: byte, status: byte, id: byte, d: seq<byte>)
    requires Filled(ps, before, cmd, status, id, d) && ModifierOf(cmd).Plain? && MaxData(cmd) < DATA_LENGTH
    requires MaxData(cmd) < |d|
    ensures ReplyByte(cmd, ps, MaxData(cmd)) == 0
  {
    hide Mirror, ModifierOf, BlockRatio;
    PlainReply(cmd);
    PartOf(|d|, MaxData(cmd), 0);
    assert IsPacket(ps[0], before[0], 0, cmd, status, id, Some(d), |d|);
    assert Part(|d|, MaxData(cmd), 0) == MaxData(cmd);
  }

  /** The other commands bring the bytes back in another order or from another place: of data that start
      with 1 and are zero otherwise the first byte comes back as 0. */
  lemma ParseOfMirrored(ps: seq<Packet>, before: seq<Packet>, cmd: byte, status: byte, id: byte, d: seq<byte>)
    requires Filled(ps, before, cmd, status, id, d) && !ModifierOf(cmd).Plain? && d != []
    requires forall p :: 0 < p < |d| ==> d[p] == 0
    ensures ReplyByte(cmd, ps, 0) == 0
  {
    if ModifierOf(cmd).Int32? {
      ParseOfFill(ps, before, cmd, status, id, d, 0);
    } else {
      PartOf(|d|, MaxData(cmd), 0);
      assert IsPacket(ps[0], before[0], 0, cmd, status, id, Some(d), |d|);
    }
  }

  /** Data can be filled in, whatever they are. */
  lemma FillExists(cmd: byte, status: byte, id: byte, d: seq<byte>) returns (ps: seq<Packet>, before: seq<Packet>)
    requires |d| % WordSize(ModifierOf(cmd)) == 0
    ensures Filled(ps, before, cmd, status, id, d)
  {
    hide Mirror, Count, ModifierOf, BlockRatio, WordSize;
    var max, m, n := MaxData(cmd), ModifierOf(cmd), Count(|d|, MaxData(cmd));
    var none := Packet(0, 0, 0, 0, [0, 0, 0, 0], seq(DATA_LENGTH, _ => 0));
    before := seq(n, _ => none);
    ps := [];
    for k := 0 to n
      invariant |ps| == k && AllValid(ps)
      invariant forall j :: 0 <= j < k ==> IsPacket(ps[j], before[j], j, cmd, status, id, Some(d), |d|)
    {
      var size := Part(|d|, max, k);
      var x: seq<byte> := seq(DATA_LENGTH, i requires 0 <= i < DATA_LENGTH =>
        if i < size then ByteAt(d, k * max + Mirror(WordSize(m), i)) else 0);
      BlocksFit(size, cmd);
      ps := ps + [Packet(cmd, status, size / BlockRatio(cmd), id, [0, 0, 0, 0], x)];
    }
  }

  lemma BlocksFit(size: nat, cmd: byte)
    requires size <= DATA_LENGTH
    ensures 0 <= size / BlockRatio(cmd) < 256
  {
  }

  /** All the bytes come back. */
  ghost predicate ComesBack(cmd: byte, ps: seq<Packet>, d: seq<byte>) {
    AllValid(ps) && forall p :: 0 <= p < |d| ==> ReplyByte(cmd, ps, p) == d[p]
  }

  /** Parsing undoes filling for all data of a length exactly if there are none, or the command has no
      modifier and fills whole packets or needs only one. */
  lemma RoundTripIff(cmd: byte, status: byte, id: byte, length: nat)
    requires length % WordSize(ModifierOf(cmd)) == 0
    ensures (forall ps, before, d :: |d| == length && Filled(ps, before, cmd, status, id, d) ==>
               ComesBack(cmd, ps, d)) <==>
      length == 0 || (ModifierOf(cmd).Plain? && (MaxData(cmd) == DATA_LENGTH || length <= MaxData(cmd)))
  {
    hide ReplyByte, ModifierOf, MaxData, IsPacket, Count, WordSize;
    var max := MaxData(cmd);
    if length == 0 || (ModifierOf(cmd).Plain? && (max == DATA_LENGTH || length <= max)) {
      forall ps, before, d | |d| == length && Filled(ps, before, cmd, status, id, d) ensures ComesBack(cmd, ps, d) {
        forall p | 0 <= p < |d| ensures ReplyByte(cmd, ps, p) == d[p] {
          if max == DATA_LENGTH { ParseOfFill(ps, before, cmd, status, id, d, p); }
          else { ParseOfSmallFill(ps, before, cmd, status, id, d, p); }
        }
      }
    } else {
      var lost := if ModifierOf(cmd).Plain? then max else 0;
      var d: seq<byte> := seq(length, p => if p == lost then 1 else 0);
      var ps, before := FillExists(cmd, status, id, d);
      if ModifierOf(cmd).Plain? { ParseOfCutFill(ps, before, cmd, status, id, d); }
      else { ParseOfMirrored(ps, before, cmd, status, id, d); }
      assert ReplyByte(cmd, ps, lost) != d[lost];
      assert !ComesBack(cmd, ps, d);
    }
  }
}
