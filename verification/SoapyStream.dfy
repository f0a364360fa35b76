/** Reading a sample stream through Soapy: whole packets come in, any number of samples goes out. When
    the caller's read size is not the packet size, a byte ring per channel sits in between. */
module SoapyStream {
  import opened Bits
  import opened Wrappers
  import opened RingCircbuf

  /** One answer of usdr_dms_recv: whether it brought a packet, and the bytes it left in each channel's
      buffer. A failed receive may leave anything there. */
  datatype Event = Event(ok: bool, data: seq<seq<byte>>)

  /** One packet of `pktbytes` for each channel. */
  ghost predicate Fits(e: Event, channels: nat, pktbytes: nat) {
    |e.data| == channels && forall c :: 0 <= c < channels ==> |e.data[c]| == pktbytes
  }

  /** The samples of channel `c` among the first `n` answers. */
  ghost function Arrived(script: nat -> Event, n: nat, c: nat): seq<byte> {
    if n == 0 then []
    else
      var e := script(n - 1);
      Arrived(script, n - 1, c) + if e.ok && c < |e.data| then e.data[c] else []
  }

  /** Every receive from `from` on and before `to` brought a packet. */
  ghost predicate AllOk(script: nat -> Event, from: nat, to: nat) { forall t: nat :: from <= t < to ==> script(t).ok }

  // ---------------------------------------------------------------- how much fits

  /** How full the ring gets when packets of `p` bytes are taken in until `req` bytes are there. */
  function FillAfter(fill: nat, req: nat, p: nat): (r: nat)
    requires p > 0
    ensures if fill >= req then r == fill else fill + p <= r && req <= r < req + p
  {
    if fill >= req then fill
    else
      CeilBounds(req - fill, p);
      fill + (req - fill + p - 1) / p * p
  }

  lemma CeilBounds(n: nat, p: nat)
    requires p > 0 && n > 0
    ensures n <= (n + p - 1) / p * p < n + p && p <= (n + p - 1) / p * p
  {
    var q := (n + p - 1) / p;
    assert n + p - 1 == q * p + (n + p - 1) % p;
    AtLeastOneMultiple(q, p);
  }

  /** It is what the packets amount to one at a time. */
  lemma FillStep(fill: nat, req: nat, p: nat)
    requires p > 0 && fill < req
    ensures FillAfter(fill, req, p) == FillAfter(fill + p, req, p)
  {
    var n := req - fill;
    if n <= p {
      DivUnique(n + p - 1, p, 1, n - 1);
    } else {
      var q := (n - 1) / p;
      assert (q + 1) * p == q * p + p;
      DivUnique(n + p - 1, p, q + 1, (n - 1) % p);
    }
  }

  /** Exactly these reads find room however full the ring is. */
  lemma FitsAnyLevelIff(req: nat, p: nat, size: nat)
    requires p > 0
    ensures (forall fill: nat :: fill <= size ==> FillAfter(fill, req, p) <= size) <==> req + p <= size + 1 || req == 0
  {
    hide FillAfter;
    if req > 0 && req + p > size + 1 {
      var fill := if req - 1 <= size then req - 1 else size;
      assert FillAfter(fill, req, p) > size;
    }
  }

  /** If the ring would get too full, then some packet comes in while more is wanted and finds too
      little room; by WrittenLoses it destroys the oldest unread byte. */
  lemma {:induction false} FillTooMuch(fill: nat, req: nat, p: nat, size: nat) returns (packets: nat)
    requires p > 0 && fill <= size < FillAfter(fill, req, p)
    ensures var level := fill + packets * p; level < req && level <= size < level + p
    decreases req - fill
  {
    if fill + p > size {
      packets := 0;
    } else {
      FillStep(fill, req, p);
      var more := FillTooMuch(fill + p, req, p, size);
      packets := more + 1;
      assert packets * p == more * p + p;
    }
  }

  /** The bound of readStream is exact: if a read of `req` bytes would fill the ring `d` above its size,
      then after some `packets` more packets the read still wants more, and the next packet `x`
      replaces the oldest unread byte. */
  lemma ReadTooLarge(d: seq<byte>, r: nat, w: nat, req: nat, x: seq<byte>) returns (packets: nat)
    requires |d| > 0 && r <= w <= r + |d| && 0 < |x| <= |d| < FillAfter(w - r, req, |x|)
    ensures var level := w - r + packets * |x|;
      && 0 < level < req && level <= |d| < level + |x|
      && Ring(Written(d, r + level, x), r, level)[0] == x[|d| - level]
  {
    hide Ring, Written;
    packets := FillTooMuch(w - r, req, |x|, |d|);
    WrittenLoses(d, r, w + packets * |x|, x);
  }

  /** What the caller has is always the beginning of what arrived. */
  lemma DeliveredIsPrefix(delivered: seq<seq<byte>>, held: seq<seq<byte>>, script: nat -> Event, clock: nat, c: nat)
    requires Fifo(delivered, held, script, clock) && c < |held|
    ensures delivered[c] <= Arrived(script, clock, c)
  {
    assert delivered[c] + held[c] == Arrived(script, clock, c);
  }

  /** The bytes of `n` samples. */
  function SampleBytes(n: nat, pktbytes: nat, pktsyms: nat): nat
    requires pktsyms > 0
  {
    n * pktbytes / pktsyms
  }

  /** `b` bytes are what `n` samples come to, in whole bytes. */
  predicate Covers(b: nat, n: nat, pktbytes: nat, pktsyms: nat) {
    b * pktsyms <= n * pktbytes < (b + 1) * pktsyms
  }

  lemma SampleBytesCover(n: nat, pktbytes: nat, pktsyms: nat)
    requires pktsyms > 0
    ensures Covers(SampleBytes(n, pktbytes, pktsyms), n, pktbytes, pktsyms)
  {
    var x := n * pktbytes;
    var q := x / pktsyms;
    assert x == q * pktsyms + x % pktsyms;
    assert (q + 1) * pktsyms == q * pktsyms + pktsyms;
  }

  /** If a sample has a whole number of bytes, that is its share. */
  lemma WholeSamples(b: nat, n: nat, pktbytes: nat, pktsyms: nat)
    requires pktsyms > 0 && pktbytes % pktsyms == 0 && Covers(b, n, pktbytes, pktsyms)
    ensures b == n * (pktbytes / pktsyms)
  {
    var m := n * (pktbytes / pktsyms);
    assert n * pktbytes == m * pktsyms by { Swap(n, pktsyms, pktbytes / pktsyms); }
    AddProducts(m, 1, pktsyms);
    if b < m { MulMono(b + 1, m, pktsyms); }
    if m < b { MulMono(m + 1, b, pktsyms); }
  }

  /** The caller's buffer starts with the next bytes of the channel, as many as `n` samples come to. */
  ghost predicate HandedOver(was: seq<byte>, now: seq<byte>, buff: seq<byte>, n: nat, pktbytes: nat, pktsyms: nat) {
    |was| <= |now| && |now| - |was| <= |buff| && now == was + buff[..|now| - |was|] &&
    Covers(|now| - |was|, n, pktbytes, pktsyms)
  }

  lemma HandedOverAll(given: seq<seq<byte>>, buffs: seq<array<byte>>, n: nat, pktbytes: nat, pktsyms: nat)
    requires pktsyms > 0 && Wide(buffs, |given|, SampleBytes(n, pktbytes, pktsyms))
    ensures var now := Joined(given, Heads(buffs, SampleBytes(n, pktbytes, pktsyms)));
      forall c :: 0 <= c < |given| ==> HandedOver(given[c], now[c], buffs[c][..], n, pktbytes, pktsyms)
  {
    hide SampleBytes, Covers;
    SampleBytesCover(n, pktbytes, pktsyms);
    var req := SampleBytes(n, pktbytes, pktsyms);
    var now := Joined(given, Heads(buffs, req));
    forall c | 0 <= c < |given| ensures HandedOver(given[c], now[c], buffs[c][..], n, pktbytes, pktsyms) {
      assert now[c] == given[c] + buffs[c][..][..req];
    }
  }

  /** The size in samples that a new ring is given: sixteen packets, doubled until twice the read fits. */
  function BlockSize(pktsyms: nat, n: nat): (r: nat)
    requires pktsyms > 0
    ensures r >= pktsyms * 16 && r >= n * 2 && r % pktsyms == 0
  {
    BlockDoubled(pktsyms, pktsyms * 16, 16, n)
  }

  function BlockDoubled(pktsyms: nat, blksz: nat, packets: nat, n: nat): (r: nat)
    requires pktsyms > 0 && packets > 0 && blksz == pktsyms * packets
    ensures r >= blksz && r >= n * 2 && r % pktsyms == 0
    decreases n * 2 - blksz
  {
    DivUnique(blksz, pktsyms, packets, 0);
    if blksz < n * 2 then BlockDoubled(pktsyms, blksz * 2, packets * 2, n) else blksz
  }

  /** It is the first such doubling. */
  lemma BlockSizeIsFirst(pktsyms: nat, n: nat) returns (k: nat)
    requires pktsyms > 0
    ensures BlockSize(pktsyms, n) == pktsyms * 16 * Pow2(k)
    ensures k > 0 ==> pktsyms * 16 * Pow2(k - 1) < 2 * n
  {
    k := BlockDoubledIsFirst(pktsyms, pktsyms * 16, 16, n);
  }

  lemma {:induction false} BlockDoubledIsFirst(pktsyms: nat, blksz: nat, packets: nat, n: nat) returns (k: nat)
    requires pktsyms > 0 && packets > 0 && blksz == pktsyms * packets
    ensures BlockDoubled(pktsyms, blksz, packets, n) == blksz * Pow2(k)
    ensures k > 0 ==> blksz * Pow2(k - 1) < 2 * n
    decreases n * 2 - blksz
  {
    hide Pow2;
    if blksz < n * 2 {
      assert blksz * 2 == pktsyms * (packets * 2) by { Swap(pktsyms, packets, 2); }
      var j := BlockDoubledIsFirst(pktsyms, blksz * 2, packets * 2, n);
      k := j + 1;
      Doubling(blksz, j);
      if j > 0 { Doubling(blksz, j - 1); } else { Doubling(blksz, 0); }
    } else {
      k := 0;
    }
    Doubling(blksz, 0);
  }

  lemma Doubling(a: nat, j: nat)
    ensures (a * 2) * Pow2(j) == a * Pow2(j + 1) && a * Pow2(0) == a
  {
    Swap(a, 2, Pow2(j));
  }

  /** A ring of `blksz` samples holds whole packets only, and any read of at most half of it finds
      room: the read that made the ring, in particular. */
  lemma BlockFits(pktsyms: nat, pktbytes: nat, blksz: nat, n: nat)
    requires pktsyms > 0 && pktbytes > 0
    requires blksz % pktsyms == 0 && blksz >= pktsyms * 16 && blksz >= n * 2
    ensures var size := SampleBytes(blksz, pktbytes, pktsyms);
      && size == blksz / pktsyms * pktbytes
      && size >= 16 * pktbytes
      && SampleBytes(n, pktbytes, pktsyms) + pktbytes <= size
  {
    var m := blksz / pktsyms;
    assert blksz == m * pktsyms;
    assert blksz * pktbytes == (m * pktbytes) * pktsyms by { Swap(m, pktsyms, pktbytes); }
    DivUnique(blksz * pktbytes, pktsyms, m * pktbytes, 0);
    if m < 16 { MulMono(m, 15, pktsyms); }
    MulMono(16, m, pktbytes);
    MulMono(n * 2, blksz, pktbytes);
    Twice(n * pktbytes, m * pktbytes, pktsyms);
  }

  lemma Twice(x: nat, y: nat, d: nat)
    requires d > 0 && 2 * x <= y * d
    ensures 2 * (x / d) <= y
  {
    var q := x / d;
    assert q * d <= x;
    assert (2 * q) * d == 2 * (q * d);
    if 2 * q > y { MulMono(y + 1, 2 * q, d); }
  }

  /** A packet written at a multiple of its size never passes the end of a ring that holds whole packets. */
  lemma NoCrossing(w: nat, size: nat, p: nat)
    requires p > 0 && size > 0 && w % p == 0 && size % p == 0
    ensures Slot(w, 0, size) + p <= size
  {
    var a, n, q := w / p, size / p, w / size;
    var at := w - q * size;
    assert w == a * p && size == n * p;
    assert at == (a - q * n) * p by {
      assert q * (n * p) == (q * n) * p;
      Distribute(a, q * n, p);
    }
    var k := a - q * n;
    if k >= n { MulMono(n, k, p); } else { MulMono(k, n - 1, p); assert (n - 1) * p == n * p - p; }
  }

  // ---------------------------------------------------------------- the channels together

  ghost predicate Distinct(rings: seq<Circbuf>) {
    forall i, j :: 0 <= i < j < |rings| ==> rings[i] != rings[j] && rings[i].data != rings[j].data
  }

  ghost predicate Apart(rings: seq<Circbuf>, buffs: seq<array<byte>>) {
    && (forall i, j :: 0 <= i < j < |buffs| ==> buffs[i] != buffs[j])
    && (forall i, j :: 0 <= i < |rings| && 0 <= j < |buffs| ==> rings[i].data != buffs[j])
  }

  ghost function Datas(rings: seq<Circbuf>): set<array<byte>> { set c | c in rings :: c.data }

  twostate lemma FreshApart(new rings: seq<Circbuf>, buffs: seq<array<byte>>)
    requires fresh(Datas(rings)) && Apart([], buffs)
    ensures Apart(rings, buffs)
  {
    assert forall c :: c in rings ==> c.data in Datas(rings);
  }

  lemma ApartDatas(rings: seq<Circbuf>, buffs: seq<array<byte>>)
    requires Apart(rings, buffs)
    ensures forall b :: b in buffs ==> b !in Datas(rings)
  {
  }

  /** All channels at the same position of rings of the same size. */
  ghost predicate InStep(rings: seq<Circbuf>, size: nat, w: nat, r: nat)
    reads rings
  {
    && size > 0 && r <= w <= r + size
    && forall i :: 0 <= i < |rings| ==> rings[i].data.Length == size && rings[i].wpos == w && rings[i].rpos == r
  }

  /** The rings are in step and `held` is what is unread in them. */
  ghost predicate Mirrors(rings: seq<Circbuf>, size: nat, w: nat, r: nat, held: seq<seq<byte>>)
    reads rings, Datas(rings)
  {
    && rings != [] && Distinct(rings) && InStep(rings, size, w, r) && |held| == |rings|
    && forall c :: 0 <= c < |rings| ==> held[c] == Ring(rings[c].data[..], r, w - r)
  }

  lemma FirstRing(rings: seq<Circbuf>, size: nat, w: nat, r: nat, held: seq<seq<byte>>)
    requires Mirrors(rings, size, w, r, held)
    ensures rings != [] && rings[0].Valid() && rings[0].data.Length == size && rings[0].wpos == w && rings[0].rpos == r
  {
  }

  /** Nothing is lost, doubled or reordered: on every channel what was delivered, followed by what is
      held, is what arrived. */
  ghost predicate Fifo(delivered: seq<seq<byte>>, held: seq<seq<byte>>, script: nat -> Event, clock: nat) {
    && |delivered| == |held|
    && forall c :: 0 <= c < |held| ==> delivered[c] + held[c] == Arrived(script, clock, c)
  }

  /** `x` joined to every channel. */
  ghost function Joined(held: seq<seq<byte>>, x: seq<seq<byte>>): (r: seq<seq<byte>>)
    requires |x| == |held|
    ensures |r| == |held| && forall c :: 0 <= c < |held| ==> r[c] == held[c] + x[c]
  {
    seq(|held|, c requires 0 <= c < |held| => held[c] + x[c])
  }

  lemma FifoArrives(delivered: seq<seq<byte>>, held: seq<seq<byte>>, script: nat -> Event, clock: nat)
    requires Fifo(delivered, held, script, clock) && |script(clock).data| == |held|
    ensures Fifo(delivered, if script(clock).ok then Joined(held, script(clock).data) else held, script, clock + 1)
  {
    var e := script(clock);
    forall c | 0 <= c < |held|
      ensures Arrived(script, clock + 1, c) == delivered[c] + if e.ok then held[c] + e.data[c] else held[c]
    {
      assert delivered[c] + (held[c] + e.data[c]) == (delivered[c] + held[c]) + e.data[c];
      assert Arrived(script, clock, c) + [] == Arrived(script, clock, c);
    }
  }

  /** The first `sz` bytes of every channel are handed over. */
  lemma FifoLeaves(delivered: seq<seq<byte>>, held: seq<seq<byte>>, script: nat -> Event, clock: nat,
                   out: seq<seq<byte>>, rest: seq<seq<byte>>)
    requires Fifo(delivered, held, script, clock) && |out| == |rest| && held == Joined(out, rest)
    ensures Fifo(Joined(delivered, out), rest, script, clock)
  {
    forall c | 0 <= c < |rest| ensures Joined(delivered, out)[c] + rest[c] == Arrived(script, clock, c) {
      assert (delivered[c] + out[c]) + rest[c] == delivered[c] + (out[c] + rest[c]);
    }
  }

  lemma HeadTail(b: seq<byte>, x: seq<byte>, y: seq<byte>)
    requires b == x + y
    ensures b[..|x|] == x && b[|x|..] == y
  {
  }

  ghost predicate Wide(buffs: seq<array<byte>>, channels: nat, req: nat) {
    |buffs| == channels && forall c :: 0 <= c < channels ==> req <= buffs[c].Length
  }

  ghost function Heads(buffs: seq<array<byte>>, n: nat): (r: seq<seq<byte>>)
    requires forall c :: 0 <= c < |buffs| ==> n <= buffs[c].Length
    reads buffs
    ensures |r| == |buffs| && forall c :: 0 <= c < |buffs| ==> r[c] == buffs[c][..n]
  {
    seq(|buffs|, c requires 0 <= c < |buffs| reads buffs => buffs[c][..n])
  }

  ghost function Tails(buffs: seq<array<byte>>, n: nat): (r: seq<seq<byte>>)
    requires forall c :: 0 <= c < |buffs| ==> n <= buffs[c].Length
    reads buffs
    ensures |r| == |buffs| && forall c :: 0 <= c < |buffs| ==> r[c] == buffs[c][n..]
  {
    seq(|buffs|, c requires 0 <= c < |buffs| reads buffs => buffs[c][n..])
  }

  /** Takes `sz` bytes out of one ring. */
  method ReadOne(ring: Circbuf, buff: array<byte>, sz: nat)
    requires ring.Valid() && sz <= ring.wpos - ring.rpos && sz <= buff.Length && buff != ring.data
    modifies ring`rpos, buff
    ensures ring.rpos == old(ring.rpos) + sz
    ensures buff[..] == Ring(ring.data[..], old(ring.rpos), sz) + old(buff[sz..])
  {
    hide Ring;
    RingSplit(ring.data[..], ring.rpos, ring.wpos - ring.rpos, sz);
    ring.Read(buff, sz);
  }

  lemma OthersApart(rings: seq<Circbuf>, buffs: seq<array<byte>>, k: nat)
    requires Distinct(rings) && Apart(rings, buffs) && k < |rings| == |buffs|
    ensures forall i :: 0 <= i < |rings| ==>
      rings[i].data != buffs[k] && (i != k ==> rings[i] != rings[k] && buffs[i] != buffs[k])
  {
  }

  /** Takes `sz` bytes out of every ring. */
  method ReadEach(rings: seq<Circbuf>, buffs: seq<array<byte>>, sz: nat, ghost size: nat, ghost w: nat, ghost r: nat)
    requires Distinct(rings) && Apart(rings, buffs) && InStep(rings, size, w, r)
    requires |buffs| == |rings| && sz <= w - r && forall i :: 0 <= i < |buffs| ==> sz <= buffs[i].Length
    modifies rings, buffs
    ensures InStep(rings, size, w, r + sz)
    ensures forall i :: 0 <= i < |rings| ==>
      && rings[i].data[..] == old(rings[i].data[..])
      && buffs[i][..] == Ring(rings[i].data[..], r, sz) + old(buffs[i][sz..])
  {
    hide Ring, Distinct, Apart;
    var k := 0;
    while k < |rings|
      invariant 0 <= k <= |rings|
      invariant forall i :: 0 <= i < |rings| ==> rings[i].data[..] == old(rings[i].data[..]) && rings[i].wpos == w
      invariant forall i :: 0 <= i < |rings| ==> rings[i].rpos == if i < k then r + sz else r
      invariant forall i :: 0 <= i < k ==> buffs[i][..] == Ring(rings[i].data[..], r, sz) + old(buffs[i][sz..])
      invariant forall i :: k <= i < |rings| ==> buffs[i][..] == old(buffs[i][..])
    {
      assert buffs[k][sz..] == buffs[k][..][sz..] == old(buffs[k][sz..]);
      OthersApart(rings, buffs, k);
      ReadOne(rings[k], buffs[k], sz);
      k := k + 1;
    }
  }

  /** The same, for the channels together: what was held splits into what the buffers now start with
      and what is still held. */
  method ReadAll(rings: seq<Circbuf>, buffs: seq<array<byte>>, sz: nat,
                 ghost size: nat, ghost w: nat, ghost r: nat, ghost held: seq<seq<byte>>)
    returns (ghost rest: seq<seq<byte>>)
    requires Mirrors(rings, size, w, r, held) && Apart(rings, buffs)
    requires Wide(buffs, |rings|, sz) && sz <= w - r
    modifies rings, buffs
    ensures Mirrors(rings, size, w, r + sz, rest) && |rest| == |rings|
    ensures |held| == |rings| && held == Joined(Heads(buffs, sz), rest) && Tails(buffs, sz) == old(Tails(buffs, sz))
  {
    hide Ring, Distinct, Apart;
    ReadEach(rings, buffs, sz, size, w, r);
    rest := seq(|rings|, c requires 0 <= c < |rings| reads Datas(rings) =>
      Ring(rings[c].data[..], r + sz, w - (r + sz)));
    forall c | 0 <= c < |rings|
      ensures buffs[c][..sz] == Ring(rings[c].data[..], r, sz) && buffs[c][sz..] == old(buffs[c][sz..])
      ensures held[c] == Ring(rings[c].data[..], r, sz) + rest[c]
    {
      HeadTail(buffs[c][..], Ring(rings[c].data[..], r, sz), old(buffs[c][sz..]));
      RingJoin(rings[c].data[..], r, w - r, sz);
    }
  }

  lemma RingJoin(d: seq<byte>, from: nat, n: nat, m: nat)
    requires |d| > 0 && m <= n
    ensures Ring(d, from, n) == Ring(d, from, m) + Ring(d, from + m, n - m)
  {
    hide Ring;
    RingSplit(d, from, n, m);
    assert Ring(d, from, n) == Ring(d, from, n)[..m] + Ring(d, from, n)[m..];
  }

  /** What usdr_dms_recv does to the buffers it is given. */
  method Fill(e: Event, dst: seq<array<byte>>, at: nat)
    requires |e.data| == |dst| && forall i :: 0 <= i < |dst| ==> at + |e.data[i]| <= dst[i].Length
    requires forall i, j :: 0 <= i < j < |dst| ==> dst[i] != dst[j]
    modifies dst
    ensures forall i :: 0 <= i < |dst| ==> dst[i][..] == Placed(old(dst[i][..]), at, e.data[i])
  {
    var k := 0;
    while k < |dst|
      invariant 0 <= k <= |dst|
      invariant forall i :: 0 <= i < k ==> dst[i][..] == Placed(old(dst[i][..]), at, e.data[i])
      invariant forall i :: k <= i < |dst| ==> dst[i][..] == old(dst[i][..])
    {
      var d := dst[k];
      forall j | 0 <= j < |e.data[k]| { d[at + j] := e.data[k][j]; }
      assert d[..] == Placed(old(dst[k][..]), at, e.data[k]);
      k := k + 1;
    }
  }

  /** Moves every write position on by a packet. */
  method Advance(rings: seq<Circbuf>, p: nat, ghost size: nat, ghost w: nat, ghost r: nat)
    requires Distinct(rings) && InStep(rings, size, w, r) && w + p <= r + size
    modifies rings
    ensures InStep(rings, size, w + p, r)
  {
    var k := 0;
    while k < |rings|
      invariant 0 <= k <= |rings|
      invariant forall i :: 0 <= i < |rings| ==> rings[i].rpos == r && rings[i].wpos == if i < k then w + p else w
    {
      rings[k].wpos := rings[k].wpos + p;
      k := k + 1;
    }
  }

  /** What one answer does to one ring that has room for a packet. */
  lemma Received(d: seq<byte>, r: nat, w: nat, x: seq<byte>)
    requires |d| > 0 && r <= w && w + |x| <= r + |d| && |x| > 0 && w % |x| == 0 && |d| % |x| == 0
    ensures Slot(w, 0, |d|) + |x| <= |d|
    ensures var d' := Placed(d, Slot(w, 0, |d|), x);
      && Ring(d', r, w - r) == Ring(d, r, w - r)
      && Ring(d', r, w + |x| - r) == Ring(d, r, w - r) + x
  {
    hide Slot, Ring, Written, Placed;
    NoCrossing(w, |d|, |x|);
    WrittenStraight(d, w, x);
    WrittenJoins(d, r, w, x);
  }

  /** Offers every ring's write place to the receiver and, if a packet came, moves the positions on. */
  method TakePacket(rings: seq<Circbuf>, e: Event, p: nat, ghost size: nat, ghost w: nat, ghost r: nat,
                    ghost held: seq<seq<byte>>)
    requires Mirrors(rings, size, w, r, held) && Fits(e, |rings|, p)
    requires p > 0 && w % p == 0 && size % p == 0 && w + p <= r + size
    modifies rings, Datas(rings)
    ensures |e.data| == |held|
    ensures Mirrors(rings, size, if e.ok then w + p else w, r, if e.ok then Joined(held, e.data) else held)
  {
    hide Slot, Ring, Placed;
    NoCrossing(w, size, p);
    var dst, at: nat := [], 0;
    var k := 0;
    while k < |rings|
      invariant 0 <= k <= |rings| && |dst| == k
      invariant forall i :: 0 <= i < k ==> dst[i] == rings[i].data
      invariant k > 0 ==> at == Slot(w, 0, size)
    {
      dst, at := dst + [rings[k].data], rings[k].WritePlace();
      k := k + 1;
    }
    Fill(e, dst, at);
    forall c | 0 <= c < |rings|
      ensures Ring(rings[c].data[..], r, w - r) == old(Ring(rings[c].data[..], r, w - r))
      ensures Ring(rings[c].data[..], r, w + p - r) == old(Ring(rings[c].data[..], r, w - r)) + e.data[c]
    {
      Received(old(rings[c].data[..]), r, w, e.data[c]);
      assert dst[c] == rings[c].data;
    }
    if e.ok { Advance(rings, p, size, w, r); }
  }

  /** A new ring for every channel. */
  method NewRings(channels: nat, bytes: nat) returns (rs: seq<Circbuf>)
    requires channels > 0 && bytes > 0
    ensures |rs| == channels && fresh(rs) && fresh(Datas(rs)) && Mirrors(rs, bytes, 0, 0, seq(channels, c => []))
  {
    rs := [];
    while |rs| < channels
      invariant |rs| <= channels && fresh(rs) && fresh(Datas(rs))
      invariant Distinct(rs) && InStep(rs, bytes, 0, 0)
      decreases channels - |rs|
    {
      var c := new Circbuf(bytes);
      DatasPush(rs, c);
      rs := rs + [c];
    }
  }

  lemma DatasPush(rs: seq<Circbuf>, c: Circbuf)
    ensures Datas(rs + [c]) == Datas(rs) + {c.data}
  {
  }

  // ---------------------------------------------------------------- the stream

  class Stream {
    const pktsyms: nat
    const pktbytes: nat
    const channels: nat
    /** What the successive calls of usdr_dms_recv are going to answer. */
    const script: nat -> Event
    var rings: seq<Circbuf>
    var clock: nat
    /** What the caller has been given so far, and what came in and was not asked for yet, by channel. */
    ghost var delivered: seq<seq<byte>>
    ghost var held: seq<seq<byte>>
    /** The common size and positions of the rings. */
    ghost var size: nat
    ghost var w: nat
    ghost var r: nat

    constructor (pktsyms: nat, pktbytes: nat, channels: nat, script: nat -> Event)
      requires pktsyms > 0 && pktbytes > 0 && 0 < channels <= 64
      requires forall i :: Fits(script(i), channels, pktbytes)
      ensures Valid() && rings == [] && clock == 0 && delivered == seq(channels, c => [])
      ensures this.pktsyms == pktsyms && this.pktbytes == pktbytes && this.channels == channels && this.script == script
    {
      this.pktsyms, this.pktbytes, this.channels, this.script := pktsyms, pktbytes, channels, script;
      rings, clock, delivered, held := [], 0, seq(channels, c => []), seq(channels, c => []);
    }

    ghost predicate Feasible() {
      && pktsyms > 0 && pktbytes > 0 && 0 < channels <= 64
      && forall i :: Fits(script(i), channels, pktbytes)
    }

    ghost predicate Valid()
      reads this, rings, Datas(rings)
    {
      && Feasible() && |held| == |delivered| == channels
      && Fifo(delivered, held, script, clock)
      && (rings == [] ==> held == seq(channels, c => []))
      && (rings != [] ==>
           && |rings| == channels && Mirrors(rings, size, w, r, held)
           && size % pktbytes == 0 && w % pktbytes == 0 && r <= w)
    }

    /** One answer more: a packet joins what is held, a failure changes nothing. */
    method Receive() returns (ok: bool)
      requires Valid() && rings != [] && w + pktbytes <= r + size
      modifies this`clock, this`held, this`w, rings, Datas(rings)
      ensures Valid() && clock == old(clock) + 1 && ok == script(old(clock)).ok
      ensures w == old(w) + if ok then pktbytes else 0
    {
      hide Ring, Fifo, Fits, Joined, Mirrors;
      var e := script(clock);
      assert Fits(e, channels, pktbytes);
      TakePacket(rings, e, pktbytes, size, w, r, held);
      FifoArrives(delivered, held, script, clock);
      MultipleNext(w, pktbytes);
      clock := clock + 1;
      ok := e.ok;
      if ok { held, w := Joined(held, e.data), w + pktbytes; }
    }

    /** The jitter-buffer branch of readStream: takes packets in until `req` bytes are there, then hands
        the oldest `req` bytes of every channel over. */
    method ReadJitter(buffs: seq<array<byte>>, req: nat) returns (ok: bool)
      requires Valid() && rings != [] && Wide(buffs, channels, req) && Apart(rings, buffs)
      requires FillAfter(w - r, req, pktbytes) <= size
      modifies this`clock, this`delivered, this`held, this`w, this`r, rings, Datas(rings), buffs
      ensures Valid() && clock >= old(clock)
      ensures ok ==>
        delivered == Joined(old(delivered), Heads(buffs, req)) && Tails(buffs, req) == old(Tails(buffs, req))
      ensures ok ==> w - r + req == FillAfter(old(w - r), req, pktbytes)
      ensures ok <==> AllOk(script, old(clock), clock)
      ensures !ok ==> clock > old(clock) && !script(clock - 1).ok && delivered == old(delivered)
      ensures !ok ==> unchanged(buffs)
    {
      hide Ring, Fifo, Fits, Joined, Mirrors, Heads, Tails, Apart, FillAfter;
      ApartDatas(rings, buffs);
      while true
        invariant Valid() && clock >= old(clock) && delivered == old(delivered) && r == old(r)
        invariant FillAfter(w - r, req, pktbytes) == FillAfter(old(w - r), req, pktbytes)
        invariant unchanged(buffs) && AllOk(script, old(clock), clock)
        decreases req - (w - r)
      {
        FirstRing(rings, size, w, r, held);
        if rings[0].ReadSpace() >= req {
          HandOver(buffs, req);
          return true;
        }
        FillStep(w - r, req, pktbytes);
        ok := Receive();
        if !ok { return; }
      }
    }

    /** Reading the same amount from every ring. */
    method HandOver(buffs: seq<array<byte>>, req: nat)
      requires Valid() && rings != [] && Wide(buffs, channels, req) && Apart(rings, buffs)
      requires req <= w - r
      modifies this`delivered, this`held, this`r, rings, buffs
      ensures Valid() && r == old(r) + req
      ensures delivered == Joined(old(delivered), Heads(buffs, req)) && Tails(buffs, req) == old(Tails(buffs, req))
    {
      hide Ring, Fifo, Fits, Joined, Mirrors, Heads, Tails;
      ghost var rest := ReadAll(rings, buffs, req, size, w, r, held);
      FifoLeaves(delivered, held, script, clock, Heads(buffs, req), rest);
      assert forall d :: d in Datas(rings) ==> (d as object) != this;
      delivered, held, r := Joined(delivered, Heads(buffs, req)), rest, r + req;
    }

    /** readStream: the whole function, its flags reduced to the one-packet flag. */
    method ReadStream(buffs: seq<array<byte>>, numElems: nat, onePacket: bool) returns (res: Option<nat>)
      requires Valid() && Apart(rings, buffs)
      requires Wide(buffs, channels, SampleBytes(Clipped(numElems, onePacket, pktsyms), pktbytes, pktsyms))
      requires rings != [] ==>
        FillAfter(w - r, SampleBytes(Clipped(numElems, onePacket, pktsyms), pktbytes, pktsyms), pktbytes) <= size
      modifies this`rings, this`clock, this`delivered, this`held, this`size, this`w, this`r, rings, Datas(rings), buffs
      ensures Valid() && clock >= old(clock)
      ensures res.Some? ==> res.value == Clipped(numElems, onePacket, pktsyms)
      // all that was asked for, or one packet if more was asked for and one will do
      ensures res.Some? ==>
        if onePacket && numElems > pktsyms then res.value == pktsyms else res.value == numElems
      ensures res.Some? ==> forall c :: 0 <= c < channels ==>
        HandedOver(old(delivered)[c], delivered[c], buffs[c][..], res.value, pktbytes, pktsyms)
      ensures res.Some? ==> var req := SampleBytes(res.value, pktbytes, pktsyms);
        delivered == Joined(old(delivered), Heads(buffs, req)) && Tails(buffs, req) == old(Tails(buffs, req))
      ensures res.Some? <==> AllOk(script, old(clock), clock)
      ensures res == None ==> clock > old(clock) && !script(clock - 1).ok && delivered == old(delivered)
      // the first read of another size than the packet size makes the rings, no other read does
      ensures var n := Clipped(numElems, onePacket, pktsyms);
        if old(rings) != [] || n == pktsyms then rings == old(rings) && size == old(size)
        else
          && rings != [] && fresh(rings) && fresh(Datas(rings))
          && size == SampleBytes(BlockSize(pktsyms, n), pktbytes, pktsyms)
      decreases if rings == [] then 1 else 0
    {
      hide Ring, Fifo, Fits, Joined, Mirrors, Heads, Tails, SampleBytes, HandedOver;
      ghost var given := delivered;
      var n := if onePacket && numElems > pktsyms then pktsyms else numElems;
      if |rings| > 0 {
        var ok := ReadJitter(buffs, SampleBytes(n, pktbytes, pktsyms));
        res := if ok then Some(n) else None;
      } else if n != pktsyms {
        MakeRings(n);
        FreshApart(rings, buffs);
        res := ReadStream(buffs, n, false);
      } else {
        res := ReadDirect(buffs);
      }
      if res.Some? { HandedOverAll(given, buffs, n, pktbytes, pktsyms); }
    }

    /** The first read of another size than the packet size: a ring for every channel. */
    method MakeRings(n: nat)
      requires Valid() && rings == []
      modifies this`rings, this`size, this`w, this`r
      ensures Valid() && rings != [] && fresh(rings) && fresh(Datas(rings))
      ensures size == SampleBytes(BlockSize(pktsyms, n), pktbytes, pktsyms) && w == r == 0
      ensures SampleBytes(n, pktbytes, pktsyms) + pktbytes <= size
    {
      hide Ring, Fifo, SampleBytes;
      var blksz := pktsyms * 16;
      ghost var packets := 16;
      while blksz < n * 2
        invariant packets > 0 && blksz == pktsyms * packets
        invariant BlockDoubled(pktsyms, blksz, packets, n) == BlockSize(pktsyms, n)
        decreases n * 2 - blksz
      {
        blksz, packets := blksz * 2, packets * 2;
      }
      BlockFits(pktsyms, pktbytes, blksz, n);
      var bytes := SampleBytes(blksz, pktbytes, pktsyms);
      MultipleOf(blksz / pktsyms, pktbytes);
      var rs := NewRings(channels, bytes);
      rings, size, w, r := rs, bytes, 0, 0;
    }

    /** Reads of one packet without rings: the packet goes straight to the caller. */
    method ReadDirect(buffs: seq<array<byte>>) returns (res: Option<nat>)
      requires Valid() && rings == [] && Wide(buffs, channels, SampleBytes(pktsyms, pktbytes, pktsyms))
      requires Apart(rings, buffs)
      modifies this`clock, this`delivered, buffs
      ensures Valid() && clock == old(clock) + 1
      ensures res == if script(old(clock)).ok then Some(pktsyms) else None
      ensures var req := SampleBytes(pktsyms, pktbytes, pktsyms);
        res.Some? ==>
          delivered == Joined(old(delivered), Heads(buffs, req)) && Tails(buffs, req) == old(Tails(buffs, req))
      ensures res == None ==> delivered == old(delivered)
    {
      hide Fifo, Joined, Heads, Tails;
      var e := script(clock);
      assert Fits(e, channels, pktbytes);
      PacketBytes(pktsyms, pktbytes);
      FifoArrives(delivered, held, script, clock);
      FillAll(e, buffs, pktbytes);
      clock := clock + 1;
      if e.ok {
        Straight(delivered, held, e.data, script, clock);
        delivered := Joined(delivered, e.data);
        res := Some(pktsyms);
      } else {
        res := None;
      }
    }
  }

  /** A receive straight into the caller's buffers. */
  method FillAll(e: Event, buffs: seq<array<byte>>, p: nat)
    requires Fits(e, |buffs|, p) && Wide(buffs, |buffs|, p) && Apart([], buffs)
    modifies buffs
    ensures Heads(buffs, p) == e.data && Tails(buffs, p) == old(Tails(buffs, p))
  {
    Fill(e, buffs, 0);
    forall c | 0 <= c < |buffs| ensures buffs[c][..p] == e.data[c] && buffs[c][p..] == old(buffs[c][p..]) {
      PlacedFront(old(buffs[c][..]), e.data[c]);
      HeadTail(buffs[c][..], e.data[c], old(buffs[c][p..]));
    }
  }

  lemma MultipleNext(w: nat, p: nat)
    requires p > 0 && w % p == 0
    ensures (w + p) % p == 0
  {
    DivUnique(w + p, p, w / p + 1, 0);
  }

  function Clipped(numElems: nat, onePacket: bool, pktsyms: nat): nat {
    if onePacket && numElems > pktsyms then pktsyms else numElems
  }

  lemma MultipleOf(m: nat, p: nat)
    requires p > 0
    ensures m * p % p == 0
  {
    DivUnique(m * p, p, m, 0);
  }

  lemma PacketBytes(pktsyms: nat, pktbytes: nat)
    requires pktsyms > 0
    ensures SampleBytes(pktsyms, pktbytes, pktsyms) == pktbytes
  {
    DivUnique(pktsyms * pktbytes, pktsyms, pktbytes, 0);
  }

  /** A packet that is handed over at once. */
  lemma Straight(delivered: seq<seq<byte>>, held: seq<seq<byte>>, x: seq<seq<byte>>, script: nat -> Event, clock: nat)
    requires |x| == |held| == |delivered| && (forall c :: 0 <= c < |held| ==> held[c] == [])
    requires Fifo(delivered, Joined(held, x), script, clock)
    ensures Fifo(Joined(delivered, x), held, script, clock)
  {
    forall c | 0 <= c < |held| ensures held[c] + x[c] == x[c] + held[c] {
      assert [] + x[c] == x[c] + [];
    }
    assert Joined(held, x) == Joined(x, held);
    FifoLeaves(delivered, Joined(held, x), script, clock, x, held);
  }

  /** Every later read of at most half the ring fits, however full the ring is. */
  lemma LaterReadsFit(pktsyms: nat, pktbytes: nat, first: nat, n: nat, fill: nat)
    requires pktsyms > 0 && pktbytes > 0 && 2 * n <= BlockSize(pktsyms, first)
    requires fill <= SampleBytes(BlockSize(pktsyms, first), pktbytes, pktsyms)
    ensures FillAfter(fill, SampleBytes(n, pktbytes, pktsyms), pktbytes) <=
      SampleBytes(BlockSize(pktsyms, first), pktbytes, pktsyms)
  {
    hide SampleBytes, FillAfter;
    BlockFits(pktsyms, pktbytes, BlockSize(pktsyms, first), n);
  }

  /** One call of readStream: how much is asked for, and whether a single packet will do. */
  datatype Read = Read(numElems: nat, onePacket: bool)
  {
    function Size(pktsyms: nat): nat { Clipped(numElems, onePacket, pktsyms) }
  }

  /** Read `i` is the one that makes the rings. */
  ghost predicate MakesRings(calls: seq<Read>, pktsyms: nat, i: nat) {
    i < |calls| && calls[i].Size(pktsyms) != pktsyms && forall j :: 0 <= j < i ==> calls[j].Size(pktsyms) == pktsyms
  }

  /** What the reads that succeeded amount to on every channel. */
  function Total(calls: seq<Read>, results: seq<Option<nat>>, pktbytes: nat, pktsyms: nat): (r: nat)
    requires pktsyms > 0 && |results| <= |calls|
    ensures |results| == 0 ==> r == 0
    decreases |results|
  {
    if results == [] then 0
    else
      var k := |results| - 1;
      Total(calls, results[..k], pktbytes, pktsyms) +
      if results[k].Some? then SampleBytes(calls[k].Size(pktsyms), pktbytes, pktsyms) else 0
  }

  lemma TotalNext(calls: seq<Read>, results: seq<Option<nat>>, r: Option<nat>, pktbytes: nat, pktsyms: nat)
    requires pktsyms > 0 && |results| < |calls|
    ensures Total(calls, results + [r], pktbytes, pktsyms) == Total(calls, results, pktbytes, pktsyms) +
      if r.Some? then SampleBytes(calls[|results|].Size(pktsyms), pktbytes, pktsyms) else 0
  {
    assert (results + [r])[..|results|] == results;
  }

  /** How many reads succeeded, and how many samples they were for. */
  function Successes(results: seq<Option<nat>>): nat {
    if results == [] then 0
    else Successes(results[..|results| - 1]) + if results[|results| - 1].Some? then 1 else 0
  }

  function Samples(results: seq<Option<nat>>): nat {
    if results == [] then 0
    else Samples(results[..|results| - 1]) + if results[|results| - 1].Some? then results[|results| - 1].value else 0
  }

  /** `b` bytes are what the successful reads of a run come to: each may lose less than a byte. */
  predicate CoversRun(b: nat, results: seq<Option<nat>>, pktbytes: nat, pktsyms: nat) {
    b * pktsyms <= Samples(results) * pktbytes <= b * pktsyms + Successes(results) * (pktsyms - 1)
  }

  lemma {:induction false} TotalCovers(calls: seq<Read>, results: seq<Option<nat>>, pktbytes: nat, pktsyms: nat)
    requires pktsyms > 0 && |results| <= |calls|
    requires forall k :: 0 <= k < |results| && results[k].Some? ==> results[k].value == calls[k].Size(pktsyms)
    ensures CoversRun(Total(calls, results, pktbytes, pktsyms), results, pktbytes, pktsyms)
    decreases |results|
  {
    hide SampleBytes;
    if results != [] {
      var last := results[|results| - 1];
      var rest := results[..|results| - 1];
      TotalCovers(calls, rest, pktbytes, pktsyms);
      var t := Total(calls, rest, pktbytes, pktsyms);
      if last.Some? {
        var b := SampleBytes(last.value, pktbytes, pktsyms);
        SampleBytesCover(last.value, pktbytes, pktsyms);
        AddProducts(t, b, pktsyms);
        AddProducts(b, 1, pktsyms);
        AddProducts(Samples(rest), last.value, pktbytes);
        AddProducts(Successes(rest), 1, pktsyms - 1);
      }
    }
  }

  lemma AddProducts(x: int, y: int, d: int)
    ensures (x + y) * d == x * d + y * d
  {
  }

  /** If a sample has a whole number of bytes, a run delivers exactly the bytes of its samples. */
  lemma {:induction false} WholeRun(calls: seq<Read>, results: seq<Option<nat>>, pktbytes: nat, pktsyms: nat)
    requires pktsyms > 0 && |results| <= |calls| && pktbytes % pktsyms == 0
    requires forall k :: 0 <= k < |results| && results[k].Some? ==> results[k].value == calls[k].Size(pktsyms)
    ensures Total(calls, results, pktbytes, pktsyms) == Samples(results) * (pktbytes / pktsyms)
    decreases |results|
  {
    hide SampleBytes;
    if results != [] {
      var last := results[|results| - 1];
      var rest := results[..|results| - 1];
      WholeRun(calls, rest, pktbytes, pktsyms);
      if last.Some? {
        SampleBytesCover(last.value, pktbytes, pktsyms);
        WholeSamples(SampleBytes(last.value, pktbytes, pktsyms), last.value, pktbytes, pktsyms);
        AddProducts(Samples(rest), last.value, pktbytes / pktsyms);
      }
    }
  }

  /** Every channel has `n` bytes more. */
  ghost predicate Grew(a: seq<seq<byte>>, b: seq<seq<byte>>, n: nat) {
    |a| == |b| && forall c :: 0 <= c < |a| ==> |b[c]| == |a[c]| + n
  }

  lemma GrewNothing(a: seq<seq<byte>>)
    ensures Grew(a, a, 0)
  {
  }

  lemma GrewMeans(a: seq<seq<byte>>, b: seq<seq<byte>>, n: nat)
    requires Grew(a, b, n)
    ensures |a| == |b| && forall c :: 0 <= c < |a| ==> |b[c]| == |a[c]| + n
  {
  }

  lemma GrewThen(a: seq<seq<byte>>, b: seq<seq<byte>>, n: nat, c: seq<seq<byte>>, m: nat)
    requires Grew(a, b, n) && Grew(b, c, m)
    ensures Grew(a, c, n + m)
  {
  }

  lemma GrewBy(b: seq<seq<byte>>, buffs: seq<array<byte>>, req: nat)
    requires Wide(buffs, |b|, req)
    ensures Grew(b, Joined(b, Heads(buffs, req)), req)
  {
  }

  /** Any run of reads in which those after the first one of another size than the packet size ask for at
      most half of the ring it made. Every read is possible whatever came before; a read succeeds exactly
      if all its receives did (`clocks` tells which are its own); and on every channel the caller has got
      exactly as much as the successful reads asked for, and it is the beginning of what arrived. */
  method RunReads(s: Stream, buffs: seq<array<byte>>, calls: seq<Read>)
    returns (results: seq<Option<nat>>, ghost clocks: seq<nat>)
    requires s.Valid() && s.rings == [] && Apart([], buffs)
    requires forall i: nat, k: nat :: MakesRings(calls, s.pktsyms, i) && i < k < |calls| ==>
      2 * calls[k].Size(s.pktsyms) <= BlockSize(s.pktsyms, calls[i].Size(s.pktsyms))
    requires forall k :: 0 <= k < |calls| ==>
      Wide(buffs, s.channels, SampleBytes(calls[k].Size(s.pktsyms), s.pktbytes, s.pktsyms))
    modifies s, buffs
    ensures |results| == |calls| && s.Valid() && |s.delivered| == |old(s.delivered)| == s.channels
    ensures |clocks| == |calls| + 1 && clocks[0] == old(s.clock) && clocks[|calls|] == s.clock
    ensures forall k :: 0 <= k < |calls| ==>
      results[k] == if AllOk(s.script, clocks[k], clocks[k + 1]) then Some(calls[k].Size(s.pktsyms)) else None
    ensures Grew(old(s.delivered), s.delivered, Total(calls, results, s.pktbytes, s.pktsyms))
    ensures forall c :: 0 <= c < s.channels ==>
      && s.delivered[c] <= Arrived(s.script, s.clock, c)
      && |old(s.delivered)[c]| <= |s.delivered[c]|
      && CoversRun(|s.delivered[c]| - |old(s.delivered)[c]|, results, s.pktbytes, s.pktsyms)
    ensures s.pktbytes % s.pktsyms == 0 ==>
      Grew(old(s.delivered), s.delivered, Samples(results) * (s.pktbytes / s.pktsyms))
  {
    hide Ring, Mirrors, SampleBytes, Wide, Arrived, BlockSize, FillAfter, AllOk, Total, Fits, Fifo, Joined, Heads,
         Tails, Grew, Apart, CoversRun, Samples, HandedOver;
    results, clocks := [], [s.clock];
    ghost var was := s.delivered;
    GrewNothing(was);
    ghost var first: nat := 0;
    while |results| < |calls|
      invariant |results| <= |calls| && s.Valid() && Apart(s.rings, buffs)
      invariant s.rings == [] ==> forall j :: 0 <= j < |results| ==> calls[j].Size(s.pktsyms) == s.pktsyms
      invariant s.rings != [] ==>
        first < |results| && MakesRings(calls, s.pktsyms, first) &&
        s.size == SampleBytes(BlockSize(s.pktsyms, calls[first].Size(s.pktsyms)), s.pktbytes, s.pktsyms)
      invariant fresh(s.rings) && fresh(Datas(s.rings))
      invariant |clocks| == |results| + 1 && clocks[0] == old(s.clock) && clocks[|results|] == s.clock
      invariant forall k :: 0 <= k < |results| ==>
        results[k] == if AllOk(s.script, clocks[k], clocks[k + 1]) then Some(calls[k].Size(s.pktsyms)) else None
      invariant Grew(old(s.delivered), s.delivered, Total(calls, results, s.pktbytes, s.pktsyms))
      decreases |calls| - |results|
    {
      var call := calls[|results|];
      ghost var before, given := s.rings, s.delivered;
      var r := NextRead(s, buffs, call, if s.rings == [] then 0 else calls[first].Size(s.pktsyms));
      if s.rings != before { first := |results|; }
      TotalNext(calls, results, r, s.pktbytes, s.pktsyms);
      GrewThen(was, given, Total(calls, results, s.pktbytes, s.pktsyms), s.delivered,
               if r.Some? then SampleBytes(r.value, s.pktbytes, s.pktsyms) else 0);
      results, clocks := results + [r], clocks + [s.clock];
    }
    forall c | 0 <= c < s.channels ensures s.delivered[c] <= Arrived(s.script, s.clock, c) {
      DeliveredIsPrefix(s.delivered, s.held, s.script, s.clock, c);
    }
    forall k | 0 <= k < |results| && results[k].Some? ensures results[k].value == calls[k].Size(s.pktsyms) {
      assert AllOk(s.script, clocks[k], clocks[k + 1]);
    }
    TotalCovers(calls, results, s.pktbytes, s.pktsyms);
    if s.pktbytes % s.pktsyms == 0 { WholeRun(calls, results, s.pktbytes, s.pktsyms); }
    GrewMeans(was, s.delivered, Total(calls, results, s.pktbytes, s.pktsyms));
  }

  /** One of the reads, when the rings (if there are any) were made by a read of `first` samples. */
  method NextRead(s: Stream, buffs: seq<array<byte>>, call: Read, ghost first: nat) returns (r: Option<nat>)
    requires s.Valid() && Apart(s.rings, buffs)
    requires Wide(buffs, s.channels, SampleBytes(call.Size(s.pktsyms), s.pktbytes, s.pktsyms))
    requires s.rings != [] ==> 2 * call.Size(s.pktsyms) <= BlockSize(s.pktsyms, first)
    requires s.rings != [] ==> s.size == SampleBytes(BlockSize(s.pktsyms, first), s.pktbytes, s.pktsyms)
    modifies s, s.rings, Datas(s.rings), buffs
    ensures s.Valid() && Apart(s.rings, buffs)
    ensures r == if AllOk(s.script, old(s.clock), s.clock) then Some(call.Size(s.pktsyms)) else None
    ensures Grew(old(s.delivered), s.delivered, if r.Some? then SampleBytes(r.value, s.pktbytes, s.pktsyms) else 0)
    ensures if old(s.rings) != [] || call.Size(s.pktsyms) == s.pktsyms
      then s.rings == old(s.rings) && s.size == old(s.size)
      else
        && s.rings != [] && fresh(s.rings) && fresh(Datas(s.rings))
        && s.size == SampleBytes(BlockSize(s.pktsyms, call.Size(s.pktsyms)), s.pktbytes, s.pktsyms)
  {
    hide Ring, Mirrors, SampleBytes, Wide, BlockSize, FillAfter, AllOk, Fits, Fifo, Joined, Heads, Tails, Grew,
         HandedOver;
    ghost var before, given := s.rings, s.delivered;
    if s.rings != [] { LaterReadFits(s, first, call.Size(s.pktsyms)); }
    r := s.ReadStream(buffs, call.numElems, call.onePacket);
    if s.rings != before { FreshApart(s.rings, buffs); }
    GrewNothing(given);
    if r.Some? { GrewBy(given, buffs, SampleBytes(r.value, s.pktbytes, s.pktsyms)); }
  }

  lemma LaterReadFits(s: Stream, first: nat, n: nat)
    requires s.Valid() && s.rings != [] && 2 * n <= BlockSize(s.pktsyms, first)
    requires s.size == SampleBytes(BlockSize(s.pktsyms, first), s.pktbytes, s.pktsyms)
    ensures FillAfter(s.w - s.r, SampleBytes(n, s.pktbytes, s.pktsyms), s.pktbytes) <= s.size
  {
    hide SampleBytes, Ring, BlockSize;
    LaterReadsFit(s.pktsyms, s.pktbytes, first, n, s.w - s.r);
  }
}
