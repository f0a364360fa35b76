/** The address table of the I2C master: four slots, each an address on one of two buses, ranked by use. */
module Si2c {
  import opened Bits
  import opened Wrappers

  /** struct i2c_cache: a one-bit bus, a seven-bit address and an eight-bit rank. */
  datatype Entry = Entry(busn: bv32, addr: bv32, lrui: byte)

  function Inc(x: byte): byte { (x + 1) % 256 }

  const EMPTY := Entry(0, 0, 0)

  predicate Formed(c: seq<Entry>) {
    |c| == 4 && forall i :: 0 <= i < 4 ==> c[i].busn < 2 && c[i].addr < 128
  }

  // ---------------------------------------------------------------- the table word

  function Cell(e: Entry): bv32 { e.addr | if e.busn != 0 then 0x80 else 0 }

  /** The byte of slot `i` joins the word. */
  function With(w: bv32, cw: bv32, i: nat): bv32
    requires i < 4
  {
    w | (cw << (8 * i))
  }

  /** The word after the first `n` slots. */
  function Word(c: seq<Entry>, n: nat): bv32
    requires n <= |c| == 4
  {
    if n == 0 then 0x8000_0000 else With(Word(c, n - 1), Cell(c[n - 1]), n - 1)
  }

  function Lut(c: seq<Entry>): bv32
    requires |c| == 4
  {
    Pack(Cell(c[0]), Cell(c[1]), Cell(c[2]), Cell(c[3]))
  }

  /** Four bytes in a word, the highest bit set. */
  function Pack(a: bv32, b: bv32, c: bv32, d: bv32): bv32 {
    0x8000_0000 | a | (b << 8) | (c << 16) | (d << 24)
  }

  /** si2c_get_lut. */
  method GetLut(cd: array<Entry>) returns (ilut: bv32)
    requires cd.Length == 4
    ensures ilut == Lut(cd[..])
  {
    hide Lut, Cell, With;
    ilut := 0x8000_0000;
    var i := 0;
    while i < 4
      invariant 0 <= i <= 4 && ilut == Word(cd[..], i)
    {
      var cw := Cell(cd[i]);
      ilut := With(ilut, cw, i);
      i := i + 1;
    }
    LutIsWord(cd[..]);
  }

  lemma LutIsWord(c: seq<Entry>)
    requires |c| == 4
    ensures Word(c, 4) == Lut(c)
  {
    hide Cell;
    hide With;
    Shift0(Word(c, 0), Cell(c[0]));
    Shift1(Word(c, 1), Cell(c[1]));
    Shift2(Word(c, 2), Cell(c[2]));
    Shift3(Word(c, 3), Cell(c[3]));
  }

  lemma Shift0(w: bv32, x: bv32)
    ensures With(w, x, 0) == w | x
  {
    assert x << 0 == x;
  }

  lemma Shift1(w: bv32, x: bv32)
    ensures With(w, x, 1) == w | (x << 8)
  {
    assert x << (8 * 1) == x << 8;
  }

  lemma Shift2(w: bv32, x: bv32)
    ensures With(w, x, 2) == w | (x << 16)
  {
    assert x << (8 * 2) == x << 16;
  }

  lemma Shift3(w: bv32, x: bv32)
    ensures With(w, x, 3) == w | (x << 24)
  {
    assert x << (8 * 3) == x << 24;
  }

  /** What the hardware reads in the byte of a slot. */
  function SlotAddr(lut: bv32, slot: nat): bv32
    requires slot < 4
  {
    if slot == 0 then lut & 0x7f else if slot == 1 then (lut >> 8) & 0x7f
    else if slot == 2 then (lut >> 16) & 0x7f else (lut >> 24) & 0x7f
  }

  function SlotBus(lut: bv32, slot: nat): bv32
    requires slot < 4
  {
    if slot == 0 then (lut >> 7) & 1 else if slot == 1 then (lut >> 15) & 1
    else if slot == 2 then (lut >> 23) & 1 else (lut >> 31) & 1
  }

  /** Every slot reads as its entry, except that the last one always reads as bus 1. */
  lemma LutReads(c: seq<Entry>, slot: nat)
    requires Formed(c) && slot < 4
    ensures SlotAddr(Lut(c), slot) == c[slot].addr
    ensures SlotBus(Lut(c), slot) == if slot == 3 then 1 else c[slot].busn
  {
    hide Pack, Cell, SlotAddr, SlotBus;
    var x, y, z, t := Cell(c[0]), Cell(c[1]), Cell(c[2]), Cell(c[3]);
    CellBits(c[slot]);
    CellBits(c[0]);
    CellBits(c[1]);
    CellBits(c[2]);
    CellBits(c[3]);
    if slot == 0 { PackFirst(x, y, z, t); }
    else if slot == 1 { PackSecond(x, y, z, t); }
    else if slot == 2 { PackThird(x, y, z, t); }
    else { PackLast(x, y, z, t); }
  }

  lemma CellBits(e: Entry)
    requires e.busn < 2 && e.addr < 128
    ensures Cell(e) < 256 && Cell(e) & 0x7f == e.addr && (Cell(e) >> 7) & 1 == e.busn
  {
  }

  lemma PackFirst(a: bv32, b: bv32, c: bv32, d: bv32)
    requires a < 256 && b < 256 && c < 256 && d < 256
    ensures SlotAddr(Pack(a, b, c, d), 0) == a & 0x7f && SlotBus(Pack(a, b, c, d), 0) == (a >> 7) & 1
  {
  }

  lemma PackSecond(a: bv32, b: bv32, c: bv32, d: bv32)
    requires a < 256 && b < 256 && c < 256 && d < 256
    ensures SlotAddr(Pack(a, b, c, d), 1) == b & 0x7f && SlotBus(Pack(a, b, c, d), 1) == (b >> 7) & 1
  {
  }

  lemma PackThird(a: bv32, b: bv32, c: bv32, d: bv32)
    requires a < 256 && b < 256 && c < 256 && d < 256
    ensures SlotAddr(Pack(a, b, c, d), 2) == c & 0x7f && SlotBus(Pack(a, b, c, d), 2) == (c >> 7) & 1
  {
  }

  lemma PackLast(a: bv32, b: bv32, c: bv32, d: bv32)
    requires a < 256 && b < 256 && c < 256 && d < 256
    ensures SlotAddr(Pack(a, b, c, d), 3) == d & 0x7f && SlotBus(Pack(a, b, c, d), 3) == 1
  {
  }

  // ---------------------------------------------------------------- the replacement rule

  predicate Is(e: Entry, addr: bv32, busno: bv32) { e.addr == addr && e.busn == busno }

  /** Bus 0 sees three slots, the other bus all four. */
  function Window(busno: bv32): nat { if busno == 0 then 3 else 4 }

  /** The first of the first `max` slots that holds the device, or `max`. */
  function Find(c: seq<Entry>, max: nat, addr: bv32, busno: bv32): (r: nat)
    requires max <= |c|
    ensures r <= max && (r < max ==> Is(c[r], addr, busno)) && forall k :: 0 <= k < r ==> !Is(c[k], addr, busno)
  {
    if max == 0 then 0
    else
      var r := Find(c, max - 1, addr, busno);
      if r < max - 1 || Is(c[max - 1], addr, busno) then r else max
  }

  /** The first of the first `n` slots with the lowest rank. */
  function Lowest(c: seq<Entry>, n: nat): (r: nat)
    requires 0 < n <= |c|
    ensures r < n && forall k :: 0 <= k < n ==> c[r].lrui <= c[k].lrui
    ensures forall k :: 0 <= k < r ==> c[r].lrui < c[k].lrui
  {
    if n == 1 then 0
    else
      var r := Lowest(c, n - 1);
      if c[r].lrui > c[n - 1].lrui then n - 1 else r
  }

  /** The first of the first `max` slots of the given rank, or `max`. */
  function Ranked(c: seq<Entry>, max: nat, rank: nat): (r: nat)
    requires max <= |c|
    ensures r <= max && (r < max ==> c[r].lrui == rank) && forall k :: 0 <= k < r ==> c[k].lrui != rank
  {
    if max == 0 then 0
    else
      var r := Ranked(c, max - 1, rank);
      if r < max - 1 || c[max - 1].lrui == rank then r else max
  }

  /** The ranked ones among the first `n` slots, each a rank higher. */
  function Bumped(c: seq<Entry>, n: nat): (r: seq<Entry>)
    requires n <= |c|
    ensures |r| == |c|
    ensures forall k :: 0 <= k < |c| ==>
      r[k] == if k < n && c[k].lrui > 0 then c[k].(lrui := Inc(c[k].lrui)) else c[k]
  {
    seq(|c|, k requires 0 <= k < |c| => if k < n && c[k].lrui > 0 then c[k].(lrui := Inc(c[k].lrui)) else c[k])
  }

  function Raised(c: seq<Entry>, i: nat): seq<Entry>
    requires i < |c|
  {
    c[i := c[i].(lrui := Inc(c[i].lrui))]
  }

  /** A hit: the device and the one ranked next above it, if that one is visible, change ranks. */
  function AfterHit(c: seq<Entry>, max: nat, i: nat): (r: seq<Entry>)
    requires i < max <= |c|
    ensures |r| == |c|
  {
    var j := Ranked(c, max, c[i].lrui + 1);
    if j < max then Raised(c[j := c[j].(lrui := c[i].lrui)], i) else c
  }

  /** A miss: the first slot of the lowest rank is taken over; if it was not ranked it becomes the lowest. */
  function AfterMiss(c: seq<Entry>, max: nat, s: nat, addr: bv32, busno: bv32): (r: seq<Entry>)
    requires s < max <= |c|
    ensures |r| == |c|
  {
    var d := if c[s].lrui == 0 then Raised(Bumped(c, max), s) else c;
    d[s := Entry(busno & 1, addr & 0x7f, d[s].lrui)]
  }

  function Updated(c: seq<Entry>, addr: bv32, busno: bv32): (r: (seq<Entry>, nat))
    requires |c| == 4
    ensures |r.0| == 4 && r.1 < Window(busno)
  {
    var max := Window(busno);
    var i := Find(c, max, addr, busno);
    if i < max then (AfterHit(c, max, i), i)
    else (AfterMiss(c, max, Lowest(c, max), addr, busno), Lowest(c, max))
  }

  /** si2c_update_lut_idx. */
  method UpdateLutIdx(cd: array<Entry>, addr: bv32, busno: bv32) returns (slot: nat)
    requires cd.Length == 4
    modifies cd
    ensures (cd[..], slot) == Updated(old(cd[..]), addr, busno)
  {
    hide Updated, Find, Lowest, AfterHit, AfterMiss;
    var max := if busno == 0 then 3 else 4;
    ghost var c := cd[..];
    var smin: nat, sidx: nat := 0xffff_ffff, 0;
    var i := 0;
    while i < max
      invariant 0 <= i <= max && cd[..] == c && Find(c, i, addr, busno) == i
      invariant i == 0 ==> smin == 0xffff_ffff && sidx == 0
      invariant i > 0 ==> sidx == Lowest(c, i) && smin == c[sidx].lrui
    {
      FindStep(c, i, max, addr, busno);
      if cd[i].addr == addr && cd[i].busn == busno {
        Promote(cd, max, i);
        UpdatedCases(c, addr, busno);
        return i;
      }
      LowestStep(c, i);
      if smin > cd[i].lrui {
        smin, sidx := cd[i].lrui, i;
      }
      i := i + 1;
    }
    UpdatedCases(c, addr, busno);
    Replace(cd, max, sidx, smin, addr, busno);
    slot := sidx;
  }

  lemma FindStep(c: seq<Entry>, i: nat, max: nat, addr: bv32, busno: bv32)
    requires i < max <= |c| && Find(c, i, addr, busno) == i
    ensures if Is(c[i], addr, busno) then Find(c, max, addr, busno) == i else Find(c, i + 1, addr, busno) == i + 1
  {
  }

  lemma LowestStep(c: seq<Entry>, i: nat)
    requires i < |c|
    ensures Lowest(c, i + 1) == if i > 0 && c[Lowest(c, i)].lrui <= c[i].lrui then Lowest(c, i) else i
  {
  }

  lemma UpdatedCases(c: seq<Entry>, addr: bv32, busno: bv32)
    requires |c| == 4
    ensures var max := Window(busno);
      var i := Find(c, max, addr, busno);
      Updated(c, addr, busno) ==
        if i < max then (AfterHit(c, max, i), i) else (AfterMiss(c, max, Lowest(c, max), addr, busno), Lowest(c, max))
  {
  }

  /** The inner loop of a hit. */
  method Promote(cd: array<Entry>, max: nat, i: nat)
    requires i < max <= cd.Length == 4
    modifies cd
    ensures cd[..] == AfterHit(old(cd[..]), max, i)
  {
    ghost var c := cd[..];
    var j := 0;
    while j < max
      invariant 0 <= j <= max && cd[..] == c && forall k :: 0 <= k < j ==> c[k].lrui != c[i].lrui + 1
    {
      if cd[j].lrui == cd[i].lrui + 1 {
        assert Ranked(c, max, c[i].lrui + 1) == j;
        cd[j] := cd[j].(lrui := cd[i].lrui);
        cd[i] := cd[i].(lrui := Inc(cd[i].lrui));
        return;
      }
      j := j + 1;
    }
  }

  /** The end of a miss. */
  method Replace(cd: array<Entry>, max: nat, sidx: nat, smin: nat, addr: bv32, busno: bv32)
    requires sidx < max <= cd.Length == 4 && smin == cd[sidx].lrui
    modifies cd
    ensures cd[..] == AfterMiss(old(cd[..]), max, sidx, addr, busno)
  {
    ghost var c := cd[..];
    if smin == 0 {
      var j := 0;
      while j < max
        invariant 0 <= j <= max && cd[..] == Bumped(c, j)
      {
        if cd[j].lrui > 0 { cd[j] := cd[j].(lrui := Inc(cd[j].lrui)); }
        j := j + 1;
      }
      cd[sidx] := cd[sidx].(lrui := Inc(cd[sidx].lrui));
    }
    cd[sidx] := Entry(busno & 1, addr & 0x7f, cd[sidx].lrui);
  }

  // ---------------------------------------------------------------- ranks as an ordered list

  function Ranks(c: seq<Entry>): (r: seq<nat>)
    requires |c| == 4
    ensures |r| == 4 && forall i :: 0 <= i < 4 ==> r[i] == c[i].lrui
  {
    [c[0].lrui, c[1].lrui, c[2].lrui, c[3].lrui]
  }

  /** `order` lists the ranked slots, lowest rank first: the ranks in use are exactly 1 to |order|. */
  ghost predicate Orders(r: seq<nat>, order: seq<nat>) {
    && |r| == 4 && |order| <= 4
    && (forall p :: 0 <= p < |order| ==> order[p] < 4 && r[order[p]] == p + 1)
    && forall i :: 0 <= i < 4 ==> r[i] <= |order| && (r[i] > 0 ==> order[r[i] - 1] == i)
  }

  /** The last slot is the last to be ranked; until then it is empty. */
  predicate Settled(c: seq<Entry>) {
    && Formed(c)
    && (if c[3].lrui == 0 then c[3] == EMPTY else c[0].lrui > 0 && c[1].lrui > 0 && c[2].lrui > 0)
  }

  /** Once it is ranked, the last slot is on bus 1. */
  predicate LastOnOne(c: seq<Entry>)
    requires |c| == 4
  {
    c[3].lrui > 0 ==> c[3].busn == 1
  }

  /** Two exchanged with the next, if there is a next and it is visible. */
  function Transposed(order: seq<nat>, p: nat, max: nat): seq<nat>
    requires p < |order|
  {
    if p + 1 < |order| && order[p + 1] < max then order[p := order[p + 1]][p + 1 := order[p]] else order
  }

  /** What an access of slot `s` does to the list. A hit exchanges the slot with the next one above it; a
      hit on a slot without a rank (an empty slot answers to address 0 of bus 0) takes the place of the
      lowest. A miss puts a slot without a rank in front, and leaves the list alone if there is none. */
  ghost function Reordered(order: seq<nat>, s: nat, hit: bool, max: nat): seq<nat> {
    if s in order then
      if hit then var p :| 0 <= p < |order| && order[p] == s; Transposed(order, p, max) else order
    else if hit then (if order != [] then order[0 := s] else order)
    else [s] + order
  }

  lemma Position(r: seq<nat>, order: seq<nat>, s: nat)
    requires Orders(r, order) && s < 4
    ensures s in order <==> r[s] > 0
    ensures forall p :: 0 <= p < |order| && order[p] == s ==> p == r[s] - 1
  {
  }

  lemma SwapOrders(r: seq<nat>, order: seq<nat>, i: nat, j: nat)
    requires Orders(r, order) && i < 4 && j < 4 && r[j] == r[i] + 1
    ensures r[i] < |order| && order[r[i]] == j && (r[i] > 0 ==> order[r[i] - 1] == i)
    ensures Orders(r[j := r[i]][i := r[i] + 1], if r[i] > 0 then order[r[i] - 1 := j][r[i] := i] else order[0 := i])
  {
  }

  lemma NothingAbove(r: seq<nat>, order: seq<nat>, max: nat, i: nat)
    requires Orders(r, order) && i < max <= 4 && (forall j :: 0 <= j < max ==> r[j] != r[i] + 1)
    ensures r[i] < |order| ==> order[r[i]] >= max
  {
  }

  lemma ReorderedHit(r: seq<nat>, order: seq<nat>, i: nat, max: nat)
    requires Orders(r, order) && i < 4
    ensures Reordered(order, i, true, max) ==
      if r[i] > 0 then Transposed(order, r[i] - 1, max) else if order != [] then order[0 := i] else order
  {
    hide Transposed, Orders;
    Position(r, order, i);
    SmallRank(r, order, i);
  }

  lemma RanksSwapped(c: seq<Entry>, max: nat, i: nat, j: nat)
    requires |c| == 4 && i < max <= 4 && j == Ranked(c, max, c[i].lrui + 1) < max && c[i].lrui < 255
    ensures Ranks(AfterHit(c, max, i)) == Ranks(c)[j := c[i].lrui][i := c[i].lrui + 1]
  {
    hide Ranks, Ranked;
    var d := AfterHit(c, max, i);
    assert d == Raised(c[j := c[j].(lrui := c[i].lrui)], i);
    assert d[j].lrui == c[i].lrui && d[i].lrui == c[i].lrui + 1;
  }

  /** A hit refines the exchange. */
  lemma HitReorders(c: seq<Entry>, order: seq<nat>, max: nat, i: nat)
    requires |c| == 4 && Settled(c) && Orders(Ranks(c), order) && i < max && (max == 3 || max == 4)
    ensures Orders(Ranks(AfterHit(c, max, i)), Reordered(order, i, true, max))
  {
    hide Orders, Formed, Settled, Reordered, Ranks;
    var r: nat := c[i].lrui;
    var j := Ranked(c, max, r + 1);
    ReorderedHit(Ranks(c), order, i, max);
    SmallRank(Ranks(c), order, i);
    if j < max {
      SwapOrders(Ranks(c), order, i, j);
      RanksSwapped(c, max, i, j);
    } else {
      NothingAbove(Ranks(c), order, max, i);
      if r == 0 { LowestVisible(c, order, max, i); }
    }
  }

  lemma SmallRank(r: seq<nat>, order: seq<nat>, j: nat)
    requires Orders(r, order) && j < 4
    ensures r[j] <= |order| <= 4
  {
  }

  /** While a visible slot has no rank, the lowest rank is visible. */
  lemma LowestVisible(c: seq<Entry>, order: seq<nat>, max: nat, i: nat)
    requires |c| == 4 && Settled(c) && Orders(Ranks(c), order) && i < max <= 4 && c[i].lrui == 0 && max >= 3
    ensures order != [] ==> order[0] < max
  {
    hide Formed;
    FirstRank(Ranks(c), order);
  }

  lemma FirstRank(r: seq<nat>, order: seq<nat>)
    requires Orders(r, order)
    ensures order != [] ==> order[0] < 4 && r[order[0]] == 1
  {
  }

  lemma Room(r: seq<nat>, order: seq<nat>, s: nat)
    requires Orders(r, order) && s < 4 && r[s] == 0
    ensures |order| < 4 && s !in order
  {
    Position(r, order, s);
    if |order| == 4 { AllFour(order[0], order[1], order[2], order[3], s); }
  }

  lemma AllFour(a: nat, b: nat, c: nat, d: nat, s: nat)
    requires a < 4 && b < 4 && c < 4 && d < 4 && s < 4
    requires a != b && a != c && a != d && b != c && b != d && c != d
    ensures s == a || s == b || s == c || s == d
  {
  }

  lemma FrontOrders(r: seq<nat>, order: seq<nat>, s: nat, r': seq<nat>)
    requires Orders(r, order) && s < 4 && r[s] == 0 && |r'| == 4 && |order| < 4
    requires forall i :: 0 <= i < 4 ==> r'[i] == if i == s then 1 else if r[i] > 0 then r[i] + 1 else 0
    ensures Orders(r', [s] + order)
  {
    var order' := [s] + order;
    forall p | 0 <= p < |order'| ensures order'[p] < 4 && r'[order'[p]] == p + 1 {
      if p > 0 { assert order'[p] == order[p - 1]; }
    }
  }

  /** A miss refines putting a slot in front, or leaving the list alone. */
  lemma MissReorders(c: seq<Entry>, order: seq<nat>, max: nat, s: nat, addr: bv32, busno: bv32)
    requires |c| == 4 && Settled(c) && Orders(Ranks(c), order) && (max == 3 || max == 4) && s < max
    requires s == Lowest(c, max)
    ensures Orders(Ranks(AfterMiss(c, max, s, addr, busno)), Reordered(order, s, false, max))
  {
    hide Orders, Lowest, Formed, AfterMiss;
    Position(Ranks(c), order, s);
    var d := AfterMiss(c, max, s, addr, busno);
    if c[s].lrui == 0 {
      Room(Ranks(c), order, s);
      forall i | 0 <= i < 4 ensures d[i].lrui == if i == s then 1 else if c[i].lrui > 0 then c[i].lrui + 1 else 0 {
        SmallRank(Ranks(c), order, i);
        MissRank(c, max, s, addr, busno, i);
      }
      FrontOrders(Ranks(c), order, s, Ranks(d));
    } else {
      forall i | 0 <= i < 4 ensures d[i].lrui == c[i].lrui {
        SmallRank(Ranks(c), order, i);
        MissRank(c, max, s, addr, busno, i);
      }
      assert Ranks(d) == Ranks(c);
    }
  }

  lemma MissRank(c: seq<Entry>, max: nat, s: nat, addr: bv32, busno: bv32, i: nat)
    requires |c| == 4 && Settled(c) && 3 <= max <= 4 && s < max && i < 4 && c[i].lrui < 255
    ensures AfterMiss(c, max, s, addr, busno)[i].lrui ==
      if c[s].lrui > 0 then c[i].lrui else if i == s then 1 else if c[i].lrui > 0 then c[i].lrui + 1 else 0
  {
  }

  /** Which slot a miss takes: the first visible one without a rank; if all visible ones are ranked, the
      lowest of them, which is the first or (when the last slot is lowest and hidden) the second of the list. */
  lemma MissTakes(c: seq<Entry>, order: seq<nat>, max: nat)
    requires |c| == 4 && Settled(c) && Orders(Ranks(c), order) && (max == 3 || max == 4)
    ensures var s := Lowest(c, max);
      if exists i :: 0 <= i < max && c[i].lrui == 0
      then s !in order && forall i :: 0 <= i < s ==> i in order
      else |order| >= 2 && s == if order[0] < max then order[0] else order[1]
  {
    hide Orders, Formed;
    var s := Lowest(c, max);
    Position(Ranks(c), order, s);
    if c[s].lrui == 0 {
      forall i | 0 <= i < s ensures i in order { Position(Ranks(c), order, i); }
    } else {
      LowestTwo(Ranks(c), order, max, s);
    }
  }

  lemma LowestTwo(r: seq<nat>, order: seq<nat>, max: nat, s: nat)
    requires Orders(r, order) && 3 <= max <= 4 && s < max
    requires forall k :: 0 <= k < max ==> 0 < r[s] <= r[k]
    ensures |order| >= 2 && s == if order[0] < max then order[0] else order[1]
  {
    assert order[r[0] - 1] == 0 && order[r[1] - 1] == 1 && order[r[2] - 1] == 2;
    assert r[order[0]] == 1 && r[order[1]] == 2;
  }

  // ---------------------------------------------------------------- one access

  lemma Masks(addr: bv32, busno: bv32)
    ensures addr & 0x7f < 128 && busno & 1 < 2
    ensures addr < 128 ==> addr & 0x7f == addr
    ensures busno < 2 ==> busno & 1 == busno
  {
  }

  /** The returned slot holds the device that was asked for, cut to the widths of the fields; the other
      slots keep theirs. */
  lemma UpdateHolds(c: seq<Entry>, addr: bv32, busno: bv32)
    requires Formed(c)
    ensures var (d, s) := Updated(c, addr, busno);
      && Is(d[s], addr & 0x7f, busno & 1)
      && forall i :: 0 <= i < 4 && i != s ==> Is(d[i], c[i].addr, c[i].busn)
  {
    hide Find, Lowest;
    Masks(addr, busno);
    var max := Window(busno);
    var i := Find(c, max, addr, busno);
    if i < max { HitKeeps(c, max, i); }
  }

  lemma HitKeeps(c: seq<Entry>, max: nat, i: nat)
    requires i < max <= |c|
    ensures forall k :: 0 <= k < |c| ==> Is(AfterHit(c, max, i)[k], c[k].addr, c[k].busn)
    ensures forall k :: 0 <= k < |c| && k != i && c[k].lrui != c[i].lrui + 1 ==> AfterHit(c, max, i)[k] == c[k]
    ensures forall k :: 0 <= k < |c| && k != i && c[k].lrui > 0 && c[i].lrui > 0 ==> AfterHit(c, max, i)[k].lrui > 0
    ensures AfterHit(c, max, i)[i].lrui == c[i].lrui || AfterHit(c, max, i)[i].lrui == Inc(c[i].lrui)
  {
    hide Ranked;
  }

  /** The word programmed with the table makes the hardware talk to the bus that was asked for. */
  predicate ReadsBack(c: seq<Entry>, addr: bv32, busno: bv32)
    requires |c| == 4
  {
    SlotBus(Lut(Updated(c, addr, busno).0), Updated(c, addr, busno).1) == busno & 1
  }

  /** The hardware always gets the right address. It gets the right bus unless the bus number is even
      and not zero and the last slot has the lowest rank of all: that slot always reads as bus 1. */
  lemma UpdateReads(c: seq<Entry>, addr: bv32, busno: bv32)
    requires Formed(c)
    ensures var (d, s) := Updated(c, addr, busno); SlotAddr(Lut(d), s) == addr & 0x7f
    ensures ReadsBack(c, addr, busno) <==>
      busno == 0 || busno & 1 == 1 || exists k :: 0 <= k < 3 && c[k].lrui <= c[3].lrui
  {
    hide Updated, Lut, SlotAddr, SlotBus;
    UpdateHolds(c, addr, busno);
    UpdateForms(c, addr, busno);
    var (d, s) := Updated(c, addr, busno);
    LutReads(d, s);
    Masks(addr, busno);
    BusOf(busno);
    WindowOf(c, addr, busno);
    if busno != 0 && busno & 1 == 0 { LastTaken(c, addr, busno); }
  }

  lemma LastTaken(c: seq<Entry>, addr: bv32, busno: bv32)
    requires Formed(c) && busno >= 2
    ensures Updated(c, addr, busno).1 == 3 <==> forall k :: 0 <= k < 3 ==> c[3].lrui < c[k].lrui
  {
    hide Find, Lowest;
    assert forall k :: 0 <= k < 4 ==> !Is(c[k], addr, busno);
  }

  /** Over all tables that requests can lead to, and so over all well-formed ones, exactly these bus
      numbers are always read back. */
  lemma UpdateReadsIff(busno: bv32)
    ensures (forall requests, addr :: ReadsBack(Run(Zeroed(), requests), addr, busno)) <==> busno == 0 || busno & 1 == 1
    ensures (forall c, addr :: Formed(c) ==> ReadsBack(c, addr, busno)) <==> busno == 0 || busno & 1 == 1
  {
    hide Run, ReadsBack;
    forall c, addr | Formed(c) && (busno == 0 || busno & 1 == 1) ensures ReadsBack(c, addr, busno) {
      UpdateReads(c, addr, busno);
    }
    forall requests ensures Formed(Run(Zeroed(), requests)) { RunForms(Zeroed(), requests); }
    ThreeRequests();
    UpdateReads(Run(Zeroed(), [(1, 0), (2, 0), (3, 0)]), 4, busno);
  }

  lemma {:induction false} RunForms(c: seq<Entry>, requests: seq<(bv32, bv32)>)
    requires Formed(c)
    ensures Formed(Run(c, requests))
    decreases |requests|
  {
    hide Updated;
    if requests != [] {
      UpdateForms(c, requests[0].0, requests[0].1);
      RunForms(Updated(c, requests[0].0, requests[0].1).0, requests[1..]);
    }
  }

  /** Three devices on bus 0 fill the first three slots; the last one, without a rank, comes next. */
  lemma ThreeRequests()
    ensures var c := Run(Zeroed(), [(1, 0), (2, 0), (3, 0)]);
      Formed(c) && forall k :: 0 <= k < 3 ==> c[3].lrui < c[k].lrui
  {
    hide Updated, Run;
    var c0, c1, c2, c3 := Stage(0), Stage(1), Stage(2), Stage(3);
    NextSlot(0, 1);
    NextSlot(1, 2);
    NextSlot(2, 3);
    assert Zeroed() == c0;
    RunThree(c0, c1, c2, c3, (1, 0), (2, 0), (3, 0));
  }

  /** The table after `n` new devices on bus 0. */
  function Stage(n: nat): (c: seq<Entry>)
    requires n <= 3
    ensures |c| == 4
  {
    [if n > 0 then Entry(0, 1, n) else EMPTY, if n > 1 then Entry(0, 2, n - 1) else EMPTY,
     if n > 2 then Entry(0, 3, n - 2) else EMPTY, EMPTY]
  }

  lemma RunThree(c0: seq<Entry>, c1: seq<Entry>, c2: seq<Entry>, c3: seq<Entry>, a: (bv32, bv32), b: (bv32, bv32),
                 d: (bv32, bv32))
    requires |c0| == |c1| == |c2| == 4
    requires Updated(c0, a.0, a.1).0 == c1 && Updated(c1, b.0, b.1).0 == c2 && Updated(c2, d.0, d.1).0 == c3
    ensures Run(c0, [a, b, d]) == c3
  {
    hide Updated;
    assert [a, b, d][1..] == [b, d] && [b, d][1..] == [d] && [d][1..] == [];
    assert Run(c2, [d]) == Run(c3, []) == c3;
  }

  lemma NextSlot(n: nat, addr: bv32)
    requires n < 3 && addr == (if n == 0 then 1 else if n == 1 then 2 else 3)
    ensures Updated(Stage(n), addr, 0).0 == Stage(n + 1)
  {
    hide Find, Lowest;
    var c := Stage(n);
    Masks(addr, 0);
    assert c[n].lrui == 0 && forall k :: 0 <= k < n ==> c[k].lrui > 0;
    assert Find(c, 3, addr, 0) == 3 && Lowest(c, 3) == n;
    var d := AfterMiss(c, 3, n, addr, 0);
    assert d[n] == Entry(0, addr, 1);
    assert d == Stage(n + 1);
  }

  lemma BusOf(busno: bv32)
    ensures busno & 1 == 0 || busno & 1 == 1
    ensures busno < 2 ==> busno == 0 || busno == 1
  {
  }

  lemma WindowOf(c: seq<Entry>, addr: bv32, busno: bv32)
    requires |c| == 4
    ensures busno == 0 ==> Updated(c, addr, busno).1 < 3
  {
  }

  lemma UpdateForms(c: seq<Entry>, addr: bv32, busno: bv32)
    requires Formed(c)
    ensures Formed(Updated(c, addr, busno).0)
  {
    hide Updated;
    UpdateHolds(c, addr, busno);
    Masks(addr, busno);
  }

  /** An access refines the step of the ordered list. */
  lemma UpdateReorders(c: seq<Entry>, order: seq<nat>, addr: bv32, busno: bv32)
    requires |c| == 4 && Settled(c) && Orders(Ranks(c), order)
    ensures var (d, s) := Updated(c, addr, busno);
      Orders(Ranks(d), Reordered(order, s, Is(c[s], addr, busno), Window(busno)))
  {
    hide Orders, Reordered, Settled, AfterHit, AfterMiss, Ranks;
    var max := Window(busno);
    var i := Find(c, max, addr, busno);
    if i < max { HitReorders(c, order, max, i); } else { MissReorders(c, order, max, Lowest(c, max), addr, busno); }
  }

  lemma UpdateSettles(c: seq<Entry>, order: seq<nat>, addr: bv32, busno: bv32)
    requires |c| == 4 && Settled(c) && Orders(Ranks(c), order)
    ensures Settled(Updated(c, addr, busno).0)
    ensures busno < 2 && LastOnOne(c) ==> LastOnOne(Updated(c, addr, busno).0)
  {
    hide Find, Lowest, Orders;
    Masks(addr, busno);
    UpdateForms(c, addr, busno);
    SmallRank(Ranks(c), order, 0);
    SmallRank(Ranks(c), order, 1);
    SmallRank(Ranks(c), order, 2);
    SmallRank(Ranks(c), order, 3);
    var max := Window(busno);
    var i := Find(c, max, addr, busno);
    if i < max { HitSettles(c, max, i, addr, busno); } else { MissSettles(c, max, Lowest(c, max), addr, busno); }
  }

  lemma HitSettles(c: seq<Entry>, max: nat, i: nat, addr: bv32, busno: bv32)
    requires |c| == 4 && Settled(c) && i < max <= 4 && Is(c[i], addr, busno) && (i == 3 ==> busno != 0)
    requires forall k :: 0 <= k < 4 ==> c[k].lrui <= 4
    requires Formed(AfterHit(c, max, i))
    ensures Settled(AfterHit(c, max, i)) && (LastOnOne(c) ==> LastOnOne(AfterHit(c, max, i)))
  {
    hide AfterHit;
    HitKeeps(c, max, i);
  }

  lemma MissSettles(c: seq<Entry>, max: nat, s: nat, addr: bv32, busno: bv32)
    requires |c| == 4 && Settled(c) && s < max == Window(busno) && s == Lowest(c, max)
    requires forall k :: 0 <= k < 4 ==> c[k].lrui <= 4
    requires Formed(AfterMiss(c, max, s, addr, busno))
    ensures Settled(AfterMiss(c, max, s, addr, busno))
    ensures busno < 2 && LastOnOne(c) ==> LastOnOne(AfterMiss(c, max, s, addr, busno))
  {
    hide Lowest;
    Masks(addr, busno);
    BusOf(busno);
  }

  // ---------------------------------------------------------------- whole runs

  predicate Same(e: Entry, f: Entry) { e.addr == f.addr && e.busn == f.busn }

  /** No device is in two slots; only the empty slots look alike, and of those only the first can be ranked. */
  predicate Unique(c: seq<Entry>)
    requires |c| == 4
  {
    forall i, j :: 0 <= i < j < 4 && Same(c[i], c[j]) ==> Is(c[j], 0, 0) && c[j].lrui == 0
  }

  /** What every run keeps; `low` says that all bus numbers asked for were 0 or 1, and `narrow` that all
      addresses had seven bits as well. */
  ghost predicate Good(c: seq<Entry>, low: bool, narrow: bool) {
    && |c| == 4 && Settled(c) && (exists order :: Orders(Ranks(c), order))
    && (low ==> LastOnOne(c)) && (low && narrow ==> Unique(c))
  }

  lemma UpdateUnique(c: seq<Entry>, order: seq<nat>, addr: bv32, busno: bv32)
    requires |c| == 4 && Settled(c) && LastOnOne(c) && Unique(c) && Orders(Ranks(c), order) && addr < 128 && busno < 2
    ensures Unique(Updated(c, addr, busno).0)
  {
    hide Find, Lowest, Orders;
    Masks(addr, busno);
    UpdateForms(c, addr, busno);
    var max := Window(busno);
    var i := Find(c, max, addr, busno);
    if i < max { HitUnique(c, max, i); } else { MissUnique(c, max, Lowest(c, max), addr, busno); }
  }

  lemma HitUnique(c: seq<Entry>, max: nat, i: nat)
    requires |c| == 4 && Unique(c) && i < max <= 4 && forall k :: 0 <= k < i ==> !Same(c[k], c[i])
    ensures Unique(AfterHit(c, max, i))
  {
    HitKeeps(c, max, i);
    hide AfterHit;
  }

  lemma MissUnique(c: seq<Entry>, max: nat, s: nat, addr: bv32, busno: bv32)
    requires |c| == 4 && Settled(c) && LastOnOne(c) && Unique(c) && s < max == Window(busno) && addr < 128 && busno < 2
    requires forall k :: 0 <= k < max ==> !Is(c[k], addr, busno)
    ensures Unique(AfterMiss(c, max, s, addr, busno))
  {
    hide AfterMiss;
    Masks(addr, busno);
    BusOf(busno);
    MissKeeps(c, max, s, addr, busno);
    var d := AfterMiss(c, max, s, addr, busno);
    forall i, j | 0 <= i < j < 4 && Same(d[i], d[j]) ensures Is(d[j], 0, 0) && d[j].lrui == 0 {
      if i != s && j != s { assert Same(c[i], c[j]); }
      assert j != s ==> Same(d[j], c[j]);
    }
  }

  lemma MissKeeps(c: seq<Entry>, max: nat, s: nat, addr: bv32, busno: bv32)
    requires s < max <= |c|
    ensures var d := AfterMiss(c, max, s, addr, busno);
      && Is(d[s], addr & 0x7f, busno & 1)
      && forall k :: 0 <= k < |c| && k != s ==> Same(d[k], c[k]) && (c[k].lrui == 0 ==> d[k].lrui == 0)
  {
  }

  function Run(c: seq<Entry>, requests: seq<(bv32, bv32)>): (r: seq<Entry>)
    requires |c| == 4
    ensures |r| == 4
    decreases |requests|
  {
    if requests == [] then c else Run(Updated(c, requests[0].0, requests[0].1).0, requests[1..])
  }

  predicate Low(requests: seq<(bv32, bv32)>) { forall k :: 0 <= k < |requests| ==> requests[k].1 < 2 }

  predicate Narrow(requests: seq<(bv32, bv32)>) { forall k :: 0 <= k < |requests| ==> requests[k].0 < 128 }

  lemma {:induction false} RunGood(c: seq<Entry>, requests: seq<(bv32, bv32)>, low: bool, narrow: bool)
    requires Good(c, low, narrow) && (low ==> Low(requests)) && (narrow ==> Narrow(requests))
    ensures Good(Run(c, requests), low, narrow)
    decreases |requests|
  {
    hide Updated, Unique, LastOnOne, Orders, Settled;
    if requests != [] {
      var order :| Orders(Ranks(c), order);
      var (addr, busno) := requests[0];
      UpdateReorders(c, order, addr, busno);
      UpdateSettles(c, order, addr, busno);
      if low && narrow { UpdateUnique(c, order, addr, busno); }
      RunGood(Updated(c, addr, busno).0, requests[1..], low, narrow);
    }
  }

  /** The table as it is allocated. */
  function Zeroed(): (c: seq<Entry>)
    ensures |c| == 4 && forall i :: 0 <= i < 4 ==> c[i] == EMPTY
  {
    seq(4, _ => EMPTY)
  }

  lemma NoneRanked(r: seq<nat>, order: seq<nat>)
    requires |r| == 4 && (forall i :: 0 <= i < 4 ==> r[i] == 0) && |order| == 0
    ensures Orders(r, order)
  {
  }

  lemma ZeroGood(c: seq<Entry>)
    requires |c| == 4 && forall i :: 0 <= i < 4 ==> c[i] == EMPTY
    ensures Good(c, true, true)
  {
    NoneRanked(Ranks(c), []);
  }

  /** From the zeroed table on, after any requests: the ranks are exactly 1 to some k and the last slot
      is the last to be ranked; it is on bus 1 if only buses 0 and 1 were asked for; and no device is in
      two slots if all addresses had seven bits as well. */
  lemma AnyRun(requests: seq<(bv32, bv32)>)
    ensures Good(Run(Zeroed(), requests), Low(requests), Narrow(requests))
  {
    hide Run;
    ZeroGood(Zeroed());
    RunGood(Zeroed(), requests, Low(requests), Narrow(requests));
  }
}
