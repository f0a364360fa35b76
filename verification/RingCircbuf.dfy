/** The byte ring behind the jitter buffer. Positions only grow; their remainder by the size is the
    place in the buffer. */
module RingCircbuf {
  import opened Bits

  // ---------------------------------------------------------------- what a ring holds

  /** The place in the buffer `k` bytes after position `pos`. */
  function Slot(pos: nat, k: nat, size: nat): (r: nat)
    requires size > 0
    ensures r < size
  {
    (pos + k) % size
  }

  /** How far the place `j` lies behind position `w`, going round. */
  function Behind(w: nat, j: nat, size: nat): (r: nat)
    requires size > 0
    ensures r < size
  {
    (j - w) % size
  }

  /** The `n` bytes from position `from` on. */
  function Ring(d: seq<byte>, from: nat, n: nat): (r: seq<byte>)
    requires |d| > 0
    ensures |r| == n
    ensures forall k :: 0 <= k < n ==> r[k] == d[Slot(from, k, |d|)]
  {
    seq(n, k requires 0 <= k < n => d[Slot(from, k, |d|)])
  }

  /** The ring after `x` was written from position `w` on. */
  function Written(d: seq<byte>, w: nat, x: seq<byte>): (r: seq<byte>)
    requires |d| > 0
    ensures |r| == |d|
    ensures forall j :: 0 <= j < |d| ==> r[j] == if Behind(w, j, |d|) < |x| then x[Behind(w, j, |d|)] else d[j]
  {
    seq(|d|, j requires 0 <= j < |d| => if Behind(w, j, |d|) < |x| then x[Behind(w, j, |d|)] else d[j])
  }

  lemma SlotUnique(pos: nat, k: nat, size: nat, q: int, r: int)
    requires size > 0 && 0 <= r < size && pos + k == q * size + r
    ensures Slot(pos, k, size) == r
  {
    DivUnique(pos + k, size, q, r);
  }

  lemma BehindUnique(w: nat, j: nat, size: nat, q: int, r: int)
    requires size > 0 && 0 <= r < size && j - w == q * size + r
    ensures Behind(w, j, size) == r
  {
    DivUnique(j - w, size, q, r);
  }

  lemma Multiples(q: int, size: nat)
    ensures (0 - q) * size == 0 - q * size && (q + 1) * size == q * size + size
    ensures (0 - q - 1) * size == 0 - q * size - size
  {
  }

  /** The place of position `pos + k`, seen from position `w`. */
  lemma BehindSlot(pos: nat, k: nat, w: nat, size: nat)
    requires size > 0 && w <= pos + k + size && pos + k < w + size
    ensures Behind(w, Slot(pos, k, size), size) == if pos + k >= w then pos + k - w else pos + k + size - w
  {
    var q := (pos + k) / size;
    Multiples(q, size);
    assert Slot(pos, k, size) == pos + k - q * size;
    if pos + k >= w {
      BehindUnique(w, Slot(pos, k, size), size, 0 - q, pos + k - w);
    } else {
      BehindUnique(w, Slot(pos, k, size), size, 0 - q - 1, pos + k - w + size);
    }
  }

  lemma SlotSum(pos: nat, a: nat, b: nat, size: nat)
    requires size > 0
    ensures Slot(pos, a + b, size) == Slot(pos + a, b, size)
  {
  }

  /** First in, first out: if there is room, what is written joins the unread bytes at the end and
      leaves them as they were. */
  lemma WrittenJoins(d: seq<byte>, r: nat, w: nat, x: seq<byte>)
    requires |d| > 0 && r <= w && w - r + |x| <= |d|
    ensures Ring(Written(d, w, x), r, w - r + |x|) == Ring(d, r, w - r) + x
    ensures Ring(Written(d, w, x), r, w - r) == Ring(d, r, w - r)
  {
    hide Slot, Behind, Ring, Written;
    var d' := Written(d, w, x);
    forall k | 0 <= k < w - r + |x|
      ensures d'[Slot(r, k, |d|)] == if k < w - r then d[Slot(r, k, |d|)] else x[k - (w - r)]
    {
      BehindSlot(r, k, w, |d|);
    }
  }

  /** Without room the oldest unread byte is lost. */
  lemma WrittenLoses(d: seq<byte>, r: nat, w: nat, x: seq<byte>)
    requires |d| > 0 && r < w <= r + |d| && |x| <= |d| < w - r + |x|
    ensures Ring(Written(d, w, x), r, w - r)[0] == x[|d| - (w - r)]
  {
    hide Slot, Behind, Ring, Written;
    BehindSlot(r, 0, w, |d|);
  }

  lemma RingSplit(d: seq<byte>, from: nat, n: nat, m: nat)
    requires |d| > 0 && m <= n
    ensures Ring(d, from, n)[..m] == Ring(d, from, m) && Ring(d, from, n)[m..] == Ring(d, from + m, n - m)
  {
    hide Slot, Ring;
    forall k | 0 <= k < n - m ensures Ring(d, from, n)[m..][k] == Ring(d, from + m, n - m)[k] {
      SlotSum(from, m, k, |d|);
    }
  }

  /** A stretch of the ring that does not pass the end is a stretch of the buffer. */
  lemma RingStraight(d: seq<byte>, from: nat, n: nat)
    requires |d| > 0 && Slot(from, 0, |d|) + n <= |d|
    ensures Ring(d, from, n) == d[Slot(from, 0, |d|)..Slot(from, 0, |d|) + n]
  {
    hide Ring;
    var at, q := Slot(from, 0, |d|), from / |d|;
    forall k | 0 <= k < n ensures Slot(from, k, |d|) == at + k {
      SlotUnique(from, k, |d|, q, at + k);
    }
  }

  /** Up to the end of the buffer and on from its start. */
  lemma RingTwice(d: seq<byte>, from: nat, n: nat)
    requires |d| > 0 && |d| - Slot(from, 0, |d|) <= n <= |d|
    ensures var at := Slot(from, 0, |d|); Ring(d, from, n) == d[at..] + d[..n - (|d| - at)]
  {
    hide Slot, Ring;
    var m := |d| - Slot(from, 0, |d|);
    SlotAtEnd(from, |d|);
    RingSplit(d, from, n, m);
    RingStraight(d, from, m);
    RingStraight(d, from + m, n - m);
    assert Ring(d, from, n) == Ring(d, from, n)[..m] + Ring(d, from, n)[m..];
  }

  lemma SlotAtEnd(from: nat, size: nat)
    requires size > 0
    ensures Slot(from + (size - Slot(from, 0, size)), 0, size) == 0
  {
    var q := from / size;
    Multiples(q, size);
    SlotUnique(from + (size - Slot(from, 0, size)), 0, size, q + 1, 0);
  }

  /** `d` with `x` in place of what was at `at`. */
  function Placed(d: seq<byte>, at: nat, x: seq<byte>): (r: seq<byte>)
    requires at + |x| <= |d|
    ensures |r| == |d|
  {
    d[..at] + x + d[at + |x|..]
  }

  /** Writing where the bytes do not pass the end. */
  lemma WrittenStraight(d: seq<byte>, w: nat, x: seq<byte>)
    requires |d| > 0 && Slot(w, 0, |d|) + |x| <= |d|
    ensures Written(d, w, x) == Placed(d, Slot(w, 0, |d|), x)
  {
    hide Slot, Behind, Written;
    var at := Slot(w, 0, |d|);
    forall j | 0 <= j < |d| ensures Behind(w, j, |d|) == if j >= at then j - at else j - at + |d| {
      BehindPlace(w, j, |d|);
    }
  }

  lemma BehindPlace(w: nat, j: nat, size: nat)
    requires size > 0 && j < size
    ensures var at := Slot(w, 0, size); Behind(w, j, size) == if j >= at then j - at else j - at + size
  {
    var at, q := Slot(w, 0, size), w / size;
    Multiples(q, size);
    if j >= at { BehindUnique(w, j, size, 0 - q, j - at); } else { BehindUnique(w, j, size, 0 - q - 1, j - at + size); }
  }

  /** Writing in two steps. */
  lemma WrittenTwice(d: seq<byte>, w: nat, x: seq<byte>, y: seq<byte>)
    requires |d| > 0 && |x| + |y| <= |d|
    ensures Written(Written(d, w, x), w + |x|, y) == Written(d, w, x + y)
  {
    hide Behind, Written;
    forall j | 0 <= j < |d|
      ensures Behind(w + |x|, j, |d|) ==
        if |x| <= Behind(w, j, |d|) then Behind(w, j, |d|) - |x| else Behind(w, j, |d|) - |x| + |d|
    {
      BehindLater(w, j, |d|, |x|);
    }
  }

  lemma BehindLater(w: nat, j: nat, size: nat, m: nat)
    requires size > 0 && m <= size
    ensures var r := Behind(w, j, size); Behind(w + m, j, size) == if m <= r then r - m else r - m + size
  {
    var r, q := Behind(w, j, size), (j - w) / size;
    assert (q - 1) * size == q * size - size;
    if m <= r { BehindUnique(w + m, j, size, q, r - m); } else { BehindUnique(w + m, j, size, q - 1, r - m + size); }
  }

  // ---------------------------------------------------------------- the ring

  /** memcpy. */
  method Copy(dst: array<byte>, at: nat, src: array<byte>, from: nat, n: nat)
    requires at + n <= dst.Length && from + n <= src.Length && dst != src
    modifies dst
    ensures dst[..] == Placed(old(dst[..]), at, src[from..from + n])
  {
    forall k | 0 <= k < n { dst[at + k] := src[from + k]; }
  }

  class Circbuf {
    const data: array<byte>
    var wpos: nat
    var rpos: nat

    ghost predicate Valid()
      reads this
    {
      data.Length > 0 && rpos <= wpos <= rpos + data.Length
    }

    /** The bytes written and not read yet, oldest first. */
    ghost function Unread(): seq<byte>
      requires Valid()
      reads this, data
    {
      Ring(data[..], rpos, wpos - rpos)
    }

    /** ring_circbuf_create. */
    constructor (size: nat)
      requires size > 0
      ensures Valid() && fresh(data) && data.Length == size && Unread() == []
      ensures wpos == rpos == 0
    {
      data := new byte[size];
      wpos, rpos := 0, 0;
    }

    /** ring_circbuf_rspace. */
    function ReadSpace(): (n: nat)
      requires Valid()
      reads this, data
      ensures n == |Unread()|
    {
      wpos - rpos
    }

    /** ring_circbuf_wspace. */
    function WriteSpace(): (n: nat)
      requires Valid()
      reads this, data
      ensures n + |Unread()| == data.Length
    {
      data.Length - (wpos - rpos)
    }

    /** ring_circbuf_wptr: where the next byte goes. */
    function WritePlace(): (at: nat)
      requires Valid()
      reads this
      ensures at < data.Length
    {
      Slot(wpos, 0, data.Length)
    }

    /** ring_circbuf_read: takes the oldest `sz` bytes out. The assertions of the source on the
        positions are what the precondition is for. */
    method Read(out: array<byte>, sz: nat)
      requires Valid() && sz <= wpos - rpos && sz <= out.Length && out != data
      modifies this`rpos, out
      ensures Valid() && rpos == old(rpos) + sz
      ensures out[..] == old(Unread())[..sz] + old(out[sz..]) && Unread() == old(Unread())[sz..]
    {
      hide Slot, Ring, Placed;
      ghost var o := out[..];
      RingSplit(data[..], rpos, wpos - rpos, sz);
      ReadParts(data[..], rpos, sz, o);
      var pos := Slot(rpos, 0, data.Length);
      var p1 := data.Length - pos;
      var rsz := if sz > p1 then p1 else sz;
      Copy(out, 0, data, pos, rsz);
      rpos := rpos + rsz;
      if rsz == sz { return; }
      rsz := sz - rsz;
      Copy(out, p1, data, 0, rsz);
      rpos := rpos + rsz;
    }

    /** ring_circbuf_write: appends `sz` bytes, for which the caller has made sure there is room. */
    method Write(src: array<byte>, sz: nat)
      requires Valid() && sz <= data.Length - (wpos - rpos) && sz <= src.Length && src != data
      modifies this`wpos, data
      ensures Valid() && wpos == old(wpos) + sz
      ensures Unread() == old(Unread()) + src[..sz]
    {
      hide Slot, Ring, Placed, Written;
      WrittenJoins(data[..], rpos, wpos, src[..sz]);
      WriteParts(data[..], wpos, src[..], sz);
      var pos := Slot(wpos, 0, data.Length);
      var p1 := data.Length - pos;
      var rsz := if sz > p1 then p1 else sz;
      Copy(data, pos, src, 0, rsz);
      wpos := wpos + rsz;
      if rsz == sz { return; }
      rsz := sz - rsz;
      Copy(data, 0, src, p1, rsz);
      wpos := wpos + rsz;
    }
  }

  /** The two copies of a read. */
  lemma ReadParts(d: seq<byte>, from: nat, sz: nat, o: seq<byte>)
    requires |d| > 0 && sz <= |d| && sz <= |o|
    ensures var pos := Slot(from, 0, |d|);
      Ring(d, from, sz) + o[sz..] ==
      if pos + sz <= |d| then Placed(o, 0, d[pos..pos + sz])
      else Placed(Placed(o, 0, d[pos..|d|]), |d| - pos, d[0..sz - (|d| - pos)])
  {
    hide Slot, Ring;
    hide Placed;
    var pos := Slot(from, 0, |d|);
    if pos + sz <= |d| {
      RingStraight(d, from, sz);
      PlacedFront(o, d[pos..pos + sz]);
    } else {
      RingTwice(d, from, sz);
      PlacedTwice(o, d[pos..|d|], d[0..sz - (|d| - pos)]);
    }
  }

  lemma PlacedFront(o: seq<byte>, a: seq<byte>)
    requires |a| <= |o|
    ensures Placed(o, 0, a) == a + o[|a|..]
  {
  }

  lemma PlacedTwice(o: seq<byte>, a: seq<byte>, b: seq<byte>)
    requires |a| + |b| <= |o|
    ensures Placed(Placed(o, 0, a), |a|, b) == (a + b) + o[|a| + |b|..]
  {
  }

  /** The two copies of a write. */
  lemma WriteParts(d: seq<byte>, w: nat, src: seq<byte>, sz: nat)
    requires |d| > 0 && sz <= |d| && sz <= |src|
    ensures var pos := Slot(w, 0, |d|);
      Written(d, w, src[..sz]) ==
      if pos + sz <= |d| then Placed(d, pos, src[0..sz])
      else Placed(Placed(d, pos, src[0..|d| - pos]), 0, src[|d| - pos..|d| - pos + (sz - (|d| - pos))])
  {
    hide Slot, Placed, Written;
    var p1 := |d| - Slot(w, 0, |d|);
    if sz <= p1 {
      WrittenStraight(d, w, src[..sz]);
    } else {
      WrittenStraight(d, w, src[..p1]);
      SlotAtEnd(w, |d|);
      WrittenStraight(Written(d, w, src[..p1]), w + p1, src[p1..sz]);
      WrittenTwice(d, w, src[..p1], src[p1..sz]);
      assert src[..p1] + src[p1..sz] == src[..sz];
    }
  }
}
