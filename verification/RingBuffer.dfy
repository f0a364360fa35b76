/** The slot ring between one producing and one consuming thread: two counting semaphores and two
    free-running 32-bit indices. The threads interleave; each step below is atomic. */
module RingBuffer {
  import opened Bits

  const IDX_TIMEDOUT: uint32 := 0xffff_ffff

  ghost predicate IsPow2(m: nat) { exists k: nat :: m == Pow2(k) }

  // ---------------------------------------------------------------- slots

  /** ring_buffer_at: the slot of an index. */
  function At(items: nat, idx: uint32): nat
    requires items > 0
  {
    And(items - 1, idx)
  }

  /** The slot of the `n`-th item ever, whose index is `n` cut to 32 bits. */
  function SlotOf(items: nat, n: nat): nat
    requires items > 0
  {
    At(items, n % TWO32)
  }

  lemma Pow2Is32()
    ensures Pow2(32) == TWO32
  {
    Pow2OfEight();
    Pow2Split(8, 16);
    Pow2Split(16, 32);
  }

  lemma {:induction false} Pow2Mono(j: nat, k: nat)
    requires j <= k
    ensures Pow2(j) <= Pow2(k)
    decreases k
  {
    if j < k { Pow2Mono(j, k - 1); }
  }

  lemma ModOfMod(n: nat, a: nat, b: nat)
    requires a > 0 && b > 0
    ensures n % (a * b) % a == n % a
  {
    var q, r := n / (a * b), n % (a * b);
    assert n == (q * b) * a + r by { assert q * (a * b) == (q * b) * a; }
    assert r == r / a * a + r % a;
    assert (q * b + r / a) * a == (q * b) * a + r / a * a;
    DivUnique(n, a, q * b + r / a, r % a);
  }

  /** With a power of two of slots, masking the wrapped index is taking the remainder of the true one ... */
  lemma MaskIsMod(items: nat, n: nat)
    requires IsPow2(items) && items <= TWO32
    ensures SlotOf(items, n) == n % items
  {
    var k: nat :| items == Pow2(k);
    Pow2Is32();
    if k > 32 { Pow2Mono(33, k); }
    AndMask(k, n % TWO32);
    Pow2Split(k, 32);
    ModOfMod(n, items, Pow2(32 - k));
  }

  /** ... and with any other number of slots two of the first `items` indices share a slot. */
  lemma {:induction false} MaskCollides(items: nat) returns (k: nat)
    requires items > 0 && !IsPow2(items)
    ensures 0 < Pow2(k) < items && And(items - 1, Pow2(k)) == 0
    decreases items
  {
    if items % 2 == 1 {
      k := 0;
      assert items != Pow2(0);
      AndOne(items - 1);
    } else {
      var h := items / 2;
      if IsPow2(h) {
        var e: nat :| h == Pow2(e);
        assert items == Pow2(e + 1);
      }
      var j := MaskCollides(h);
      k := j + 1;
      assert Pow2(k) == 2 * Pow2(k - 1);
      assert items - 1 == 2 * (h - 1) + 1;
      AndOfOdd(h - 1, Pow2(k));
    }
  }

  lemma AndOne(n: nat)
    requires n % 2 == 0
    ensures And(n, 1) == 0
  {
  }

  lemma AndZero(n: nat)
    ensures And(n, 0) == 0
  {
  }

  /** Slots are distinct as long as at most `items` of them are in use: exactly for powers of two. */
  lemma DistinctIffPow2(items: nat)
    requires 0 < items <= TWO32
    ensures IsPow2(items) <==> forall i: nat, j: nat :: i < j < i + items ==> SlotOf(items, i) != SlotOf(items, j)
  {
    if IsPow2(items) {
      forall i: nat, j: nat | i < j < i + items ensures SlotOf(items, i) != SlotOf(items, j) {
        MaskIsMod(items, i);
        MaskIsMod(items, j);
        ModDistinct(i, j, items);
      }
    } else {
      var k := MaskCollides(items);
      AndZero(items - 1);
      DivUnique(Pow2(k), TWO32, 0, Pow2(k));
      assert SlotOf(items, 0) == SlotOf(items, Pow2(k));
    }
  }

  lemma ModDistinct(i: nat, j: nat, m: nat)
    requires m > 0 && i < j < i + m
    ensures i % m != j % m
  {
    if i % m == j % m {
      var q := j / m - i / m;
      assert q * m == j - i by { Distribute(j / m, i / m, m); }
      AtLeastOneMultiple(q, m);
    }
  }

  // ---------------------------------------------------------------- the protocol

  /** The shared object. A slot's contents, `isize` bytes in the source, are a `T` here. */
  datatype Shared<T> = Shared(items: nat, producer: nat, consumer: nat, pidx: uint32, cidx: uint32, slots: seq<T>)

  /** What has happened so far: waits and posts of either side, whether a thread is between its
      semaphore and its index, what was posted and what the consumer saw when it gave a slot back. */
  datatype Past<T> = Past(pwaits: nat, pposts: nat, cwaits: nat, cposts: nat, ptook: bool, ctook: bool,
                          posted: seq<T>, seen: seq<T>)

  datatype Step<T> =
    | ProducerTakes | ProducerIndexes | ProducerWrites(n: nat, v: T) | ProducerPosts
    | ConsumerTakes | ConsumerIndexes | ConsumerPosts

  /** A step of a thread: the producer writes and posts only slots it holds, the consumer gives back
      only slots it holds, neither while it is inside a wait. */
  predicate Enabled<T>(s: Shared<T>, h: Past<T>, step: Step<T>) {
    match step
    case ProducerTakes => !h.ptook && s.producer > 0
    case ProducerIndexes => h.ptook
    case ProducerWrites(n, _) => h.pposts <= n < h.pwaits
    case ProducerPosts => !h.ptook && h.pposts < h.pwaits
    case ConsumerTakes => !h.ctook && s.consumer > 0
    case ConsumerIndexes => h.ctook
    case ConsumerPosts => !h.ctook && h.cposts < h.cwaits
  }

  function Next<T>(s: Shared<T>, step: Step<T>): (r: Shared<T>)
    requires s.items > 0 && |s.slots| == s.items
    ensures r.items == s.items && |r.slots| == s.items
  {
    match step
    case ProducerTakes => if s.producer > 0 then s.(producer := s.producer - 1) else s
    case ProducerIndexes => s.(pidx := (s.pidx + 1) % TWO32)
    case ProducerWrites(n, v) => AndBound(s.items - 1, n % TWO32); s.(slots := s.slots[SlotOf(s.items, n) := v])
    case ProducerPosts => s.(consumer := s.consumer + 1)
    case ConsumerTakes => if s.consumer > 0 then s.(consumer := s.consumer - 1) else s
    case ConsumerIndexes => s.(cidx := (s.cidx + 1) % TWO32)
    case ConsumerPosts => s.(producer := s.producer + 1)
  }

  function Later<T>(s: Shared<T>, h: Past<T>, step: Step<T>): Past<T>
    requires s.items > 0 && |s.slots| == s.items
  {
    match step
    case ProducerTakes => h.(ptook := true)
    case ProducerIndexes => h.(ptook := false, pwaits := h.pwaits + 1)
    case ProducerWrites(_, _) => h
    case ProducerPosts =>
      AndBound(s.items - 1, h.pposts % TWO32);
      h.(pposts := h.pposts + 1, posted := h.posted + [s.slots[SlotOf(s.items, h.pposts)]])
    case ConsumerTakes => h.(ctook := true)
    case ConsumerIndexes => h.(ctook := false, cwaits := h.cwaits + 1)
    case ConsumerPosts =>
      AndBound(s.items - 1, h.cposts % TWO32);
      h.(cposts := h.cposts + 1, seen := h.seen + [s.slots[SlotOf(s.items, h.cposts)]])
  }

  function Start<T>(items: nat, slots: seq<T>): Shared<T> { Shared(items, items, 0, 0, 0, slots) }

  function Nothing<T>(): Past<T> { Past(0, 0, 0, 0, false, false, [], []) }

  /** What every interleaving keeps. */
  ghost predicate Sound<T>(s: Shared<T>, h: Past<T>) {
    && IsPow2(s.items) && 0 < s.items <= TWO32 && |s.slots| == s.items
    && h.cposts <= h.cwaits <= h.pposts <= h.pwaits
    && s.producer + (if h.ptook then 1 else 0) + (h.pwaits - h.cposts) == s.items
    && s.consumer + (if h.ctook then 1 else 0) + h.cwaits == h.pposts
    && s.pidx == h.pwaits % TWO32 && s.cidx == h.cwaits % TWO32
    && |h.posted| == h.pposts && h.seen == h.posted[..h.cposts]
    && forall k :: h.cposts <= k < h.pposts ==> s.slots[k % s.items] == h.posted[k]
  }

  lemma StartSound<T>(items: nat, slots: seq<T>)
    requires IsPow2(items) && 0 < items <= TWO32 && |slots| == items
    ensures Sound(Start(items, slots), Nothing())
  {
  }

  lemma WrapNext(n: nat)
    ensures (n % TWO32 + 1) % TWO32 == (n + 1) % TWO32
  {
    var q, r := n / TWO32, n % TWO32;
    if r + 1 < TWO32 { DivUnique(n + 1, TWO32, q, r + 1); } else { DivUnique(n + 1, TWO32, q + 1, 0); }
  }

  lemma StepSound<T>(s: Shared<T>, h: Past<T>, step: Step<T>)
    requires Sound(s, h) && Enabled(s, h, step)
    ensures Sound(Next(s, step), Later(s, h, step))
  {
    hide SlotOf, IsPow2;
    match step {
      case ProducerIndexes => WrapNext(h.pwaits);
      case ConsumerIndexes => WrapNext(h.cwaits);
      case ProducerWrites(n, _) =>
        MaskIsMod(s.items, n);
        forall k | h.cposts <= k < h.pposts ensures k % s.items != n % s.items { ModDistinct(k, n, s.items); }
      case ProducerPosts => MaskIsMod(s.items, h.pposts);
      case ConsumerPosts => MaskIsMod(s.items, h.cposts);
      case _ =>
    }
  }

  // ---------------------------------------------------------------- whole runs

  ghost predicate Runs<T>(s: Shared<T>, h: Past<T>, steps: seq<Step<T>>)
    requires s.items > 0 && |s.slots| == s.items
    decreases |steps|
  {
    steps == [] || (Enabled(s, h, steps[0]) && Runs(Next(s, steps[0]), Later(s, h, steps[0]), steps[1..]))
  }

  ghost function After<T>(s: Shared<T>, h: Past<T>, steps: seq<Step<T>>): (Shared<T>, Past<T>)
    requires s.items > 0 && |s.slots| == s.items
    decreases |steps|
  {
    if steps == [] then (s, h) else After(Next(s, steps[0]), Later(s, h, steps[0]), steps[1..])
  }

  lemma {:induction false} RunSound<T>(s: Shared<T>, h: Past<T>, steps: seq<Step<T>>)
    requires Sound(s, h) && Runs(s, h, steps)
    ensures Sound(After(s, h, steps).0, After(s, h, steps).1)
    decreases |steps|
  {
    hide Sound;
    if steps != [] {
      SoundShape(s, h);
      StepSound(s, h, steps[0]);
      RunSound(Next(s, steps[0]), Later(s, h, steps[0]), steps[1..]);
    }
  }

  lemma SoundShape<T>(s: Shared<T>, h: Past<T>)
    requires Sound(s, h)
    ensures s.items > 0 && |s.slots| == s.items
  {
  }

  /** After any interleaving from a fresh ring: the semaphores and the slots in hand add up, no slot is
      in the hands of both sides, each side takes the slots one after the other, the consumer finds in
      every slot it holds what was posted there, and it has seen the posted items once each, in order. */
  lemma AnyInterleaving<T>(items: nat, slots: seq<T>, steps: seq<Step<T>>)
    requires IsPow2(items) && 0 < items <= TWO32 && |slots| == items
    requires Runs(Start(items, slots), Nothing(), steps)
    ensures var (s, h) := After(Start(items, slots), Nothing(), steps);
      && s.items == items && |s.slots| == items
      && h.cposts <= h.cwaits <= h.pposts <= h.pwaits && |h.posted| == h.pposts
      && s.producer + s.consumer + (if h.ptook then 1 else 0) + (if h.ctook then 1 else 0)
           + (h.pwaits - h.pposts) + (h.cwaits - h.cposts) == items
      && At(items, s.pidx) == h.pwaits % items && At(items, s.cidx) == h.cwaits % items
      && s.pidx == h.pwaits % 0x1_0000_0000 && s.cidx == h.cwaits % 0x1_0000_0000
      && (forall p, c :: h.pposts <= p < h.pwaits && h.cposts <= c < h.cwaits ==> SlotOf(items, p) != SlotOf(items, c))
      && (forall c :: h.cposts <= c < h.cwaits ==> SlotOf(items, c) < items && s.slots[SlotOf(items, c)] == h.posted[c])
      && h.seen == h.posted[..h.cposts]
  {
    hide At, IsPow2, Runs;
    StartSound(items, slots);
    RunSound(Start(items, slots), Nothing(), steps);
    AfterItems(Start(items, slots), Nothing(), steps);
    var (s, h) := After(Start(items, slots), Nothing(), steps);
    MaskIsMod(items, h.pwaits);
    MaskIsMod(items, h.cwaits);
    forall p, c | h.pposts <= p < h.pwaits && h.cposts <= c < h.cwaits ensures SlotOf(items, p) != SlotOf(items, c) {
      MaskIsMod(items, p);
      MaskIsMod(items, c);
      ModDistinct(c, p, items);
    }
    forall c | h.cposts <= c < h.cwaits ensures SlotOf(items, c) == c % items {
      MaskIsMod(items, c);
    }
  }

  lemma {:induction false} AfterItems<T>(s: Shared<T>, h: Past<T>, steps: seq<Step<T>>)
    requires s.items > 0 && |s.slots| == s.items
    ensures After(s, h, steps).0.items == s.items
    decreases |steps|
  {
    if steps != [] { AfterItems(Next(s, steps[0]), Later(s, h, steps[0]), steps[1..]); }
  }

  /** Nobody is ever stuck for good: one of the threads can always take a step. */
  lemma NoDeadlock<T>(s: Shared<T>, h: Past<T>)
    requires Sound(s, h)
    ensures exists step: Step<T> :: Enabled(s, h, step)
  {
    if h.ptook { assert Enabled(s, h, ProducerIndexes); }
    else if h.ctook { assert Enabled(s, h, ConsumerIndexes); }
    else if h.pposts < h.pwaits { assert Enabled(s, h, ProducerPosts); }
    else if h.cposts < h.cwaits { assert Enabled(s, h, ConsumerPosts); }
    else if s.producer > 0 { assert Enabled(s, h, ProducerTakes); }
    else { assert Enabled(s, h, ConsumerTakes); }
  }

  // ---------------------------------------------------------------- the calls

  datatype Time = Time(sec: int, nsec: int)

  const NANOS := 1_000_000_000

  /** The absolute deadline of a timed wait. */
  function Deadline(now: Time, usecs: nat): Time {
    var t := Time(now.sec + usecs / 1_000_000, now.nsec + usecs % 1_000_000 * 1000);
    if t.nsec > NANOS then Time(t.sec + 1, t.nsec - NANOS) else t
  }

  /** The deadline is the right time, but sem_timedwait refuses it (its nanoseconds are not below a
      thousand million) exactly when they come to a thousand million. */
  lemma DeadlineValidIff(now: Time, usecs: nat)
    requires 0 <= now.nsec < NANOS
    ensures var t := Deadline(now, usecs);
      && t.sec * NANOS + t.nsec == now.sec * NANOS + now.nsec + usecs * 1000
      && (0 <= t.nsec < NANOS <==> now.nsec + usecs % 1_000_000 * 1000 != NANOS)
  {
    assert usecs == usecs / 1_000_000 * 1_000_000 + usecs % 1_000_000;
  }

  class Ring<T(0)> {
    const items: nat
    const data: array<T>
    var producer: nat
    var consumer: nat
    var pidx: uint32
    var cidx: uint32

    /** ring_buffer_create, for a positive number of items. */
    constructor (items: nat)
      requires items > 0
      ensures this.items == items && fresh(data) && View() == Start(items, data[..])
    {
      this.items, data, producer, consumer, pidx, cidx := items, new T[items], items, 0, 0, 0;
    }

    ghost function View(): Shared<T>
      reads this, data
    {
      Shared(items, producer, consumer, pidx, cidx, data[..])
    }

    /** ring_buffer_pwait: times out if there is nothing to take. The largest index looks like a timeout. */
    method PWait() returns (idx: uint32)
      requires items > 0 && data.Length == items
      modifies this`producer, this`pidx
      ensures old(producer) > 0 ==>
        View() == Next(Next(old(View()), ProducerTakes), ProducerIndexes) && idx == old(pidx)
      ensures old(producer) == 0 ==> View() == old(View())
      ensures idx == IDX_TIMEDOUT <==> old(producer) == 0 || old(pidx) == IDX_TIMEDOUT
    {
      if producer == 0 { return IDX_TIMEDOUT; }
      producer := producer - 1;
      idx := pidx;
      pidx := (pidx + 1) % TWO32;
    }

    /** ring_buffer_ppost. */
    method PPost()
      requires items > 0 && data.Length == items
      modifies this`consumer
      ensures View() == Next(old(View()), ProducerPosts)
    {
      consumer := consumer + 1;
    }

    /** ring_buffer_cwait. */
    method CWait() returns (idx: uint32)
      requires items > 0 && data.Length == items
      modifies this`consumer, this`cidx
      ensures old(consumer) > 0 ==>
        View() == Next(Next(old(View()), ConsumerTakes), ConsumerIndexes) && idx == old(cidx)
      ensures old(consumer) == 0 ==> View() == old(View())
      ensures idx == IDX_TIMEDOUT <==> old(consumer) == 0 || old(cidx) == IDX_TIMEDOUT
    {
      if consumer == 0 { return IDX_TIMEDOUT; }
      consumer := consumer - 1;
      idx := cidx;
      cidx := (cidx + 1) % TWO32;
    }

    /** ring_buffer_cpost. */
    method CPost()
      requires items > 0 && data.Length == items
      modifies this`producer
      ensures View() == Next(old(View()), ConsumerPosts)
    {
      producer := producer + 1;
    }

    /** The producer fills the slot of an index it was given. */
    method Put(idx: uint32, v: T)
      requires items > 0 && data.Length == items
      modifies data
      ensures View() == Next(old(View()), ProducerWrites(idx, v))
    {
      hide And, Pow2;
      ghost var s := View();
      AndBound(items - 1, idx);
      var at := At(items, idx);
      data[at] := v;
      assert data[..] == s.slots[at := v];
    }
  }
}
