/** What a filter does to a signal, said without its convolution: the answer to a single sample and to a
    constant signal, over everything that any number of blocks has put out. */
module FilterGain {
  import opened Bits
  import opened Filter

  /** `r` is `a` cut to sixteen bits, as storing it in an int16_t does. */
  predicate Cut(r: int, a: int) { -0x8000 <= r < 0x8000 && (a - r) % 0x1_0000 == 0 }

  /** The filter multiplies by tap over 0x8000 and rounds down; an interpolating one makes up for the
      zeros it puts between the samples. */
  predicate Gained(r: int, product: int, gain: nat) { Cut(r, product * gain / 0x8000) }

  /** The gain that makes up for the factors 1, 2, 4, 8, 16 and 32. Any other factor gets that of 32. */
  function Gain(mode: Mode): nat {
    if mode.Decimate? then 1 else if mode.factor in {1, 2, 4, 8, 16} then mode.factor else 32
  }

  lemma CutOfInt16(a: int)
    ensures Cut(Int16(a), a)
  {
    var m := (a + 0x8000) / 0x1_0000;
    assert a - Int16(a) == m * 0x1_0000;
    DivUnique(a - Int16(a), 0x1_0000, m, 0);
  }

  lemma ScaleUp(a: int, d: nat, l: nat)
    requires d > 0 && l > 0
    ensures d * l > 0 && a * l / (d * l) == a / d
  {
    MulMono(1, d, l);
    var q, r := a / d, a % d;
    assert a == q * d + r;
    Expand(q, d, r, l);
    MulMono(0, r, l);
    MulMono(r + 1, d, l);
    assert (r + 1) * l == r * l + l;
    DivUnique(a * l, d * l, q, r * l);
  }

  lemma Expand(q: int, d: int, r: int, l: int)
    ensures (q * d + r) * l == q * (d * l) + r * l
  {
  }

  lemma ScaledGain(acc: int, mode: Mode)
    ensures Gained(Scaled(acc, mode.Shift()), acc, Gain(mode))
  {
    hide Int16, Cut;
    var l := Gain(mode);
    ShiftOf(mode);
    ScaleUp(acc, Pow2(mode.Shift()), l);
    CutOfInt16(acc / Pow2(mode.Shift()));
  }

  lemma ShiftOf(mode: Mode)
    ensures Gain(mode) > 0 && Pow2(mode.Shift()) * Gain(mode) == 0x8000
  {
    assert Pow2(10) == 1024;
    assert Pow2(11) == 2048;
    assert Pow2(12) == 4096;
    assert Pow2(13) == 8192;
    assert Pow2(14) == 16384;
    assert Pow2(15) == 32768;
  }

  // ---------------------------------------------------------------- one sample in silence

  /** Channel `c` of the stream is silent but for the value `v` in frame `at`. */
  ghost predicate OneSample(stream: seq<int>, w: nat, c: nat, at: nat, v: int) {
    && w * at + c < |stream| && stream[w * at + c] == v
    && forall j: nat :: j != at && w * j + c < |stream| ==> stream[w * j + c] == 0
  }

  ghost predicate Spike(y: Signal, at: nat, v: int) { y(at) == v && forall j: nat :: j != at ==> y(j) == 0 }

  lemma {:induction false} DotSpike(y: Signal, t: nat, h: seq<int>, n: nat, at: nat, v: int)
    requires n <= |h| && Spike(y, at, v)
    ensures Dot(y, t, h, 0, n) == if t <= at < t + n then v * h[at - t] else 0
  {
    if n > 0 { DotSpike(y, t, h, n - 1, at, v); }
  }

  lemma StuffedSpike(y: Signal, l: nat, at: nat, v: int)
    requires l > 0 && Spike(y, at, v)
    ensures Spike(Stuffed(y, l), l * at + l - 1, v)
  {
    DivUnique(l * at + l - 1, l, at, l - 1);
    forall r: nat | r != l * at + l - 1 ensures Stuffed(y, l)(r) == 0 {
      assert r == r / l * l + r % l;
    }
  }

  lemma ChannelSpike(stream: seq<int>, w: nat, c: nat, at: nat, v: int)
    requires OneSample(stream, w, c, at, v)
    ensures Spike(Channel(stream, w, c), at, v)
  {
  }

  /** Which tap meets the sample of frame `at` in output `q`: its number, if there is one. */
  function TapUnder(mode: Mode, at: nat, q: nat): int {
    match mode
    case Decimate(bits) => at - Pow2(bits) * q
    case Interpolate(l) => l * at + l - 1 - q
  }

  lemma OutputOfSample(stream: seq<int>, w: nat, h: seq<int>, mode: Mode, q: nat, c: nat, at: nat, v: int)
    requires mode.Valid(|h|) && OneSample(stream, w, c, at, v)
    ensures var i := TapUnder(mode, at, q);
      Gained(Output(stream, w, h, mode, q, c), if 0 <= i < |h| then v * h[i] else 0, Gain(mode))
  {
    hide Stuffed, Scaled, Channel, Dot, Mode.Shift, Spike, OneSample, Gained;
    var y := Channel(stream, w, c);
    ChannelSpike(stream, w, c, at, v);
    match mode {
      case Decimate(bits) =>
        DotSpike(y, Pow2(bits) * q, h, |h|, at, v);
        ScaledGain(Fir(y, h, Pow2(bits) * q), mode);
      case Interpolate(l) =>
        StuffedSpike(y, l, at, v);
        DotSpike(Stuffed(y, l), q, h, |h|, l * at + l - 1, v);
        ScaledGain(Fir(Stuffed(y, l), h, q), mode);
    }
  }

  /** How much has come out: one frame for each 2^bits of the blocks, or `factor` for each. */
  lemma OutputCount(f: FilterData)
    requires f.Valid()
    ensures |f.stream| == f.w * (f.taps + f.frames)
    ensures var outs := f.mode.Outs(f.frames);
      && |f.produced| == f.w * outs
      && (f.mode.Decimate? ==> outs * Pow2(f.mode.bits) == f.frames)
      && (f.mode.Interpolate? ==> outs == f.frames * f.mode.factor)
  {
    hide Pass;
    PassAt(f.stream, f.w, f.h, f.mode, f.frames);
  }

  lemma ProducedAt(f: FilterData, q: nat, c: nat)
    requires f.Valid() && q < f.mode.Outs(f.frames) && c < f.w
    ensures f.w * q + c < |f.produced| && f.produced[f.w * q + c] == Output(f.stream, f.w, f.h, f.mode, q, c)
  {
    hide Pass, Output, Mode.Outs, Mode.Valid;
    PassAt(f.stream, f.w, f.h, f.mode, f.frames);
    MulMono(q + 1, f.mode.Outs(f.frames), f.w);
    assert f.w * (q + 1) == f.w * q + f.w;
    DivUnique(f.w * q + c, f.w, q, c);
  }

  /** After any number of blocks: if a channel was silent but for one sample `v` (the first `taps` frames
      of the stream are the silence before the first block), every output of the channel is `v` times the
      tap that lies under the sample, over 0x8000 and rounded down, and nothing if none does. */
  lemma ImpulseResponse(f: FilterData, c: nat, at: nat, v: int, q: nat)
    requires f.Valid() && c < f.w && q < f.mode.Outs(f.frames)
    requires OneSample(f.stream, f.w, c, at, v)
    ensures f.w * q + c < |f.produced|
    ensures var i := TapUnder(f.mode, at, q);
      Gained(f.produced[f.w * q + c], if 0 <= i < f.taps then v * f.h[i] else 0, Gain(f.mode))
  {
    hide Output, OneSample, Gained;
    ProducedAt(f, q, c);
    OutputOfSample(f.stream, f.w, f.h, f.mode, q, c, at, v);
  }

  // ---------------------------------------------------------------- a constant signal

  /** The sum of the first `n` taps. */
  function TapSum(h: seq<int>, n: nat): int
    requires n <= |h|
  {
    if n == 0 then 0 else TapSum(h, n - 1) + h[n - 1]
  }

  /** The sum of every `l`-th tap from number `l - 1 - k` on. */
  function PhaseSum(h: seq<int>, l: nat, k: nat, n: nat): int
    requires k < l && l * n <= |h|
  {
    if n == 0 then 0
    else
      RowEnd(l, k, n);
      PhaseSum(h, l, k, n - 1) + h[l * (n - 1) + l - 1 - k]
  }

  lemma RowEnd(l: nat, k: nat, n: nat)
    requires k < l && n > 0
    ensures l * n == l * (n - 1) + l && 0 <= l * (n - 1) + l - 1 - k < l * n
  {
    MulMono(0, n - 1, l);
  }

  lemma {:induction false} DotConstant(y: Signal, t: nat, h: seq<int>, n: nat, v: int)
    requires n <= |h| && forall j: nat :: t <= j < t + n ==> y(j) == v
    ensures Dot(y, t, h, 0, n) == v * TapSum(h, n)
  {
    if n > 0 {
      DotConstant(y, t, h, n - 1, v);
      assert At(y, t, n - 1) == y(t + (n - 1)) == v;
      assert v * (TapSum(h, n - 1) + h[n - 1]) == v * TapSum(h, n - 1) + v * h[n - 1];
    }
  }

  lemma {:induction false} SumOfPhase(h: seq<int>, l: nat, f: nat, k: nat, n: nat)
    requires k < l && |h| == l * f && n <= f
    ensures l * n <= |h| && TapSum(Phase(h, l, f, k), n) == PhaseSum(h, l, k, n)
  {
    hide Phase;
    MulMono(n, f, l);
    if n > 0 {
      SumOfPhase(h, l, f, k, n - 1);
      RowEnd(l, k, n);
      PhaseTap(h, l, f, k, n - 1);
    }
  }

  function PhaseTotal(h: seq<int>, l: nat, m: nat, n: nat): int
    requires m <= l && l * n <= |h|
  {
    if m == 0 then 0 else PhaseTotal(h, l, m - 1, n) + PhaseSum(h, l, m - 1, n)
  }

  lemma {:induction false} PhaseTotalStep(h: seq<int>, l: nat, m: nat, n: nat)
    requires m <= l && n > 0 && l * n <= |h|
    ensures l * (n - 1) <= |h| && m <= l * n
    ensures PhaseTotal(h, l, m, n) == PhaseTotal(h, l, m, n - 1) + TapSum(h, l * n) - TapSum(h, l * n - m)
  {
    assert l * n == l * (n - 1) + l;
    MulMono(0, n - 1, l);
    if m > 0 {
      PhaseTotalStep(h, l, m - 1, n);
      RowEnd(l, m - 1, n);
    }
  }

  /** The taps of all phases are all the taps. */
  lemma {:induction false} PhasesAddUp(h: seq<int>, l: nat, n: nat)
    requires l * n <= |h|
    ensures PhaseTotal(h, l, l, n) == TapSum(h, l * n)
  {
    if n == 0 {
      NoPhases(h, l, l);
    } else {
      PhaseTotalStep(h, l, l, n);
      assert l * n - l == l * (n - 1);
      PhasesAddUp(h, l, n - 1);
    }
  }

  lemma {:induction false} NoPhases(h: seq<int>, l: nat, m: nat)
    requires m <= l
    ensures l * 0 == 0 && PhaseTotal(h, l, m, 0) == 0
  {
    if m > 0 { NoPhases(h, l, m - 1); }
  }

  /** Channel `c` has the value `v` in the `n` frames from `from` on. */
  ghost predicate Constant(stream: seq<int>, w: nat, c: nat, from: nat, n: nat, v: int) {
    forall j: nat :: from <= j < from + n ==> w * j + c < |stream| && stream[w * j + c] == v
  }

  /** All the taps of output `q` lie on such a stretch. */
  ghost predicate ConstantUnder(stream: seq<int>, w: nat, c: nat, mode: Mode, q: nat, taps: nat, v: int) {
    match mode
    case Decimate(bits) => Constant(stream, w, c, Pow2(bits) * q, taps, v)
    case Interpolate(l) => l > 0 && Constant(stream, w, c, q / l, taps / l, v)
  }

  /** `r` is `v` times the sum of the taps over 0x8000; of an interpolating filter, of the taps of the
      phase of output `q`, times its gain. */
  predicate Steady(r: int, h: seq<int>, mode: Mode, q: nat, v: int) {
    match mode
    case Decimate(_) => Gained(r, v * TapSum(h, |h|), 1)
    case Interpolate(l) =>
      l > 0 && l * (|h| / l) == |h| && Gained(r, v * PhaseSum(h, l, q % l, |h| / l), Gain(mode))
  }

  lemma OutputOfConstant(stream: seq<int>, w: nat, h: seq<int>, mode: Mode, q: nat, c: nat, v: int)
    requires mode.Valid(|h|) && ConstantUnder(stream, w, c, mode, q, |h|, v)
    ensures Steady(Output(stream, w, h, mode, q, c), h, mode, q, v)
  {
    hide Output, Phase, Scaled, Dot, Mode.Shift, Gained;
    var g := TapsAt(h, mode, q);
    OutputByTaps(stream, w, h, mode, q, c);
    DotConstant(Channel(stream, w, c), Start(mode, q), g, |g|, v);
    ScaledGain(Dot(Channel(stream, w, c), Start(mode, q), g, 0, |g|), mode);
    if mode.Interpolate? {
      var l := mode.factor;
      Fewer(|h|, l);
      SumOfPhase(h, l, |h| / l, q % l, |h| / l);
    }
  }

  /** After any number of blocks: an output all of whose taps lie on a stretch of the constant value `v` is
      `v` times the sum of its taps, with the gain. */
  lemma ConstantResponse(f: FilterData, c: nat, v: int, q: nat)
    requires f.Valid() && c < f.w && q < f.mode.Outs(f.frames)
    requires ConstantUnder(f.stream, f.w, c, f.mode, q, f.taps, v)
    ensures f.w * q + c < |f.produced| && Steady(f.produced[f.w * q + c], f.h, f.mode, q, v)
  {
    hide Output, Gained, ConstantUnder, Steady;
    ProducedAt(f, q, c);
    OutputOfConstant(f.stream, f.w, f.h, f.mode, q, c, v);
  }
}
