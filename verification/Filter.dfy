/** The block FIR filter: one channel or interleaved channels, decimating or interpolating, with the
    samples that the next block still needs kept in front of the block. */
module Filter {
  import opened Bits

  type int16 = x: int | -0x8000 <= x < 0x8000

  /** Storing an integer as int16_t keeps its low sixteen bits. */
  function Int16(x: int): int16 { (x + 0x8000) % 0x1_0000 - 0x8000 }

  /** An accumulator shifted right, rounding down, and stored. */
  function Scaled(acc: int, shift: nat): int16 { Int16(acc / Pow2(shift)) }

  // ---------------------------------------------------------------- what a filter is

  /** A signal has a value at every time; zero where nothing was sampled. */
  type Signal = nat -> int

  function At(y: Signal, t: nat, i: nat): int { y(t + i) }

  /** The sum of `n` products of the signal from time `t` on with the taps from `from` on. */
  function Dot(y: Signal, t: nat, h: seq<int>, from: nat, n: nat): int
    requires from + n <= |h|
  {
    if n == 0 then 0 else Dot(y, t, h, from, n - 1) + At(y, t, n - 1) * h[from + n - 1]
  }

  /** A plain FIR filter. */
  function Fir(y: Signal, h: seq<int>, t: nat): int { Dot(y, t, h, 0, |h|) }

  function Sample(x: seq<int>, i: int): int { if 0 <= i < |x| then x[i] else 0 }

  /** Channel `c` of `w` interleaved channels. */
  function Channel(x: seq<int>, w: nat, c: nat): Signal {
    (j: nat) => Sample(x, w * j + c)
  }

  /** `l - 1` zeros in front of every sample. */
  function Stuffed(y: Signal, l: nat): Signal
    requires l > 0
  {
    (r: nat) => if r % l == l - 1 then y(r / l) else 0
  }

  /** Only the values under the taps matter. */
  lemma {:induction false} DotSame(y: Signal, t: nat, z: Signal, u: nat, h: seq<int>, from: nat, n: nat)
    requires from + n <= |h| && forall i :: 0 <= i < n ==> At(y, t, i) == At(z, u, i)
    ensures Dot(y, t, h, from, n) == Dot(z, u, h, from, n)
  {
    if n > 0 { DotSame(y, t, z, u, h, from, n - 1); }
  }

  // ---------------------------------------------------------------- polyphase taps

  /** The taps sorted by phase: row `k` holds the taps that meet a sample when the output is `k` places
      after one. */
  function Phase(h: seq<int>, l: nat, f: nat, k: nat): (r: seq<int>)
    requires k < l && |h| == l * f
    ensures |r| == f
  {
    seq(f, i requires 0 <= i < f => PhaseIndex(l, f, k, i); h[l * i + l - k - 1])
  }

  lemma PhaseTap(h: seq<int>, l: nat, f: nat, k: nat, i: nat)
    requires k < l && |h| == l * f && i < f
    ensures 0 <= l * i + l - k - 1 < |h| && Phase(h, l, f, k)[i] == h[l * i + l - k - 1]
  {
    PhaseIndex(l, f, k, i);
  }

  lemma PhaseIndex(l: nat, f: nat, k: nat, i: nat)
    requires k < l && i < f
    ensures 0 <= l * i + l - k - 1 < l * f
  {
    MulMono(i + 1, f, l);
  }

  /** A group of `l` zero-stuffed samples contributes one product. */
  lemma {:induction false} GroupDot(y: Signal, l: nat, q: nat, h: seq<int>, i: nat, m: nat)
    requires l > 0 && m <= l && l * i + m <= |h|
    ensures var k := q % l;
      Dot(Stuffed(y, l), q, h, 0, l * i + m) ==
      Dot(Stuffed(y, l), q, h, 0, l * i) + if m > l - 1 - k then y(q / l + i) * h[l * i + l - k - 1] else 0
  {
    if m > 0 {
      GroupDot(y, l, q, h, i, m - 1);
      StuffedAt(y, l, q, i, m - 1);
    }
  }

  lemma StuffedAt(y: Signal, l: nat, q: nat, i: nat, s: nat)
    requires l > 0 && s < l
    ensures At(Stuffed(y, l), q, l * i + s) == if s == l - 1 - q % l then y(q / l + i) else 0
  {
    var k, p := q % l, q / l;
    assert q == p * l + k;
    assert (p + i) * l == p * l + l * i && (p + i + 1) * l == p * l + l * i + l;
    if k + s < l {
      DivUnique(q + (l * i + s), l, p + i, k + s);
    } else {
      DivUnique(q + (l * i + s), l, p + i + 1, k + s - l);
    }
  }

  lemma PhaseStep(y: Signal, l: nat, f: nat, q: nat, h: seq<int>, i: nat)
    requires l > 0 && |h| == l * f && i < f
    ensures 0 <= l * i && l * (i + 1) <= |h|
    ensures Dot(y, q / l, Phase(h, l, f, q % l), 0, i + 1) - Dot(y, q / l, Phase(h, l, f, q % l), 0, i) ==
      Dot(Stuffed(y, l), q, h, 0, l * (i + 1)) - Dot(Stuffed(y, l), q, h, 0, l * i)
  {
    hide Stuffed, Phase;
    MulMono(i + 1, f, l);
    assert l * (i + 1) == l * i + l;
    GroupDot(y, l, q, h, i, l);
    PhaseTap(h, l, f, q % l, i);
  }

  /** Filtering with one phase is filtering the zero-stuffed signal with all the taps. */
  lemma {:induction false} PhaseDot(y: Signal, l: nat, f: nat, q: nat, h: seq<int>, n: nat)
    requires l > 0 && |h| == l * f && n <= f
    ensures l * n <= |h|
    ensures Dot(y, q / l, Phase(h, l, f, q % l), 0, n) == Dot(Stuffed(y, l), q, h, 0, l * n)
  {
    hide Stuffed, Phase;
    MulMono(n, f, l);
    if n == 0 {
      assert l * n == 0;
    } else {
      hide Dot;
      PhaseDot(y, l, f, q, h, n - 1);
      PhaseStep(y, l, f, q, h, n - 1);
    }
  }

  // ---------------------------------------------------------------- one pass over a signal

  /** The gain of an interpolating filter is made up for by shifting less. */
  function GainShift(l: nat): nat {
    if l == 1 then 15
    else if l == 2 then 14
    else if l == 4 then 13
    else if l == 8 then 12
    else if l == 16 then 11
    else 10
  }

  /** It is made up for exactly when the factor is a power of two up to 32: zero-stuffing divides the
      signal's amplitude by the factor, and the smaller shift multiplies it back. */
  lemma GainKeptIff(l: nat)
    requires l > 0
    ensures l * Pow2(GainShift(l)) == Pow2(15) <==> l in {1, 2, 4, 8, 16, 32}
  {
    Pow2OfEight();
    assert Pow2(10) == 1024;
    assert Pow2(12) == 4096;
    assert Pow2(14) == 16384;
    assert Pow2(15) == 32768;
  }

  function Times(a: nat, b: nat): nat { a * b }

  function Quotient(a: nat, d: nat): nat
    requires d > 0
  {
    a / d
  }

  datatype Mode = Decimate(bits: nat) | Interpolate(factor: nat)
  {
    predicate Valid(taps: nat) { Interpolate? ==> factor > 0 && taps % factor == 0 }

    function Shift(): nat { if Decimate? then 15 else GainShift(factor) }

    /** How many samples come out of `n` samples. */
    function Outs(n: nat): nat { if Decimate? then Quotient(n, Pow2(bits)) else Times(n, factor) }

    /** Blocks of `n` samples keep the pace: exactly the same number of samples comes out of each. */
    predicate Paced(n: nat) { Decimate? ==> n % Pow2(bits) == 0 }
  }

  /** Output `q` of channel `c`: of the filtered signal every 2^bits-th sample, or the filtered
      zero-stuffed signal. */
  function Output(x: seq<int>, w: nat, h: seq<int>, mode: Mode, q: nat, c: nat): int16
    requires mode.Valid(|h|)
  {
    match mode
    case Decimate(b) => Scaled(Fir(Channel(x, w, c), h, Pow2(b) * q), mode.Shift())
    case Interpolate(l) => Scaled(Fir(Stuffed(Channel(x, w, c), l), h, q), mode.Shift())
  }

  /** The frame and the channel of a place in an interleaved buffer. */
  function FrameAt(p: nat, w: nat): nat
    requires w > 0
  {
    p / w
  }

  function ChannelAt(p: nat, w: nat): nat
    requires w > 0
  {
    p % w
  }

  /** Everything that comes out of `x`, in the order of the output buffer. The first `w * |h|` samples
      of `x` are history. */
  function Pass(x: seq<int>, w: nat, h: seq<int>, mode: Mode): (r: seq<int16>)
    requires w > 0 && mode.Valid(|h|) && |x| >= w * |h|
  {
    seq(w * mode.Outs((|x| - w * |h|) / w), p requires 0 <= p => Output(x, w, h, mode, FrameAt(p, w), ChannelAt(p, w)))
  }

  /** Where output `q` starts reading, and the taps it reads with. */
  function Start(mode: Mode, q: nat): nat
    requires mode.Interpolate? ==> mode.factor > 0
  {
    match mode
    case Decimate(b) => Pow2(b) * q
    case Interpolate(l) => q / l
  }

  function TapsAt(h: seq<int>, mode: Mode, q: nat): (g: seq<int>)
    requires mode.Valid(|h|)
    ensures |g| <= |h| && (mode.Decimate? ==> g == h)
    ensures mode.Interpolate? ==> |g| == |h| / mode.factor
  {
    match mode
    case Decimate(_) => h
    case Interpolate(l) => Fewer(|h|, l); Phase(h, l, |h| / l, q % l)
  }

  lemma Fewer(n: nat, l: nat)
    requires l > 0 && n % l == 0
    ensures n == l * (n / l) && n / l <= n
  {
    MulMono(1, l, n / l);
  }

  /** An interpolated output is a dot product of the signal itself with one phase of the taps. */
  lemma OutputByTaps(x: seq<int>, w: nat, h: seq<int>, mode: Mode, q: nat, c: nat)
    requires mode.Valid(|h|)
    ensures var g := TapsAt(h, mode, q);
      Output(x, w, h, mode, q, c) == Scaled(Dot(Channel(x, w, c), Start(mode, q), g, 0, |g|), mode.Shift())
  {
    hide Stuffed, Phase, Scaled, Channel, Dot;
    if mode.Interpolate? {
      var l := mode.factor;
      Fewer(|h|, l);
      PhaseDot(Channel(x, w, c), l, |h| / l, q, h, |h| / l);
    }
  }

  /** What output `q` reads lies in the first `n` samples and the history. */
  lemma StartInside(mode: Mode, n: nat, q: nat)
    requires (mode.Interpolate? ==> mode.factor > 0) && mode.Paced(n) && q < mode.Outs(n)
    ensures Start(mode, q) < n
  {
    match mode
    case Decimate(b) => MulMono(q + 1, n / Pow2(b), Pow2(b));
    case Interpolate(l) => if q / l >= n { MulMono(n, q / l, l); }
  }

  /** After `n` samples the filter starts over. */
  lemma StartLater(h: seq<int>, mode: Mode, n: nat, q: nat)
    requires mode.Valid(|h|) && mode.Paced(n)
    ensures Start(mode, mode.Outs(n) + q) == n + Start(mode, q)
    ensures TapsAt(h, mode, mode.Outs(n) + q) == TapsAt(h, mode, q)
  {
    hide Phase;
    match mode
    case Decimate(b) => StepLater(n, q, Pow2(b));
    case Interpolate(l) => PhaseLater(n, q, l);
  }

  lemma StepLater(n: nat, q: nat, s: nat)
    requires s > 0 && n % s == 0
    ensures s * (n / s + q) == n + s * q
  {
    assert s * (n / s + q) == s * (n / s) + s * q;
  }

  lemma PhaseLater(n: nat, q: nat, l: nat)
    requires l > 0
    ensures (n * l + q) / l == n + q / l && (n * l + q) % l == q % l
  {
    assert (n + q / l) * l == n * l + q / l * l;
    DivUnique(n * l + q, l, n + q / l, q % l);
  }

  /** Channels of a part of the signal. */
  lemma ChannelPart(x: seq<int>, w: nat, c: nat, off: nat, y: seq<int>, j: nat)
    requires c < w && w * off + |y| <= |x| && x[w * off..w * off + |y|] == y && w * j + c < |y|
    ensures Channel(x, w, c)(off + j) == Channel(y, w, c)(j)
  {
    assert w * (off + j) + c == w * off + (w * j + c);
    assert y[w * j + c] == x[w * off..w * off + |y|][w * j + c];
  }

  /** An output depends only on the part of the signal from where it starts reading. */
  lemma OutputPart(x: seq<int>, w: nat, h: seq<int>, mode: Mode, off: nat, y: seq<int>, n: nat, q: nat, c: nat)
    requires c < w && mode.Valid(|h|) && mode.Paced(n) && mode.Paced(off) && q < mode.Outs(n)
    requires |y| == w * (|h| + n) && w * off + |y| <= |x| && x[w * off..w * off + |y|] == y
    ensures Output(x, w, h, mode, mode.Outs(off) + q, c) == Output(y, w, h, mode, q, c)
  {
    hide Output, Start, TapsAt, Scaled, Channel, Dot, Mode.Outs, Mode.Shift;
    OutputByTaps(x, w, h, mode, mode.Outs(off) + q, c);
    OutputByTaps(y, w, h, mode, q, c);
    StartLater(h, mode, off, q);
    StartInside(mode, n, q);
    var t, g := Start(mode, q), TapsAt(h, mode, q);
    forall i | 0 <= i < |g| ensures At(Channel(x, w, c), off + t, i) == At(Channel(y, w, c), t, i) {
      MulMono(t + i + 1, |h| + n, w);
      ChannelPart(x, w, c, off, y, t + i);
    }
    DotSame(Channel(x, w, c), off + t, Channel(y, w, c), t, g, 0, |g|);
  }

  /** Frames and channels of a position in the output buffer. */
  lemma FrameOf(w: nat, n: nat, p: nat)
    requires w > 0 && p < w * n
    ensures p / w < n && p % w < w && p == w * (p / w) + p % w
  {
    if p / w >= n { MulMono(n, p / w, w); }
  }

  lemma FrameLater(w: nat, m: nat, p: nat)
    requires w > 0
    ensures (w * m + p) / w == m + p / w && (w * m + p) % w == p % w
  {
    assert (m + p / w) * w == w * m + p / w * w;
    DivUnique(w * m + p, w, m + FrameAt(p, w), ChannelAt(p, w));
  }

  lemma OutsAdd(mode: Mode, m: nat, n: nat)
    requires mode.Paced(m) && mode.Paced(n)
    ensures mode.Outs(m + n) == mode.Outs(m) + mode.Outs(n) && mode.Paced(m + n) && mode.Outs(0) == 0 && mode.Paced(0)
  {
    match mode
    case Decimate(b) =>
      var s := Pow2(b);
      assert (m / s + n / s) * s == m / s * s + n / s * s;
      DivUnique(m + n, s, m / s + n / s, 0);
    case Interpolate(l) => assert (m + n) * l == m * l + n * l;
  }

  lemma Frames(w: nat, taps: nat, n: nat)
    requires w > 0
    ensures w * (taps + n) == w * taps + w * n && (w * (taps + n) - w * taps) / w == n
  {
    DivUnique(w * n, w, n, 0);
  }

  lemma PassAt(x: seq<int>, w: nat, h: seq<int>, mode: Mode, n: nat)
    requires w > 0 && mode.Valid(|h|) && |x| == w * (|h| + n)
    ensures |x| >= w * |h| && |Pass(x, w, h, mode)| == w * mode.Outs(n)
    ensures forall p :: 0 <= p < w * mode.Outs(n) ==>
      Pass(x, w, h, mode)[p] == Output(x, w, h, mode, FrameAt(p, w), ChannelAt(p, w))
  {
    hide Output, Mode.Outs, Mode.Valid;
    Frames(w, |h|, n);
  }

  lemma PassSizes(w: nat, taps: nat, m: nat, n: nat)
    ensures w * (taps + (m + n)) == w * (taps + m) + w * n
    ensures w * (taps + m) == w * taps + w * m && w * (taps + n) == w * taps + w * n && w * 0 == 0
  {
  }

  /** The outputs of the old samples stay the same ... */
  lemma OldOutputs(x: seq<int>, z: seq<int>, w: nat, h: seq<int>, mode: Mode, m: nat, p: nat)
    requires w > 0 && mode.Valid(|h|) && mode.Paced(m) && |x| == w * (|h| + m) && x <= z && p < w * mode.Outs(m)
    ensures Output(z, w, h, mode, FrameAt(p, w), ChannelAt(p, w)) ==
            Output(x, w, h, mode, FrameAt(p, w), ChannelAt(p, w))
  {
    hide Output, Mode.Outs, Mode.Valid, Mode.Paced;
    FrameOf(w, mode.Outs(m), p);
    OutsAdd(mode, m, m);
    assert w * 0 == 0 && z[0..|x|] == x;
    OutputPart(z, w, h, mode, 0, x, m, FrameAt(p, w), ChannelAt(p, w));
  }

  /** ... and those of the new ones are the outputs of what follows the old history. */
  lemma NewOutputs(z: seq<int>, y: seq<int>, w: nat, h: seq<int>, mode: Mode, m: nat, n: nat, p: nat, at: nat)
    requires w > 0 && at == w * mode.Outs(m) + p && mode.Valid(|h|) && mode.Paced(m) && mode.Paced(n)
    requires p < w * mode.Outs(n)
    requires |y| == w * (|h| + n) && |z| == w * m + |y| && y <= z[|z| - |y|..]
    ensures Output(z, w, h, mode, FrameAt(at, w), ChannelAt(at, w)) ==
            Output(y, w, h, mode, FrameAt(p, w), ChannelAt(p, w))
  {
    hide Output, Mode.Outs, Mode.Valid, Mode.Paced;
    FrameOf(w, mode.Outs(n), p);
    FrameLater(w, mode.Outs(m), p);
    assert w * m == |z| - |y| && z[w * m..w * m + |y|] == y;
    OutputPart(z, w, h, mode, m, y, n, FrameAt(p, w), ChannelAt(p, w));
  }

  /** A pass over a longer signal is the pass so far followed by a pass over the new samples, with the
      end of the old ones as history. */
  lemma PassGrows(x: seq<int>, b: seq<int>, w: nat, h: seq<int>, mode: Mode, m: nat, n: nat)
    requires w > 0 && mode.Valid(|h|) && mode.Paced(m) && mode.Paced(n)
    requires |x| == w * (|h| + m) && |b| == w * n
    ensures |x + b| == w * (|h| + (m + n)) && |x| >= w * |h| && |x[|x| - w * |h|..] + b| == w * (|h| + n)
    ensures Pass(x + b, w, h, mode) == Pass(x, w, h, mode) + Pass(x[|x| - w * |h|..] + b, w, h, mode)
  {
    hide Output, Pass, Mode.Outs, Mode.Valid, Mode.Paced;
    PassSizes(w, |h|, m, n);
    var z, y := x + b, x[|x| - w * |h|..] + b;
    PassAt(z, w, h, mode, m + n);
    PassAt(x, w, h, mode, m);
    PassAt(y, w, h, mode, n);
    OutsAdd(mode, m, n);
    MulAdd(w, mode.Outs(m), mode.Outs(n));
    var old', new' := w * mode.Outs(m), w * mode.Outs(n);
    forall p | 0 <= p < old' ensures Pass(z, w, h, mode)[p] == Pass(x, w, h, mode)[p] {
      OldOutputs(x, z, w, h, mode, m, p);
    }
    assert z[|z| - |y|..] == y;
    forall p | 0 <= p < new' ensures Pass(z, w, h, mode)[old' + p] == Pass(y, w, h, mode)[p] {
      NewOutputs(z, y, w, h, mode, m, n, p, old' + p);
    }
  }

  lemma MulAdd(w: nat, a: nat, b: nat)
    ensures w * (a + b) == w * a + w * b
  {
  }

  // ---------------------------------------------------------------- the kernels

  /** How many steps of size `step` it takes to pass `count`. */
  function Steps(count: nat, step: nat): nat
    requires step > 0
  {
    (count + step - 1) / step
  }

  lemma StepsDone(count: nat, step: nat, k: nat)
    requires step > 0 && k * step >= count && (k == 0 || (k - 1) * step < count)
    ensures Steps(count, step) == k
  {
    assert k > 0 ==> (k - 1) * step == k * step - step;
    DivUnique(count + step - 1, step, k, count + step - 1 - k * step);
  }

  lemma StepsMore(count: nat, step: nat, k: nat)
    requires step > 0 && k * step < count
    ensures k < Steps(count, step)
  {
    if Steps(count, step) <= k { MulMono(Steps(count, step), k, step); }
  }

  /** The innermost loop: one accumulator. */
  method Accumulate(data: array<int16>, conv: array<int16>, w: nat, ghost c: nat, ghost t: nat, n: nat, row: nat,
                    flen: nat)
    returns (acc: int)
    requires c < w && n == w * t + c && row + flen <= conv.Length
    requires flen > 0 ==> w * (t + flen - 1) + c < data.Length
    ensures acc == Dot(Channel(data[..], w, c), t, conv[row..row + flen], 0, flen)
  {
    hide Channel;
    ghost var y, g := Channel(data[..], w, c), conv[row..row + flen];
    acc := 0;
    var i := 0;
    while i < flen
      invariant 0 <= i <= flen && acc == Dot(y, t, g, 0, i)
    {
      SampleAt(data[..], w, c, t, i, flen);
      acc := acc + (data[n + w * i] as int) * (conv[row + i] as int);
      i := i + 1;
    }
  }

  lemma SampleAt(x: seq<int>, w: nat, c: nat, t: nat, i: nat, flen: nat)
    requires c < w && i < flen && w * (t + flen - 1) + c < |x|
    ensures 0 <= w * t + c + w * i < |x| && At(Channel(x, w, c), t, i) == x[w * t + c + w * i]
  {
    MulMono(t + i, t + flen - 1, w);
    assert w * t + c + w * i == w * (t + i) + c;
  }

  /** The first `n` outputs are in place and the rest of the buffer is as it was. */
  ghost predicate Done(out: seq<int16>, before: seq<int16>, x: seq<int>, w: nat, h: seq<int>, mode: Mode, n: nat)
    requires w > 0 && mode.Valid(|h|)
  {
    && n <= |out| == |before|
    && (forall p :: 0 <= p < n ==> out[p] == Output(x, w, h, mode, FrameAt(p, w), ChannelAt(p, w)))
    && (forall p :: n <= p < |out| ==> out[p] == before[p])
  }

  lemma DoneNext(out: seq<int16>, before: seq<int16>, x: seq<int>, w: nat, h: seq<int>, mode: Mode, q: nat, c: nat)
    requires w > 0 && mode.Valid(|h|) && c < w && w * q + c < |out| && Done(out, before, x, w, h, mode, w * q + c)
    ensures Done(out[w * q + c := Output(x, w, h, mode, q, c)], before, x, w, h, mode, w * q + c + 1)
  {
    hide Output;
    FrameLater(w, q, c);
    DivUnique(c, w, 0, c);
  }

  /** One output: the accumulator, shifted and stored. */
  method Emit(data: array<int16>, conv: array<int16>, out: array<int16>, w: nat, c: nat, n: nat, row: nat, flen: nat,
              shift: nat, at: nat, ghost h: seq<int>, ghost mode: Mode, ghost q: nat, ghost before: seq<int16>)
    requires 0 < w && c < w && mode.Valid(|h|) && out != data && out != conv
    requires row + flen <= conv.Length && conv[row..row + flen] == TapsAt(h, mode, q)
    requires n == w * Start(mode, q) + c && at == w * q + c && shift == mode.Shift() && at < out.Length
    requires w * (Start(mode, q) + |h|) <= data.Length
    requires Done(out[..], before, data[..], w, h, mode, at)
    modifies out
    ensures Done(out[..], before, data[..], w, h, mode, at + 1)
  {
    hide Done, Output, Channel, Dot, Start, TapsAt, Scaled, Mode.Shift;
    ghost var t := Start(mode, q);
    ghost var o := out[..];
    if flen > 0 { MulMono(t + flen, t + |h|, w); LastSample(w, t, flen, c); }
    var acc := Accumulate(data, conv, w, c, t, n, row, flen);
    OutputByTaps(data[..], w, h, mode, q, c);
    DoneNext(o, before, data[..], w, h, mode, q, c);
    out[at] := Scaled(acc, shift);
    assert out[..] == o[at := Output(data[..], w, h, mode, q, c)];
  }

  lemma LastSample(w: nat, t: nat, flen: nat, c: nat)
    requires c < w && flen > 0
    ensures w * (t + flen - 1) + c < w * (t + flen)
  {
    assert w * (t + flen) == w * (t + flen - 1) + w;
  }

  /** conv_int16 and conv_int16i: the decimating kernels, for one channel and for two interleaved ones. */
  method ConvDecimate(data: array<int16>, conv: array<int16>, out: array<int16>, w: nat, count: nat, bits: nat,
                      flen: nat)
    requires 0 < w <= 2 && flen <= conv.Length && out != data && out != conv
    requires count % w == 0 && data.Length >= count + w * flen
    requires out.Length >= w * Steps(count, w * Pow2(bits))
    modifies out
    ensures Done(out[..], old(out[..]), data[..], w, conv[..flen], Decimate(bits), w * Steps(count, w * Pow2(bits)))
  {
    hide Done, Output, Channel, Dot, Scaled, Steps;
    ghost var h, mode, before := conv[..flen], Decimate(bits), out[..];
    ghost var q := 0;
    var n, step := 0, w * Pow2(bits);
    DoneNothing(before, data[..], w, h, mode);
    while n < count
      invariant n == q * step && (q == 0 || (q - 1) * step < count)
      invariant Done(out[..], before, data[..], w, h, mode, w * q)
    {
      StepsMore(count, step, q);
      StepShape(w, q, bits, count, flen, Steps(count, step));
      var c := 0;
      while c < w
        invariant 0 <= c <= w && Done(out[..], before, data[..], w, h, mode, w * q + c)
      {
        Emit(data, conv, out, w, c, n + c, 0, flen, 15, n / Pow2(bits) + c, h, mode, q, before);
        c := c + 1;
      }
      assert w * (q + 1) == w * q + w;
      assert (q + 1) * step == q * step + step;
      n := n + step;
      q := q + 1;
    }
    StepsDone(count, step, q);
  }

  lemma DoneNothing(before: seq<int16>, x: seq<int>, w: nat, h: seq<int>, mode: Mode)
    requires w > 0 && mode.Valid(|h|)
    ensures Done(before, before, x, w, h, mode, w * 0)
  {
  }

  /** Step `q` of a decimating kernel: where it reads and where it writes. */
  lemma StepShape(w: nat, q: nat, bits: nat, count: nat, flen: nat, steps: nat)
    requires w > 0 && count % w == 0 && q * (w * Pow2(bits)) < count && q < steps
    ensures q * (w * Pow2(bits)) == w * Start(Decimate(bits), q)
    ensures q * (w * Pow2(bits)) / Pow2(bits) == w * q
    ensures w * (Start(Decimate(bits), q) + flen) <= count + w * flen
    ensures w * q + w <= w * steps
  {
    var s := Pow2(bits);
    StepSums(w, q, s, flen);
    DivUnique(q * (w * s), s, w * q, 0);
    MulMono(q + 1, steps, w);
  }

  lemma StepSums(w: nat, q: nat, s: nat, flen: nat)
    ensures q * (w * s) == (w * q) * s == w * (s * q)
    ensures w * (s * q + flen) == w * (s * q) + w * flen && w * (q + 1) == w * q + w
  {
  }

  /** conv_int16_p and conv_int16_pi: the interpolating kernels. Row `z` of the taps is phase `z`. */
  method ConvInterpolate(data: array<int16>, conv: array<int16>, out: array<int16>, w: nat, count: nat, interp: nat,
                         flen: nat, ghost h: seq<int>)
    requires 0 < w <= 2 && interp > 0 && |h| == interp * flen && out != data && out != conv
    requires count % w == 0 && data.Length >= count + w * |h|
    requires Interpolate(interp).Valid(|h|) && Phased(conv[..], h, interp, flen)
    requires out.Length >= count * interp
    modifies out
    ensures Done(out[..], old(out[..]), data[..], w, h, Interpolate(interp), count * interp)
  {
    hide Done, Output, Channel, Dot, Scaled, Phased, Phase, TapsAt, Start;
    ghost var mode, before := Interpolate(interp), out[..];
    DoneNothing(before, data[..], w, h, mode);
    var n := 0;
    ghost var k := 0;
    while n < count
      invariant n == w * k <= count
      invariant Done(out[..], before, data[..], w, h, mode, interp * n)
    {
      WholeStep(count, w, n, k);
      ConvPhases(data, conv, out, w, n, interp, flen, h, count, k, before);
      assert interp * (n + w) == interp * n + w * interp;
      n := n + w;
      k := k + 1;
    }
    assert interp * count == count * interp;
  }

  /** The outputs between one sample and the next. */
  method ConvPhases(data: array<int16>, conv: array<int16>, out: array<int16>, w: nat, n: nat, interp: nat, flen: nat,
                    ghost h: seq<int>, ghost count: nat, ghost k: nat, ghost before: seq<int16>)
    requires 0 < w <= 2 && interp > 0 && |h| == interp * flen && out != data && out != conv
    requires n == w * k && n + w <= count && data.Length >= count + w * |h| && out.Length >= count * interp
    requires Interpolate(interp).Valid(|h|) && Phased(conv[..], h, interp, flen)
    requires Done(out[..], before, data[..], w, h, Interpolate(interp), interp * n)
    modifies out
    ensures Done(out[..], before, data[..], w, h, Interpolate(interp), interp * n + w * interp)
  {
    hide Done, Output, Channel, Dot, Scaled, Phased, Phase, TapsAt, Start, Mode.Valid;
    ghost var mode := Interpolate(interp);
    var z := 0;
    while z < interp
      invariant 0 <= z <= interp
      invariant Done(out[..], before, data[..], w, h, mode, interp * n + w * z)
    {
      PhasePlace(w, k, interp, z, count, |h|);
      PhaseRow(h, conv[..], interp, flen, k, z, z * flen, interp * k + z);
      var c := 0;
      while c < w
        invariant 0 <= c <= w && Done(out[..], before, data[..], w, h, mode, interp * n + w * z + c)
      {
        Emit(data, conv, out, w, c, n + c, z * flen, flen, GainShift(interp), interp * n + w * z + c, h, mode,
             interp * k + z, before);
        c := c + 1;
      }
      assert w * (z + 1) == w * z + w;
      z := z + 1;
    }
  }

  ghost predicate Phased(conv: seq<int>, h: seq<int>, l: nat, f: nat)
    requires |h| == l * f
  {
    forall z :: 0 <= z < l ==> z * f + f <= |conv| && conv[z * f..z * f + f] == Phase(h, l, f, z)
  }

  lemma WholeStep(count: nat, w: nat, n: nat, k: nat)
    requires w > 0 && count % w == 0 && n == w * k < count
    ensures n + w == w * (k + 1) <= count
  {
    var m := count / w;
    if m <= k { MulMono(m, k, w); }
    MulMono(k + 1, m, w);
  }

  lemma PhaseRow(h: seq<int>, conv: seq<int>, l: nat, f: nat, k: nat, z: nat, row: nat, q: nat)
    requires z < l && row == z * f && q == l * k + z && Interpolate(l).Valid(|h|)
    requires |h| == l * f && Phased(conv, h, l, f)
    ensures row + f <= |conv| && conv[row..row + f] == TapsAt(h, Interpolate(l), q)
    ensures Start(Interpolate(l), q) == k
  {
    hide Phase;
    DivUnique(q, l, k, z);
    DivUnique(|h|, l, f, 0);
  }

  /** Where the outputs of phase `z` after sample frame `k` go. */
  lemma PhasePlace(w: nat, k: nat, l: nat, z: nat, count: nat, taps: nat)
    requires w > 0 && z < l && w * k + w <= count
    ensures w * (l * k + z) == l * (w * k) + w * z
    ensures w * (k + taps) <= count + w * taps
    ensures l * (w * k) + w * z + w <= count * l
  {
    assert w * (k + taps) == w * k + w * taps;
    MulMono(w * k + w, count, l);
    MulMono(z + 1, l, w);
    PlaceSums(w, k, l, z);
  }

  lemma PlaceSums(w: nat, k: nat, l: nat, z: nat)
    ensures w * (l * k + z) == l * (w * k) + w * z
    ensures l * (w * k + w) == l * (w * k) + w * l && w * (z + 1) == w * z + w
  {
  }

  // ---------------------------------------------------------------- the filter

  ghost predicate Rows(conv: seq<int>, h: seq<int>, l: nat, f: nat, n: nat)
    requires |h| == l * f && n <= l
  {
    forall z :: 0 <= z < n ==> z * f + f <= |conv| && conv[z * f..z * f + f] == Phase(h, l, f, z)
  }

  /** The poly-phase order of the taps. */
  method PolyTaps(conv: array<int16>, pfilter: array<int16>, l: nat, f: nat)
    requires l > 0 && pfilter.Length >= l * f && conv.Length == l * f && conv != pfilter
    modifies conv
    ensures Phased(conv[..], pfilter[..l * f], l, f)
  {
    hide Rows, Phase;
    ghost var h := pfilter[..l * f];
    var k := 0;
    RowsNone(conv[..], h, l, f);
    while k < l
      invariant 0 <= k <= l && Rows(conv[..], h, l, f, k)
    {
      RowInside(k, l, f);
      var i := 0;
      while i < f
        invariant 0 <= i <= f && Rows(conv[..], h, l, f, k)
        invariant conv[k * f..k * f + i] == Phase(h, l, f, k)[..i]
      {
        PhaseTap(h, l, f, k, i);
        ghost var was := conv[..];
        conv[k * f + i] := pfilter[l * i + l - k - 1];
        assert conv[..] == was[k * f + i := pfilter[l * i + l - k - 1]];
        RowsKept(was, h, l, f, k, k * f + i, pfilter[l * i + l - k - 1]);
        assert conv[k * f..k * f + (i + 1)] == conv[k * f..k * f + i] + [conv[k * f + i]];
        assert conv[k * f..k * f + i] == was[k * f..k * f + i];
        i := i + 1;
      }
      RowsNext(conv[..], h, l, f, k);
      k := k + 1;
    }
    RowsAll(conv[..], h, l, f);
  }

  lemma RowInside(k: nat, l: nat, f: nat)
    requires k < l
    ensures 0 <= k * f && k * f + f <= l * f
  {
    MulMono(k + 1, l, f);
    assert (k + 1) * f == k * f + f;
  }

  lemma RowsNone(conv: seq<int>, h: seq<int>, l: nat, f: nat)
    requires |h| == l * f
    ensures Rows(conv, h, l, f, 0)
  {
  }

  lemma RowsKept(conv: seq<int>, h: seq<int>, l: nat, f: nat, k: nat, at: nat, v: int)
    requires |h| == l * f && k <= l && Rows(conv, h, l, f, k) && k * f <= at < |conv|
    ensures Rows(conv[at := v], h, l, f, k)
  {
    hide Phase;
    forall z | 0 <= z < k ensures z * f + f <= |conv| && conv[at := v][z * f..z * f + f] == conv[z * f..z * f + f] {
      RowInside(z, k, f);
    }
  }

  lemma RowsNext(conv: seq<int>, h: seq<int>, l: nat, f: nat, k: nat)
    requires |h| == l * f && k < l && Rows(conv, h, l, f, k) && k * f + f <= |conv|
    requires conv[k * f..k * f + f] == Phase(h, l, f, k)
    ensures Rows(conv, h, l, f, k + 1)
  {
    hide Phase;
  }

  lemma RowsAll(conv: seq<int>, h: seq<int>, l: nat, f: nat)
    requires |h| == l * f && Rows(conv, h, l, f, l)
    ensures Phased(conv, h, l, f)
  {
    hide Phase;
  }

  /** The taps are all inside the caller's array exactly if the factor divides their number: otherwise
      the last one of the first phase is not. */
  lemma TapsInsideIff(taps: nat, l: nat)
    requires l > 0
    ensures var f := (taps + l - 1) / l;
      (forall k, i :: 0 <= k < l && 0 <= i < f ==> TapIndex(l, k, i) < taps) <==> taps % l == 0
  {
    var f := (taps + l - 1) / l;
    if taps % l == 0 {
      DivUnique(taps + l - 1, l, taps / l, l - 1);
      forall k, i | 0 <= k < l && 0 <= i < f ensures TapIndex(l, k, i) < taps { PhaseIndex(l, f, k, i); }
    } else {
      var q, r := taps / l, taps % l;
      assert (q + 1) * l == q * l + l;
      DivUnique(taps + l - 1, l, q + 1, r - 1);
      assert TapIndex(l, 0, q) >= taps;
    }
  }

  function TapIndex(l: nat, k: nat, i: nat): int { l * i + l - k - 1 }

  /** Zeroes, before anything was sampled. */
  function Silence(n: nat): (r: seq<int16>)
    ensures |r| == n && forall i :: 0 <= i < n ==> r[i] == 0
  {
    seq(n, i => 0)
  }

  /** The history is the end of the stream, and what came out is one pass over the whole stream. */
  ghost predicate Follows(hist: seq<int16>, stream: seq<int16>, frames: nat, produced: seq<int16>, w: nat, h: seq<int>,
                          mode: Mode)
  {
    && w > 0 && mode.Valid(|h|) && mode.Paced(frames)
    && |stream| == w * (|h| + frames) && |stream| >= w * |h|
    && hist == stream[|stream| - w * |h|..] && produced == Pass(stream, w, h, mode)
  }

  lemma FollowsStart(w: nat, h: seq<int>, mode: Mode)
    requires w > 0 && mode.Valid(|h|)
    ensures Follows(Silence(w * |h|), Silence(w * |h|), 0, [], w, h, mode)
  {
    hide Pass, Mode.Outs, Mode.Paced;
    var stream := Silence(w * |h|);
    assert stream[|stream| - w * |h|..] == stream;
    NoOuts(mode, w);
    PassNone(stream, w, h, mode);
  }

  /** One block more. */
  lemma FollowsNext(hist: seq<int16>, block: seq<int16>, stream: seq<int16>, frames: nat, produced: seq<int16>,
                    w: nat, h: seq<int>, mode: Mode, n: nat, out: seq<int16>, before: seq<int16>)
    requires Follows(hist, stream, frames, produced, w, h, mode)
    requires mode.Paced(n) && |block| == w * n && |block| >= w * |h|
    requires Done(out, before, hist + block, w, h, mode, w * mode.Outs(n))
    ensures Follows((hist + block)[|block|..], stream + block, frames + n, produced + out[..w * mode.Outs(n)],
                    w, h, mode)
    ensures |out| == |before| && out[w * mode.Outs(n)..] == before[w * mode.Outs(n)..]
  {
    hide Pass, Output, Done, Mode.Outs, Mode.Paced;
    PassGrows(stream, block, w, h, mode, frames, n);
    OutsAdd(mode, frames, n);
    DoneSizes(out, before, hist + block, w, h, mode, w * mode.Outs(n));
    AllDone(out, before, hist + block, w, h, mode, n);
    HistoryMoved(stream, block, hist + block, w * |h|);
  }

  lemma DoneSizes(out: seq<int16>, before: seq<int16>, x: seq<int>, w: nat, h: seq<int>, mode: Mode, n: nat)
    requires w > 0 && mode.Valid(|h|) && Done(out, before, x, w, h, mode, n)
    ensures n <= |out| == |before|
  {
  }

  /** The end of the block becomes the history of the next one. */
  method MoveHistory(data: array<int16>, hist: nat, blocksz: nat)
    requires data.Length == hist + blocksz && hist <= blocksz
    modifies data
    ensures data[..hist] == old(data[..])[blocksz..] && data[hist..] == old(data[hist..])
  {
    forall i | 0 <= i < hist { data[i] := data[blocksz + i]; }
  }

  class FilterData {
    const w: nat
    const mode: Mode
    const taps: nat
    const ftaps: nat
    const blocksz: nat
    const conv: array<int16>
    /** history_data, and behind it the user's block. */
    const data: array<int16>
    ghost const h: seq<int16>
    /** Silence and all blocks so far; how many sample frames the blocks had; all outputs so far. */
    ghost var stream: seq<int16>
    ghost var frames: nat
    ghost var produced: seq<int16>

    ghost predicate Fixed() {
      && 0 < w <= 2 && |h| == taps && mode.Valid(taps)
      && data.Length == w * taps + blocksz && data != conv && conv.Length == taps
      && blocksz % w == 0 && mode.Paced(blocksz / w) && blocksz >= w * taps
      && (if mode.Decimate? then ftaps == taps else |h| == mode.factor * ftaps)
    }

    ghost predicate Table()
      requires Fixed()
      reads conv
    {
      if mode.Decimate? then conv[..] == h else Phased(conv[..], h, mode.factor, ftaps)
    }

    ghost predicate Valid()
      reads this, conv, data
    {
      Fixed() && Table() && Follows(data[..w * taps], stream, frames, produced, w, h, mode)
    }

    /** filter_data_alloc, without the refused flag. The conditions on the sizes are those under which
        blocks can be chained: see TapsInsideIff, CopyApartIff and PaceIff for why each is needed. */
    constructor (origblksz: nat, pfilter: array<int16>, taps: nat, decimInter: nat, interleave: bool, interpolate: bool)
      requires taps <= pfilter.Length
      requires interpolate ==> decimInter > 0 && taps % decimInter == 0
      requires var w := if interleave then 2 else 1;
        && origblksz % w == 0 && origblksz >= w * taps
        && (!interpolate ==> origblksz / w % Pow2(decimInter) == 0)
      ensures Valid() && fresh(data) && fresh(conv)
      ensures w == (if interleave then 2 else 1) && blocksz == origblksz && this.taps == taps && h == pfilter[..taps]
      ensures mode == if interpolate then Interpolate(decimInter) else Decimate(decimInter)
      ensures stream == Silence(w * taps) && frames == 0 && produced == []
    {
      hide Phased, Pass, Follows;
      var w: nat := if interleave then 2 else 1;
      this.w, this.taps, blocksz := w, taps, origblksz;
      mode := if interpolate then Interpolate(decimInter) else Decimate(decimInter);
      var table, f := MakeTable(pfilter, taps, decimInter, interpolate);
      ftaps := f;
      conv := table;
      data := new int16[w * taps + origblksz](_ => 0);
      h := pfilter[..taps];
      stream, frames, produced := Silence(w * taps), 0, [];
      new;
      FollowsStart(w, h, mode);
      assert data[..w * taps] == stream;
    }

    /** filter_data_process: the outputs continue the pass over the whole stream; the user's block stays
        where it is. */
    method Process(out: array<int16>)
      requires Valid() && out != data && out != conv && out.Length >= w * mode.Outs(blocksz / w)
      modifies this`stream, this`frames, this`produced, data, out
      ensures Valid() && stream == old(stream) + old(data[w * taps..])
      ensures produced == old(produced) + out[..w * mode.Outs(blocksz / w)]
      ensures data[w * taps..] == old(data[w * taps..])
      ensures out[w * mode.Outs(blocksz / w)..] == old(out[w * mode.Outs(blocksz / w)..])
    {
      hide Done, Phased, Pass, Output, Table, Follows, Mode.Outs, Mode.Valid, Mode.Paced;
      ghost var x, n, before := data[..], blocksz / w, out[..];
      ghost var hist, block := x[..w * taps], x[w * taps..];
      assert x == hist + block;
      RunKernel(out);
      FollowsNext(hist, block, stream, frames, produced, w, h, mode, n, out[..], before);
      MoveHistory(data, w * taps, blocksz);
      stream, frames := stream + block, frames + n;
      produced := produced + out[..w * mode.Outs(n)];
    }

    /** The kernel of the mode, over the history and the block. */
    method RunKernel(out: array<int16>)
      requires Fixed() && Table() && out != data && out != conv && out.Length >= w * mode.Outs(blocksz / w)
      modifies out
      ensures Done(out[..], old(out[..]), data[..], w, h, mode, w * mode.Outs(blocksz / w))
    {
      hide Done, Phased;
      OutCount(w, mode, blocksz);
      if mode.Decimate? {
        assert conv[..taps] == conv[..];
        ConvDecimate(data, conv, out, w, blocksz, mode.bits, ftaps);
      } else {
        ConvInterpolate(data, conv, out, w, blocksz, mode.factor, ftaps, h);
      }
    }
  }

  /** The tap array and the taps per phase. */
  method MakeTable(pfilter: array<int16>, taps: nat, decimInter: nat, interpolate: bool)
    returns (conv: array<int16>, ftaps: nat)
    requires taps <= pfilter.Length && (interpolate ==> decimInter > 0 && taps % decimInter == 0)
    ensures fresh(conv) && conv.Length == taps
    ensures !interpolate ==> ftaps == taps && conv[..] == pfilter[..taps]
    ensures interpolate ==> taps == decimInter * ftaps && Phased(conv[..], pfilter[..taps], decimInter, ftaps)
  {
    hide Phased;
    ftaps := taps;
    conv := new int16[taps](i requires 0 <= i < taps reads pfilter => pfilter[i]);
    if interpolate {
      ftaps := (taps + decimInter - 1) / decimInter;
      FactorTaps(taps, decimInter);
      PolyTaps(conv, pfilter, decimInter, ftaps);
    }
  }

  lemma PassNone(x: seq<int>, w: nat, h: seq<int>, mode: Mode)
    requires w > 0 && mode.Valid(|h|) && |x| == w * |h|
    ensures Pass(x, w, h, mode) == []
  {
    hide Output;
    NoOuts(mode, w);
    PassAt(x, w, h, mode, 0);
  }

  lemma FactorTaps(taps: nat, l: nat)
    requires l > 0 && taps % l == 0
    ensures taps == l * ((taps + l - 1) / l)
  {
    DivUnique(taps + l - 1, l, taps / l, l - 1);
  }

  lemma NoOuts(mode: Mode, w: nat)
    ensures mode.Outs(0) == 0 && mode.Paced(0) && w * mode.Outs(0) == 0
  {
    OutsAdd(mode, 0, 0);
  }

  /** The number of outputs of a block. */
  lemma OutCount(w: nat, mode: Mode, blocksz: nat)
    requires w > 0 && blocksz % w == 0 && mode.Paced(blocksz / w)
    ensures mode.Decimate? ==> w * Steps(blocksz, w * Pow2(mode.bits)) == w * mode.Outs(blocksz / w)
    ensures mode.Interpolate? ==> blocksz * mode.factor == w * mode.Outs(blocksz / w)
  {
    if mode.Decimate? { StepCount(w, blocksz, Pow2(mode.bits)); } else { FactorCount(w, blocksz / w, mode.factor); }
  }

  lemma StepCount(w: nat, blocksz: nat, s: nat)
    requires w > 0 && s > 0 && blocksz % w == 0 && blocksz / w % s == 0
    ensures Steps(blocksz, w * s) == blocksz / w / s
  {
    var n := blocksz / w;
    var k := n / s;
    assert blocksz == w * n && n == k * s;
    Swap(w, k, s);
    StepsExact(k, w * s);
  }

  lemma FactorCount(w: nat, n: nat, l: nat)
    ensures (w * n) * l == w * (n * l)
  {
  }

  lemma StepsExact(k: nat, step: nat)
    requires step > 0
    ensures Steps(k * step, step) == k
  {
    DivUnique(k * step + step - 1, step, k, step - 1);
  }

  lemma AllDone(out: seq<int16>, before: seq<int16>, x: seq<int>, w: nat, h: seq<int>, mode: Mode, n: nat)
    requires w > 0 && mode.Valid(|h|) && |x| == w * (|h| + n) && Done(out, before, x, w, h, mode, w * mode.Outs(n))
    ensures |x| >= w * |h| && out[..w * mode.Outs(n)] == Pass(x, w, h, mode)
    ensures out[w * mode.Outs(n)..] == before[w * mode.Outs(n)..]
  {
    hide Output, Pass;
    Frames(w, |h|, n);
    PassAt(x, w, h, mode, n);
  }

  lemma HistoryMoved(s: seq<int16>, block: seq<int16>, x: seq<int16>, hist: nat)
    requires hist <= |s| && x == s[|s| - hist..] + block && |block| >= hist
    ensures x[|block|..] == (s + block)[|s + block| - hist..]
  {
  }

  /** The history is moved by memcpy, whose regions must be apart: exactly when a block is at least as
      long as the history. */
  lemma CopyApartIff(hist: nat, blocksz: nat)
    requires hist > 0
    ensures (forall i :: 0 <= i < hist ==> !InCopy(hist, blocksz, i)) <==> blocksz >= hist
  {
    if blocksz < hist { assert InCopy(hist, blocksz, blocksz); }
  }

  predicate InCopy(hist: nat, blocksz: nat, i: int) { blocksz <= i < blocksz + hist }

  /** Blocks put out as many samples as one pass over all of them exactly when the decimation divides
      the block; otherwise they fall behind one another. */
  lemma PaceIff(blocksz: nat, step: nat)
    requires step > 0
    ensures (forall k: nat :: Chained(blocksz, step, k)) <==> blocksz % step == 0
  {
    if blocksz % step == 0 {
      forall k: nat ensures Chained(blocksz, step, k) { PaceKept(blocksz, step, k); }
    } else {
      PaceLost(blocksz, step);
    }
  }

  predicate Chained(blocksz: nat, step: nat, k: nat)
    requires step > 0
  {
    Times(k, Steps(blocksz, step)) == Steps(Times(k, blocksz), step)
  }

  lemma PaceKept(blocksz: nat, step: nat, k: nat)
    requires step > 0 && blocksz % step == 0
    ensures Chained(blocksz, step, k)
  {
    var m := blocksz / step;
    assert blocksz == m * step;
    StepsExact(m, step);
    assert k * (m * step) == (k * m) * step;
    StepsExact(k * m, step);
  }

  lemma PaceLost(blocksz: nat, step: nat)
    requires step > 0 && blocksz % step != 0
    ensures !Chained(blocksz, step, step)
  {
    hide Steps;
    var q, r := blocksz / step, blocksz % step;
    StepsPartly(q, r, step);
    StepsExact(blocksz, step);
    TimesLess(blocksz, q, r, step);
  }

  lemma TimesLess(blocksz: nat, q: nat, r: nat, step: nat)
    requires 0 < r < step && blocksz == q * step + r
    ensures step * blocksz == blocksz * step && step * (q + 1) > blocksz
  {
    assert step * (q + 1) == q * step + step;
  }

  lemma StepsPartly(q: nat, r: nat, step: nat)
    requires 0 < r < step
    ensures Steps(q * step + r, step) == q + 1
  {
    assert (q + 1) * step == q * step + step;
    DivUnique(q * step + r + step - 1, step, q + 1, r - 1);
  }
}
