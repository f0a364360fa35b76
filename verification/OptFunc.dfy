/** Calibration searches over one or two hardware parameters. */
module OptFunc {
  import opened Bits
  import opened Wrappers

  const INT_MAX := 0x7fff_ffff

  /** The device under calibration: two parameters, and a measurement that depends on both. Call number
      n of an evaluation returns `fault(n)`, zero for success. */
  class Rig {
    const measure: (int, int) -> int
    const fault: nat -> int
    var clock: nat
    var x: int
    var y: int
    /** Where measurements were taken. */
    ghost var log: seq<(int, int)>

    constructor (measure: (int, int) -> int, fault: nat -> int, x: int, y: int)
      ensures this.measure == measure && this.fault == fault && clock == 0 && log == []
      ensures this.x == x && this.y == y
    {
      this.measure, this.fault, clock, log := measure, fault, 0, [];
      this.x, this.y := x, y;
    }

    /** The parameter that is not searched over. */
    function Other(idx: nat): int
      reads this
    {
      if idx == 0 then y else x
    }

    /** A call without a result pointer: programs a parameter. */
    method Program(idx: nat, value: int)
      modifies this`x, this`y
      ensures x == if idx == 0 then value else old(x)
      ensures y == if idx == 0 then old(y) else value
    {
      if idx == 0 { x := value; } else { y := value; }
    }

    /** A call with a result pointer: programs a parameter and measures. */
    method Evaluate(idx: nat, value: int) returns (res: int, f: int)
      modifies this
      ensures x == if idx == 0 then value else old(x)
      ensures y == if idx == 0 then old(y) else value
      ensures res == fault(old(clock)) && f == measure(x, y) && log == old(log) + [(x, y)]
      ensures clock == old(clock) + 1
    {
      Program(idx, value);
      res, f := fault(clock), measure(x, y);
      clock := clock + 1;
      log := log + [(x, y)];
    }
  }

  // ---------------------------------------------------------------- one parameter

  /** The points that a search with the given step looks at. */
  predicate OnGrid(start: int, stop: int, step: nat, v: int)
    requires step > 0
  {
    start <= v < stop && (v - start) % step == 0
  }

  /** The first of the lowest values below INT_MAX on a part of the grid, or nothing. */
  ghost predicate FirstMin(g: int -> int, start: int, stop: int, step: nat, px: int, pv: int)
    requires step > 0
  {
    if exists v :: OnGrid(start, stop, step, v) && g(v) < INT_MAX
    then
      && OnGrid(start, stop, step, px) && pv == g(px)
      && (forall v :: OnGrid(start, stop, step, v) ==> pv <= g(v))
      && (forall v :: OnGrid(start, stop, step, v) && v < px ==> pv < g(v))
    else px == -1 && pv == INT_MAX
  }

  lemma GridNext(start: int, i: int, step: nat, v: int)
    requires step > 0 && start <= i && (i - start) % step == 0 && OnGrid(start, i + step, step, v)
    ensures v == i || OnGrid(start, i, step, v)
  {
    if v > i {
      var k := (v - start) / step - (i - start) / step;
      assert k * step == v - i;
      AtLeastOneMultiple(k, step);
    }
  }

  /** One grid point more. */
  lemma FirstMinNext(g: int -> int, start: int, i: int, step: nat, px: int, pv: int)
    requires step > 0 && start <= i && (i - start) % step == 0 && FirstMin(g, start, i, step, px, pv) && g(i) <= INT_MAX
    requires forall v :: OnGrid(start, i, step, v) ==> g(v) <= INT_MAX
    ensures (i + step - start) % step == 0
    ensures FirstMin(g, start, i + step, step, if g(i) < pv then i else px, if g(i) < pv then g(i) else pv)
  {
    assert OnGrid(start, i + step, step, i);
    forall v | OnGrid(start, i + step, step, v) ensures v == i || OnGrid(start, i, step, v) {
      GridNext(start, i, step, v);
    }
    assert forall v :: OnGrid(start, i, step, v) ==> OnGrid(start, i + step, step, v);
    StepOn(i - start, step);
  }

  lemma StepOn(a: int, step: nat)
    requires step > 0 && a % step == 0
    ensures (a + step) % step == 0
  {
    var q := a / step;
    assert a + step == (q + 1) * step;
    ModOfMultiple(q + 1, step);
  }

  lemma ModOfMultiple(q: int, step: nat)
    requires step > 0
    ensures q * step % step == 0
  {
    var r := q * step % step;
    var k := q - q * step / step;
    assert k * step == r;
    AtLeastOneMultiple(k, step);
  }

  /** Only grid points below `stop` count. */
  lemma FirstMinCut(g: int -> int, start: int, stop: int, i: int, step: nat, px: int, pv: int)
    requires step > 0 && FirstMin(g, start, i, step, px, pv) && stop <= i
    requires forall v :: OnGrid(start, i, step, v) ==> OnGrid(start, stop, step, v)
    ensures FirstMin(g, start, stop, step, px, pv)
  {
    assert forall v :: OnGrid(start, stop, step, v) ==> OnGrid(start, i, step, v);
  }

  /** The measurement along one parameter while the other one stays. */
  function Slice(measure: (int, int) -> int, idx: nat, other: int): int -> int {
    v => if idx == 0 then measure(v, other) else measure(other, v)
  }

  /** None of the measurements since the first `n` was below `pv`. */
  ghost predicate Lowest(measure: (int, int) -> int, log: seq<(int, int)>, n: nat, pv: int) {
    n <= |log| && forall k :: n <= k < |log| ==> pv <= measure(log[k].0, log[k].1)
  }

  lemma LowestLess(measure: (int, int) -> int, log: seq<(int, int)>, n: nat, pv: int, v: int)
    requires Lowest(measure, log, n, pv) && v <= pv
    ensures Lowest(measure, log, n, v)
  {
  }

  /** One measurement more. */
  lemma LowestNext(measure: (int, int) -> int, log: seq<(int, int)>, n: nat, pv: int, p: (int, int), v: int)
    requires Lowest(measure, log, n, pv) && v == measure(p.0, p.1)
    ensures Lowest(measure, log + [p], n, if v < pv then v else pv)
  {
  }

  /** The loop of find_iterate_min from `i` on, the best point so far in hand. */
  function GridFrom(g: int -> int, i: int, stop: int, step: nat, bestI: int, best: int): (int, int)
    requires step > 0
    decreases stop - i
  {
    if i >= stop then (bestI, best)
    else if g(i) < best then GridFrom(g, i + step, stop, step, i, g(i))
    else GridFrom(g, i + step, stop, step, bestI, best)
  }

  /** It finds the first minimum on the grid. */
  lemma {:induction false} GridFirst(g: int -> int, start: int, stop: int, step: nat, i: int, bestI: int, best: int)
    requires step > 0 && start <= i && (i - start) % step == 0 && (i == start || i - step < stop)
    requires FirstMin(g, start, i, step, bestI, best) && forall v :: g(v) <= INT_MAX
    ensures var (px, pv) := GridFrom(g, i, stop, step, bestI, best); FirstMin(g, start, stop, step, px, pv)
    decreases stop - i
  {
    hide FirstMin;
    if i >= stop {
      if start < stop {
        GridBelow(g, start, stop, i, step, bestI, best);
      } else {
        FirstMinNowhere(g, start, stop, i, step, bestI, best);
      }
    } else {
      FirstMinNext(g, start, i, step, bestI, best);
      GridFirst(g, start, stop, step, i + step, if g(i) < best then i else bestI, if g(i) < best then g(i) else best);
    }
  }

  lemma FirstMinNowhere(g: int -> int, start: int, stop: int, i: int, step: nat, px: int, pv: int)
    requires step > 0 && stop <= start == i && FirstMin(g, start, i, step, px, pv)
    ensures FirstMin(g, start, stop, step, px, pv)
  {
  }

  /** No evaluation of the calls from `a` to `b` failed. */
  ghost predicate Clean(fault: nat -> int, a: nat, b: nat) { forall n :: a <= n < b ==> fault(n) == 0 }

  /** Where a search over one parameter measures. */
  function Point(idx: nat, v: int, other: int): (int, int) { if idx == 0 then (v, other) else (other, v) }

  /** The log grew by the points start, start + step and so on below `stop`, in this order. */
  ghost predicate Swept(log0: seq<(int, int)>, log: seq<(int, int)>, idx: nat, other: int, start: int, stop: int,
                        step: nat)
    requires step > 0
  {
    && log0 <= log
    && (forall k :: |log0| <= k < |log| ==>
          log[k] == Point(idx, start + (k - |log0|) * step, other) && start + (k - |log0|) * step < stop)
    && start + (|log| - |log0|) * step >= stop
  }

  /** The log grew by the two points that divide the range. */
  ghost predicate Divided(log0: seq<(int, int)>, log: seq<(int, int)>, idx: nat, other: int, start: int, stop: int,
                          scale: int -> int)
  {
    && log0 <= log && |log| >= |log0| + 2
    && log[|log0|] == Point(idx, start + scale(stop - start), other)
    && log[|log0| + 1] == Point(idx, stop - scale(stop - start), other)
  }

  /** So far. */
  ghost predicate Sweeping(log0: seq<(int, int)>, log: seq<(int, int)>, idx: nat, other: int, start: int, i: int,
                           stop: int, step: nat)
    requires step > 0
  {
    && log0 <= log && i == start + (|log| - |log0|) * step
    && forall k :: |log0| <= k < |log| ==>
         log[k] == Point(idx, start + (k - |log0|) * step, other) && start + (k - |log0|) * step < stop
  }

  lemma SweepNext(log0: seq<(int, int)>, log: seq<(int, int)>, idx: nat, other: int, start: int, i: int, stop: int,
                  step: nat)
    requires step > 0 && Sweeping(log0, log, idx, other, start, i, stop, step) && i < stop
    ensures Sweeping(log0, log + [Point(idx, i, other)], idx, other, start, i + step, stop, step)
  {
    var n := |log| - |log0|;
    assert (n + 1) * step == n * step + step;
  }

  lemma SweepStart(log: seq<(int, int)>, idx: nat, other: int, start: int, stop: int, step: nat)
    requires step > 0
    ensures Sweeping(log, log, idx, other, start, start, stop, step)
  {
    assert 0 * step == 0;
  }

  /** find_iterate_min. A search whose start is not below its stop looks at nothing. */
  method FindIterateMin(rig: Rig, idx: nat, start: int, stop: int, exparam: nat) returns (res: int, px: int, pv: int)
    requires Bounded(rig.measure)
    modifies rig
    ensures rig.Other(idx) == old(rig.Other(idx)) && old(rig.log) <= rig.log && rig.clock >= old(rig.clock)
    ensures res == 0 ==>
      (px, pv) == GridFrom(Slice(rig.measure, idx, rig.Other(idx)), start, stop, 1 + exparam, -1, INT_MAX)
    ensures res == 0 ==> FirstMin(Slice(rig.measure, idx, rig.Other(idx)), start, stop, 1 + exparam, px, pv)
    ensures res == 0 ==> Lowest(rig.measure, rig.log, |old(rig.log)|, pv) && Clean(rig.fault, old(rig.clock), rig.clock)
    ensures res == 0 ==> Swept(old(rig.log), rig.log, idx, rig.Other(idx), start, stop, 1 + exparam)
    ensures res != 0 ==> rig.clock > old(rig.clock) && rig.fault(rig.clock - 1) == res
  {
    hide FirstMin, GridFrom, Clean, Sweeping;
    var delta := if start > stop then -1 - exparam else 1 + exparam;
    ghost var g := Slice(rig.measure, idx, rig.Other(idx));
    var best, bestI := INT_MAX, -1;
    var i := start;
    CleanNone(rig.fault, rig.clock);
    SweepStart(rig.log, idx, rig.Other(idx), start, stop, 1 + exparam);
    while i < stop
      invariant i < stop ==> delta == 1 + exparam
      invariant rig.Other(idx) == old(rig.Other(idx)) && old(rig.log) <= rig.log && rig.clock >= old(rig.clock)
      invariant GridFrom(g, i, stop, 1 + exparam, bestI, best) == GridFrom(g, start, stop, 1 + exparam, -1, INT_MAX)
      invariant Lowest(rig.measure, rig.log, |old(rig.log)|, best) && Clean(rig.fault, old(rig.clock), rig.clock)
      invariant Sweeping(old(rig.log), rig.log, idx, rig.Other(idx), start, i, stop, 1 + exparam)
      decreases stop - i
    {
      SweepNext(old(rig.log), rig.log, idx, rig.Other(idx), start, i, stop, 1 + exparam);
      var r, ev := rig.Evaluate(idx, i);
      if r != 0 { return r, bestI, best; }
      CleanNext(rig.fault, old(rig.clock), rig.clock - 1);
      GridTurn(g, i, stop, delta, bestI, best);
      if ev < best { best, bestI := ev, i; }
      i := i + delta;
    }
    GridTurn(g, i, stop, 1 + exparam, bestI, best);
    FirstMinNone(g, start, 1 + exparam);
    GridFirst(g, start, stop, 1 + exparam, start, -1, INT_MAX);
    SweepEnd(old(rig.log), rig.log, idx, rig.Other(idx), start, i, stop, 1 + exparam);
    res, px, pv := 0, bestI, best;
  }

  lemma SweepEnd(log0: seq<(int, int)>, log: seq<(int, int)>, idx: nat, other: int, start: int, i: int, stop: int,
                 step: nat)
    requires step > 0 && Sweeping(log0, log, idx, other, start, i, stop, step) && i >= stop
    ensures Swept(log0, log, idx, other, start, stop, step)
  {
  }

  lemma GridTurn(g: int -> int, i: int, stop: int, step: nat, bestI: int, best: int)
    requires step > 0
    ensures GridFrom(g, i, stop, step, bestI, best) ==
      if i >= stop then (bestI, best)
      else if g(i) < best then GridFrom(g, i + step, stop, step, i, g(i))
      else GridFrom(g, i + step, stop, step, bestI, best)
  {
  }

  lemma FirstMinNone(g: int -> int, start: int, step: nat)
    requires step > 0
    ensures FirstMin(g, start, start, step, -1, INT_MAX) && (start - start) % step == 0
  {
  }

  lemma GridBelow(g: int -> int, start: int, stop: int, i: int, step: nat, px: int, pv: int)
    requires step > 0 && start <= i && (i - start) % step == 0 && stop <= i && (i == start || i - step < stop)
    requires FirstMin(g, start, i, step, px, pv)
    ensures FirstMin(g, start, stop, step, px, pv)
  {
    hide FirstMin;
    forall v | OnGrid(start, i, step, v) ensures OnGrid(start, stop, step, v) {
      var k := (i - start) / step - (v - start) / step;
      assert k * step == i - v;
      AtLeastOneMultiple(k, step);
    }
    FirstMinCut(g, start, stop, i, step, px, pv);
  }

  predicate Between(a: int, b: int, v: int) { a <= v <= b || b <= v <= a }

  /** What the golden ratio times an integer may come to in floating point and be cut to: no more than
      that of the integer, on the same side of zero. */
  ghost predicate Shrinks(scale: int -> int) {
    forall n :: (n >= 0 ==> 0 <= scale(n) <= n) && (n < 0 ==> n <= scale(n) <= 0)
  }

  lemma Ends(start: int, stop: int)
    ensures Between(start, stop, start) && Between(start, stop, stop)
  {
  }

  lemma NewPoint(start: int, stop: int, a: int, b: int, d: int, scale: int -> int)
    requires Shrinks(scale) && d == scale(b - a) && Between(start, stop, a) && Between(start, stop, b)
    ensures Between(start, stop, a + d) && Between(start, stop, b - d)
  {
  }

  /** So far the calls since `clock0` succeeded and touched one parameter only. */
  ghost predicate Fine(rig: Rig, idx: nat, other: int, log0: seq<(int, int)>, clock0: nat)
    reads rig
  {
    rig.Other(idx) == other && log0 <= rig.log && clock0 <= rig.clock && Clean(rig.fault, clock0, rig.clock)
  }

  /** _helper_find_best_eval: one evaluation along one parameter. */
  method Probe(rig: Rig, idx: nat, v: int, ghost other: int, ghost log0: seq<(int, int)>, ghost clock0: nat)
    returns (res: int, f: int)
    requires Fine(rig, idx, other, log0, clock0)
    modifies rig
    ensures f == Slice(rig.measure, idx, other)(v) && (res == 0 ==> Fine(rig, idx, other, log0, clock0))
    ensures rig.log == old(rig.log) + [Point(idx, v, other)]
    ensures f == rig.measure(Point(idx, v, other).0, Point(idx, v, other).1)
    ensures res != 0 ==>
      rig.Other(idx) == other && log0 <= rig.log && rig.clock > clock0 && rig.fault(rig.clock - 1) == res
  {
    res, f := rig.Evaluate(idx, v);
  }

  /** The loop of find_golden_min, for at most `fuel` turns. */
  function GoldenFrom(g: int -> int, a: int, b: int, x1: int, x2: int, d: int, scale: int -> int,
                      fuel: nat): Option<(int, int)>
    decreases fuel
  {
    if d <= 0 then Some((x1, g(x1)))
    else if fuel == 0 then None
    else if g(x1) < g(x2) then
      var d' := scale(b - x2);
      if d' == 0 then Some((x1, g(x1))) else GoldenFrom(g, x2, b, x2 + d', x1, d', scale, fuel - 1)
    else
      var d' := scale(x1 - a);
      if d' == 0 then Some((x2, g(x2))) else GoldenFrom(g, a, x1, x2, x1 - d', d', scale, fuel - 1)
  }

  function Golden(g: int -> int, start: int, stop: int, scale: int -> int, fuel: nat): Option<(int, int)> {
    var d := scale(stop - start);
    GoldenFrom(g, start, stop, start + d, stop - d, d, scale, fuel)
  }

  /** What a golden search returns is a point of its range and the measurement there. */
  lemma {:induction false} GoldenInRange(g: int -> int, start: int, stop: int, a: int, b: int, x1: int, x2: int, d: int,
                                         scale: int -> int, fuel: nat)
    requires Shrinks(scale) && Between(start, stop, a) && Between(start, stop, b)
    requires Between(start, stop, x1) && Between(start, stop, x2)
    ensures match GoldenFrom(g, a, b, x1, x2, d, scale, fuel)
      case None => true
      case Some((px, pv)) => Between(start, stop, px) && pv == g(px)
    decreases fuel
  {
    hide Between, Shrinks;
    if d > 0 && fuel > 0 {
      if g(x1) < g(x2) {
        var d' := scale(b - x2);
        NewPoint(start, stop, x2, b, d', scale);
        GoldenInRange(g, start, stop, x2, b, x2 + d', x1, d', scale, fuel - 1);
      } else {
        var d' := scale(x1 - a);
        NewPoint(start, stop, a, x1, d', scale);
        GoldenInRange(g, start, stop, a, x1, x2, x1 - d', d', scale, fuel - 1);
      }
    }
  }

  lemma GoldenRange(g: int -> int, start: int, stop: int, scale: int -> int, fuel: nat)
    requires Shrinks(scale)
    ensures match Golden(g, start, stop, scale, fuel)
      case None => true
      case Some((px, pv)) => Between(start, stop, px) && pv == g(px)
  {
    hide Between, Shrinks;
    var d := scale(stop - start);
    Ends(start, stop);
    NewPoint(start, stop, start, stop, d, scale);
    GoldenInRange(g, start, stop, start, stop, start + d, stop - d, d, scale, fuel);
  }

  lemma CleanNone(fault: nat -> int, a: nat)
    ensures Clean(fault, a, a)
  {
  }

  lemma CleanNext(fault: nat -> int, a: nat, b: nat)
    requires Clean(fault, a, b) && fault(b) == 0
    ensures Clean(fault, a, b + 1)
  {
  }

  /** One turn. */
  lemma GoldenTurn(g: int -> int, a: int, b: int, x1: int, x2: int, d: int, scale: int -> int, fuel: nat)
    ensures GoldenFrom(g, a, b, x1, x2, d, scale, fuel) ==
      if d <= 0 then Some((x1, g(x1)))
      else if fuel == 0 then None
      else if g(x1) < g(x2) then
        if scale(b - x2) == 0 then Some((x1, g(x1)))
        else GoldenFrom(g, x2, b, x2 + scale(b - x2), x1, scale(b - x2), scale, fuel - 1)
      else
        if scale(x1 - a) == 0 then Some((x2, g(x2)))
        else GoldenFrom(g, a, x1, x2, x1 - scale(x1 - a), scale(x1 - a), scale, fuel - 1)
  {
  }

  /** find_golden_min, for at most `fuel` turns of its loop. */
  method FindGoldenMin(rig: Rig, idx: nat, start: int, stop: int, scale: int -> int, fuel: nat)
    returns (done: bool, res: int, px: int, pv: int, ghost last: int)
    modifies rig
    ensures rig.Other(idx) == old(rig.Other(idx)) && old(rig.log) <= rig.log && rig.clock >= old(rig.clock)
    ensures res == 0 ==> Clean(rig.fault, old(rig.clock), rig.clock)
    ensures res == 0 ==>
      Golden(Slice(rig.measure, idx, rig.Other(idx)), start, stop, scale, fuel) == if done then Some((px, pv)) else None
    ensures res == 0 ==> Divided(old(rig.log), rig.log, idx, rig.Other(idx), start, stop, scale)
    // a search that starts to divide and ends with nothing left to divide: the result is the lowest of
    // all that was measured (`last` is the size of the last step)
    ensures res == 0 && done ==> last <= 0
    ensures res == 0 && done && scale(stop - start) > 0 && last == 0 ==>
      Lowest(rig.measure, rig.log, |old(rig.log)|, pv)
    ensures res != 0 ==> rig.clock > old(rig.clock) && rig.fault(rig.clock - 1) == res
  {
    hide Slice, Golden, GoldenFrom, Clean, Fine, Lowest, Divided, Point;
    ghost var other, log0, clock0 := rig.Other(idx), rig.log, rig.clock;
    ghost var g := Slice(rig.measure, idx, other);
    FineStart(rig, idx);
    GoldenStarts(g, start, stop, scale, fuel);
    var a, b := start, stop;
    var d := scale(b - a);
    var x1, x2 := a + d, b - d;
    var f1, f2;
    px, pv := 0, 0;
    res, f1 := Probe(rig, idx, x1, other, log0, clock0);
    if res != 0 { return true, res, px, pv, 0; }
    res, f2 := Probe(rig, idx, x2, other, log0, clock0);
    if res != 0 { return true, res, px, pv, 0; }
    FirstProbes(rig, log0, idx, other, start, stop, scale, f1, f2);
    ghost var divides := d > 0;
    last := d;
    var turns := 0;
    while d > 0
      invariant 0 <= turns <= fuel && res == 0
      invariant Divided(log0, rig.log, idx, other, start, stop, scale)
      invariant last == d && (divides ==> Lowest(rig.measure, rig.log, |log0|, if d != 0 && f2 < f1 then f2 else f1))
      invariant Fine(rig, idx, other, log0, clock0) && f1 == g(x1) && f2 == g(x2)
      invariant GoldenFrom(g, a, b, x1, x2, d, scale, fuel - turns) == Golden(g, start, stop, scale, fuel)
      decreases fuel - turns
    {
      if turns == fuel {
        GoldenTurn(g, a, b, x1, x2, d, scale, 0);
        FineMeans(rig, idx, other, log0, clock0);
        return false, 0, px, pv, d;
      }
      ghost var log1 := rig.log;
      res, a, b, x1, x2, f1, f2, d :=
        Narrow(rig, idx, a, b, x1, x2, f1, f2, d, scale, fuel - turns, other, log0, clock0, divides);
      if res != 0 { return true, res, px, pv, 0; }
      DividedLater(log0, log1, rig.log, idx, other, start, stop, scale);
      turns, last := turns + 1, d;
    }
    GoldenTurn(g, a, b, x1, x2, d, scale, fuel - turns);
    FineMeans(rig, idx, other, log0, clock0);
    done, px, pv := true, x1, f1;
  }

  lemma GoldenStarts(g: int -> int, start: int, stop: int, scale: int -> int, fuel: nat)
    ensures var d := scale(stop - start);
      Golden(g, start, stop, scale, fuel) == GoldenFrom(g, start, stop, start + d, stop - d, d, scale, fuel)
  {
  }

  lemma FirstProbes(rig: Rig, log0: seq<(int, int)>, idx: nat, other: int, start: int, stop: int, scale: int -> int,
                    f1: int, f2: int)
    requires var d := scale(stop - start);
      rig.log == log0 + [Point(idx, start + d, other)] + [Point(idx, stop - d, other)] &&
      f1 == Slice(rig.measure, idx, other)(start + d) && f2 == Slice(rig.measure, idx, other)(stop - d)
    ensures Divided(log0, rig.log, idx, other, start, stop, scale)
    ensures Lowest(rig.measure, rig.log, |log0|, if f2 < f1 then f2 else f1)
  {
  }

  lemma DividedLater(log0: seq<(int, int)>, log1: seq<(int, int)>, log: seq<(int, int)>, idx: nat, other: int,
                     start: int, stop: int, scale: int -> int)
    requires Divided(log0, log1, idx, other, start, stop, scale) && log1 <= log
    ensures Divided(log0, log, idx, other, start, stop, scale)
  {
  }

  /** One turn of the loop; a turn that ends it leaves `d` at zero. */
  method Narrow(rig: Rig, idx: nat, a0: int, b0: int, x10: int, x20: int, f10: int, f20: int, d0: int,
                scale: int -> int, ghost fuel: nat, ghost other: int, ghost log0: seq<(int, int)>, ghost clock0: nat,
                ghost divides: bool)
    returns (res: int, a: int, b: int, x1: int, x2: int, f1: int, f2: int, d: int)
    requires Fine(rig, idx, other, log0, clock0) && d0 > 0 && fuel > 0
    requires f10 == Slice(rig.measure, idx, other)(x10) && f20 == Slice(rig.measure, idx, other)(x20)
    modifies rig
    requires divides ==> Lowest(rig.measure, rig.log, |log0|, if f20 < f10 then f20 else f10)
    ensures res == 0 ==> Fine(rig, idx, other, log0, clock0) && old(rig.log) <= rig.log
    ensures res == 0 && divides ==> Lowest(rig.measure, rig.log, |log0|, if d != 0 && f2 < f1 then f2 else f1)
    ensures res == 0 ==> f1 == Slice(rig.measure, idx, other)(x1) && f2 == Slice(rig.measure, idx, other)(x2)
    ensures res == 0 ==>
      GoldenFrom(Slice(rig.measure, idx, other), a0, b0, x10, x20, d0, scale, fuel) ==
      GoldenFrom(Slice(rig.measure, idx, other), a, b, x1, x2, d, scale, fuel - 1)
    ensures res != 0 ==>
      rig.Other(idx) == other && log0 <= rig.log && rig.clock > clock0 && rig.fault(rig.clock - 1) == res
  {
    hide Slice, GoldenFrom, Fine, Lowest, Point;
    ghost var log1 := rig.log;
    ghost var g := Slice(rig.measure, idx, other);
    GoldenTurn(g, a0, b0, x10, x20, d0, scale, fuel);
    a, b, x1, x2, f1, f2, res := a0, b0, x10, x20, f10, f20, 0;
    if f1 < f2 {
      a := x2;
      x2, f2 := x1, f1;
      d := scale(b - a);
      if d != 0 {
        x1 := a + d;
        res, f1 := Probe(rig, idx, x1, other, log0, clock0);
        if divides { LowestNext(rig.measure, log1, |log0|, f2, Point(idx, x1, other), f1); }
      }
    } else {
      b := x1;
      x1, f1 := x2, f2;
      d := scale(b - a);
      if d != 0 {
        x2 := b - d;
        res, f2 := Probe(rig, idx, x2, other, log0, clock0);
        if divides { LowestNext(rig.measure, log1, |log0|, f1, Point(idx, x2, other), f2); }
      }
    }
    if d == 0 { GoldenTurn(g, a, b, x1, x2, d, scale, fuel - 1); }
  }

  lemma FineStart(rig: Rig, idx: nat)
    ensures Fine(rig, idx, rig.Other(idx), rig.log, rig.clock)
  {
  }

  lemma FineMeans(rig: Rig, idx: nat, other: int, log0: seq<(int, int)>, clock0: nat)
    requires Fine(rig, idx, other, log0, clock0)
    ensures rig.Other(idx) == other && log0 <= rig.log && clock0 <= rig.clock && Clean(rig.fault, clock0, rig.clock)
  {
  }

  // ---------------------------------------------------------------- two parameters

  datatype Search = IterateMin | GoldenMin

  datatype Limits = Limits(min: int, max: int)
  {
    predicate Straddles() { min <= 0 <= max }

    predicate Has(v: int) { min <= v <= max }
  }

  /** struct opt_iteration2d; all turns evaluate the same rig. */
  datatype Turn = Turn(sf: Search, xlim: Limits, ylim: Limits, exparam: nat)
  {
    function Lim(idx: nat): Limits { if idx == 0 then xlim else ylim }

    /** An iterating turn may have any limits; those of a golden one should straddle zero. */
    predicate Keeps(idx: nat) { sf.IterateMin? || Lim(idx).Straddles() }
  }

  /** C's division by two, towards zero. */
  function Half(n: int): int { if n >= 0 then n / 2 else -((-n) / 2) }

  function Higher(a: int, b: int): int { if a > b then a else b }

  function Lower(a: int, b: int): int { if a < b then a else b }

  /** A search over one parameter. */
  function Found(sf: Search, g: int -> int, start: int, stop: int, exparam: nat, scale: int -> int,
                 fuel: nat): Option<(int, int)>
  {
    match sf
    case IterateMin => Some(GridFrom(g, start, stop, 1 + exparam, -1, INT_MAX))
    case GoldenMin => Golden(g, start, stop, scale, fuel)
  }

  method RunSearch(rig: Rig, sf: Search, idx: nat, start: int, stop: int, exparam: nat, scale: int -> int, fuel: nat)
    returns (done: bool, res: int, px: int, pv: int)
    requires Bounded(rig.measure)
    modifies rig
    ensures rig.Other(idx) == old(rig.Other(idx)) && old(rig.log) <= rig.log && rig.clock >= old(rig.clock)
    ensures res == 0 ==> Clean(rig.fault, old(rig.clock), rig.clock)
    ensures res == 0 ==>
      Found(sf, Slice(rig.measure, idx, rig.Other(idx)), start, stop, exparam, scale, fuel) ==
      if done then Some((px, pv)) else None
    ensures res == 0 && sf.IterateMin? ==> Lowest(rig.measure, rig.log, |old(rig.log)|, pv)
    ensures res == 0 && sf.IterateMin? ==>
      && FirstMin(Slice(rig.measure, idx, rig.Other(idx)), start, stop, 1 + exparam, px, pv)
      && Swept(old(rig.log), rig.log, idx, rig.Other(idx), start, stop, 1 + exparam)
    ensures res == 0 && sf.GoldenMin? ==> Divided(old(rig.log), rig.log, idx, rig.Other(idx), start, stop, scale)
    ensures res != 0 ==> rig.clock > old(rig.clock) && rig.fault(rig.clock - 1) == res
  {
    hide FirstMin, Swept, Divided, Slice, GridFrom, Golden, Clean, Lowest;
    match sf
    case IterateMin =>
      res, px, pv := FindIterateMin(rig, idx, start, stop, exparam);
      done := true;
    case GoldenMin =>
      ghost var last;
      done, res, px, pv, last := FindGoldenMin(rig, idx, start, stop, scale, fuel);
  }

  /** The best point so far, and its measurement (INT_MAX before anything was measured below that). */
  datatype Best = Best(x: int, y: int, value: int)
  {
    function At(idx: nat): int { if idx == 0 then x else y }

    function Other(idx: nat): int { if idx == 0 then y else x }

    function Moved(idx: nat, p: int, v: int): Best { if idx == 0 then Best(p, y, v) else Best(x, p, v) }
  }

  /** One of the two searches of a turn, around the best point so far: the better of what it finds and of
      what was there; and the value it found. */
  function Improved(measure: (int, int) -> int, t: Turn, idx: nat, box: Limits, b: Best, scale: int -> int,
                    fuel: nat): Option<(Best, int)>
  {
    var (start, stop) := Range(t.Lim(idx), box, b.At(idx));
    match Found(t.sf, Slice(measure, idx, b.Other(idx)), start, stop, t.exparam, scale, fuel)
    case None => None
    case Some((p, v)) => Some((if v < b.value then b.Moved(idx, p, v) else b, v))
  }

  /** What a turn searches: its limits around where it stands, cut to the box. */
  function Range(lim: Limits, box: Limits, at: int): (int, int) {
    (Higher(at + lim.min, box.min), Lower(at + lim.max, box.max))
  }

  /** A turn: first the one parameter, then the other. */
  function Turned(measure: (int, int) -> int, t: Turn, xbox: Limits, ybox: Limits, b: Best, scale: int -> int,
                  fuel: nat): Option<(Best, int)>
  {
    match Improved(measure, t, 0, xbox, b, scale, fuel)
    case None => None
    case Some((mid, _)) => Improved(measure, t, 1, ybox, mid, scale, fuel)
  }

  /** The turns from number `k` on, until the last search of one finds a value below `stopWhen`. */
  function Turns(measure: (int, int) -> int, ops: seq<Turn>, k: nat, count: nat, stopWhen: int,
                 xbox: Limits, ybox: Limits, b: Best, scale: int -> int, fuel: nat): Option<Best>
    requires count <= |ops|
    decreases count - k
  {
    if k >= count then Some(b)
    else
      match Turned(measure, ops[k], xbox, ybox, b, scale, fuel)
      case None => None
      case Some((next, found)) =>
        if found < stopWhen then Some(next)
        else Turns(measure, ops, k + 1, count, stopWhen, xbox, ybox, next, scale, fuel)
  }

  // ---------------------------------------------------------------- what the search keeps

  /** Measurements are C integers. */
  ghost predicate Bounded(measure: (int, int) -> int) { forall a, b :: measure(a, b) <= INT_MAX }

  /** The best point was measured as its value says. */
  ghost predicate Sound(measure: (int, int) -> int, b: Best) {
    b.value <= INT_MAX && (b.value < INT_MAX ==> b.value == measure(b.x, b.y))
  }

  predicate InBox(xbox: Limits, ybox: Limits, b: Best) { xbox.Has(b.x) && ybox.Has(b.y) }

  /** What a golden search returns was measured there, whatever the ratio. */
  lemma {:induction false} GoldenMeasured(g: int -> int, a: int, b: int, x1: int, x2: int, d: int, scale: int -> int,
                                          fuel: nat)
    ensures var r := GoldenFrom(g, a, b, x1, x2, d, scale, fuel); r.Some? ==> r.value.1 == g(r.value.0)
    decreases fuel
  {
    if d > 0 && fuel > 0 {
      if g(x1) < g(x2) {
        GoldenMeasured(g, x2, b, x2 + scale(b - x2), x1, scale(b - x2), scale, fuel - 1);
      } else {
        GoldenMeasured(g, a, x1, x2, x1 - scale(x1 - a), scale(x1 - a), scale, fuel - 1);
      }
    }
  }

  /** What a search finds below INT_MAX was measured there, and is a point of its range. */
  lemma FoundIn(sf: Search, g: int -> int, start: int, stop: int, exparam: nat, scale: int -> int, fuel: nat)
    requires forall v :: g(v) <= INT_MAX
    ensures match Found(sf, g, start, stop, exparam, scale, fuel)
      case None => true
      case Some((p, v)) =>
        && v <= INT_MAX && (v < INT_MAX ==> v == g(p))
        && (v < INT_MAX ==> if sf.IterateMin? then start <= p < stop else Shrinks(scale) ==> Between(start, stop, p))
  {
    match sf
    case IterateMin =>
      FirstMinNone(g, start, 1 + exparam);
      GridFirst(g, start, stop, 1 + exparam, start, -1, INT_MAX);
    case GoldenMin =>
      var d := scale(stop - start);
      GoldenMeasured(g, start, stop, start + d, stop - d, d, scale, fuel);
      if Shrinks(scale) { GoldenRange(g, start, stop, scale, fuel); }
  }

  lemma ImprovedSound(measure: (int, int) -> int, t: Turn, idx: nat, box: Limits, b: Best, scale: int -> int, fuel: nat)
    requires Sound(measure, b) && Bounded(measure)
    ensures match Improved(measure, t, idx, box, b, scale, fuel)
      case None => true
      case Some((next, found)) =>
        Sound(measure, next) && next.value <= b.value && next.value <= found && next.Other(idx) == b.Other(idx)
  {
    hide Found, Shrinks, Between;
    var (start, stop) := Range(t.Lim(idx), box, b.At(idx));
    FoundIn(t.sf, Slice(measure, idx, b.Other(idx)), start, stop, t.exparam, scale, fuel);
  }

  /** One search of a turn that starts in the box ends in it. */
  ghost predicate StaysInside(t: Turn, idx: nat, box: Limits, scale: int -> int, measure: (int, int) -> int, b: Best,
                              fuel: nat)
  {
    Bounded(measure) && b.value <= INT_MAX && box.Has(b.At(idx)) ==>
      var r := Improved(measure, t, idx, box, b, scale, fuel);
      r.Some? ==> box.Has(r.value.0.At(idx))
  }

  lemma KeepsBox(t: Turn, idx: nat, box: Limits, scale: int -> int, measure: (int, int) -> int, b: Best, fuel: nat)
    requires t.sf.IterateMin? || (Shrinks(scale) && t.Lim(idx).Straddles())
    ensures StaysInside(t, idx, box, scale, measure, b, fuel)
  {
    hide Found, Shrinks;
    if Bounded(measure) {
      var (start, stop) := Range(t.Lim(idx), box, b.At(idx));
      FoundIn(t.sf, Slice(measure, idx, b.Other(idx)), start, stop, t.exparam, scale, fuel);
    }
  }

  /** What a golden search over an empty or reversed range returns: a point of its own making. */
  lemma GoldenReversed(t: Turn, idx: nat, box: Limits, scale: int -> int, at: int) returns (b: Best)
    requires t.sf.GoldenMin? && box.Has(at)
    requires var (start, stop) := Range(t.Lim(idx), box, at);
      scale(stop - start) <= 0 && !box.Has(start + scale(stop - start))
    ensures !StaysInside(t, idx, box, scale, (x, y) => 0, b, 0)
  {
    b := if idx == 0 then Best(at, 0, INT_MAX) else Best(0, at, INT_MAX);
    var (start, stop) := Range(t.Lim(idx), box, at);
    var g := Slice((x, y) => 0, idx, 0);
    assert Golden(g, start, stop, scale, 0) == Some((start + scale(stop - start), 0));
  }

  /** No turn leaves the box, wherever in it the search stands and whatever it measures, exactly if the
      turn iterates or its limits straddle zero. */
  lemma RangeInBoxIff(t: Turn, idx: nat, box: Limits)
    requires box.min <= box.max
    ensures (forall scale, measure, b, fuel :: Shrinks(scale) ==>
               StaysInside(t, idx, box, scale, measure, b, fuel)) <==>
            t.Keeps(idx)
  {
    hide StaysInside;
    var lim := t.Lim(idx);
    if t.Keeps(idx) {
      forall scale, measure, b, fuel | Shrinks(scale) ensures StaysInside(t, idx, box, scale, measure, b, fuel) {
        KeepsBox(t, idx, box, scale, measure, b, fuel);
      }
    } else if lim.min > 0 {
      var none: int -> int := n => 0;
      var b := GoldenReversed(t, idx, box, none, box.max);
      assert Shrinks(none) && !StaysInside(t, idx, box, none, (x, y) => 0, b, 0);
    } else {
      var all: int -> int := n => n;
      var b := GoldenReversed(t, idx, box, all, box.min);
      assert Shrinks(all) && !StaysInside(t, idx, box, all, (x, y) => 0, b, 0);
    }
  }

  /** A ratio between zero and one, cut towards zero: it also keeps the order and moves negative numbers. */
  ghost predicate Ratio(scale: int -> int) {
    Shrinks(scale) && (forall n :: n < 0 ==> n < scale(n)) && forall m, n :: m <= n ==> scale(m) <= scale(n)
  }

  /** For one ratio and limits in order it is nearly as strict: limits below zero do no harm as long as
      the ratio takes the upper one to zero. */
  lemma RatioInBoxIff(t: Turn, idx: nat, box: Limits, scale: int -> int)
    requires box.min <= box.max && Ratio(scale) && t.Lim(idx).min <= t.Lim(idx).max
    ensures (forall measure, b, fuel :: StaysInside(t, idx, box, scale, measure, b, fuel)) <==>
            t.Keeps(idx) || (t.Lim(idx).max < 0 && scale(t.Lim(idx).max) == 0)
  {
    hide StaysInside;
    var lim := t.Lim(idx);
    if t.Keeps(idx) || (lim.max < 0 && scale(lim.max) == 0) {
      forall measure, b, fuel ensures StaysInside(t, idx, box, scale, measure, b, fuel) {
        if t.Keeps(idx) { KeepsBox(t, idx, box, scale, measure, b, fuel); }
        else { BelowZero(t, idx, box, scale, measure, b, fuel); }
      }
    } else if lim.min > 0 {
      assert Range(lim, box, box.max) == (box.max + lim.min, box.max);
      var b := GoldenReversed(t, idx, box, scale, box.max);
    } else {
      assert Range(lim, box, box.min) == (box.min, box.min + lim.max);
      var b := GoldenReversed(t, idx, box, scale, box.min);
    }
  }

  /** Limits below zero reverse the range only at the lower end of the box. */
  lemma BelowZero(t: Turn, idx: nat, box: Limits, scale: int -> int, measure: (int, int) -> int, b: Best, fuel: nat)
    requires Ratio(scale) && t.sf.GoldenMin?
    requires t.Lim(idx).min <= t.Lim(idx).max < 0 && scale(t.Lim(idx).max) == 0
    ensures StaysInside(t, idx, box, scale, measure, b, fuel)
  {
    hide Found;
    var lim := t.Lim(idx);
    var (start, stop) := Range(lim, box, b.At(idx));
    var g := Slice(measure, idx, b.Other(idx));
    if Bounded(measure) && box.Has(b.At(idx)) {
      FoundIn(t.sf, g, start, stop, t.exparam, scale, fuel);
      if start > stop {
        assert start == box.min && lim.max <= stop - start < 0;
        assert scale(lim.max) <= scale(stop - start) <= 0;
        GoldenAtOnce(g, start, stop, t.exparam, scale, fuel);
      }
    }
  }

  lemma GoldenAtOnce(g: int -> int, start: int, stop: int, exparam: nat, scale: int -> int, fuel: nat)
    requires scale(stop - start) == 0
    ensures Found(GoldenMin, g, start, stop, exparam, scale, fuel) == Some((start, g(start)))
  {
  }

  lemma TurnedSound(measure: (int, int) -> int, t: Turn, xbox: Limits, ybox: Limits, b: Best, scale: int -> int,
                    fuel: nat)
    requires Sound(measure, b) && Bounded(measure)
    ensures match Turned(measure, t, xbox, ybox, b, scale, fuel)
      case None => true
      case Some((next, found)) =>
        && Sound(measure, next) && next.value <= b.value && next.value <= found
        && (Shrinks(scale) && t.Keeps(0) && t.Keeps(1) && InBox(xbox, ybox, b) ==> InBox(xbox, ybox, next))
  {
    hide Improved, Found, Shrinks;
    ImprovedSound(measure, t, 0, xbox, b, scale, fuel);
    if Shrinks(scale) && t.Keeps(0) { KeepsBox(t, 0, xbox, scale, measure, b, fuel); }
    if Improved(measure, t, 0, xbox, b, scale, fuel).Some? {
      var mid := Improved(measure, t, 0, xbox, b, scale, fuel).value.0;
      ImprovedSound(measure, t, 1, ybox, mid, scale, fuel);
      if Shrinks(scale) && t.Keeps(1) { KeepsBox(t, 1, ybox, scale, measure, mid, fuel); }
    }
  }

  /** No turn from `k` on and before `count` can leave the box. */
  predicate AllKeep(ops: seq<Turn>, k: nat, count: nat)
    requires count <= |ops|
  {
    forall i :: k <= i < count ==> ops[i].Keeps(0) && ops[i].Keeps(1)
  }

  /** Over all turns the best point is true to its measurement and never gets worse, and it stays in the
      box if each of the turns keeps it there. */
  lemma {:induction false} TurnsSound(measure: (int, int) -> int, ops: seq<Turn>, k: nat, count: nat, stopWhen: int,
                                      xbox: Limits, ybox: Limits, b: Best, scale: int -> int, fuel: nat)
    requires count <= |ops| && Sound(measure, b) && Bounded(measure)
    ensures match Turns(measure, ops, k, count, stopWhen, xbox, ybox, b, scale, fuel)
      case None => true
      case Some(last) =>
        && Sound(measure, last) && last.value <= b.value
        && (Shrinks(scale) && InBox(xbox, ybox, b) && AllKeep(ops, k, count) ==> InBox(xbox, ybox, last))
    decreases count - k
  {
    hide Turned, Sound, Shrinks, InBox;
    if k < count {
      TurnedSound(measure, ops[k], xbox, ybox, b, scale, fuel);
      match Turned(measure, ops[k], xbox, ybox, b, scale, fuel)
      case None =>
      case Some((next, found)) =>
        if found >= stopWhen { TurnsSound(measure, ops, k + 1, count, stopWhen, xbox, ybox, next, scale, fuel); }
    }
  }

  // ---------------------------------------------------------------- what has to be measured

  function At(measure: (int, int) -> int, idx: nat, v: int, other: int): int {
    if idx == 0 then measure(v, other) else measure(other, v)
  }

  /** No point of the row (or column) is lower than `found`. */
  ghost predicate NotAbove(measure: (int, int) -> int, idx: nat, other: int, lo: int, hi: int, step: nat, found: int)
    requires step > 0
  {
    forall v :: OnGrid(lo, hi, step, v) ==> found <= At(measure, idx, v, other)
  }

  /** One search, as its caller sees it: along one parameter from where `b` stands, `min` to `max` around
      it and inside the box, the other parameter as it is. `found` is the lowest of the points it has to
      look at, and `next` the better of that and `b`. */
  ghost predicate Searched(measure: (int, int) -> int, log0: seq<(int, int)>, log: seq<(int, int)>, t: Turn, idx: nat,
                           box: Limits, b: Best, next: Best, found: int, scale: int -> int)
  {
    var at, other := if idx == 0 then b.x else b.y, if idx == 0 then b.y else b.x;
    var lim := if idx == 0 then t.xlim else t.ylim;
    var lo := if at + lim.min > box.min then at + lim.min else box.min;
    var hi := if at + lim.max < box.max then at + lim.max else box.max;
    && (if idx == 0 then next.y == b.y else next.x == b.x)
    && next.value <= b.value && next.value <= found
    && (next == b || next.value == found == measure(next.x, next.y))
    && (if t.sf.IterateMin? then
          && Swept(log0, log, idx, other, lo, hi, 1 + t.exparam)
          && NotAbove(measure, idx, other, lo, hi, 1 + t.exparam, found)
          && (next == b || OnGrid(lo, hi, 1 + t.exparam, if idx == 0 then next.x else next.y))
        else Divided(log0, log, idx, other, lo, hi, scale))
  }

  /** One turn: the first parameter, then the second at the first one's new place. */
  ghost predicate TurnDone(measure: (int, int) -> int, log0: seq<(int, int)>, log: seq<(int, int)>, t: Turn,
                           xbox: Limits, ybox: Limits, b: Best, next: Best, found: int, scale: int -> int)
  {
    exists mid, log1, f :: Halves(measure, log0, log1, log, t, xbox, ybox, b, mid, next, f, found, scale)
  }

  ghost predicate Halves(measure: (int, int) -> int, log0: seq<(int, int)>, log1: seq<(int, int)>, log: seq<(int, int)>,
                         t: Turn, xbox: Limits, ybox: Limits, b: Best, mid: Best, next: Best, f: int, found: int,
                         scale: int -> int)
  {
    && Searched(measure, log0, log1, t, 0, xbox, b, mid, f, scale)
    && Searched(measure, log1, log, t, 1, ybox, mid, next, found, scale)
  }

  lemma SearchedIterate(measure: (int, int) -> int, log0: seq<(int, int)>, log: seq<(int, int)>, t: Turn, idx: nat,
                        box: Limits, b: Best, p: int, v: int, scale: int -> int)
    requires Bounded(measure) && b.value <= INT_MAX && t.sf.IterateMin?
    requires var (start, stop) := Range(t.Lim(idx), box, b.At(idx));
      FirstMin(Slice(measure, idx, b.Other(idx)), start, stop, 1 + t.exparam, p, v) &&
      Swept(log0, log, idx, b.Other(idx), start, stop, 1 + t.exparam)
    ensures Searched(measure, log0, log, t, idx, box, b, if v < b.value then b.Moved(idx, p, v) else b, v, scale)
  {
    hide Swept;
    var (start, stop) := Range(t.Lim(idx), box, b.At(idx));
    var g := Slice(measure, idx, b.Other(idx));
    forall u | OnGrid(start, stop, 1 + t.exparam, u) ensures v <= At(measure, idx, u, b.Other(idx)) {
      assert v <= g(u);
    }
  }

  lemma SearchedGolden(measure: (int, int) -> int, log0: seq<(int, int)>, log: seq<(int, int)>, t: Turn, idx: nat,
                       box: Limits, b: Best, p: int, v: int, scale: int -> int)
    requires t.sf.GoldenMin? && v == Slice(measure, idx, b.Other(idx))(p)
    requires var (start, stop) := Range(t.Lim(idx), box, b.At(idx));
      Divided(log0, log, idx, b.Other(idx), start, stop, scale)
    ensures Searched(measure, log0, log, t, idx, box, b, if v < b.value then b.Moved(idx, p, v) else b, v, scale)
  {
    hide Divided;
  }

  /** What follows for a turn of iterating searches: nothing on the row it searched first is lower than
      where it went from there, and nothing on the column through that point is lower than its result. */
  lemma TurnRows(measure: (int, int) -> int, log0: seq<(int, int)>, log: seq<(int, int)>, t: Turn,
                 xbox: Limits, ybox: Limits, b: Best, next: Best, found: int, scale: int -> int)
    requires t.sf.IterateMin? && TurnDone(measure, log0, log, t, xbox, ybox, b, next, found, scale)
    ensures NotAbove(measure, 0, b.y, if b.x + t.xlim.min > xbox.min then b.x + t.xlim.min else xbox.min,
                     if b.x + t.xlim.max < xbox.max then b.x + t.xlim.max else xbox.max, 1 + t.exparam, next.value)
    ensures NotAbove(measure, 1, next.x, if b.y + t.ylim.min > ybox.min then b.y + t.ylim.min else ybox.min,
                     if b.y + t.ylim.max < ybox.max then b.y + t.ylim.max else ybox.max, 1 + t.exparam, next.value)
  {
    hide Swept, NotAbove;
    var mid, log1, f :| Halves(measure, log0, log1, log, t, xbox, ybox, b, mid, next, f, found, scale);
    NotAboveLess(measure, 0, b.y, if b.x + t.xlim.min > xbox.min then b.x + t.xlim.min else xbox.min,
                 if b.x + t.xlim.max < xbox.max then b.x + t.xlim.max else xbox.max, 1 + t.exparam, f, next.value);
    NotAboveLess(measure, 1, next.x, if b.y + t.ylim.min > ybox.min then b.y + t.ylim.min else ybox.min,
                 if b.y + t.ylim.max < ybox.max then b.y + t.ylim.max else ybox.max, 1 + t.exparam, found, next.value);
  }

  lemma NotAboveLess(measure: (int, int) -> int, idx: nat, other: int, lo: int, hi: int, step: nat, found: int, v: int)
    requires step > 0 && NotAbove(measure, idx, other, lo, hi, step, found) && v <= found
    ensures NotAbove(measure, idx, other, lo, hi, step, v)
  {
  }

  /** A run of turns: the best points, the log so far and the values found, turn by turn. It starts in the
      middle of the first turn's limits (halved towards zero), with nothing found. */
  ghost predicate RunDone(measure: (int, int) -> int, ops: seq<Turn>, count: nat, stopWhen: int, log: seq<(int, int)>,
                          bests: seq<Best>, marks: seq<nat>, founds: seq<int>, scale: int -> int)
  {
    && |bests| == |marks| == |founds| + 1 && |founds| <= count <= |ops| && ops != []
    && bests[0].value == INT_MAX
    && IsMiddle(ops[0].xlim, bests[0].x) && IsMiddle(ops[0].ylim, bests[0].y)
    && (forall k :: 0 <= k <= |founds| ==> marks[k] <= |log|) && marks[|founds|] == |log|
    && (forall k :: 0 <= k < |founds| ==>
          TurnDone(measure, log[..marks[k]], log[..marks[k + 1]], ops[k], ops[0].xlim, ops[0].ylim,
                   bests[k], bests[k + 1], founds[k], scale))
    && (forall k :: 0 <= k < |founds| - 1 ==> founds[k] >= stopWhen)
  }

  predicate IsMiddle(lim: Limits, v: int) {
    var sum := lim.min + lim.max;
    if sum >= 0 then 0 <= sum - 2 * v <= 1 else -1 <= sum - 2 * v <= 0
  }

  /** It ends when all turns are done or the last one has found a value that is low enough. */
  ghost predicate RunEnds(count: nat, stopWhen: int, founds: seq<int>) {
    |founds| == count || (founds != [] && founds[|founds| - 1] < stopWhen)
  }

  lemma RunNext(measure: (int, int) -> int, ops: seq<Turn>, count: nat, stopWhen: int, log0: seq<(int, int)>,
                log: seq<(int, int)>, bests: seq<Best>, marks: seq<nat>, founds: seq<int>, next: Best, found: int,
                scale: int -> int)
    requires RunDone(measure, ops, count, stopWhen, log0, bests, marks, founds, scale) && |founds| < count
    requires founds != [] ==> founds[|founds| - 1] >= stopWhen
    requires log0 <= log
    requires TurnDone(measure, log0, log, ops[|founds|], ops[0].xlim, ops[0].ylim, bests[|founds|], next, found, scale)
    ensures RunDone(measure, ops, count, stopWhen, log, bests + [next], marks + [|log|], founds + [found], scale)
  {
    hide TurnDone;
    var n := |founds|;
    var bs, ms, fs := bests + [next], marks + [|log|], founds + [found];
    assert log0[..marks[n]] == log0 == log[..marks[n]] && log[..|log|] == log;
    forall k | 0 <= k < |fs|
      ensures TurnDone(measure, log[..ms[k]], log[..ms[k + 1]], ops[k], ops[0].xlim, ops[0].ylim,
                       bs[k], bs[k + 1], fs[k], scale)
    {
      if k < n { assert log0[..marks[k]] == log[..marks[k]] && log0[..marks[k + 1]] == log[..marks[k + 1]]; }
    }
  }

  lemma RunStarts(measure: (int, int) -> int, ops: seq<Turn>, count: nat, stopWhen: int, log: seq<(int, int)>,
                  scale: int -> int)
    requires ops != [] && count <= |ops|
    ensures RunDone(measure, ops, count, stopWhen, log, [FirstBest(ops[0])], [|log|], [], scale)
  {
  }

  // ---------------------------------------------------------------- find_best_2d

  /** One search of a turn and the programming of what came of it. */
  method Improve(rig: Rig, t: Turn, idx: nat, box: Limits, b: Best, scale: int -> int, fuel: nat)
    returns (done: bool, res: int, next: Best, found: int)
    requires Bounded(rig.measure) && idx < 2 && rig.Other(idx) == b.Other(idx) && b.value <= INT_MAX
    modifies rig
    ensures old(rig.log) <= rig.log && rig.clock >= old(rig.clock) && rig.Other(idx) == old(rig.Other(idx))
    ensures res == 0 ==> Clean(rig.fault, old(rig.clock), rig.clock)
    ensures res == 0 ==>
      Improved(rig.measure, t, idx, box, b, scale, fuel) == if done then Some((next, found)) else None
    ensures res == 0 && done ==>
      (if idx == 0 then rig.x == next.x && next.y == b.y else rig.y == next.y && next.x == b.x)
    ensures res == 0 && done && t.sf.IterateMin? ==> Lowest(rig.measure, rig.log, |old(rig.log)|, next.value)
    ensures res == 0 && done ==> next.value <= b.value
    ensures res == 0 && done ==> Searched(rig.measure, old(rig.log), rig.log, t, idx, box, b, next, found, scale)
    ensures res != 0 ==> rig.clock > old(rig.clock) && rig.fault(rig.clock - 1) == res
  {
    hide Slice, Found, FirstMin, Swept, Divided, Lowest, Clean, Searched;
    next := b;
    var p;
    var (start, stop) := Range(t.Lim(idx), box, b.At(idx));
    done, res, p, found := RunSearch(rig, t.sf, idx, start, stop, t.exparam, scale, fuel);
    if !done || res != 0 { return; }
    if found < b.value {
      next := b.Moved(idx, p, found);
    }
    if t.sf.IterateMin? {
      SearchedIterate(rig.measure, old(rig.log), rig.log, t, idx, box, b, p, found, scale);
      LowestLess(rig.measure, rig.log, |old(rig.log)|, found, next.value);
    } else {
      FoundMeasured(Slice(rig.measure, idx, b.Other(idx)), start, stop, t.exparam, scale, fuel);
      SearchedGolden(rig.measure, old(rig.log), rig.log, t, idx, box, b, p, found, scale);
    }
    rig.Program(idx, next.At(idx));
  }

  lemma FoundMeasured(g: int -> int, start: int, stop: int, exparam: nat, scale: int -> int, fuel: nat)
    ensures var r := Found(GoldenMin, g, start, stop, exparam, scale, fuel); r.Some? ==> r.value.1 == g(r.value.0)
  {
    var d := scale(stop - start);
    GoldenMeasured(g, start, stop, start + d, stop - d, d, scale, fuel);
  }

  method OneTurn(rig: Rig, t: Turn, xbox: Limits, ybox: Limits, b: Best, scale: int -> int, fuel: nat)
    returns (done: bool, res: int, next: Best, found: int)
    requires Bounded(rig.measure) && rig.y == b.y && b.value <= INT_MAX
    modifies rig
    ensures old(rig.log) <= rig.log && rig.clock >= old(rig.clock)
    ensures res == 0 ==> Clean(rig.fault, old(rig.clock), rig.clock)
    ensures res == 0 ==>
      Turned(rig.measure, t, xbox, ybox, b, scale, fuel) == if done then Some((next, found)) else None
    ensures res == 0 && done ==> rig.x == next.x && rig.y == next.y && next.value <= b.value
    ensures res == 0 && done ==> TurnDone(rig.measure, old(rig.log), rig.log, t, xbox, ybox, b, next, found, scale)
    ensures res == 0 && done && t.sf.IterateMin? ==> Lowest(rig.measure, rig.log, |old(rig.log)|, next.value)
    ensures res != 0 ==> rig.clock > old(rig.clock) && rig.fault(rig.clock - 1) == res
  {
    hide Improved, Searched, Clean, Lowest;
    ghost var clock0 := rig.clock;
    done, res, next, found := Improve(rig, t, 0, xbox, b, scale, fuel);
    if !done || res != 0 { return; }
    ghost var mid, log1, f, clock1 := next, rig.log, found, rig.clock;
    assert t.sf.IterateMin? ==> Lowest(rig.measure, log1, |old(rig.log)|, mid.value);
    done, res, next, found := Improve(rig, t, 1, ybox, next, scale, fuel);
    if res == 0 { CleanThen(rig.fault, clock0, clock1, rig.clock); }
    if done && res == 0 {
      assert Halves(rig.measure, old(rig.log), log1, rig.log, t, xbox, ybox, b, mid, next, f, found, scale);
      if t.sf.IterateMin? { LowestBoth(rig.measure, |old(rig.log)|, log1, rig.log, mid.value, next.value); }
    }
  }

  lemma CleanThen(fault: nat -> int, a: nat, b: nat, c: nat)
    requires a <= b <= c && Clean(fault, a, b) && Clean(fault, b, c)
    ensures Clean(fault, a, c)
  {
  }

  lemma LowestBoth(measure: (int, int) -> int, n: nat, log1: seq<(int, int)>, log: seq<(int, int)>, v1: int, v2: int)
    requires n <= |log1| && log1 <= log && v2 <= v1
    requires Lowest(measure, log1, n, v1) && Lowest(measure, log, |log1|, v2)
    ensures Lowest(measure, log, n, v2)
  {
    forall k | n <= k < |log| ensures v2 <= measure(log[k].0, log[k].1) {
      if k < |log1| { assert log1[k] == log[k]; }
    }
  }

  /** find_best_2d: on success the result is that of the turns over the measurement, both parameters are
      left at it (the first only if there was a turn), and with iterating searches nothing lower was ever
      measured. */
  method FindBest2D(rig: Rig, ops: seq<Turn>, maxCount: nat, stopWhen: int, scale: int -> int, fuel: nat)
    returns (done: bool, res: int, best: Best, ghost bests: seq<Best>, ghost marks: seq<nat>, ghost founds: seq<int>)
    requires Bounded(rig.measure) && ops != [] && maxCount <= |ops|
    modifies rig
    ensures rig.clock >= old(rig.clock) && (res == 0 ==> Clean(rig.fault, old(rig.clock), rig.clock))
    ensures res == 0 ==>
      Turns(rig.measure, ops, 0, maxCount, stopWhen, ops[0].xlim, ops[0].ylim, FirstBest(ops[0]), scale, fuel) ==
      if done then Some(best) else None
    // turn by turn: what was measured, and what came of it
    ensures res == 0 && done ==>
      && RunDone(rig.measure, ops, maxCount, stopWhen, rig.log, bests, marks, founds, scale)
      && RunEnds(maxCount, stopWhen, founds) && marks[0] == |old(rig.log)| && bests[|bests| - 1] == best
    ensures res == 0 && done ==> Sound(rig.measure, best)
    ensures res == 0 && done && Shrinks(scale) && AllKeep(ops, 0, maxCount) &&
            ops[0].xlim.min <= ops[0].xlim.max && ops[0].ylim.min <= ops[0].ylim.max ==>
      InBox(ops[0].xlim, ops[0].ylim, best)
    ensures res == 0 && done ==> rig.y == best.y && (maxCount > 0 ==> rig.x == best.x)
    ensures res == 0 && done && (forall k :: 0 <= k < maxCount ==> ops[k].sf.IterateMin?) ==>
      Lowest(rig.measure, rig.log, |old(rig.log)|, best.value)
    ensures res != 0 ==> rig.clock > old(rig.clock) && rig.fault(rig.clock - 1) == res
  {
    hide Turned, Shrinks, Sound, InBox, RunDone, TurnDone, Clean, Lowest, AllKeep;
    var xbox, ybox := ops[0].xlim, ops[0].ylim;
    best := FirstBest(ops[0]);
    bests, marks, founds := [best], [|rig.log|], [];
    FirstSound(rig.measure, ops[0]);
    RunStarts(rig.measure, ops, maxCount, stopWhen, rig.log, scale);
    CleanNone(rig.fault, rig.clock);
    LowestNone(rig.measure, rig.log, best.value);
    TurnsSound(rig.measure, ops, 0, maxCount, stopWhen, xbox, ybox, best, scale, fuel);
    rig.Program(1, best.y);
    ghost var clock0, n0 := rig.clock, |rig.log|;
    var iter := 0;
    while iter < maxCount
      invariant 0 <= iter <= maxCount && rig.y == best.y && (iter > 0 ==> rig.x == best.x) && best.value <= INT_MAX
      invariant old(rig.log) <= rig.log && rig.clock >= clock0 && Clean(rig.fault, clock0, rig.clock)
      invariant Turns(rig.measure, ops, iter, maxCount, stopWhen, xbox, ybox, best, scale, fuel) ==
        Turns(rig.measure, ops, 0, maxCount, stopWhen, xbox, ybox, FirstBest(ops[0]), scale, fuel)
      invariant (forall k :: 0 <= k < maxCount ==> ops[k].sf.IterateMin?) ==>
        Lowest(rig.measure, rig.log, n0, best.value)
      invariant |founds| == iter && |bests| == |marks| == iter + 1 && bests[iter] == best && marks[0] == n0
      invariant iter > 0 ==> founds[iter - 1] >= stopWhen
      invariant RunDone(rig.measure, ops, maxCount, stopWhen, rig.log, bests, marks, founds, scale)
    {
      ghost var log1, clock1, was := rig.log, rig.clock, best.value;
      var next, found;
      done, res, next, found := OneTurn(rig, ops[iter], xbox, ybox, best, scale, fuel);
      if res == 0 { CleanThen(rig.fault, clock0, clock1, rig.clock); }
      if !done || res != 0 { return; }
      RunNext(rig.measure, ops, maxCount, stopWhen, log1, rig.log, bests, marks, founds, next, found, scale);
      bests, marks, founds := bests + [next], marks + [|rig.log|], founds + [found];
      best := next;
      if forall k :: 0 <= k < maxCount ==> ops[k].sf.IterateMin? {
        LowestBoth(rig.measure, n0, log1, rig.log, was, best.value);
      }
      iter := iter + 1;
      if found < stopWhen { return true, 0, best, bests, marks, founds; }
    }
    done, res := true, 0;
  }

  lemma LowestNone(measure: (int, int) -> int, log: seq<(int, int)>, v: int)
    ensures Lowest(measure, log, |log|, v)
  {
  }

  /** The middle of the first turn's limits. */
  function FirstBest(t: Turn): Best { Best(Half(t.xlim.min + t.xlim.max), Half(t.ylim.min + t.ylim.max), INT_MAX) }

  lemma FirstSound(measure: (int, int) -> int, t: Turn)
    ensures Sound(measure, FirstBest(t))
    ensures t.xlim.min <= t.xlim.max && t.ylim.min <= t.ylim.max ==> InBox(t.xlim, t.ylim, FirstBest(t))
  {
  }
}
