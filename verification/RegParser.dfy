/** Register fields: where the bits of a field sit in its register, and the library that gathers and
    scatters them. */
module RegParser {
  import opened Bits
  import opened Wrappers

  // ---------------------------------------------------------------- moving bits

  /** Bit `from[j]` of `x` goes to bit `to[j]`, for every j. */
  function Scatter(x: nat, from: seq<nat>, to: seq<nat>): nat
    requires |from| == |to|
  {
    if from == [] then 0
    else
      var n := |from| - 1;
      Or(Scatter(x, from[..n], to[..n]), if Bit(x, from[n]) then Shl(1, to[n]) else 0)
  }

  lemma BitOfPower(b: nat, k: nat)
    ensures Bit(Shl(1, b), k) <==> k == b
  {
    BitOfShl(1, b, k);
    if k >= b { BitOfOne(k - b); }
  }

  lemma {:induction false} BitOfScatter(x: nat, from: seq<nat>, to: seq<nat>, k: nat)
    requires |from| == |to|
    ensures Bit(Scatter(x, from, to), k) <==> exists j :: 0 <= j < |from| && to[j] == k && Bit(x, from[j])
  {
    hide Bit, Or, Shl;
    if from == [] {
      BitOfZero(k);
    } else {
      var n := |from| - 1;
      BitOfScatter(x, from[..n], to[..n], k);
      BitOfOr(Scatter(x, from[..n], to[..n]), if Bit(x, from[n]) then Shl(1, to[n]) else 0, k);
      BitOfPower(to[n], k);
      BitOfZero(k);
      assert forall j :: 0 <= j < n ==> from[..n][j] == from[j] && to[..n][j] == to[j];
    }
  }

  lemma ScatterStep(x: nat, from: seq<nat>, to: seq<nat>, i: nat)
    requires |from| == |to| && i < |from|
    ensures Scatter(x, from[..i + 1], to[..i + 1]) ==
      Or(Scatter(x, from[..i], to[..i]), if Bit(x, from[i]) then Shl(1, to[i]) else 0)
  {
    assert from[..i + 1][..i] == from[..i] && to[..i + 1][..i] == to[..i];
  }

  /** n - 1, ..., 0 */
  function Downs(n: nat): (r: seq<nat>)
    ensures |r| == n && forall j :: 0 <= j < n ==> r[j] == n - 1 - j
  {
    seq(n, j requires 0 <= j < n => n - 1 - j)
  }

  function Lowered(bits: seq<nat>, offs: nat): (r: seq<nat>)
    requires forall j :: 0 <= j < |bits| ==> offs <= bits[j]
    ensures |r| == |bits| && forall j :: 0 <= j < |bits| ==> r[j] == bits[j] - offs
  {
    seq(|bits|, j requires 0 <= j < |bits| => bits[j] - offs)
  }

  function Min(bits: seq<nat>): (m: nat)
    requires bits != []
    ensures m in bits && forall j :: 0 <= j < |bits| ==> m <= bits[j]
  {
    if |bits| == 1 then bits[0]
    else
      var m := Min(bits[..|bits| - 1]);
      assert bits == bits[..|bits| - 1] + [bits[|bits| - 1]];
      if bits[|bits| - 1] < m then bits[|bits| - 1] else m
  }

  function Max(bits: seq<nat>): (m: nat)
    requires bits != []
    ensures m in bits && forall j :: 0 <= j < |bits| ==> bits[j] <= m
  {
    if |bits| == 1 then bits[0]
    else
      var m := Max(bits[..|bits| - 1]);
      assert bits == bits[..|bits| - 1] + [bits[|bits| - 1]];
      if bits[|bits| - 1] > m then bits[|bits| - 1] else m
  }

  function Unpack(val: nat, bits: seq<nat>): nat {
    if bits == [] then val else Scatter(val, Downs(|bits|), Lowered(bits, Min(bits)))
  }

  function Pack(val: nat, bits: seq<nat>): nat {
    if bits == [] then val else Scatter(val, Lowered(bits, Min(bits)), Downs(|bits|))
  }

  /** `val & (1 << b)` is not zero. */
  lemma TestBit(val: nat, b: nat)
    ensures And(val, Shl(1, b)) != 0 <==> Bit(val, b)
  {
    var a := And(val, Shl(1, b));
    BitOfAnd(val, Shl(1, b), b);
    BitOfPower(b, b);
    BitOfZero(b);
    if a != 0 && !Bit(val, b) {
      forall k: nat ensures Bit(a, k) == Bit(0, k) {
        BitOfAnd(val, Shl(1, b), k);
        BitOfPower(b, k);
        BitOfZero(k);
      }
      SameBits(a, 0);
    }
  }

  /** ParserFields.unpack_bits: the most significant bit of the value goes to the first of the list. */
  method UnpackBits(val: nat, bits: seq<nat>) returns (res: nat)
    ensures res == Unpack(val, bits)
  {
    hide Bit, Or, Shl, And;
    if |bits| == 0 { return val; }
    res := 0;
    var n, offs := |bits|, Min(bits);
    ghost var from, to := Downs(n), Lowered(bits, offs);
    var i := 0;
    while i < n
      invariant 0 <= i <= n && res == Scatter(val, from[..i], to[..i])
    {
      TestBit(val, n - 1 - i);
      ScatterStep(val, from, to, i);
      OrZero(res);
      if And(val, Shl(1, n - 1 - i)) != 0 { res := Or(res, Shl(1, bits[i] - offs)); }
      i := i + 1;
    }
    assert from[..n] == from && to[..n] == to;
  }

  /** ParserFields.pack_bits: the way back. */
  method PackBits(val: nat, bits: seq<nat>) returns (res: nat)
    ensures res == Pack(val, bits)
  {
    hide Bit, Or, Shl, And;
    if |bits| == 0 { return val; }
    res := 0;
    var n, offs := |bits|, Min(bits);
    ghost var from, to := Lowered(bits, offs), Downs(n);
    var i := 0;
    while i < n
      invariant 0 <= i <= n && res == Scatter(val, from[..i], to[..i])
    {
      TestBit(val, bits[i] - offs);
      ScatterStep(val, from, to, i);
      OrZero(res);
      if And(val, Shl(1, bits[i] - offs)) != 0 { res := Or(res, Shl(1, n - 1 - i)); }
      i := i + 1;
    }
    assert from[..n] == from && to[..n] == to;
  }

  lemma OrZero(a: nat)
    ensures Or(a, 0) == a
  {
  }

  predicate Distinct(bits: seq<nat>) { forall i, j :: 0 <= i < j < |bits| ==> bits[i] != bits[j] }

  lemma BitOfUnpack(val: nat, bits: seq<nat>, k: nat)
    requires bits != []
    ensures Bit(Unpack(val, bits), k) <==>
      exists j :: 0 <= j < |bits| && bits[j] == k + Min(bits) && Bit(val, |bits| - 1 - j)
  {
    hide Bit;
    BitOfScatter(val, Downs(|bits|), Lowered(bits, Min(bits)), k);
  }

  lemma BitOfPack(val: nat, bits: seq<nat>, k: nat)
    requires bits != []
    ensures Bit(Pack(val, bits), k) <==> k < |bits| && Bit(val, bits[|bits| - 1 - k] - Min(bits))
  {
    hide Bit;
    BitOfScatter(val, Lowered(bits, Min(bits)), Downs(|bits|), k);
    if k < |bits| { assert Downs(|bits|)[|bits| - 1 - k] == k; }
  }

  /** Packing undoes unpacking, up to the width of the field, exactly when no bit is listed twice. */
  lemma PackOfUnpackIff(bits: seq<nat>)
    requires bits != []
    ensures (forall val: nat :: Pack(Unpack(val, bits), bits) == val % Pow2(|bits|)) <==> Distinct(bits)
  {
    hide Bit, Pack, Unpack, Pow2;
    if Distinct(bits) {
      forall val: nat ensures Pack(Unpack(val, bits), bits) == val % Pow2(|bits|) { PackOfUnpack(val, bits); }
    } else {
      var i, j :| 0 <= i < j < |bits| && bits[i] == bits[j];
      PackLoses(bits, i, j);
    }
  }

  lemma PackOfUnpack(val: nat, bits: seq<nat>)
    requires bits != [] && Distinct(bits)
    ensures Pack(Unpack(val, bits), bits) == val % Pow2(|bits|)
  {
    hide Bit, Pack, Unpack, Pow2;
    var n := |bits|;
    forall k: nat ensures Bit(Pack(Unpack(val, bits), bits), k) == Bit(val % Pow2(n), k) {
      BitOfPack(Unpack(val, bits), bits, k);
      BitOfMod(val, n, k);
      if k < n { BitOfUnpack(val, bits, bits[n - 1 - k] - Min(bits)); }
    }
    SameBits(Pack(Unpack(val, bits), bits), val % Pow2(n));
  }

  /** Of two places that share a bit both come back set if one was. */
  lemma PackLoses(bits: seq<nat>, i: nat, j: nat)
    requires i < j < |bits| && bits[i] == bits[j]
    ensures var val := Shl(1, |bits| - 1 - i); Pack(Unpack(val, bits), bits) != val % Pow2(|bits|)
  {
    hide Bit, Pack, Unpack, Pow2, Shl;
    var n := |bits|;
    var val, k := Shl(1, n - 1 - i), n - 1 - j;
    BitOfPower(n - 1 - i, n - 1 - i);
    BitOfPower(n - 1 - i, k);
    BitOfUnpack(val, bits, bits[j] - Min(bits));
    BitOfPack(Unpack(val, bits), bits, k);
    BitOfMod(val, n, k);
  }

  // ---------------------------------------------------------------- fields

  /** The `bits` entry of a field: a comma-separated list, or a range (or single bit) high to low. */
  datatype Entry = Listed(bits: seq<nat>) | Range(high: nat, low: nat)

  /** What the constructor computes; `bitsList` is empty for a range. */
  datatype Field = Field(bitsList: seq<nat>, bitsH: nat, bitsL: nat, mask: nat, vmax: nat)

  /** The bits of the register that belong to the field. */
  predicate Covers(e: Entry, k: nat) {
    match e
    case Listed(bits) => k in bits
    case Range(high, low) => low <= k <= high
  }

  function Width(e: Entry): int {
    match e
    case Listed(bits) => |bits|
    case Range(high, low) => high - low + 1
  }

  /** What a field is, in terms of its entry: the mask covers exactly its bits, the largest value has
      as many bits set as the field is wide. */
  ghost predicate Describes(f: Field, e: Entry) {
    && Width(e) > 0
    && (forall k: nat :: Bit(f.mask, k) <==> Covers(e, k))
    && (match e
        case Listed(bits) => f.bitsList == bits && f.bitsL == Min(bits) && f.bitsH == Max(bits)
        case Range(high, low) => f.bitsList == [] && f.bitsL == low && f.bitsH == high)
    && f.vmax == Pow2(Width(e)) - 1
  }

  lemma {:induction false} BitOfPowers(bits: seq<nat>, n: nat, m: nat, b: nat)
    requires n < |bits| && b == bits[n] && forall k: nat :: Bit(m, k) <==> k in bits[..n]
    ensures forall k: nat :: Bit(Or(m, Shl(1, b)), k) <==> k in bits[..n + 1]
  {
    hide Bit, Or, Shl;
    forall k: nat ensures Bit(Or(m, Shl(1, b)), k) <==> k in bits[..n + 1] {
      BitOfOr(m, Shl(1, b), k);
      BitOfPower(b, k);
      assert bits[..n + 1] == bits[..n] + [b];
    }
  }

  /** The mask of a list, and the mask of bits low to high. */
  method ListMask(bits: seq<nat>) returns (mask: nat)
    ensures forall k: nat :: Bit(mask, k) <==> k in bits
  {
    hide Bit, Or, Shl;
    mask := 0;
    forall k: nat ensures !Bit(mask, k) { BitOfZero(k); }
    var i := 0;
    while i < |bits|
      invariant 0 <= i <= |bits| && forall k: nat :: Bit(mask, k) <==> k in bits[..i]
    {
      BitOfPowers(bits, i, mask, bits[i]);
      mask := Or(mask, Shl(1, bits[i]));
      i := i + 1;
    }
    assert bits[..|bits|] == bits;
  }

  method RangeMask(low: nat, end: nat) returns (mask: nat)
    requires low <= end
    ensures forall k: nat :: Bit(mask, k) <==> low <= k < end
  {
    hide Bit, Or, Shl;
    mask := 0;
    forall k: nat ensures !Bit(mask, k) { BitOfZero(k); }
    var i := low;
    while i < end
      invariant low <= i <= end && forall k: nat :: Bit(mask, k) <==> low <= k < i
    {
      forall k: nat ensures Bit(Or(mask, Shl(1, i)), k) <==> low <= k < i + 1 {
        BitOfOr(mask, Shl(1, i), k);
        BitOfPower(i, k);
      }
      mask := Or(mask, Shl(1, i));
      i := i + 1;
    }
  }

  lemma LowMask(m: nat, n: nat)
    requires forall k: nat :: Bit(m, k) <==> k < n
    ensures m == Pow2(n) - 1
  {
    forall k: nat ensures Bit(m, k) == Bit(Pow2(n) - 1, k) { BitOfMask(n, k); }
    SameBits(m, Pow2(n) - 1);
  }

  /** ParserFields.__init__: fails on an empty range and on bits above the register's last. */
  method MakeField(e: Entry, bitMax: nat) returns (r: Option<Field>)
    requires e.Listed? ==> e.bits != []
    ensures r.Some? <==> Width(e) > 0 && forall k: nat :: Covers(e, k) ==> k <= bitMax
    ensures r.Some? ==> Describes(r.value, e)
  {
    hide Bit, Pow2, Shr;
    var f: Field;
    match e {
      case Listed(bits) =>
        var mask := ListMask(bits);
        var vmax := RangeMask(0, |bits|);
        LowMask(vmax, |bits|);
        f := Field(bits, Max(bits), Min(bits), mask, vmax);
      case Range(high, low) =>
        if low > high { return None; }
        var mask := RangeMask(low, high + 1);
        forall k: nat ensures Bit(Shr(mask, low), k) <==> k < high - low + 1 { BitOfShr(mask, low, k); }
        LowMask(Shr(mask, low), high - low + 1);
        f := Field([], high, low, mask, Shr(mask, low));
    }
    if f.bitsH > bitMax {
      assert Covers(e, f.bitsH);
      return None;
    }
    r := Some(f);
  }
}
