/** The C macros that the header generator writes for a register field. An emitted expression is a tree
    here; its value is the C value as long as nothing is shifted out of the C type. */
module GenH {
  import opened Bits
  import opened Wrappers
  import opened RegParser

  datatype Op = ShiftLeft | ShiftRight | BitAnd | BitOr

  /** `Arg` is the macro's argument. */
  datatype Expr = Arg | Num(n: nat) | Binary(op: Op, left: Expr, right: Expr)

  function Eval(e: Expr, x: nat): nat {
    match e
    case Arg => x
    case Num(n) => n
    case Binary(op, l, r) =>
      match op
      case ShiftLeft => Shl(Eval(l, x), Eval(r, x))
      case ShiftRight => Shr(Eval(l, x), Eval(r, x))
      case BitAnd => And(Eval(l, x), Eval(r, x))
      case BitOr => Or(Eval(l, x), Eval(r, x))
  }

  /** ((((e) >> from) & 0x1) << to) */
  function OneBit(e: Expr, from: nat, to: nat): Expr {
    Binary(ShiftLeft, Binary(BitAnd, Binary(ShiftRight, e, Num(from)), Num(1)), Num(to))
  }

  lemma OneBitValue(e: Expr, from: nat, to: nat, x: nat)
    ensures Eval(OneBit(e, from, to), x) == if Bit(Eval(e, x), from) then Shl(1, to) else 0
  {
    hide Bit, And, Shr;
    var v := Eval(e, x);
    var shifted := Binary(ShiftRight, e, Num(from));
    assert Eval(shifted, x) == Shr(v, from);
    assert Eval(Binary(BitAnd, shifted, Num(1)), x) == And(Shr(v, from), 1);
    ShiftedBit(v, from);
    ShlZero(to);
  }

  lemma {:induction false} ShlZero(to: nat)
    ensures Shl(0, to) == 0
  {
    if to > 0 { ShlZero(to - 1); }
  }

  lemma ShiftedBit(v: nat, from: nat)
    ensures And(Shr(v, from), 1) == if Bit(v, from) then 1 else 0
  {
    BitOfShr(v, from, 0);
    LowBit(Shr(v, from));
  }

  lemma LowBit(a: nat)
    ensures And(a, 1) == if Bit(a, 0) then 1 else 0
  {
    if a > 0 { assert And(a / 2, 0) == 0; }
  }

  /** The value of a field in the register, in place: the value's bits scattered to the field's. */
  function Placed(f: Field, v: nat): nat {
    if f.bitsList != [] then Scatter(v, Downs(|f.bitsList|), f.bitsList) else And(Shl(v, f.bitsL), f.mask)
  }

  /** The field's value read from the register. */
  function Gathered(f: Field, x: nat): nat {
    if f.bitsList != [] then Scatter(And(x, f.mask), Reversed(f.bitsList), Ups(|f.bitsList|))
    else Shr(And(x, f.mask), f.bitsL)
  }

  function Reversed(bits: seq<nat>): (r: seq<nat>)
    ensures |r| == |bits| && forall i :: 0 <= i < |bits| ==> r[i] == bits[|bits| - 1 - i]
  {
    seq(|bits|, i requires 0 <= i < |bits| => bits[|bits| - 1 - i])
  }

  function Ups(n: nat): (r: seq<nat>)
    ensures |r| == n && forall i :: 0 <= i < n ==> r[i] == i
  {
    seq(n, i => i)
  }

  /** The terms so far, joined by `|`. */
  lemma JoinTerm(acc: Option<Expr>, arg: Expr, from: seq<nat>, to: seq<nat>, i: nat, x: nat)
    requires |from| == |to| && i < |from|
    requires acc.None? ==> i == 0
    requires acc.Some? ==> Eval(acc.value, x) == Scatter(Eval(arg, x), from[..i], to[..i])
    ensures Eval(Join(acc, OneBit(arg, from[i], to[i])), x) == Scatter(Eval(arg, x), from[..i + 1], to[..i + 1])
  {
    hide Bit, Shl, Shr, And, OneBit;
    OneBitValue(arg, from[i], to[i], x);
    ScatterStep(Eval(arg, x), from, to, i);
    if acc.None? { ZeroOr(Eval(OneBit(arg, from[i], to[i]), x)); }
  }

  lemma ZeroOr(a: nat)
    ensures Or(0, a) == a
  {
  }

  function Join(acc: Option<Expr>, term: Expr): Expr {
    match acc
    case None => term
    case Some(e) => Binary(BitOr, e, term)
  }

  /** generate_setter_expression: for every argument it has the value of the argument in the field's place. */
  method SetterExpression(f: Field, ghost entry: Entry) returns (res: Expr)
    requires Describes(f, entry)
    ensures forall x: nat :: Eval(res, x) == Placed(f, x)
  {
    hide Bit, Shl, Shr, And, Or, OneBit, Join;
    var n := |f.bitsList|;
    if n > 0 {
      var acc: Option<Expr> := None;
      var i := 0;
      while i < n
        invariant 0 <= i <= n && (acc.None? ==> i == 0)
        invariant acc.Some? ==> forall x: nat :: Eval(acc.value, x) == Scatter(x, Downs(n)[..i], f.bitsList[..i])
      {
        var idx := n - i - 1;
        var joined := Join(acc, OneBit(Arg, idx, f.bitsList[i]));
        forall x: nat ensures Eval(joined, x) == Scatter(x, Downs(n)[..i + 1], f.bitsList[..i + 1]) {
          JoinTerm(acc, Arg, Downs(n), f.bitsList, i, x);
        }
        acc := Some(joined);
        i := i + 1;
      }
      assert Downs(n)[..n] == Downs(n) && f.bitsList[..n] == f.bitsList;
      res := Binary(BitAnd, acc.value, Num(f.mask));
      forall x: nat ensures Eval(res, x) == Placed(f, x) {
        PlacedInside(f, entry, x);
        assert Eval(res, x) == And(Eval(acc.value, x), f.mask);
      }
    } else {
      var shifted := Binary(ShiftLeft, Arg, Num(f.bitsL));
      res := Binary(BitAnd, shifted, Num(f.mask));
      forall x: nat ensures Eval(res, x) == Placed(f, x) { assert Eval(shifted, x) == Shl(x, f.bitsL); }
    }
  }

  /** The mask changes nothing: the scattered bits are the field's. */
  lemma PlacedInside(f: Field, entry: Entry, x: nat)
    requires Describes(f, entry) && f.bitsList != []
    ensures And(Placed(f, x), f.mask) == Placed(f, x)
  {
    hide Bit, And, Scatter;
    var p := Placed(f, x);
    forall k: nat ensures Bit(And(p, f.mask), k) == Bit(p, k) {
      BitOfAnd(p, f.mask, k);
      BitOfScatter(x, Downs(|f.bitsList|), f.bitsList, k);
    }
    SameBits(And(p, f.mask), p);
  }

  /** generate_getter_expression. */
  method GetterExpression(f: Field) returns (res: Expr)
    ensures forall x: nat :: Eval(res, x) == Gathered(f, x)
  {
    hide Bit, Shl, Shr, And, Or, OneBit, Join;
    var n := |f.bitsList|;
    var masked := Binary(BitAnd, Arg, Num(f.mask));
    if n > 0 {
      var acc: Option<Expr> := None;
      var i := 0;
      while i < n
        invariant 0 <= i <= n && (acc.None? ==> i == 0)
        invariant acc.Some? ==>
          forall x: nat :: Eval(acc.value, x) == Scatter(And(x, f.mask), Reversed(f.bitsList)[..i], Ups(n)[..i])
      {
        var idx := n - i - 1;
        var joined := Join(acc, OneBit(masked, f.bitsList[idx], i));
        forall x: nat
          ensures Eval(joined, x) == Scatter(And(x, f.mask), Reversed(f.bitsList)[..i + 1], Ups(n)[..i + 1])
        {
          JoinTerm(acc, masked, Reversed(f.bitsList), Ups(n), i, x);
        }
        acc := Some(joined);
        i := i + 1;
      }
      assert Reversed(f.bitsList)[..n] == Reversed(f.bitsList) && Ups(n)[..n] == Ups(n);
      res := acc.value;
    } else {
      res := Binary(ShiftRight, masked, Num(f.bitsL));
      forall x: nat ensures Eval(res, x) == Gathered(f, x) { assert Eval(masked, x) == And(x, f.mask); }
    }
  }

  // ---------------------------------------------------------------- what the macros mean

  /** The register bit that holds bit `i` of the field's value. */
  function Place(e: Entry, i: nat): nat
    requires i < Width(e)
  {
    match e
    case Listed(bits) => bits[|bits| - 1 - i]
    case Range(high, low) => low + i
  }

  lemma BitOfPlaced(f: Field, e: Entry, v: nat, k: nat)
    requires Describes(f, e)
    ensures Bit(Placed(f, v), k) <==> exists i: nat :: i < Width(e) && Place(e, i) == k && Bit(v, i)
  {
    hide Bit, And, Shl;
    match e {
      case Listed(bits) =>
        BitOfScatter(v, Downs(|bits|), bits, k);
        if j :| 0 <= j < |bits| && bits[j] == k && Bit(v, Downs(|bits|)[j]) { assert Place(e, |bits| - 1 - j) == k; }
        if i: nat :| i < Width(e) && Place(e, i) == k && Bit(v, i) { assert Downs(|bits|)[|bits| - 1 - i] == i; }
      case Range(high, low) =>
        BitOfAnd(Shl(v, low), f.mask, k);
        BitOfShl(v, low, k);
        if low <= k <= high { assert Place(e, k - low) == k; }
    }
  }

  lemma BitOfGathered(f: Field, e: Entry, x: nat, i: nat)
    requires Describes(f, e)
    ensures Bit(Gathered(f, x), i) <==> i < Width(e) && Bit(x, Place(e, i))
  {
    hide Bit, And, Shr;
    match e {
      case Listed(bits) =>
        BitOfScatter(And(x, f.mask), Reversed(bits), Ups(|bits|), i);
        if i < |bits| {
          assert Ups(|bits|)[i] == i;
          BitOfAnd(x, f.mask, bits[|bits| - 1 - i]);
        }
      case Range(high, low) =>
        BitOfShr(And(x, f.mask), low, i);
        BitOfAnd(x, f.mask, i + low);
    }
  }

  /** The setter of a list is unpack_bits, shifted to the lowest bit of the field. */
  lemma SetterIsUnpack(f: Field, e: Entry, v: nat)
    requires Describes(f, e) && e.Listed?
    ensures Placed(f, v) == Shl(Unpack(v, f.bitsList), f.bitsL)
  {
    hide Bit, Scatter, Shl, Unpack, Downs, Min;
    var a, b := Placed(f, v), Shl(Unpack(v, f.bitsList), f.bitsL);
    forall k: nat ensures Bit(a, k) == Bit(b, k) {
      ScatteredBit(f.bitsList, v, k);
      BitOfShl(Unpack(v, f.bitsList), f.bitsL, k);
    }
    SameBits(a, b);
  }

  lemma ScatteredBit(bits: seq<nat>, v: nat, k: nat)
    requires bits != []
    ensures Bit(Scatter(v, Downs(|bits|), bits), k) <==> k >= Min(bits) && Bit(Unpack(v, bits), k - Min(bits))
  {
    hide Bit, Scatter, Unpack;
    BitOfScatter(v, Downs(|bits|), bits, k);
    if k >= Min(bits) { BitOfUnpack(v, bits, k - Min(bits)); }
  }

  /** The setter of a range shifts what fits of the value. */
  lemma SetterOfRange(f: Field, e: Entry, v: nat)
    requires Describes(f, e) && e.Range?
    ensures Placed(f, v) == Shl(v % Pow2(Width(e)), f.bitsL)
  {
    hide Bit, And, Shl, Pow2;
    var a, b := Placed(f, v), Shl(v % Pow2(Width(e)), f.bitsL);
    forall k: nat ensures Bit(a, k) == Bit(b, k) {
      BitOfAnd(Shl(v, f.bitsL), f.mask, k);
      BitOfShl(v, f.bitsL, k);
      BitOfShl(v % Pow2(Width(e)), f.bitsL, k);
      if k >= f.bitsL { BitOfMod(v, Width(e), k - f.bitsL); }
    }
    SameBits(a, b);
  }

  /** The getter is pack_bits of the masked register, shifted down. */
  lemma GetterIsPack(f: Field, e: Entry, x: nat)
    requires Describes(f, e)
    ensures Gathered(f, x) == Pack(Shr(And(x, f.mask), f.bitsL), f.bitsList)
  {
    hide Bit, Gathered, Pack, Shr, And, Describes;
    if f.bitsList != [] {
      var a, b := Gathered(f, x), Pack(Shr(And(x, f.mask), f.bitsL), f.bitsList);
      forall k: nat ensures Bit(a, k) == Bit(b, k) { GatheredBit(f, e, x, k); }
      SameBits(a, b);
    } else {
      GatheredRange(f, x);
    }
  }

  lemma GatheredRange(f: Field, x: nat)
    requires f.bitsList == []
    ensures Gathered(f, x) == Pack(Shr(And(x, f.mask), f.bitsL), f.bitsList)
  {
  }

  lemma GatheredBit(f: Field, e: Entry, x: nat, k: nat)
    requires Describes(f, e) && f.bitsList != []
    ensures Bit(Gathered(f, x), k) == Bit(Pack(Shr(And(x, f.mask), f.bitsL), f.bitsList), k)
  {
    hide Bit, Gathered, Pack, Shr, And;
    var bits := f.bitsList;
    BitOfGathered(f, e, x, k);
    BitOfPack(Shr(And(x, f.mask), f.bitsL), bits, k);
    if k < |bits| {
      var at := bits[|bits| - 1 - k];
      BitOfShr(And(x, f.mask), f.bitsL, at - f.bitsL);
      BitOfAnd(x, f.mask, at);
    }
  }

  /** SET: the register after the field was given the value `v`. */
  function Stored(f: Field, p: nat, v: nat): nat { Or(Clear(p, f.mask), Placed(f, v)) }

  lemma BitOfStored(f: Field, e: Entry, p: nat, v: nat, k: nat)
    requires Describes(f, e)
    ensures Covers(e, k) ==> (Bit(Stored(f, p, v), k) <==> Bit(Placed(f, v), k))
    ensures !Covers(e, k) ==> (Bit(Stored(f, p, v), k) <==> Bit(p, k))
  {
    hide Bit, Placed, Or, Clear;
    BitOfOr(Clear(p, f.mask), Placed(f, v), k);
    BitOfClear(p, f.mask, k);
    BitOfPlaced(f, e, v, k);
    PlaceCovers(e);
  }

  lemma PlaceCovers(e: Entry)
    ensures forall i: nat :: i < Width(e) ==> Covers(e, Place(e, i))
  {
  }

  /** SET changes no bit outside the field. */
  lemma SetKeepsOthers(f: Field, e: Entry, p: nat, v: nat)
    requires Describes(f, e)
    ensures forall k: nat :: !Covers(e, k) ==> Bit(Stored(f, p, v), k) == Bit(p, k)
  {
    hide Bit, Stored;
    forall k: nat | !Covers(e, k) ensures Bit(Stored(f, p, v), k) == Bit(p, k) { BitOfStored(f, e, p, v, k); }
  }

  /** SET of one field does not show in GET of another one that shares no bit with it. */
  lemma SetKeepsOtherField(f: Field, e: Entry, g: Field, d: Entry, p: nat, v: nat)
    requires Describes(f, e) && Describes(g, d) && forall k: nat :: !(Covers(e, k) && Covers(d, k))
    ensures Gathered(g, Stored(f, p, v)) == Gathered(g, p)
  {
    hide Bit, Stored, Gathered;
    forall i: nat ensures Bit(Gathered(g, Stored(f, p, v)), i) == Bit(Gathered(g, p), i) {
      BitOfGathered(g, d, Stored(f, p, v), i);
      BitOfGathered(g, d, p, i);
      PlaceCovers(d);
      if i < Width(d) { BitOfStored(f, e, p, v, Place(d, i)); }
    }
    SameBits(Gathered(g, Stored(f, p, v)), Gathered(g, p));
  }

  predicate NoBitTwice(e: Entry) { e.Listed? ==> Distinct(e.bits) }

  lemma GetAfterSet(f: Field, e: Entry, p: nat, v: nat)
    requires Describes(f, e) && NoBitTwice(e)
    ensures Gathered(f, Stored(f, p, v)) == v % Pow2(Width(e))
  {
    hide Bit, Stored, Gathered, Placed, Pow2;
    var x := Stored(f, p, v);
    forall i: nat ensures Bit(Gathered(f, x), i) == Bit(v % Pow2(Width(e)), i) {
      BitOfGathered(f, e, x, i);
      BitOfMod(v, Width(e), i);
      if i < Width(e) {
        PlaceCovers(e);
        BitOfStored(f, e, p, v, Place(e, i));
        BitOfPlaced(f, e, v, Place(e, i));
        PlaceOnce(e, i);
      }
    }
    SameBits(Gathered(f, x), v % Pow2(Width(e)));
  }

  lemma PlaceOnce(e: Entry, i: nat)
    requires NoBitTwice(e) && i < Width(e)
    ensures forall j: nat :: j < Width(e) && Place(e, j) == Place(e, i) ==> j == i
  {
  }

  /** If two bits of the value share a register bit, setting one reads back as both. */
  lemma GetAfterSetLoses(f: Field, e: Entry, p: nat, i: nat, j: nat)
    requires Describes(f, e) && i < Width(e) && j < Width(e) && i != j && Place(e, i) == Place(e, j)
    ensures Gathered(f, Stored(f, p, Shl(1, i))) != Shl(1, i) % Pow2(Width(e))
  {
    hide Bit, Stored, Gathered, Placed, Pow2, Shl;
    var v := Shl(1, i);
    var x := Stored(f, p, v);
    BitOfPower(i, i);
    BitOfPower(i, j);
    PlaceCovers(e);
    BitOfPlaced(f, e, v, Place(e, j));
    BitOfStored(f, e, p, v, Place(e, j));
    BitOfGathered(f, e, x, j);
    BitOfMod(v, Width(e), j);
  }

  /** GET after SET returns the value, cut to the width of the field, for every register and value exactly
      when the field lists no bit twice. */
  lemma GetAfterSetIff(f: Field, e: Entry)
    requires Describes(f, e)
    ensures (forall p: nat, v: nat :: Gathered(f, Stored(f, p, v)) == v % Pow2(Width(e))) <==> NoBitTwice(e)
  {
    hide Stored, Gathered, Pow2;
    if NoBitTwice(e) {
      forall p: nat, v: nat ensures Gathered(f, Stored(f, p, v)) == v % Pow2(Width(e)) { GetAfterSet(f, e, p, v); }
    } else {
      var a, b :| 0 <= a < b < |e.bits| && e.bits[a] == e.bits[b];
      GetAfterSetLoses(f, e, 0, |e.bits| - 1 - a, |e.bits| - 1 - b);
    }
  }

  /** The largest value of a field is the largest one that GET after SET returns unchanged. */
  lemma VmaxIsLargest(f: Field, e: Entry, p: nat, v: nat)
    requires Describes(f, e) && NoBitTwice(e)
    ensures Gathered(f, Stored(f, p, v)) == v <==> v <= f.vmax
  {
    hide Stored, Gathered, Pow2, NoBitTwice, Bit;
    GetAfterSet(f, e, p, v);
    if v <= f.vmax { DivUnique(v, Pow2(Width(e)), 0, v); }
  }
}
