/** Numbers: the scanner of the JSON parser against the grammar of section 6 of RFC 8259. */
module JsonNumber {
  import opened Bits
  import opened Wrappers
  import opened JsonLex

  // ---------------------------------------------------------------- decimal digit strings

  predicate AllDigits(ds: seq<byte>) { forall k :: 0 <= k < |ds| ==> IsDigit(ds[k]) }

  function Pow10(n: nat): (p: nat)
    ensures p > 0
  {
    if n == 0 then 1 else 10 * Pow10(n - 1)
  }

  /** The number a digit string stands for. */
  function Val(ds: seq<byte>): nat
    requires AllDigits(ds)
  {
    if ds == [] then 0 else (ds[0] - ZERO) * Pow10(|ds| - 1) + Val(ds[1..])
  }

  /** strcmp on strings of one length: is `a` before `b`? */
  predicate LexLess(a: seq<byte>, b: seq<byte>)
    requires |a| == |b|
  {
    a != [] && (a[0] < b[0] || (a[0] == b[0] && LexLess(a[1..], b[1..])))
  }

  lemma {:induction false} ValBound(ds: seq<byte>)
    requires AllDigits(ds)
    ensures Val(ds) < Pow10(|ds|)
  {
    if ds != [] {
      ValBound(ds[1..]);
      MulMono(ds[0] - ZERO, 9, Pow10(|ds| - 1));
    }
  }

  /** Dictionary order on digit strings of one length is numeric order. */
  lemma {:induction false} LexIsNumeric(a: seq<byte>, b: seq<byte>)
    requires |a| == |b| && AllDigits(a) && AllDigits(b)
    ensures LexLess(a, b) <==> Val(a) < Val(b)
  {
    if a != [] {
      var p := Pow10(|a| - 1);
      LexIsNumeric(a[1..], b[1..]);
      ValBound(a[1..]);
      ValBound(b[1..]);
      if a[0] < b[0] {
        MulMono(a[0] - ZERO + 1, b[0] - ZERO, p);
        assert (a[0] - ZERO + 1) * p == (a[0] - ZERO) * p + p;
      } else if a[0] > b[0] {
        MulMono(b[0] - ZERO + 1, a[0] - ZERO, p);
        assert (b[0] - ZERO + 1) * p == (b[0] - ZERO) * p + p;
      }
    }
  }

  lemma {:induction false} Pow10Grows(m: nat, n: nat)
    requires m <= n
    ensures Pow10(m) <= Pow10(n)
    decreases n - m
  {
    if m < n { Pow10Grows(m, n - 1); }
  }

  lemma LeadingDigit(ds: seq<byte>)
    requires AllDigits(ds) && ds != [] && ds[0] != ZERO
    ensures Val(ds) >= Pow10(|ds| - 1)
  {
    MulMono(1, ds[0] - ZERO, Pow10(|ds| - 1));
  }

  // ---------------------------------------------------------------- the 64-bit limits

  const MAX_DIGITS := 19
  const MAX_TEXT: seq<byte> := [57, 50, 50, 51, 51, 55, 50, 48, 51, 54, 56, 53, 52, 55, 55, 53, 56, 48, 55]
  const MIN_TEXT: seq<byte> := [57, 50, 50, 51, 51, 55, 50, 48, 51, 54, 56, 53, 52, 55, 55, 53, 56, 48, 56]
  const MAX_INT64 := 9223372036854775807

  lemma Pow10Of19()
    ensures Pow10(18) == 1000000000000000000 && Pow10(19) == 10000000000000000000
  {
    assert Pow10(6) == 1000000;
    assert Pow10(12) == 1000000000000;
  }

  lemma {:induction false} ValConcat(a: seq<byte>, b: seq<byte>)
    requires AllDigits(a) && AllDigits(b)
    ensures AllDigits(a + b) && Val(a + b) == Val(a) * Pow10(|b|) + Val(b)
  {
    if a == [] {
      assert a + b == b;
    } else {
      assert (a + b)[1..] == a[1..] + b;
      ValConcat(a[1..], b);
      Pow10Product(|a| - 1, |b|);
      Regroup(a[0] - ZERO, Pow10(|a| - 1), Pow10(|b|), Val(a[1..]));
    }
  }

  lemma Regroup(d: int, p: int, q: int, v: int)
    ensures d * (p * q) + v * q == (d * p + v) * q
  {
    assert (d * p + v) * q == d * p * q + v * q;
  }

  lemma {:induction false} Pow10Product(m: nat, n: nat)
    ensures Pow10(m + n) == Pow10(m) * Pow10(n)
  {
    if m > 0 {
      Pow10Product(m - 1, n);
      assert 10 * Pow10(m - 1) * Pow10(n) == 10 * (Pow10(m - 1) * Pow10(n));
    }
  }

  /** Four more digits. */
  lemma Val4(a: seq<byte>, b0: byte, b1: byte, b2: byte, b3: byte)
    requires AllDigits(a) && IsDigit(b0) && IsDigit(b1) && IsDigit(b2) && IsDigit(b3)
    ensures AllDigits(a + [b0, b1, b2, b3])
    ensures Val(a + [b0, b1, b2, b3]) ==
            Val(a) * 10000 + (b0 - 48) * 1000 + (b1 - 48) * 100 + (b2 - 48) * 10 + (b3 - 48)
  {
    var b := [b0, b1, b2, b3];
    ValConcat(a, b);
    assert b[1..] == [b1, b2, b3] && b[1..][1..] == [b2, b3] && b[1..][1..][1..] == [b3] && b[1..][1..][1..][1..] == [];
    assert Val([b3]) == b3 - 48;
    assert Val([b2, b3]) == (b2 - 48) * 10 + Val([b3]);
    assert Val([b1, b2, b3]) == (b1 - 48) * 100 + Val([b2, b3]);
    assert Pow10(2) == 100;
    assert Pow10(4) == 10000;
  }

  /** The digits both limits share, read four at a time. */
  lemma LimitPrefix() returns (a: seq<byte>)
    ensures a == [57, 50, 50, 51, 51, 55, 50, 48, 51, 54, 56, 53, 52, 55, 55, 53]
    ensures AllDigits(a) && Val(a) == 9223372036854775
  {
    hide Val;
    var none: seq<byte> := [];
    assert Val(none) == 0 by { ValNothing(); }
    Val4(none, 57, 50, 50, 51);
    Val4([57, 50, 50, 51], 51, 55, 50, 48);
    Val4([57, 50, 50, 51, 51, 55, 50, 48], 51, 54, 56, 53);
    Val4([57, 50, 50, 51, 51, 55, 50, 48, 51, 54, 56, 53], 52, 55, 55, 53);
    assert none + [57, 50, 50, 51] == [57, 50, 50, 51];
    assert [57, 50, 50, 51] + [51, 55, 50, 48] == [57, 50, 50, 51, 51, 55, 50, 48];
    assert [57, 50, 50, 51, 51, 55, 50, 48] + [51, 54, 56, 53] == [57, 50, 50, 51, 51, 55, 50, 48, 51, 54, 56, 53];
    a := [57, 50, 50, 51, 51, 55, 50, 48, 51, 54, 56, 53, 52, 55, 55, 53];
    assert [57, 50, 50, 51, 51, 55, 50, 48, 51, 54, 56, 53] + [52, 55, 55, 53] == a;
  }

  lemma ValNothing()
    ensures Val([]) == 0
  {
  }

  /** The last three digits: a leading zero makes four of them. */
  lemma LastThree(b1: byte, b2: byte, b3: byte)
    requires IsDigit(b1) && IsDigit(b2) && IsDigit(b3)
    ensures Val([b1, b2, b3]) == (b1 - 48) * 100 + (b2 - 48) * 10 + (b3 - 48)
  {
    var b := [b1, b2, b3];
    assert b[1..] == [b2, b3] && b[1..][1..] == [b3] && b[1..][1..][1..] == [];
    assert Val([b3]) == b3 - 48;
    assert Val([b2, b3]) == (b2 - 48) * 10 + Val([b3]);
    assert Pow10(2) == 100;
  }

  lemma Limits()
    ensures |MAX_TEXT| == |MIN_TEXT| == MAX_DIGITS && AllDigits(MAX_TEXT) && AllDigits(MIN_TEXT)
    ensures Val(MAX_TEXT) == MAX_INT64 && Val(MIN_TEXT) == MAX_INT64 + 1
  {
    hide Val;
    var a := LimitPrefix();
    LastThree(56, 48, 55);
    LastThree(56, 48, 56);
    ValConcat(a, [56, 48, 55]);
    ValConcat(a, [56, 48, 56]);
    assert Pow10(3) == 1000;
    assert a + [56, 48, 55] == MAX_TEXT && a + [56, 48, 56] == MIN_TEXT;
  }

  /** The driver's length test and string comparison decide whether an integer without leading zeros fits 64 bits. */
  predicate TextFits(neg: bool, ds: seq<byte>) {
    |ds| < MAX_DIGITS || (|ds| == MAX_DIGITS && !LexLess(if neg then MIN_TEXT else MAX_TEXT, ds))
  }

  predicate Fits(neg: bool, ds: seq<byte>)
    requires AllDigits(ds)
  {
    var v: int := Val(ds);
    if neg then -MAX_INT64 - 1 <= -v else v <= MAX_INT64
  }

  lemma TextFitsIff(neg: bool, ds: seq<byte>)
    requires AllDigits(ds) && ds != [] && (ds[0] == ZERO ==> |ds| == 1)
    ensures TextFits(neg, ds) <==> Fits(neg, ds)
  {
    hide Val, LexLess;
    Limits();
    Pow10Of19();
    if |ds| < MAX_DIGITS {
      ValBound(ds);
      Pow10Grows(|ds|, 18);
    } else if |ds| == MAX_DIGITS {
      LexIsNumeric(if neg then MIN_TEXT else MAX_TEXT, ds);
    } else {
      LeadingDigit(ds);
      Pow10Grows(19, |ds| - 1);
    }
  }

  // ---------------------------------------------------------------- the grammar

  const LETTER_E: byte := 101
  const CAPITAL_E: byte := 69
  const PLUS: byte := 43

  datatype Exponent = Exponent(letter: byte, sign: Option<byte>, digits: seq<byte>)
  {
    predicate Valid() {
      && (letter == LETTER_E || letter == CAPITAL_E)
      && (sign.Some? ==> sign.value == PLUS || sign.value == MINUS)
      && digits != [] && AllDigits(digits)
    }

    function Render(): (r: seq<byte>)
      ensures r != [] && r[0] == letter
    {
      [letter] + (if sign.Some? then [sign.value] else []) + digits
    }
  }

  /** number = [ minus ] int [ frac ] [ exp ]. */
  datatype Number = Number(neg: bool, whole: seq<byte>, frac: Option<seq<byte>>, exp: Option<Exponent>)
  {
    predicate Valid() {
      && whole != [] && AllDigits(whole) && (whole[0] == ZERO ==> |whole| == 1)
      && (frac.Some? ==> frac.value != [] && AllDigits(frac.value))
      && (exp.Some? ==> exp.value.Valid())
    }

    predicate IsInteger() { frac.None? && exp.None? }

    /** Accepted: integers must fit 64 bits, everything else is unlimited. */
    predicate Accepted()
      requires Valid()
    {
      IsInteger() ==> Fits(neg, whole)
    }

    function RenderSign(): seq<byte> { if neg then [MINUS] else [] }

    function RenderFrac(): seq<byte> { if frac.Some? then [POINT] + frac.value else [] }

    function RenderExp(): seq<byte> { if exp.Some? then exp.value.Render() else [] }

    function Render(): seq<byte> { RenderSign() + (whole + (RenderFrac() + RenderExp())) }
  }

  // ---------------------------------------------------------------- reading a number

  /** A non-empty run of digits at `i` and where it ends; the run must not end the buffer. */
  function Digits(s: seq<byte>, i: nat): (r: Option<nat>)
    requires Terminated(s) && i < |s|
    ensures r.Some? ==> i < r.value < |s| && AllDigits(s[i..r.value]) && !IsDigit(s[r.value]) && s[r.value] != 0
  {
    if !IsDigit(s[i]) then None
    else
      match GoNum(s, i)
      case None => None
      case Some(k) => assert i != k; Some(k)
  }

  /** int: a single zero, or digits that start with another digit. */
  function Whole(s: seq<byte>, i: nat): (r: Option<nat>)
    requires Terminated(s) && i < |s|
    ensures r.Some? ==> i < r.value < |s| && AllDigits(s[i..r.value]) && (s[i] == ZERO ==> r.value == i + 1)
    ensures r.Some? ==> !IsDigit(s[r.value])
  {
    if s[i] == ZERO then (if IsDigit(s[i + 1]) then None else Some(i + 1)) else Digits(s, i)
  }

  function Frac(s: seq<byte>, i: nat): (r: Option<(nat, Option<seq<byte>>)>)
    requires Terminated(s) && i < |s|
    ensures r.Some? ==> i <= r.value.0 < |s|
  {
    if s[i] != POINT then Some((i, None))
    else
      match Digits(s, i + 1)
      case None => None
      case Some(k) => Some((k, Some(s[i + 1..k])))
  }

  function Exp(s: seq<byte>, i: nat): (r: Option<(nat, Option<Exponent>)>)
    requires Terminated(s) && i < |s|
    ensures r.Some? ==> i <= r.value.0 < |s|
  {
    if s[i] != LETTER_E && s[i] != CAPITAL_E then Some((i, None))
    else
      var signed := s[i + 1] == MINUS || s[i + 1] == PLUS;
      var d := if signed then i + 2 else i + 1;
      match Digits(s, d)
      case None => None
      case Some(k) => Some((k, Some(Exponent(s[i], if signed then Some(s[i + 1]) else None, s[d..k]))))
  }

  /** The number at `i` and where it ends. */
  function ReadNumber(s: seq<byte>, i: nat): (r: Option<(Number, nat)>)
    requires Terminated(s) && i < |s|
    ensures r.Some? ==> i < r.value.1 < |s|
  {
    var neg := s[i] == MINUS;
    var w := if neg then i + 1 else i;
    match Whole(s, w)
    case None => None
    case Some(f) =>
      match Frac(s, f)
      case None => None
      case Some((e, frac)) =>
        match Exp(s, e)
        case None => None
        case Some((end, exp)) => Some((Number(neg, s[w..f], frac, exp), end))
  }

  /** What the parser accepts: the number, delimited, and within 64 bits if it is an integer. */
  function Accept(s: seq<byte>, i: nat): (r: Option<(Number, nat)>)
    requires Terminated(s) && i < |s|
    ensures r.Some? ==> i < r.value.1 < |s| && Delimits(s[r.value.1])
  {
    match ReadNumber(s, i)
    case None => None
    case Some((n, end)) =>
      if Delimits(s[end]) && (n.IsInteger() ==> TextFits(n.neg, n.whole)) then Some((n, end)) else None
  }

  // ---------------------------------------------------------------- reading against the grammar

  lemma DigitsOf(s: seq<byte>, i: nat, ds: seq<byte>)
    requires Terminated(s) && AllDigits(ds) && ds != [] && i + |ds| < |s|
    requires s[i..i + |ds|] == ds && !IsDigit(s[i + |ds|]) && s[i + |ds|] != 0
    ensures Digits(s, i) == Some(i + |ds|)
  {
    var k := i + |ds|;
    assert forall j :: i <= j < k ==> s[j] == ds[j - i];
    GoNumTo(s, i, k);
  }

  lemma {:induction false} GoNumTo(s: seq<byte>, i: nat, k: nat)
    requires Terminated(s) && i <= k < |s| && (forall j :: i <= j < k ==> IsDigit(s[j]))
    requires !IsDigit(s[k]) && s[k] != 0
    ensures GoNum(s, i) == Some(k)
    decreases k - i
  {
    if i < k { GoNumTo(s, i + 1, k); }
  }

  lemma WholeOf(s: seq<byte>, i: nat, ds: seq<byte>)
    requires Terminated(s) && AllDigits(ds) && ds != [] && i + |ds| < |s| && (ds[0] == ZERO ==> |ds| == 1)
    requires s[i..i + |ds|] == ds && !IsDigit(s[i + |ds|]) && s[i + |ds|] != 0
    ensures Whole(s, i) == Some(i + |ds|)
  {
    assert s[i] == ds[0];
    if ds[0] != ZERO { DigitsOf(s, i, ds); }
  }

  lemma FracOf(s: seq<byte>, i: nat, frac: Option<seq<byte>>)
    requires Terminated(s) && (frac.Some? ==> frac.value != [] && AllDigits(frac.value))
    requires var r := if frac.Some? then [POINT] + frac.value else [];
      i + |r| < |s| && s[i..i + |r|] == r && s[i + |r|] != 0 &&
      (if frac.Some? then !IsDigit(s[i + |r|]) else s[i] != POINT)
    ensures Frac(s, i) == Some((i + (if frac.Some? then 1 + |frac.value| else 0), frac))
  {
    if frac.Some? {
      Slices(s, i, [POINT], frac.value);
      assert s[i..i + 1][0] == s[i];
      DigitsOf(s, i + 1, frac.value);
    }
  }

  lemma ExpOf(s: seq<byte>, i: nat, exp: Option<Exponent>)
    requires Terminated(s) && (exp.Some? ==> exp.value.Valid())
    requires var r := if exp.Some? then exp.value.Render() else [];
      i + |r| < |s| && s[i..i + |r|] == r && Delimits(s[i + |r|])
    ensures Exp(s, i) == Some((i + (if exp.Some? then |exp.value.Render()| else 0), exp))
  {
    hide Digits, Exponent.Render;
    if exp.Some? { ExpChars(s, i, exp.value); }
  }

  lemma ExpChars(s: seq<byte>, i: nat, e: Exponent)
    requires Terminated(s) && e.Valid() && i + |e.Render()| < |s|
    requires s[i..i + |e.Render()|] == e.Render() && Delimits(s[i + |e.Render()|])
    ensures i + 1 < |s| && s[i] == e.letter
    ensures if e.sign.Some? then s[i + 1] == e.sign.value else s[i + 1] == e.digits[0]
    ensures var d, k := if e.sign.Some? then i + 2 else i + 1, i + |e.Render()|;
      d <= k && s[d..k] == e.digits && Digits(s, d) == Some(k)
  {
    hide Digits;
    var front := [e.letter] + (if e.sign.Some? then [e.sign.value] else []);
    assert e.Render() == front + e.digits;
    Slices(s, i, front, e.digits);
    assert s[i..i + |front|][0] == s[i];
    if e.sign.Some? {
      assert s[i..i + |front|][1] == s[i + 1];
    } else {
      assert s[i + 1..i + 1 + |e.digits|][0] == s[i + 1];
    }
    DigitsOf(s, i + |front|, e.digits);
  }

  lemma AfterWhole(n: Number, s: seq<byte>, f: nat)
    requires n.Valid() && f + |n.RenderFrac() + n.RenderExp()| < |s|
    requires s[f..f + |n.RenderFrac() + n.RenderExp()|] == n.RenderFrac() + n.RenderExp()
    requires Delimits(s[f + |n.RenderFrac() + n.RenderExp()|])
    ensures !IsDigit(s[f]) && s[f] != 0 && (n.frac.None? ==> s[f] != POINT)
  {
    var r := n.RenderFrac() + n.RenderExp();
    if r != [] { assert s[f..f + |r|][0] == s[f]; }
  }

  /** Where the four parts of a rendered number lie. */
  lemma NumberSlices(s: seq<byte>, i: nat, n: Number) returns (w: nat, f: nat, e: nat)
    requires i + |n.Render()| < |s| && s[i..i + |n.Render()|] == n.Render()
    ensures i <= w <= f <= e <= i + |n.Render()|
    ensures w == (if n.neg then i + 1 else i) && f == w + |n.whole| && e == f + |n.RenderFrac()|
    ensures i + |n.Render()| == e + |n.RenderExp()| == f + |n.RenderFrac() + n.RenderExp()|
    ensures s[i..w] == n.RenderSign() && s[w..f] == n.whole && s[f..e] == n.RenderFrac()
    ensures s[e..i + |n.Render()|] == n.RenderExp()
    ensures s[f..i + |n.Render()|] == n.RenderFrac() + n.RenderExp()
  {
    hide Number.RenderFrac, Number.RenderExp;
    var sign, fr, ex := n.RenderSign(), n.RenderFrac(), n.RenderExp();
    w := i + |sign|;
    f := w + |n.whole|;
    e := f + |fr|;
    Slices(s, i, sign, n.whole + (fr + ex));
    Slices(s, w, n.whole, fr + ex);
    Slices(s, f, fr, ex);
  }

  lemma SignOf(s: seq<byte>, i: nat, n: Number, w: nat)
    requires n.Valid() && w + |n.whole| < |s| && i <= w && w == (if n.neg then i + 1 else i)
    requires s[i..w] == n.RenderSign() && s[w..w + |n.whole|] == n.whole
    ensures n.neg <==> s[i] == MINUS
  {
    if n.neg { assert s[i] == s[i..w][0]; } else { assert s[w] == s[w..w + |n.whole|][0] == n.whole[0]; }
  }

  /** Everything the grammar allows is accepted ... */
  lemma NumberComplete(s: seq<byte>, i: nat, n: Number)
    requires Terminated(s) && n.Valid() && n.Accepted()
    requires i + |n.Render()| < |s| && s[i..i + |n.Render()|] == n.Render() && Delimits(s[i + |n.Render()|])
    ensures Accept(s, i) == Some((n, i + |n.Render()|))
  {
    hide ReadNumber, Number.Render, TextFits, Fits, Delimits;
    NumberRead(s, i, n);
    if n.IsInteger() { TextFitsIff(n.neg, n.whole); }
  }

  lemma NumberRead(s: seq<byte>, i: nat, n: Number)
    requires Terminated(s) && n.Valid() && i + |n.Render()| < |s|
    requires s[i..i + |n.Render()|] == n.Render() && Delimits(s[i + |n.Render()|])
    ensures ReadNumber(s, i) == Some((n, i + |n.Render()|))
  {
    hide Exponent.Render, Exponent.Valid, Frac, Exp, Whole, Number.Render, Delimits;
    var w, f, e := NumberSlices(s, i, n);
    AfterWhole(n, s, f);
    AfterFrac(n, s, e);
    SignOf(s, i, n, w);
    WholeOf(s, w, n.whole);
    FracOf(s, f, n.frac);
    ExpOf(s, e, n.exp);
  }

  lemma AfterFrac(n: Number, s: seq<byte>, e: nat)
    requires n.Valid() && e + |n.RenderExp()| < |s|
    requires s[e..e + |n.RenderExp()|] == n.RenderExp() && Delimits(s[e + |n.RenderExp()|])
    ensures !IsDigit(s[e]) && s[e] != 0
  {
    if n.RenderExp() != [] { assert s[e..e + |n.RenderExp()|][0] == s[e]; }
  }

  /** ... and nothing else is. */
  lemma NumberSound(s: seq<byte>, i: nat)
    requires Terminated(s) && i < |s| && Accept(s, i).Some?
    ensures var (n, end) := Accept(s, i).value;
      n.Valid() && n.Accepted() && s[i..end] == n.Render() && Delimits(s[end])
  {
    hide Frac, Exp, Whole, TextFits, Fits, Delimits, Exponent.Render, Exponent.Valid;
    var (n, end) := Accept(s, i).value;
    var w := if n.neg then i + 1 else i;
    var f := Whole(s, w).value;
    var e := Frac(s, f).value.0;
    FracShape(s, f);
    ExpShape(s, e);
    WholeShape(s, w);
    assert s[i..w] == n.RenderSign();
    JoinSlices(s, i, w, f, e, end);
    if n.IsInteger() { TextFitsIff(n.neg, n.whole); }
  }

  lemma JoinSlices(s: seq<byte>, i: nat, w: nat, f: nat, e: nat, end: nat)
    requires i <= w <= f <= e <= end <= |s|
    ensures s[i..end] == s[i..w] + (s[w..f] + (s[f..e] + s[e..end]))
  {
  }

  lemma WholeShape(s: seq<byte>, w: nat)
    requires Terminated(s) && w < |s| && Whole(s, w).Some?
    ensures var ds := s[w..Whole(s, w).value]; ds != [] && AllDigits(ds) && (ds[0] == ZERO ==> |ds| == 1)
  {
    assert s[w..Whole(s, w).value][0] == s[w];
  }

  lemma FracShape(s: seq<byte>, f: nat)
    requires Terminated(s) && f < |s| && Frac(s, f).Some?
    ensures var (e, frac) := Frac(s, f).value;
      s[f..e] == (if frac.Some? then [POINT] + frac.value else []) &&
      (frac.Some? ==> frac.value != [] && AllDigits(frac.value))
  {
  }

  lemma ExpShape(s: seq<byte>, e: nat)
    requires Terminated(s) && e < |s| && Exp(s, e).Some?
    ensures var (end, exp) := Exp(s, e).value;
      s[e..end] == (if exp.Some? then exp.value.Render() else []) && (exp.Some? ==> exp.value.Valid())
  {
  }

  // ---------------------------------------------------------------- the scanner

  /** setToNull: a delimiter that does not close a block is overwritten and passed. */
  function Cut(s: seq<byte>, end: nat): (t: seq<byte>)
    requires end < |s|
  {
    if EndsBlock(s[end]) then s else s[end := 0]
  }

  function AfterCut(s: seq<byte>, end: nat): nat
    requires end < |s|
  {
    if EndsBlock(s[end]) then end else end + 1
  }

  method SetToNull(buf: array<byte>, ptr: nat) returns (next: nat)
    requires ptr < buf.Length
    modifies buf
    ensures buf[..] == Cut(old(buf[..]), ptr) && next == AfterCut(old(buf[..]), ptr)
  {
    next := ptr;
    if !EndsBlock(buf[ptr]) {
      buf[next] := 0;
      next := next + 1;
    }
  }

  /** strcmp of a limit against the NUL-terminated text of the same length at `start`. */
  method IsBelow(limit: seq<byte>, buf: array<byte>, start: nat) returns (less: bool)
    requires start + |limit| <= buf.Length
    ensures less == LexLess(limit, buf[start..start + |limit|])
  {
    var k := 0;
    ghost var text := buf[start..start + |limit|];
    while k < |limit|
      invariant 0 <= k <= |limit| && LexLess(limit, text) == LexLess(limit[k..], text[k..])
    {
      assert text[k] == buf[start + k];
      if limit[k] != buf[start + k] { return limit[k] < buf[start + k]; }
      assert limit[k..][1..] == limit[k + 1..] && text[k..][1..] == text[k + 1..];
      k := k + 1;
    }
    less := false;
  }

  /** fraqValue. */
  method FraqValue(buf: array<byte>, start: nat) returns (r: Option<nat>)
    requires Terminated(buf[..]) && start < buf.Length
    ensures r == Digits(buf[..], start)
  {
    if !IsDigit(buf[start]) { return None; }
    r := SkipDigits(buf, start + 1);
  }

  /** expValue; `start` is just after the letter. */
  method ExpValue(buf: array<byte>, start: nat) returns (r: Option<nat>)
    requires Terminated(buf[..]) && 0 < start < buf.Length
    requires buf[start - 1] == LETTER_E || buf[start - 1] == CAPITAL_E
    ensures match Exp(buf[..], start - 1)
      case None => r == None
      case Some((end, exp)) => r == Some(end) && exp.Some?
  {
    hide Digits;
    var ptr := start;
    if buf[ptr] == MINUS || buf[ptr] == PLUS { ptr := ptr + 1; }
    r := FraqValue(buf, ptr);
  }

  /** The part of numValue that only reads: where the number ends and whether it is an integer. */
  method ScanNumber(buf: array<byte>, start: nat) returns (r: Option<(nat, bool)>)
    requires Terminated(buf[..]) && start < buf.Length
    ensures match ReadNumber(buf[..], start)
      case None => r == None
      case Some((n, end)) => r == Some((end, n.IsInteger()))
  {
    hide GoNum, Exp, Digits;
    var ptr, isInteger := start, true;
    if buf[ptr] == MINUS { ptr := ptr + 1; }
    var whole := ScanWhole(buf, ptr);
    if whole.None? { return None; }
    ptr := whole.value;
    if buf[ptr] == POINT {
      var end := FraqValue(buf, ptr + 1);
      if end.None? { return None; }
      ptr := end.value;
      isInteger := false;
    }
    if buf[ptr] == LETTER_E || buf[ptr] == CAPITAL_E {
      var end := ExpValue(buf, ptr + 1);
      if end.None? { return None; }
      ptr := end.value;
      isInteger := false;
    } else {
      NoExponent(buf[..], ptr);
    }
    r := Some((ptr, isInteger));
  }

  lemma NoExponent(s: seq<byte>, i: nat)
    requires Terminated(s) && i < |s| && s[i] != LETTER_E && s[i] != CAPITAL_E
    ensures Exp(s, i) == Some((i, None))
  {
  }

  /** The leading digits of numValue. */
  method ScanWhole(buf: array<byte>, start: nat) returns (r: Option<nat>)
    requires Terminated(buf[..]) && start < buf.Length
    ensures r == Whole(buf[..], start)
  {
    if !IsDigit(buf[start]) { return None; }
    if buf[start] != ZERO {
      r := SkipDigits(buf, start);
    } else if IsDigit(buf[start + 1]) {
      r := None;
    } else {
      r := Some(start + 1);
    }
  }

  /** The range check of numValue on the integer in [start, end): the text is terminated for the
      comparison and restored afterwards, but not when the comparison fails. */
  method CheckRange(buf: array<byte>, start: nat, end: nat) returns (ok: bool)
    requires Terminated(buf[..]) && start < end && end + 1 < buf.Length
    requires buf[start] == MINUS ==> start + 1 < end
    modifies buf
    ensures var neg := old(buf[start]) == MINUS;
      ok == TextFits(neg, old(buf[if neg then start + 1 else start..end]))
    ensures ok ==> buf[..] == old(buf[..])
    ensures Terminated(buf[..])
  {
    hide LexLess, Val;
    var negative := buf[start] == MINUS;
    var limit := if negative then [MINUS] + MIN_TEXT else MAX_TEXT;
    var maxDigits, len := |limit|, end - start;
    ok := len <= maxDigits;
    if len == maxDigits {
      ghost var s, text := buf[..], buf[start..end];
      LimitSign(negative, text);
      var tmp := buf[end];
      buf[end] := 0;
      assert buf[start..end] == text;
      var less := IsBelow(limit, buf, start);
      ok := !less;
      if ok { buf[end] := tmp; assert buf[..] == s; }
    }
  }

  lemma LimitSign(neg: bool, text: seq<byte>)
    requires neg ==> text != [] && text[0] == MINUS
    requires |text| == if neg then MAX_DIGITS + 1 else MAX_DIGITS
    ensures |MIN_TEXT| == |MAX_TEXT| == MAX_DIGITS
    ensures LexLess(if neg then [MINUS] + MIN_TEXT else MAX_TEXT, text) ==
      LexLess(if neg then MIN_TEXT else MAX_TEXT, if neg then text[1..] else text)
  {
    if neg { assert ([MINUS] + MIN_TEXT)[1..] == MIN_TEXT; }
  }

  /** numValue: accepts exactly what Accept does, terminates the text in place and tells integers from reals. */
  method NumValue(buf: array<byte>, start: nat) returns (r: Option<(nat, bool)>)
    requires Terminated(buf[..]) && start < buf.Length
    modifies buf
    ensures match Accept(old(buf[..]), start)
      case None => r == None
      case Some((n, end)) =>
        r == Some((AfterCut(old(buf[..]), end), n.IsInteger())) && buf[..] == Cut(old(buf[..]), end)
    ensures Terminated(buf[..])
  {
    hide Whole, Frac, Exp, TextFits, LexLess;
    var scanned := ScanNumber(buf, start);
    if scanned.None? { return None; }
    var (ptr, isInteger) := scanned.value;
    if !Delimits(buf[ptr]) { return None; }
    ghost var s := buf[..];
    ghost var n := ReadNumber(s, start).value.0;
    assert s[ptr] == buf[ptr];
    if isInteger {
      IntegerText(s, start);
      var ok := CheckRange(buf, start, ptr);
      if !ok { return None; }
    }
    var next := SetToNull(buf, ptr);
    r := Some((next, isInteger));
  }

  lemma IntegerText(s: seq<byte>, i: nat)
    requires Terminated(s) && i < |s| && ReadNumber(s, i).Some? && ReadNumber(s, i).value.0.IsInteger()
    ensures var (n, end) := ReadNumber(s, i).value;
      && (n.neg <==> s[i] == MINUS) && (n.neg ==> i + 1 < end)
      && n.whole == s[if n.neg then i + 1 else i..end]
  {
    hide Whole;
  }
}
