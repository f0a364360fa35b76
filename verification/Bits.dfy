/** Bitwise operations on natural numbers, written as arithmetic.

    A C `unsigned` or a Python integer is modelled as a `nat`; where the width
    matters the modules that use this one cut the result down themselves. */
module Bits {
  type byte = x: int | 0 <= x < 256
  type uint32 = x: int | 0 <= x < 0x1_0000_0000

  const TWO32 := 0x1_0000_0000

  function Pow2(k: nat): (p: nat)
    ensures p > 0
  {
    if k == 0 then 1 else 2 * Pow2(k - 1)
  }

  /** Bit `k` of `n`. */
  predicate Bit(n: nat, k: nat) {
    if k == 0 then n % 2 == 1 else Bit(n / 2, k - 1)
  }

  function And(a: nat, b: nat): nat {
    if a == 0 || b == 0 then 0 else (a % 2) * (b % 2) + 2 * And(a / 2, b / 2)
  }

  function Or(a: nat, b: nat): nat
    decreases a + b
  {
    if a == 0 then b else if b == 0 then a
    else (if a % 2 == 1 || b % 2 == 1 then 1 else 0) + 2 * Or(a / 2, b / 2)
  }

  /** `a` with the bits of `b` cleared: C's `a & ~b`. */
  function Clear(a: nat, b: nat): nat {
    if a == 0 then 0
    else (if a % 2 == 1 && b % 2 == 0 then 1 else 0) + 2 * Clear(a / 2, b / 2)
  }

  function Shl(a: nat, k: nat): nat {
    if k == 0 then a else 2 * Shl(a, k - 1)
  }

  function Shr(a: nat, k: nat): nat {
    if k == 0 then a else Shr(a / 2, k - 1)
  }

  // ---------------------------------------------------------------- bits of results

  lemma Halve(x: nat, y: nat)
    requires x < 2
    ensures (x + 2 * y) / 2 == y && (x + 2 * y) % 2 == x
  {
  }

  lemma BitStep(x: nat, y: nat, k: nat)
    requires x < 2
    ensures Bit(x + 2 * y, k) <==> if k == 0 then x == 1 else Bit(y, k - 1)
  {
    Halve(x, y);
  }

  lemma {:induction false} BitOfZero(k: nat)
    ensures !Bit(0, k)
  {
    if k > 0 { BitOfZero(k - 1); }
  }

  lemma {:induction false} BitOfAnd(a: nat, b: nat, k: nat)
    ensures Bit(And(a, b), k) <==> Bit(a, k) && Bit(b, k)
    decreases k
  {
    if a == 0 || b == 0 {
      BitOfZero(k);
    } else {
      BitStep((a % 2) * (b % 2), And(a / 2, b / 2), k);
      if k > 0 { BitOfAnd(a / 2, b / 2, k - 1); }
    }
  }

  lemma {:induction false} BitOfOr(a: nat, b: nat, k: nat)
    ensures Bit(Or(a, b), k) <==> Bit(a, k) || Bit(b, k)
    decreases k
  {
    if a == 0 || b == 0 {
      BitOfZero(k);
    } else {
      BitStep(if a % 2 == 1 || b % 2 == 1 then 1 else 0, Or(a / 2, b / 2), k);
      if k > 0 { BitOfOr(a / 2, b / 2, k - 1); }
    }
  }

  lemma {:induction false} BitOfClear(a: nat, b: nat, k: nat)
    ensures Bit(Clear(a, b), k) <==> Bit(a, k) && !Bit(b, k)
    decreases k
  {
    if a == 0 {
      BitOfZero(k);
    } else {
      BitStep(if a % 2 == 1 && b % 2 == 0 then 1 else 0, Clear(a / 2, b / 2), k);
      if k > 0 { BitOfClear(a / 2, b / 2, k - 1); }
    }
  }

  lemma {:induction false} BitOfShl(a: nat, s: nat, k: nat)
    ensures Bit(Shl(a, s), k) <==> k >= s && Bit(a, k - s)
    decreases s
  {
    if s > 0 && k > 0 { BitOfShl(a, s - 1, k - 1); }
  }

  lemma {:induction false} BitOfShr(a: nat, s: nat, k: nat)
    ensures Bit(Shr(a, s), k) <==> Bit(a, k + s)
    decreases s
  {
    if s > 0 { BitOfShr(a / 2, s - 1, k); }
  }

  lemma DivUnique(a: int, d: int, q: int, r: int)
    requires d > 0 && a == q * d + r && 0 <= r < d
    ensures a / d == q && a % d == r
  {
    var k := a / d - q;
    assert k * d == r - a % d by {
      Distribute(a / d, q, d);
    }
    AtLeastOneMultiple(k, d);
  }

  /** Multiples of `d` do not change the remainder. */
  lemma ModShift(a: int, k: int, d: int)
    requires d > 0
    ensures (a + k * d) % d == a % d
  {
    Distribute(a / d, 0 - k, d);
    DivUnique(a + k * d, d, a / d + k, a % d);
  }

  lemma Distribute(x: int, y: int, d: int)
    ensures (x - y) * d == x * d - y * d
  {
  }

  lemma AtLeastOneMultiple(k: int, d: int)
    requires d > 0
    ensures k >= 1 ==> k * d >= d
    ensures k <= -1 ==> k * d <= -d
    ensures k <= 0 ==> k * d <= 0
  {
  }

  lemma Swap(a: nat, b: nat, c: nat)
    ensures (a * b) * c == (a * c) * b && a * (b * c) == b * (a * c)
  {
  }

  lemma MulMono(a: int, b: int, d: nat)
    requires a <= b
    ensures a * d <= b * d && d * a <= d * b
  {
  }

  /** Two numbers with the same bits are the same number. */
  lemma {:induction false} SameBits(a: nat, b: nat)
    requires forall k: nat :: Bit(a, k) == Bit(b, k)
    ensures a == b
    decreases a + b
  {
    assert Bit(a, 0) == Bit(b, 0);
    if a + b > 0 {
      forall k: nat ensures Bit(a / 2, k) == Bit(b / 2, k) {
        assert Bit(a, k + 1) == Bit(b, k + 1);
      }
      if a / 2 + b / 2 < a + b { SameBits(a / 2, b / 2); }
    }
  }

  // ---------------------------------------------------------------- masks

  /** Masking with 2^k - 1 is reduction modulo 2^k. */
  lemma {:induction false} AndMask(k: nat, n: nat)
    ensures And(Pow2(k) - 1, n) == n % Pow2(k)
    decreases k
  {
    if k == 0 {
    } else {
      var h := Pow2(k - 1);
      AndMask(k - 1, n / 2);
      ModDouble(n, h);
      AndOfOdd(h - 1, n);
    }
  }

  lemma ModDouble(n: nat, h: nat)
    requires h > 0
    ensures n % (2 * h) == 2 * ((n / 2) % h) + n % 2
  {
    var q, r := (n / 2) / h, (n / 2) % h;
    assert n / 2 == q * h + r;
    assert q * (2 * h) == 2 * (q * h);
    DivUnique(n, 2 * h, q, 2 * r + n % 2);
  }

  lemma AndOfOdd(m: nat, n: nat)
    ensures And(2 * m + 1, n) == n % 2 + 2 * And(m, n / 2)
  {
    assert (2 * m + 1) / 2 == m && (2 * m + 1) % 2 == 1;
  }

  /** One digit of the conjunction, without the product. */
  lemma AndUnfold(a: nat, b: nat)
    requires a != 0 && b != 0
    ensures And(a, b) == (if a % 2 == 1 && b % 2 == 1 then 1 else 0) + 2 * And(a / 2, b / 2)
  {
    assert a % 2 == 0 || a % 2 == 1;
  }

  lemma {:induction false} AndSame(n: nat)
    ensures And(n, n) == n
  {
    if n > 0 {
      AndSame(n / 2);
      AndUnfold(n, n);
    }
  }

  lemma {:induction false} AndBound(a: nat, b: nat)
    ensures And(a, b) <= a && And(a, b) <= b
  {
    if a != 0 && b != 0 {
      AndBound(a / 2, b / 2);
      AndUnfold(a, b);
    }
  }

  lemma {:induction false} Pow2Split(j: nat, k: nat)
    requires j <= k
    ensures Pow2(k) == Pow2(j) * Pow2(k - j)
    decreases k - j
  {
    if j < k { Pow2Split(j, k - 1); }
  }

  lemma Pow2OfEight()
    ensures Pow2(8) == 256
  {
    assert Pow2(2) == 4;
    assert Pow2(4) == 16;
    assert Pow2(6) == 64;
  }

  /** The bits of `n % 2^k` are the first `k` bits of `n`. */
  lemma BitOfMod(n: nat, k: nat, i: nat)
    ensures Bit(n % Pow2(k), i) <==> i < k && Bit(n, i)
  {
    AndMask(k, n);
    BitOfAnd(Pow2(k) - 1, n, i);
    BitOfMask(k, i);
  }

  lemma {:induction false} BitOfMask(k: nat, i: nat)
    ensures Bit(Pow2(k) - 1, i) <==> i < k
    decreases k
  {
    if k == 0 {
      BitOfZero(i);
    } else {
      BitStep(1, Pow2(k - 1) - 1, i);
      assert Pow2(k) - 1 == 1 + 2 * (Pow2(k - 1) - 1);
      if i > 0 { BitOfMask(k - 1, i - 1); }
    }
  }

  lemma BitOfOne(i: nat)
    ensures Bit(1, i) <==> i == 0
  {
    if i > 0 { BitOfZero(i - 1); }
  }
}
