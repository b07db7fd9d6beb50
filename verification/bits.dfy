/** Python's `&` and `>>` on non-negative integers. The decoders isolate
    packed fields with a mask followed by a shift; the lemma `AndMask` gives
    the arithmetic meaning of such a mask, so every field extraction can be
    stated as a quotient and remainder by powers of two. */
module Bits {

  function Pow2(n: nat): (r: nat)
    ensures r >= 1
  {
    if n == 0 then 1 else 2 * Pow2(n - 1)
  }

  /** Bitwise and, bit by bit from the least significant end. */
  function And(x: nat, y: nat): (r: nat)
    ensures r <= x && r <= y
    decreases x
  {
    if x == 0 || y == 0 then 0
    else 2 * And(x / 2, y / 2) + (if x % 2 == 1 && y % 2 == 1 then 1 else 0)
  }

  /** Right shift by `k` bits. */
  function Shr(x: nat, k: nat): (r: nat)
    ensures Pow2(k) * r <= x < Pow2(k) * r + Pow2(k)
  {
    DivNonNegative(x, Pow2(k));
    x / Pow2(k)
  }

  /** `n` one-bits starting at bit `k`. */
  function Mask(k: nat, n: nat): nat {
    (Pow2(n) - 1) * Pow2(k)
  }

  /** Bit `i` of `x`. */
  predicate Bit(x: nat, i: nat) {
    (x / Pow2(i)) % 2 == 1
  }

  lemma MulMonotone(d: nat, a: nat, b: nat)
    requires a <= b
    ensures d * a <= d * b
  {
  }

  lemma DivNonNegative(x: nat, d: nat)
    requires d > 0
    ensures x / d >= 0
  {
  }

  lemma MulTwice(a: nat, b: nat)
    ensures 2 * (a * b) == a * (2 * b)
  {
  }

  /** Quotient and remainder are the only pair that rebuilds `x`. */
  lemma DivModUnique(x: nat, d: nat, q: nat, r: nat)
    requires r < d && x == d * q + r
    ensures x / d == q && x % d == r
  {
    var q', r' := x / d, x % d;
    assert x == d * q' + r';
    if q' > q {
      MulMonotone(d, q + 1, q');
      assert false;
    }
    if q' < q {
      MulMonotone(d, q' + 1, q);
      assert false;
    }
  }

  /** A number below the divisor is its own remainder. */
  lemma SmallMod(x: nat, d: nat)
    requires x < d
    ensures x % d == x && x / d == 0
  {
    DivModUnique(x, d, 0, x);
  }

  lemma HalveThenDivide(x: nat, b: nat)
    requires b > 0
    ensures x / 2 / b == x / (2 * b)
    ensures 2 * ((x / 2) % b) + x % 2 == x % (2 * b)
  {
    var q := x / 2;
    var s, t := q / b, q % b;
    assert q == b * s + t;
    assert x == (2 * b) * s + (2 * t + x % 2);
    DivModUnique(x, 2 * b, s, 2 * t + x % 2);
  }

  /** Masking with the low `n` bits keeps the remainder modulo 2^n. */
  lemma {:induction false} AndLowMask(x: nat, n: nat)
    ensures And(x, Pow2(n) - 1) == x % Pow2(n)
  {
    if n > 0 && x > 0 {
      var p := Pow2(n - 1);
      assert 2 * p == Pow2(n);
      var m := Pow2(n) - 1;
      DivModUnique(m, 2, p - 1, 1);
      var low := And(x / 2, p - 1);
      assert And(x, m) == 2 * low + x % 2;
      AndLowMask(x / 2, n - 1);
      assert low == (x / 2) % p;
      HalveThenDivide(x, p);
      assert 2 * low + x % 2 == x % Pow2(n);
    } else if n == 0 {
      assert Pow2(n) == 1;
    } else {
      DivModUnique(x, Pow2(n), 0, 0);
    }
  }

  /** Masking with `n` bits from bit `k` keeps those bits in place: the
      field `(x >> k) % 2^n`, shifted back up by `k`. */
  lemma {:induction false} AndMask(x: nat, k: nat, n: nat)
    ensures And(x, Mask(k, n)) == ((x / Pow2(k)) % Pow2(n)) * Pow2(k)
  {
    var ones := Pow2(n) - 1;
    if k == 0 {
      assert Mask(k, n) == ones;
      AndLowMask(x, n);
    } else if n == 0 {
      assert Mask(k, n) == 0;
    } else if x == 0 {
      DivModUnique(0, Pow2(k), 0, 0);
    } else {
      var below := Pow2(k - 1);
      var m := Mask(k, n);
      var half := Mask(k - 1, n);
      assert half == ones * below;
      assert m == ones * (2 * below);
      assert m == 2 * half;
      MulMonotone(below, 1, ones);
      assert half > 0;
      assert m % 2 == 0 && m / 2 == half;
      assert And(x, m) == 2 * And(x / 2, half);
      AndMask(x / 2, k - 1, n);
      HalveThenDivide(x, below);
      var field := (x / Pow2(k)) % Pow2(n);
      assert And(x / 2, half) == field * below;
      MulTwice(field, below);
    }
  }

  /** The field a mask-then-shift extracts: `(x & Mask(k, n)) >> k`. */
  lemma ExtractField(x: nat, k: nat, n: nat)
    ensures Shr(And(x, Mask(k, n)), k) == (x / Pow2(k)) % Pow2(n)
  {
    var p := Pow2(k);
    DivNonNegative(x, p);
    var field: nat := (x / p) % Pow2(n);
    AndMask(x, k, n);
    var masked := And(x, Mask(k, n));
    assert masked == field * p;
    assert field * p == p * field + 0;
    DivModUnique(masked, p, field, 0);
  }

  /** Masking with a single bit `i` tests that bit. */
  lemma AndSingleBit(x: nat, i: nat)
    ensures And(x, Pow2(i)) == (if Bit(x, i) then Pow2(i) else 0)
  {
    assert Mask(i, 1) == Pow2(i);
    AndMask(x, i, 1);
  }
}
