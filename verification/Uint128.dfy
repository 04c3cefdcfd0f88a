/** src/common/uint128.cpp: a 64 by 64 bit product, and the division of a 128-bit number by a 32-bit one
    in 64-bit steps. */
module Uint128 {
  import opened Arithmetic

  /** `u128`: the low and the high word. */
  datatype U128 = U128(lo: nat, hi: nat)

  function Value(x: U128): nat {
    x.lo + WRAP * x.hi
  }

  method Multiply64Into128(a: nat, b: nat) returns (result: U128)
    requires a < WRAP && b < WRAP
    ensures result.lo < WRAP && result.hi < WRAP && Value(result) == a * b
  {
    var tmp := a * b;
    assert tmp < WRAP * WRAP by { ProductBelow(a, b, WRAP, WRAP); }
    result := U128(tmp % WRAP, tmp / WRAP);
  }

  lemma ProductBelow(a: nat, b: nat, m: nat, n: nat)
    requires a < m && b < n
    ensures a * b < m * n
  {
  }

  /** Number of values of a 32-bit word. */
  const HALF: nat := 0x1_0000_0000

  // The operations on 64-bit words
  function Add64(a: nat, b: nat): nat {
    (a + b) % WRAP
  }

  function Shl32(a: nat): nat {
    a * HALF % WRAP
  }

  function Div64(a: nat, d: nat): nat
    requires d > 0
  {
    a / d
  }

  function Mod64(a: nat, d: nat): nat
    requires d > 0
  {
    a % d
  }

  /** The result the division should have: the quotient's low word and the remainder. */
  predicate IsDivision(x: U128, d: nat, quotient: nat, remainder: nat)
    requires d > 0
  {
    quotient == Value(x) / d % WRAP && remainder == Value(x) % d
  }

  lemma ProductMonotonic(d: nat, a: nat, b: nat)
    requires a <= b
    ensures d * a <= d * b
  {
  }

  lemma DivisionEquation(x: nat, d: nat)
    requires 0 < d
    ensures x == d * Div64(x, d) + Mod64(x, d) && Mod64(x, d) < d
  {
  }

  /** Dividing less than `d * b` gives less than `b`. */
  lemma QuotientBelow(x: nat, d: nat, q: nat, r: nat, b: nat)
    requires x == d * q + r && x < d * b
    ensures q < b
  {
  }

  /** A remainder moved up by 32 bits loses nothing, and neither does its quotient. */
  lemma Segment(h: nat, d: nat, q: nat, r: nat)
    requires h < d < HALF
    ensures Shl32(h) == h * HALF
    ensures h * HALF == d * q + r ==> Shl32(q) == q * HALF
  {
  }

  /** Long division in base 2^32: the parts add up to the dividend without its high quotient. */
  lemma LongDivision(lo: nat, d: nat, h: nat, q1: nat, r1: nat, q2: nat, r2: nat, q0: nat, r0: nat)
    requires h * HALF == d * q1 + r1 && r1 * HALF == d * q2 + r2 && lo == d * q0 + r0
    ensures lo + WRAP * h == d * (q0 + q1 * HALF + q2) + (r0 + r2)
  {
  }

  /** What is left without the high quotient determines the remainder and the low word of the quotient. */
  lemma QuotientOf(x: U128, d: nat, q: nat, r: nat)
    requires x.lo < WRAP && r < d && x.lo + WRAP * Mod64(x.hi, d) == d * q + r
    ensures q < WRAP && IsDivision(x, d, q, r)
  {
    hide Div64, Mod64;
    var h, m := Mod64(x.hi, d), Div64(x.hi, d);
    DivisionEquation(x.hi, d);
    ProductMonotonic(WRAP, h + 1, d);
    QuotientBelow(x.lo + WRAP * h, d, q, r, WRAP);
    assert Value(x) == d * (WRAP * m + q) + r by {
      assert WRAP * x.hi == WRAP * (d * m) + WRAP * h;
      assert d * (WRAP * m + q) == WRAP * (d * m) + d * q;
    }
    ModUnique(Value(x), d, WRAP * m + q, r);
    ModUnique(WRAP * m + q, WRAP, m, q);
  }

  /** Every 64-bit operation may wrap; none does. The remainder is exact, and the quotient is the true one
      modulo 2^64. */
  method Divide128On32(dividend: U128, divisor: nat) returns (accum: nat, remainder: nat)
    requires dividend.lo < WRAP && dividend.hi < WRAP && 0 < divisor < HALF
    ensures remainder == Value(dividend) % divisor
    ensures accum == Value(dividend) / divisor % WRAP
  {
    accum, remainder := DivideWords(dividend, divisor);
  }

  method DivideWords(dividend: U128, divisor: nat) returns (accum: nat, remainder: nat)
    requires dividend.lo < WRAP && dividend.hi < WRAP && 0 < divisor < HALF
    ensures IsDivision(dividend, divisor, accum, remainder)
  {
    hide *;
    remainder := Mod64(dividend.lo, divisor);
    accum := Div64(dividend.lo, divisor);
    if dividend.hi == 0 {
      OneWord(dividend, divisor);
      return;
    }
    var firstSegment := Shl32(Mod64(dividend.hi, divisor));
    accum := Add64(accum, Shl32(Div64(firstSegment, divisor)));
    var secondSegment := Shl32(Mod64(firstSegment, divisor));
    accum := Add64(accum, Div64(secondSegment, divisor));
    remainder := Add64(remainder, Mod64(secondSegment, divisor));
    TwoWords(dividend, divisor);
    if remainder >= divisor {
      accum := Add64(accum, 1);
      remainder := remainder - divisor;
    }
  }

  lemma OneWord(x: U128, d: nat)
    requires x.lo < WRAP && x.hi == 0 && 0 < d
    ensures IsDivision(x, d, Div64(x.lo, d), Mod64(x.lo, d))
  {
  }

  lemma TwoWords(x: U128, d: nat)
    requires x.lo < WRAP && 0 < d < HALF
    ensures
      var first := Shl32(Mod64(x.hi, d));
      var second := Shl32(Mod64(first, d));
      var accum := Add64(Add64(Div64(x.lo, d), Shl32(Div64(first, d))), Div64(second, d));
      var remainder := Add64(Mod64(x.lo, d), Mod64(second, d));
      if remainder >= d then IsDivision(x, d, Add64(accum, 1), remainder - d) else IsDivision(x, d, accum, remainder)
  {
    hide *;
    var h := Mod64(x.hi, d);
    DivisionEquation(x.hi, d);
    var first := Shl32(h);
    var q1, r1 := Div64(first, d), Mod64(first, d);
    DivisionEquation(first, d);
    Segment(h, d, q1, r1);
    var second := Shl32(r1);
    var q2, r2 := Div64(second, d), Mod64(second, d);
    DivisionEquation(second, d);
    Segment(r1, d, q2, r2);
    DivisionEquation(x.lo, d);
    LongDivision(x.lo, d, h, q1, r1, q2, r2, Div64(x.lo, d), Mod64(x.lo, d));
    Sums(x, d, Div64(x.lo, d), q1, q2, Mod64(x.lo, d), r2);
  }

  /** One correction by the divisor finishes the division. */
  lemma Corrected(x: U128, d: nat, sum: nat, r: nat)
    requires x.lo < WRAP && 0 < d && r < 2 * d && x.lo + WRAP * Mod64(x.hi, d) == d * sum + r
    ensures if r >= d then sum + 1 < WRAP && IsDivision(x, d, sum + 1, r - d)
            else sum < WRAP && IsDivision(x, d, sum, r)
  {
    hide Mod64, IsDivision;
    if r < d {
      QuotientOf(x, d, sum, r);
    } else {
      assert d * (sum + 1) == d * sum + d;
      QuotientOf(x, d, sum + 1, r - d);
    }
  }

  /** The sums do not wrap either. */
  lemma Sums(x: U128, d: nat, q0: nat, q1: nat, q2: nat, r0: nat, r2: nat)
    requires x.lo < WRAP && r0 < d < HALF && r2 < d
    requires x.lo + WRAP * Mod64(x.hi, d) == d * (q0 + q1 * HALF + q2) + (r0 + r2)
    ensures
      var accum, remainder := Add64(Add64(q0, q1 * HALF), q2), Add64(r0, r2);
      if remainder >= d then IsDivision(x, d, Add64(accum, 1), remainder - d) else IsDivision(x, d, accum, remainder)
  {
    hide Mod64, IsDivision, Add64;
    Corrected(x, d, q0 + q1 * HALF + q2, r0 + r2);
    SumsExact(q0, q1 * HALF, q2, r0, r2, d);
  }

  lemma SumsExact(q0: nat, q1: nat, q2: nat, r0: nat, r2: nat, d: nat)
    requires q0 + q1 + q2 < WRAP && r0 < d < HALF && r2 < d
    ensures Add64(Add64(q0, q1), q2) == q0 + q1 + q2 && Add64(r0, r2) == r0 + r2
    ensures q0 + q1 + q2 + 1 < WRAP ==> Add64(q0 + q1 + q2, 1) == q0 + q1 + q2 + 1
  {
  }

  /** Multiplying and then dividing gives the exact scaled value whenever it fits 64 bits. */
  method MultiplyThenDivide(a: nat, b: nat, divisor: nat) returns (quotient: nat)
    requires a < WRAP && b < WRAP && 0 < divisor < HALF
    ensures a * b / divisor < WRAP ==> quotient == a * b / divisor
  {
    var product := Multiply64Into128(a, b);
    var remainder;
    quotient, remainder := Divide128On32(product, divisor);
  }
}
