/** The bitwise operations src/common/multi_level_queue.h uses on its 64-bit map, on numbers below
    2^64, and what each does to single bits. */
module Bits {
  import opened Arithmetic

  const WIDTH: nat := 64

  predicate Bit(w: nat, p: nat) {
    if p == 0 then w % 2 == 1 else Bit(w / 2, p - 1)
  }

  function Or(a: nat, b: nat): nat {
    if a == 0 && b == 0 then 0 else 2 * Or(a / 2, b / 2) + (if a % 2 == 1 || b % 2 == 1 then 1 else 0)
  }

  function And(a: nat, b: nat): nat {
    if a == 0 || b == 0 then 0 else 2 * And(a / 2, b / 2) + (if a % 2 == 1 && b % 2 == 1 then 1 else 0)
  }

  /** `~a` on `n` bits. */
  function Not(a: nat, n: nat): nat
    requires a < Pow2(n)
  {
    Pow2(n) - 1 - a
  }

  /** `1ULL << p`, which is defined for shifts below the width only. */
  function Shl1(p: nat): nat
    requires p < WIDTH
  {
    Pow2(p)
  }

  /** `CountTrailingZeroes64` of a non-zero number. */
  function CountTrailingZeroes(w: nat): (r: nat)
    requires w > 0
    ensures Bit(w, r) && forall q: nat :: 0 <= q < r ==> !Bit(w, q)
  {
    if w % 2 == 1 then 0 else
      var r := CountTrailingZeroes(w / 2);
      assert forall q: nat {:trigger Bit(w, q)} :: 0 < q < r + 1 ==> !Bit(w, q);
      r + 1
  }

  /** `63 - CountLeadingZeroes64` of a non-zero number: its highest set bit. */
  function HighestBit(w: nat): (r: nat)
    requires w > 0
    ensures Bit(w, r) && forall q: nat :: q > r ==> !Bit(w, q)
  {
    if w == 1 then
      ZeroBits();
      0
    else
      var r := HighestBit(w / 2);
      assert forall q: nat {:trigger Bit(w, q)} :: q > r + 1 ==> !Bit(w, q);
      r + 1
  }

  lemma {:induction false} ZeroBit(p: nat)
    ensures !Bit(0, p)
  {
    if p > 0 {
      ZeroBit(p - 1);
    }
  }

  lemma ZeroBits()
    ensures forall p: nat :: !Bit(0, p)
    ensures forall p: nat :: p > 0 ==> !Bit(1, p)
  {
    forall p: nat ensures !Bit(0, p) {
      ZeroBit(p);
    }
  }

  lemma {:induction false} BitOr(a: nat, b: nat, p: nat)
    ensures Bit(Or(a, b), p) == (Bit(a, p) || Bit(b, p))
  {
    if a == 0 && b == 0 {
      ZeroBit(p);
    } else if p > 0 {
      BitOr(a / 2, b / 2, p - 1);
    }
  }

  lemma {:induction false} BitAnd(a: nat, b: nat, p: nat)
    ensures Bit(And(a, b), p) == (Bit(a, p) && Bit(b, p))
  {
    if a == 0 || b == 0 {
      ZeroBit(p);
    } else if p > 0 {
      BitAnd(a / 2, b / 2, p - 1);
    }
  }

  lemma {:induction false} BitNot(a: nat, n: nat, p: nat)
    requires a < Pow2(n) && p < n
    ensures Bit(Not(a, n), p) == !Bit(a, p)
  {
    var m := Pow2(n - 1);
    assert (2 * m - 1 - a) / 2 == m - 1 - a / 2;
    if p > 0 {
      BitNot(a / 2, n - 1, p - 1);
    }
  }

  lemma {:induction false} BitPow2(k: nat, p: nat)
    ensures Bit(Pow2(k), p) == (p == k)
  {
    if k == 0 {
      if p > 0 {
        ZeroBit(p - 1);
      }
    } else if p > 0 {
      BitPow2(k - 1, p - 1);
    }
  }

  lemma {:induction false} BitMask(k: nat, p: nat)
    ensures Bit(Pow2(k) - 1, p) == (p < k)
  {
    if k == 0 {
      ZeroBit(p);
    } else {
      HalfMask(Pow2(k - 1));
      if p > 0 {
        BitMask(k - 1, p - 1);
      }
    }
  }

  lemma HalfMask(m: nat)
    requires m >= 1
    ensures (2 * m - 1) / 2 == m - 1 && (2 * m - 1) % 2 == 1
  {
  }

  lemma {:induction false} OrBound(a: nat, b: nat, n: nat)
    requires a < Pow2(n) && b < Pow2(n)
    ensures Or(a, b) < Pow2(n)
    decreases n
  {
    if n > 0 && (a != 0 || b != 0) {
      OrBound(a / 2, b / 2, n - 1);
    }
  }

  lemma {:induction false} AndBound(a: nat, b: nat)
    ensures And(a, b) <= a
  {
    if a != 0 && b != 0 {
      AndBound(a / 2, b / 2);
    }
  }

  lemma {:induction false} BitBound(w: nat, n: nat, p: nat)
    requires w < Pow2(n) && Bit(w, p)
    ensures p < n
    decreases n
  {
    if n == 0 {
      ZeroBit(p);
    } else if p > 0 {
      BitBound(w / 2, n - 1, p - 1);
    }
  }

  // ---- the expressions of the queue --------------------------------------------------------

  /** `w |= 1ULL << p` */
  lemma SetBit(w: nat, p: nat)
    requires w < Pow2(WIDTH) && p < WIDTH
    ensures Or(w, Shl1(p)) < Pow2(WIDTH)
    ensures forall q: nat :: Bit(Or(w, Shl1(p)), q) <==> Bit(w, q) || q == p
  {
    hide Pow2;
    Pow2Monotonic(p, WIDTH);
    OrBound(w, Pow2(p), WIDTH);
    forall q: nat ensures Bit(Or(w, Pow2(p)), q) <==> Bit(w, q) || q == p {
      BitOr(w, Pow2(p), q);
      BitPow2(p, q);
    }
  }

  /** `w &= ~(1ULL << p)` */
  lemma ClearBit(w: nat, p: nat)
    requires w < Pow2(WIDTH) && p < WIDTH
    ensures Shl1(p) < Pow2(WIDTH) && And(w, Not(Shl1(p), WIDTH)) < Pow2(WIDTH)
    ensures forall q: nat :: Bit(And(w, Not(Shl1(p), WIDTH)), q) <==> Bit(w, q) && q != p
  {
    hide Pow2;
    Pow2Monotonic(p, WIDTH);
    var m := Not(Pow2(p), WIDTH);
    AndBound(w, m);
    forall q: nat ensures Bit(And(w, m), q) <==> Bit(w, q) && q != p {
      BitAnd(w, m, q);
      if Bit(w, q) {
        BitBound(w, WIDTH, q);
        BitNot(Pow2(p), WIDTH, q);
        BitPow2(p, q);
      }
    }
  }

  /** `w & ~((1ULL << p) - 1)` */
  lemma KeepFrom(w: nat, p: nat)
    requires w < Pow2(WIDTH) && p < WIDTH
    ensures Shl1(p) <= Pow2(WIDTH) && And(w, Not(Shl1(p) - 1, WIDTH)) < Pow2(WIDTH)
    ensures forall q: nat :: Bit(And(w, Not(Shl1(p) - 1, WIDTH)), q) <==> Bit(w, q) && p <= q
  {
    hide Pow2;
    Pow2Monotonic(p, WIDTH);
    var m := Not(Pow2(p) - 1, WIDTH);
    AndBound(w, m);
    forall q: nat ensures Bit(And(w, m), q) <==> Bit(w, q) && p <= q {
      BitAnd(w, m, q);
      if Bit(w, q) {
        BitBound(w, WIDTH, q);
        BitNot(Pow2(p) - 1, WIDTH, q);
        BitMask(p, q);
      }
    }
  }

  /** `w & ((1ULL << p) - 1)` */
  lemma KeepBelow(w: nat, p: nat)
    requires w < Pow2(WIDTH) && p < WIDTH
    ensures And(w, Shl1(p) - 1) < Pow2(WIDTH)
    ensures forall q: nat :: Bit(And(w, Shl1(p) - 1), q) <==> Bit(w, q) && q < p
  {
    hide Pow2;
    AndBound(w, Pow2(p) - 1);
    forall q: nat ensures Bit(And(w, Pow2(p) - 1), q) <==> Bit(w, q) && q < p {
      BitAnd(w, Pow2(p) - 1, q);
      BitMask(p, q);
    }
  }
}
