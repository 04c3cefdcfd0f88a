/** Facts about numbers that several modules share. */
module Arithmetic {

  /** Number of values of a 64-bit word. */
  const WRAP: nat := 0x1_0000_0000_0000_0000

  function Min(a: nat, b: nat): nat {
    if a < b then a else b
  }

  /** Saturation: the 16-bit value nearest to `value`. */
  function ClampToS16(value: int): (r: int)
    ensures -32768 <= r <= 32767
    ensures forall x {:trigger Distance(x, value)} :: -32768 <= x <= 32767 ==> Distance(r, value) <= Distance(x, value)
  {
    if value < -32768 then -32768 else if value > 32767 then 32767 else value
  }

  function Distance(a: int, b: int): nat {
    if a < b then b - a else a - b
  }

  function Pow2(k: nat): (r: nat)
    ensures r >= 1
  {
    if k == 0 then 1 else 2 * Pow2(k - 1)
  }

  lemma {:induction false} Pow2Add(a: nat, b: nat)
    ensures Pow2(a + b) == Pow2(a) * Pow2(b)
    decreases a
  {
    if a > 0 {
      Pow2Add(a - 1, b);
      assert Pow2(a + b) == 2 * Pow2((a - 1) + b);
    }
  }

  lemma {:induction false} Pow2Monotonic(j: nat, k: nat)
    requires j < k
    ensures Pow2(j) < Pow2(k)
    decreases k
  {
    if j < k - 1 {
      Pow2Monotonic(j, k - 1);
    }
  }

  lemma Pow2Is65536()
    ensures Pow2(16) == 0x10000
  {
    assert Pow2(4) == 16;
    Pow2Add(4, 4);
    Pow2Add(8, 8);
  }

  lemma WrapIsPow2()
    ensures Pow2(64) == WRAP
  {
    hide Pow2;
    Pow2Is65536();
    Pow2Add(16, 16);
    Pow2Add(32, 32);
  }

  lemma Multiples(m: int, d: int)
    requires m >= 0
    ensures d >= 1 ==> m * d >= m
    ensures d <= -1 ==> m * d <= -m
    ensures d == 0 ==> m * d == 0
  {
  }

  /** Quotient and remainder are determined by the division equation. */
  lemma ModUnique(x: int, m: nat, q: int, r: nat)
    requires m > 0 && x == m * q + r && r < m
    ensures x % m == r && x / m == q
  {
    var q', r' := x / m, x % m;
    assert x == m * q' + r';
    assert m * (q - q') == m * q - m * q';
    Multiples(m, q - q');
  }
}
