/** Bitwise and on natural numbers, as far as the hash table needs it. */
module Bits {
  import opened Arith
  import opened GcSpec

  function BitAnd(x: nat, y: nat): nat {
    if x == 0 then 0 else 2 * BitAnd(x / 2, y / 2) + (x % 2) * (y % 2)
  }

  /** Masking with 2^n - 1 is the remainder modulo 2^n. */
  lemma {:induction false} MaskIsModulo(x: nat, n: nat)
    ensures BitAnd(x, Pow2(n) - 1) == x % Pow2(n)
  {
    var m := Pow2(n);
    if n == 0 {
      AndZero(x);
    } else if x > 0 {
      MaskIsModulo(x / 2, n - 1);
      DoubleMask(x, Pow2(n - 1), m);
    } else {
      UniqueQuotient(0, m, 0, 0);
    }
  }

  lemma DoubleMask(x: nat, half: nat, m: nat)
    requires half > 0 && m == 2 * half
    requires BitAnd(x / 2, half - 1) == x / 2 % half
    ensures BitAnd(x, m - 1) == x % m
  {
    AndStep(x, half, m - 1);
    ModuloDouble(x, half, m);
  }

  lemma AndStep(x: nat, half: nat, mask: nat)
    requires half > 0 && mask == 2 * half - 1
    ensures BitAnd(x, mask) == 2 * BitAnd(x / 2, half - 1) + x % 2
  {
    assert mask / 2 == half - 1;
  }

  lemma {:induction false} AndZero(x: nat)
    ensures BitAnd(x, 0) == 0
  {
    if x > 0 {
      AndZero(x / 2);
    }
  }

  lemma ModuloDouble(x: nat, half: nat, double: nat)
    requires half > 0 && double == 2 * half
    ensures x % double == 2 * (x / 2 % half) + x % 2
  {
    var q, r := x / 2 / half, x / 2 % half;
    assert x / 2 == q * half + r;
    assert x == 2 * (q * half + r) + x % 2;
    var rest := 2 * r + x % 2;
    assert x == q * double + rest && 0 <= rest < double;
    UniqueQuotient(x, double, q, rest);
  }

  /** A table capacity is a power of two, so that search may reduce with % what the
    * resize reduced with & (capacity - 1). */
  lemma CapacityMask(x: nat, capacity: nat)
    requires IsCapacity(capacity)
    ensures capacity > 0 && BitAnd(x, capacity - 1) == x % capacity
  {
    var k: nat :| capacity == DEFAULT_CAPACITY * Pow2(k);
    PowerSum(k);
    MaskIsModulo(x, k + 12);
  }

  lemma {:induction false} PowerSum(k: nat)
    ensures Pow2(k + 12) == DEFAULT_CAPACITY * Pow2(k)
  {
    if k == 0 {
      assert Pow2(12) == 2 * Pow2(11) == 4 * Pow2(10) == 8 * Pow2(9) == 16 * Pow2(8) == 32 * Pow2(7);
      assert Pow2(7) == 2 * Pow2(6) == 4 * Pow2(5) == 8 * Pow2(4) == 16 * Pow2(3) == 32 * Pow2(2) == 64 * Pow2(1);
    } else {
      PowerSum(k - 1);
    }
  }
}
