/** Powers of two and the rounding helper of core/src/impl/Kokkos_BitOps.hpp. */
module Powers {

  function Pow2(n: nat): (r: nat)
    ensures r >= 1
  {
    if n == 0 then 1 else 2 * Pow2(n - 1)
  }

  ghost predicate IsPowerOfTwo(n: int) { exists k: nat :: n == Pow2(k) }

  lemma Pow2Next(n: nat)
    requires n > 0
    ensures Pow2(n) == 2 * Pow2(n - 1)
  {}

  lemma {:induction false} Pow2Add(a: nat, b: nat)
    ensures Pow2(a + b) == Pow2(a) * Pow2(b)
  {
    if a == 0 {
    } else {
      Pow2Add(a - 1, b);
      assert Pow2(a) * Pow2(b) == 2 * (Pow2(a - 1) * Pow2(b));
    }
  }

  lemma {:induction false} Pow2Monotone(a: nat, b: nat)
    requires a <= b
    ensures Pow2(a) <= Pow2(b)
    ensures a < b ==> 2 * Pow2(a) <= Pow2(b)
    decreases b
  {
    if a == b {
    } else {
      Pow2Monotone(a, b - 1);
    }
  }

  lemma Pow2Values()
    ensures Pow2(0) == 1
    ensures Pow2(4) == 16
    ensures Pow2(5) == 32
    ensures Pow2(8) == 256
    ensures Pow2(16) == 0x1_0000
    ensures Pow2(25) == 0x200_0000
    ensures Pow2(26) == 0x400_0000
    ensures Pow2(31) == 0x8000_0000
    ensures Pow2(32) == 0x1_0000_0000
  {
    assert Pow2(8) == 256;
    assert Pow2(16) == 0x1_0000 by { Pow2Add(8, 8); }
    assert Pow2(24) == 0x100_0000 by { Pow2Add(16, 8); }
    assert Pow2(32) == 0x1_0000_0000 by { Pow2Add(24, 8); }
    assert Pow2(31) == 0x8000_0000;
    assert Pow2(25) == 2 * Pow2(24);
    assert Pow2(26) == 2 * Pow2(25);
  }

  /** The least exponent whose power of two holds n. */
  function CeilLg2(n: nat): (r: nat)
    requires n >= 1
    ensures n <= Pow2(r)
    ensures r > 0 ==> Pow2(r - 1) < n
  {
    if n == 1 then 0 else 1 + CeilLg2((n + 1) / 2)
  }

  lemma {:induction false} CeilLg2Least(n: nat, k: nat)
    requires n >= 1
    ensures n <= Pow2(k) <==> CeilLg2(n) <= k
  {
    var r := CeilLg2(n);
    if r <= k {
      Pow2Monotone(r, k);
    } else {
      Pow2Monotone(k, r - 1);
    }
  }

  /** A number below twice a power of two has that power's bit set exactly when it reaches it. */
  lemma TopBit(i: nat, d: nat)
    requires 0 < d && i < 2 * d
    ensures (i / d) % 2 == 1 <==> d <= i
  {
    if d <= i {
      assert i / d == 1 by { assert (i - d) / d == 0; }
    } else {
      assert i / d == 0;
    }
  }

  /** int_log2_fallback walks down from bit 31 to the highest set bit. */
  method IntLog2(i: nat) returns (offset: nat)
    requires i < 0x1_0000_0000
    ensures i == 0 ==> offset == 0
    ensures i > 0 ==> Pow2(offset) <= i < 2 * Pow2(offset)
  {
    offset := 0;
    if i != 0 {
      offset := 31;
      assert Pow2(31) == 0x8000_0000 by { Pow2Values(); }
      TopBit(i, Pow2(offset));
      while (i / Pow2(offset)) % 2 == 0
        invariant i < 2 * Pow2(offset)
        invariant (i / Pow2(offset)) % 2 == 1 <==> Pow2(offset) <= i
        decreases offset
      {
        offset := offset - 1;
        TopBit(i, Pow2(offset));
      }
    }
  }

  /** integral_power_of_two_that_contains. */
  method IntegralPowerOfTwoThatContains(n: nat) returns (r: nat)
    requires n < 0x1_0000_0000
    ensures r == if n == 0 then 0 else CeilLg2(n)
  {
    var i := IntLog2(n);
    r := if Pow2(i) < n then i + 1 else i;
    if n == 0 { return; }
    CeilLg2Least(n, r);
    if r > 0 { CeilLg2Least(n, r - 1); }
    if r == i && i > 0 { assert Pow2(i) == 2 * Pow2(i - 1); }
  }
}
