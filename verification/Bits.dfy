/** Unsigned words of any width as numbers below a power of two, and their bits. */
module Bits {
  import opened Powers
  import opened Arith

  predicate Bit(x: nat, i: nat) {
    if i == 0 then x % 2 == 1 else Bit(x / 2, i - 1)
  }

  function Join(high: nat, low: bool): (r: nat)
    ensures r / 2 == high && (r % 2 == 1 <==> low)
  {
    2 * high + (if low then 1 else 0)
  }

  function And(x: nat, y: nat): (r: nat) {
    if x == 0 || y == 0 then 0 else Join(And(x / 2, y / 2), x % 2 == 1 && y % 2 == 1)
  }

  function Or(x: nat, y: nat): (r: nat) {
    if x == 0 && y == 0 then 0 else Join(Or(x / 2, y / 2), x % 2 == 1 || y % 2 == 1)
  }

  /** Bitwise complement in a word of w bits. */
  function Not(x: nat, w: nat): nat
    requires x < Pow2(w)
  {
    Pow2(w) - 1 - x
  }

  function Shl(x: nat, s: nat, w: nat): (r: nat)
    ensures r < Pow2(w)
  {
    DivMod(x * Pow2(s), Pow2(w));
    (x * Pow2(s)) % Pow2(w)
  }

  function Shr(x: nat, s: nat): (r: nat)
    ensures 0 <= r
  {
    DivNonNeg(x, Pow2(s));
    x / Pow2(s)
  }

  // ---------------------------------------------------------------- bits of each operation

  lemma {:induction false} BitOfZero(i: nat)
    ensures !Bit(0, i)
  {
    if i == 0 {
    } else {
      BitOfZero(i - 1);
    }
  }

  lemma {:induction false} BitAnd(x: nat, y: nat, i: nat)
    ensures Bit(And(x, y), i) <==> Bit(x, i) && Bit(y, i)
  {
    BitOfZero(i);
    if x == 0 || y == 0 || i == 0 {
    } else {
      BitAnd(x / 2, y / 2, i - 1);
    }
  }

  lemma {:induction false} BitOr(x: nat, y: nat, i: nat)
    ensures Bit(Or(x, y), i) <==> Bit(x, i) || Bit(y, i)
  {
    BitOfZero(i);
    if (x == 0 && y == 0) || i == 0 {
    } else {
      BitOr(x / 2, y / 2, i - 1);
    }
  }

  lemma {:induction false} BitNot(x: nat, w: nat, i: nat)
    requires x < Pow2(w) && i < w
    ensures Bit(Not(x, w), i) <==> !Bit(x, i)
  {
    if i == 0 {
    } else {
      assert Not(x, w) / 2 == Not(x / 2, w - 1);
      BitNot(x / 2, w - 1, i - 1);
    }
  }

  lemma {:induction false} BitHigh(x: nat, w: nat, i: nat)
    requires x < Pow2(w) && w <= i
    ensures !Bit(x, i)
  {
    if w == 0 { BitOfZero(i); } else { BitHigh(x / 2, w - 1, i - 1); }
  }

  lemma {:induction false} BitOfPower(k: nat, i: nat)
    ensures Bit(Pow2(k), i) <==> i == k
  {
    if k == 0 {
      if i > 0 { BitOfZero(i - 1); }
    } else if i > 0 {
      BitOfPower(k - 1, i - 1);
    }
  }

  lemma {:induction false} BitOfOnes(rank: nat, i: nat)
    ensures Bit(Pow2(rank) - 1, i) <==> i < rank
  {
    if rank == 0 { BitOfZero(i); }
    else {
      assert (Pow2(rank) - 1) / 2 == Pow2(rank - 1) - 1;
      if i > 0 { BitOfOnes(rank - 1, i - 1); }
    }
  }

  /** A number is its bits. */
  lemma {:induction false} SameBits(x: nat, y: nat, w: nat)
    requires x < Pow2(w) && y < Pow2(w) && forall i :: 0 <= i < w ==> (Bit(x, i) <==> Bit(y, i))
    ensures x == y
  {
    if w == 0 {
    } else {
      forall i | 0 <= i < w - 1 ensures Bit(x / 2, i) <==> Bit(y / 2, i) {
        assert Bit(x, i + 1) <==> Bit(y, i + 1);
      }
      SameBits(x / 2, y / 2, w - 1);
      assert Bit(x, 0) <==> Bit(y, 0);
    }
  }

  /** The word with high bits a above k low bits b. */
  lemma {:induction false} Concat(a: nat, b: nat, k: nat)
    requires b < Pow2(k)
    ensures 0 <= a * Pow2(k)
    ensures k > 0 ==> (a * Pow2(k) + b) / 2 == a * Pow2(k - 1) + b / 2 && (a * Pow2(k) + b) % 2 == b % 2
  {
    MulNonNeg(a, Pow2(k));
    if k > 0 {
      assert a * Pow2(k) == 2 * (a * Pow2(k - 1)) by { Assoc(a, 2, Pow2(k - 1)); Assoc(2, a, Pow2(k - 1)); }
    }
  }

  lemma {:induction false} BitConcat(a: nat, b: nat, k: nat, i: nat)
    requires b < Pow2(k)
    ensures 0 <= a * Pow2(k)
    ensures Bit(a * Pow2(k) + b, i) <==> if i < k then Bit(b, i) else Bit(a, i - k)
  {
    Concat(a, b, k);
    if k == 0 || i == 0 {
    } else {
      BitConcat(a, b / 2, k - 1, i - 1);
    }
  }

  lemma {:induction false} OrConcat(a: nat, b: nat, k: nat)
    requires b < Pow2(k)
    ensures 0 <= a * Pow2(k) && Or(a * Pow2(k), b) == a * Pow2(k) + b
  {
    Concat(a, b, k);
    Concat(a, 0, k);
    if k > 0 {
      OrConcat(a, b / 2, k - 1);
    } else {
      OrZero(a);
    }
  }

  lemma {:induction false} OrZero(a: nat)
    ensures Or(a, 0) == a && Or(0, a) == a
  {
    if a == 0 {
    } else {
      OrZero(a / 2);
    }
  }

  /** x split at bit k. */
  lemma Parts(x: nat, k: nat)
    ensures 0 <= x / Pow2(k) && 0 <= x % Pow2(k) < Pow2(k) && 0 <= (x / Pow2(k)) * Pow2(k)
    ensures x == (x / Pow2(k)) * Pow2(k) + x % Pow2(k)
  {
    DivMod(x, Pow2(k));
    DivNonNeg(x, Pow2(k));
    MulNonNeg(x / Pow2(k), Pow2(k));
  }

  lemma BitShr(x: nat, s: nat, i: nat)
    ensures Bit(Shr(x, s), i) <==> Bit(x, i + s)
  {
    hide Bit, Pow2;
    Parts(x, s);
    BitConcat(x / Pow2(s), x % Pow2(s), s, i + s);
  }

  lemma BitLow(x: nat, w: nat, i: nat)
    requires i < w
    ensures 0 <= x % Pow2(w) && (Bit(x % Pow2(w), i) <==> Bit(x, i))
  {
    hide Bit, Pow2;
    Parts(x, w);
    BitConcat(x / Pow2(w), x % Pow2(w), w, i);
  }

  lemma BitShl(x: nat, s: nat, w: nat, i: nat)
    requires i < w
    ensures Bit(Shl(x, s, w), i) <==> s <= i && Bit(x, i - s)
  {
    hide Bit, Pow2;
    assert Pow2(s) >= 1;
    BitConcat(x, 0, s, i);
    BitLow(x * Pow2(s), w, i);
    if i < s { assert !Bit(0, i) by { BitOfZero(i); } }
  }

  lemma {:induction false} AndBelow(x: nat, y: nat)
    ensures And(x, y) <= x && And(x, y) <= y
  {
    if x == 0 || y == 0 {
    } else {
      AndBelow(x / 2, y / 2);
    }
  }

  lemma {:induction false} OrBelow(x: nat, y: nat, w: nat)
    requires x < Pow2(w) && y < Pow2(w)
    ensures Or(x, y) < Pow2(w)
  {
    if w == 0 {
    } else {
      OrBelow(x / 2, y / 2, w - 1);
    }
  }

  lemma ShrBelow(x: nat, s: nat, w: nat)
    requires x < Pow2(w)
    ensures Shr(x, s) < Pow2(w) && (s <= w ==> Shr(x, s) < Pow2(w - s))
  {
    hide Pow2;
    if s <= w {
      Pow2Add(w - s, s);
      DivBelow(x, Pow2(s), Pow2(w - s));
      Pow2Monotone(w - s, w);
    } else {
      Pow2Monotone(w, s);
      DivBelow(x, Pow2(s), 1);
    }
  }

  // ---------------------------------------------------------------- counting bits

  /** The number of one bits. */
  function Ones(x: nat): nat {
    if x == 0 then 0 else x % 2 + Ones(x / 2)
  }

  /** How many of the bits below n are one. */
  function BitsBelow(x: nat, n: nat): nat {
    if n == 0 then 0 else BitsBelow(x, n - 1) + (if Bit(x, n - 1) then 1 else 0)
  }

  lemma {:induction false} BitsBelowHalf(x: nat, n: nat)
    ensures BitsBelow(x, n + 1) == x % 2 + BitsBelow(x / 2, n)
  {
    if n == 0 {
    } else {
      BitsBelowHalf(x, n - 1);
    }
  }

  lemma {:induction false} OnesAreBits(x: nat, w: nat)
    requires x < Pow2(w)
    ensures Ones(x) == BitsBelow(x, w)
  {
    if w == 0 {
    } else {
      OnesAreBits(x / 2, w - 1);
      BitsBelowHalf(x, w - 1);
    }
  }

  lemma {:induction false} OnesConcat(a: nat, b: nat, k: nat)
    requires b < Pow2(k)
    ensures 0 <= a * Pow2(k) && Ones(a * Pow2(k) + b) == Ones(a) + Ones(b)
  {
    Concat(a, b, k);
    if k == 0 {
    } else {
      OnesConcat(a, b / 2, k - 1);
    }
  }

  /** The number of digits of x in base two: the least k with x < 2^k. */
  function Length(x: nat): (k: nat)
    ensures x < Pow2(k)
    ensures x > 0 ==> k > 0 && Pow2(k - 1) <= x
  {
    if x == 0 then 0 else 1 + Length(x / 2)
  }

  lemma {:induction false} LengthUnique(x: nat, k: nat)
    requires x < Pow2(k) && (k > 0 ==> Pow2(k - 1) <= x)
    ensures Length(x) == k
  {
    if Length(x) < k {
      Pow2Monotone(Length(x), k - 1);
    } else if k < Length(x) {
      Pow2Monotone(k, Length(x) - 1);
    }
  }
}
