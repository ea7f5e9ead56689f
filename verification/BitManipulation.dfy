/** The bit functions of core/src/Kokkos_BitManipulation.hpp on unsigned words of w bits. */
module BitManipulation {
  import opened Arith
  import opened Powers
  import opened Bits

  // ---------------------------------------------------------------- counting zeros

  lemma LengthShift(x: nat, c: nat)
    requires Shr(x, c) != 0
    ensures Length(x) == Length(Shr(x, c)) + c
  {
    hide Pow2, Length;
    var y := Shr(x, c);
    var k := Length(y);
    Parts(x, c);
    MulMono(Pow2(k - 1), y, Pow2(c));
    Pow2Add(k - 1, c);
    MulMono(y + 1, Pow2(k), Pow2(c));
    Distrib(y, 1, Pow2(c));
    Pow2Add(k, c);
    assert k - 1 + c == k + c - 1;
    assert x < Pow2(k + c) && Pow2(k + c - 1) <= x;
    LengthUnique(x, k + c);
  }

  /** The binary search for the highest one bit; y is a 32-bit temporary, which never truncates. */
  method CountlZeroFallback(value: nat, m: nat) returns (r: int)
    requires 1 <= m <= 6 && value < Pow2(Pow2(m))
    ensures r == Pow2(m) - Length(value)
  {
    hide Pow2, Shr, Length;
    var w := Pow2(m);
    var x: nat, n: int, c: nat, y: nat := value, w, w / 2, 0;
    ghost var j: nat := m - 1;
    Pow2Next(m);
    while true
      invariant c == Pow2(j) && j < 6 && x < Pow2(2 * c)
      invariant w - n + Length(x) == Length(value)
      decreases j
    {
      HalfFits(x, c, j);
      y := Shr(x, c) % 0x1_0000_0000;
      if y != 0 {
        LengthShift(x, c);
        n := n - c;
        x := y;
      } else {
        ShrZero(x, c);
      }
      if j > 0 { Pow2Next(j); }
      c := c / 2;
      if c == 0 { break; }
      Pow2Values();
      j := j - 1;
    }
    LengthOfBit(x, j);
    r := n - x;
  }

  /** The upper half of a word of 2c bits, c at most 32, fits the 32-bit temporary. */
  lemma HalfFits(x: nat, c: nat, j: nat)
    requires c == Pow2(j) && j < 6 && x < Pow2(2 * c)
    ensures Shr(x, c) < Pow2(c) && Shr(x, c) % 0x1_0000_0000 == Shr(x, c)
  {
    hide Pow2, Shr;
    ShrBelow(x, c, 2 * c);
    Pow2Monotone(j, 5);
    Pow2Monotone(c, 32) by { Pow2Values(); }
    Pow2Values();
  }

  lemma LengthOfBit(x: nat, j: nat)
    requires Pow2(j) / 2 == 0 && x < Pow2(Pow2(j))
    ensures Length(x) == x
  {
    if j > 0 { Pow2Next(j); }
    assert Pow2(1) == 2;
  }

  lemma ShrZero(x: nat, c: nat)
    requires Shr(x, c) == 0
    ensures x < Pow2(c)
  {
    Parts(x, c);
  }

  /** countl_zero: how many of the w leading bits are zero. */
  method CountlZero(x: nat, m: nat) returns (r: nat)
    requires 1 <= m <= 6 && x < Pow2(Pow2(m))
    ensures r <= Pow2(m) && x < Pow2(Pow2(m) - r)
    ensures x > 0 ==> r < Pow2(m) && Pow2(Pow2(m) - r - 1) <= x
    ensures r == Pow2(m) - Length(x)
  {
    hide Pow2;
    LengthAtMost(x, Pow2(m));
    if x == 0 {
      LengthUnique(0, 0) by { Pow2Values(); }
      return Pow2(m);
    }
    r := CountlZeroFallback(x, m);
  }

  lemma LengthAtMost(x: nat, w: nat)
    requires x < Pow2(w)
    ensures Length(x) <= w
  {
    hide Pow2, Length;
    if x == 0 { LengthUnique(0, 0) by { Pow2Values(); } }
    else if w < Length(x) { Pow2Monotone(w, Length(x) - 1); }
  }

  lemma {:induction false} AndComplement(x: nat, w: nat)
    requires x < Pow2(w)
    ensures And(Not(x, w), x) == 0
  {
    if x == 0 || w == 0 {
    } else {
      assert Not(x, w) / 2 == Not(x / 2, w - 1);
      AndComplement(x / 2, w - 1);
      assert Not(x, w) % 2 != x % 2;
    }
  }

  /** The position of the lowest one bit. */
  function Lowest(x: nat): (t: nat)
    requires x > 0
    ensures Bit(x, t) && forall i :: 0 <= i < t ==> !Bit(x, i)
  {
    if x % 2 == 1 then 0
    else
      var t := Lowest(x / 2);
      assert forall i :: 0 < i <= t ==> (Bit(x, i) <==> Bit(x / 2, i - 1));
      t + 1
  }

  /** ~x & (x - 1) is the block of ones below the lowest one bit. */
  lemma {:induction false} BelowLowest(x: nat, w: nat)
    requires 0 < x < Pow2(w)
    ensures Lowest(x) < w && And(Not(x, w), x - 1) == Pow2(Lowest(x)) - 1
  {
    assert Not(x, w) / 2 == Not(x / 2, w - 1) && Not(x, w) % 2 != x % 2;
    if x % 2 == 1 {
      assert (x - 1) / 2 == x / 2;
      AndComplement(x / 2, w - 1);
    } else {
      BelowLowest(x / 2, w - 1);
      assert (x - 1) / 2 == x / 2 - 1;
    }
  }

  /** countr_zero_fallback on any word; x - 1 wraps around at zero. */
  method CountrZeroFallback(x: nat, m: nat) returns (r: int)
    requires 1 <= m <= 6 && x < Pow2(Pow2(m))
    ensures r == if x == 0 then Pow2(m) else Lowest(x)
  {
    hide Pow2, Length, And, Lowest, Not;
    var w := Pow2(m);
    var less := if x == 0 then Pow2(w) - 1 else x - 1;
    var low := And(Not(x, w), less);
    if x > 0 {
      BelowLowest(x, w);
      OnesBlock(Lowest(x), w);
    } else {
      AllOnes(w);
      OnesBlock(w, w);
    }
    var leading := CountlZeroFallback(low, m);
    r := w - leading;
  }

  lemma OnesBlock(t: nat, w: nat)
    requires t <= w
    ensures Length(Pow2(t) - 1) == t && Pow2(t) - 1 < Pow2(w)
  {
    hide Pow2, Length;
    Pow2Monotone(t, w);
    if t > 0 { Pow2Next(t); }
    LengthUnique(Pow2(t) - 1, t);
  }

  lemma {:induction false} AllOnes(w: nat)
    ensures And(Not(0, w), Pow2(w) - 1) == Pow2(w) - 1
  {
    if w == 0 {
    } else {
      AllOnes(w - 1);
      assert (Pow2(w) - 1) / 2 == Pow2(w - 1) - 1;
    }
  }

  // ---------------------------------------------------------------- powers of two

  /** x & (x - 1) clears the lowest one bit. */
  lemma {:induction false} ClearLowest(x: nat)
    requires x > 0
    ensures Ones(And(x, x - 1)) == Ones(x) - 1 && And(x, x - 1) < x
  {
    if x % 2 == 1 {
      assert (x - 1) / 2 == x / 2;
      AndSelf(x / 2);
    } else {
      ClearLowest(x / 2);
      assert (x - 1) / 2 == x / 2 - 1;
    }
  }

  lemma {:induction false} AndSelf(x: nat)
    ensures And(x, x) == x
  {
    if x == 0 {
    } else {
      AndSelf(x / 2);
    }
  }

  method PopcountFallback(value: nat) returns (c: nat)
    ensures c == Ones(value)
  {
    var x := value;
    c := 0;
    while x != 0
      invariant c + Ones(x) == Ones(value)
    {
      ClearLowest(x);
      x := And(x, x - 1);
      c := c + 1;
    }
  }

  lemma {:induction false} NoOnes(x: nat)
    ensures Ones(x) == 0 <==> x == 0
    ensures Ones(x) == 1 <==> x > 0 && x == Pow2(Length(x) - 1)
  {
    if x == 0 {
    } else {
      NoOnes(x / 2);
    }
  }

  predicate HasSingleBit(x: nat) { x != 0 && And(x, x - 1) == 0 }

  lemma HasSingleBitIffPower(x: nat)
    ensures HasSingleBit(x) <==> IsPowerOfTwo(x)
  {
    hide Pow2, Length, And;
    NoOnes(x);
    if x > 0 {
      ClearLowest(x);
      NoOnes(And(x, x - 1));
      forall k: nat ensures x == Pow2(k) ==> k == Length(x) - 1 {
        if x == Pow2(k) {
          Pow2Next(k + 1);
          LengthUnique(x, k + 1);
        }
      }
      if HasSingleBit(x) { assert x == Pow2(Length(x) - 1); }
      if IsPowerOfTwo(x) {
        var k: nat :| x == Pow2(k);
        assert x == Pow2(Length(x) - 1);
      }
    }
  }

  method BitWidth(x: nat, m: nat) returns (r: nat)
    requires 1 <= m <= 6 && x < Pow2(Pow2(m))
    ensures x < Pow2(r) && (x > 0 ==> r > 0 && Pow2(r - 1) <= x)
  {
    if x == 0 { return 0; }
    var leading := CountlZero(x, m);
    r := Pow2(m) - leading;
  }

  method BitFloor(x: nat, m: nat) returns (r: nat)
    requires 1 <= m <= 6 && x < Pow2(Pow2(m))
    ensures x == 0 ==> r == 0
    ensures x > 0 ==> r <= x < 2 * r && r == Pow2(Length(x) - 1)
  {
    hide Length;
    if x == 0 { return 0; }
    var leading := CountlZero(x, m);
    var s := Pow2(m) - 1 - leading;
    ShiftOne(s, Pow2(m));
    assert Pow2(s + 1) == 2 * Pow2(s);
    r := Shl(1, s, Pow2(m));
  }

  lemma ShiftOne(s: nat, w: nat)
    requires s < w
    ensures Shl(1, s, w) == Pow2(s)
  {
    Pow2Monotone(s, w);
    DivUnique(Pow2(s), Pow2(w), 0, Pow2(s));
  }

  datatype Ceil = Shifted(value: nat) | ShiftTooFar

  /**
   bit_ceil: the least power of two that is at least x, exactly as long as that power is below 2^w.
   Past that the shift count reaches the width, which C++ leaves undefined for the wider types.
   */
  method BitCeil(x: nat, m: nat) returns (r: Ceil)
    requires 1 <= m <= 6 && x < Pow2(Pow2(m))
    ensures r.Shifted? <==> x <= Pow2(Pow2(m) - 1)
    ensures r.Shifted? && x >= 1 ==>
      r.value == Pow2(CeilLg2(x)) && x <= r.value && forall k: nat :: x <= Pow2(k) ==> r.value <= Pow2(k)
    ensures x == 0 ==> r == Shifted(1)
  {
    hide Pow2, Length, CeilLg2;
    Pow2Values();
    var w := Pow2(m);
    if x <= 1 {
      if x == 1 { CeilIs(1, 0); LeastPower(1); }
      return Shifted(1);
    }
    var leading := CountlZero(x - 1, m);
    var s := w - leading;
    CeilIs(x, s);
    CeilLg2Least(x, w - 1);
    LeastPower(x);
    if s >= w { return ShiftTooFar; }
    ShiftOne(s, w);
    r := Shifted(Shl(1, s, w));
  }

  lemma CeilIs(x: nat, s: nat)
    requires x >= 1 && x <= Pow2(s) && (s > 0 ==> Pow2(s - 1) < x)
    ensures CeilLg2(x) == s
  {
    CeilLg2Least(x, s);
    if s > 0 { CeilLg2Least(x, s - 1); }
  }

  lemma LeastPower(x: nat)
    requires x >= 1
    ensures forall k: nat :: x <= Pow2(k) ==> Pow2(CeilLg2(x)) <= Pow2(k)
  {
    forall k: nat | x <= Pow2(k) ensures Pow2(CeilLg2(x)) <= Pow2(k) {
      CeilLg2Least(x, k);
      Pow2Monotone(CeilLg2(x), k);
    }
  }

  // ---------------------------------------------------------------- rotations

  /** C++ remainder: the quotient is truncated towards zero, so it has the sign of s. */
  function TruncatedRemainder(s: int, d: nat): (r: int)
    requires d > 0
    ensures r < d && -r < d && (r != 0 ==> (r > 0 <==> s > 0))
  {
    DivMod(s, d);
    DivMod(-s, d);
    DivUnique(0, d, 0, 0);
    if s >= 0 then s % d else -((-s) % d)
  }

  function Rotl(x: nat, s: int, w: nat): nat
    requires w > 0
  {
    var rem := TruncatedRemainder(s, w);
    if rem == 0 then x
    else if rem > 0 then Or(Shl(x, rem, w), Shr(x, (w - rem) % w))
    else Or(Shr(x, -rem), Shl(x, (w + rem) % w, w))
  }

  function Rotr(x: nat, s: int, w: nat): nat
    requires w > 0
  {
    var rem := TruncatedRemainder(s, w);
    if rem == 0 then x
    else if rem > 0 then Or(Shr(x, rem), Shl(x, (w - rem) % w, w))
    else Or(Shl(x, -rem, w), Shr(x, (w + rem) % w))
  }

  /** The bit that a left rotation by s brings to position i. */
  function Source(i: int, s: int, w: nat): (j: nat)
    requires w > 0
    ensures j < w
  {
    (i - s) % w
  }

  lemma RemainderSource(s: int, w: nat, i: nat)
    requires w > 0 && i < w
    ensures var rem := TruncatedRemainder(s, w);
      Source(i, s, w) == if i < rem then i - rem + w else if i - rem >= w then i - rem - w else i - rem
  {
    var rem := TruncatedRemainder(s, w);
    var q := (s - rem) / w;
    assert s - rem == q * w by {
      if s >= 0 { DivMod(s, w); DivUnique(s - rem, w, s / w, 0); }
      else { DivMod(-s, w); Distrib(0, (-s) / w, w); DivUnique(s - rem, w, -((-s) / w), 0); }
    }
    Distrib(0, q, w);
    Distrib(-q, 1, w);
    if i < rem { DivUnique(i - s, w, -q - 1, i - rem + w); }
    else if i - rem >= w { DivUnique(i - s, w, -q + 1, i - rem - w); }
    else { DivUnique(i - s, w, -q, i - rem); }
  }

  lemma OrShifts(x: nat, up: nat, w: nat, i: nat)
    requires x < Pow2(w) && 0 < up < w && i < w
    ensures Bit(Or(Shl(x, up, w), Shr(x, w - up)), i) <==> Bit(x, if i < up then i - up + w else i - up)
    ensures Bit(Or(Shr(x, w - up), Shl(x, up, w)), i) <==> Bit(x, if i < up then i - up + w else i - up)
    ensures Or(Shl(x, up, w), Shr(x, w - up)) < Pow2(w) && Or(Shr(x, w - up), Shl(x, up, w)) < Pow2(w)
  {
    hide Bit, Pow2, Or, Shl, Shr;
    BitOr(Shl(x, up, w), Shr(x, w - up), i);
    BitOr(Shr(x, w - up), Shl(x, up, w), i);
    BitShl(x, up, w, i);
    BitShr(x, w - up, i);
    if i >= up { BitHigh(x, w, i + (w - up)); }
    ShrBelow(x, w - up, w);
    OrBelow(Shl(x, up, w), Shr(x, w - up), w);
    OrBelow(Shr(x, w - up), Shl(x, up, w), w);
  }

  /** Rotation moves every bit by s positions around the word, for any signed s. */
  lemma RotlBits(x: nat, s: int, w: nat, i: nat)
    requires 0 < w && x < Pow2(w) && i < w
    ensures Rotl(x, s, w) < Pow2(w)
    ensures Bit(Rotl(x, s, w), i) <==> Bit(x, Source(i, s, w))
  {
    hide Bit, Pow2, Or, Shl, Shr, TruncatedRemainder, Source;
    RemainderSource(s, w, i);
    var rem := TruncatedRemainder(s, w);
    if rem > 0 {
      DivUnique(w - rem, w, 0, w - rem);
      OrShifts(x, rem, w, i);
    } else if rem < 0 {
      DivUnique(w + rem, w, 0, w + rem);
      OrShifts(x, w + rem, w, i);
    }
  }

  lemma RotlInRange(x: nat, s: int, w: nat)
    requires 0 < w && x < Pow2(w)
    ensures Rotl(x, s, w) < Pow2(w)
  {
    RotlBits(x, s, w, 0);
  }

  /** Rotating right by s is rotating left by -s. */
  lemma RotrIsRotl(x: nat, s: int, w: nat)
    requires w > 0
    ensures Rotr(x, s, w) == Rotl(x, -s, w)
  {
    hide Or, Shl, Shr;
    assert TruncatedRemainder(-s, w) == -TruncatedRemainder(s, w);
  }

  lemma SourceTwice(i: int, s: int, t: int, w: nat)
    requires w > 0
    ensures Source(Source(i, t, w), s, w) == Source(i, s + t, w)
  {
    var q := (i - t) / w;
    DivMod(i - t, w);
    var p := (Source(i, t, w) - s) / w;
    DivMod(Source(i, t, w) - s, w);
    Distrib(q, -p, w);
    Distrib(p, -q, w);
    DivUnique(i - (s + t), w, q + p, Source(Source(i, t, w), s, w));
  }

  /** Rotations compose additively. */
  lemma RotlCompose(x: nat, s: int, t: int, w: nat)
    requires 0 < w && x < Pow2(w)
    ensures Rotl(x, s, w) < Pow2(w) && Rotl(Rotl(x, s, w), t, w) == Rotl(x, s + t, w)
  {
    hide Bit, Pow2, Rotl, Source;
    RotlInRange(x, s, w);
    RotlInRange(x, s + t, w);
    RotlInRange(Rotl(x, s, w), t, w);
    forall i | 0 <= i < w ensures Bit(Rotl(Rotl(x, s, w), t, w), i) <==> Bit(Rotl(x, s + t, w), i) {
      RotlBits(Rotl(x, s, w), t, w, i);
      RotlBits(x, s, w, Source(i, t, w));
      RotlBits(x, s + t, w, i);
      SourceTwice(i, s, t, w);
    }
    SameBits(Rotl(Rotl(x, s, w), t, w), Rotl(x, s + t, w), w);
  }

  /** rotl and rotr undo each other for every signed amount. */
  lemma RotateBack(x: nat, s: int, w: nat)
    requires 0 < w && x < Pow2(w)
    ensures Rotr(Rotl(x, s, w), s, w) == x && Rotl(Rotr(x, s, w), s, w) == x
  {
    RotrIsRotl(Rotl(x, s, w), s, w);
    RotrIsRotl(x, s, w);
    RotlCompose(x, s, -s, w);
    RotlCompose(x, -s, s, w);
    RotlZero(x, w);
  }

  lemma RotlReduced(x: nat, s: int, w: nat)
    requires 0 < w && x < Pow2(w)
    ensures Rotl(x, s, w) == Rotl(x, s % w, w)
  {
    hide Bit, Pow2, Rotl, Source;
    RotlInRange(x, s, w);
    RotlInRange(x, s % w, w);
    forall i | 0 <= i < w ensures Bit(Rotl(x, s, w), i) <==> Bit(Rotl(x, s % w, w), i) {
      RotlBits(x, s, w, i);
      RotlBits(x, s % w, w, i);
      SourceReduced(i, s, w);
    }
    SameBits(Rotl(x, s, w), Rotl(x, s % w, w), w);
  }

  lemma SourceReduced(i: int, s: int, w: nat)
    requires w > 0
    ensures Source(i, s % w, w) == Source(i, s, w)
  {
    DivMod(s, w);
    var q := s / w;
    DivMod(i - s, w);
    Distrib((i - s) / w, q, w);
    DivUnique(i - s % w, w, (i - s) / w + q, (i - s) % w);
  }

  lemma ShlValue(x: nat, up: nat, w: nat)
    requires x < Pow2(w) && 0 < up < w
    ensures 0 <= x % Pow2(w - up) && Shl(x, up, w) == (x % Pow2(w - up)) * Pow2(up)
  {
    hide Pow2;
    var high, low := x / Pow2(w - up), x % Pow2(w - up);
    Parts(x, w - up);
    Distrib(high * Pow2(w - up), low, Pow2(up));
    Assoc(high, Pow2(w - up), Pow2(up));
    Pow2Add(w - up, up);
    MulNonNeg(low, Pow2(up));
    MulMono(low + 1, Pow2(w - up), Pow2(up));
    Distrib(low, 1, Pow2(up));
    DivUnique(x * Pow2(up), Pow2(w), high, low * Pow2(up));
  }

  /** A left rotation by less than the width swaps the high and the low part of the word. */
  lemma RotlSwapsParts(x: nat, up: nat, w: nat)
    requires x < Pow2(w) && 0 < up < w
    ensures var high, low := x / Pow2(w - up), x % Pow2(w - up);
      && 0 <= high < Pow2(up) && 0 <= low < Pow2(w - up)
      && x == high * Pow2(w - up) + low && Rotl(x, up, w) == low * Pow2(up) + high
  {
    hide Pow2, Or, Shl;
    DivUnique(w - up, w, 0, w - up);
    DivUnique(up, w, 0, up);
    assert TruncatedRemainder(up, w) == up;
    Parts(x, w - up);
    ShlValue(x, up, w);
    ShrBelow(x, w - up, w);
    OrConcat(x % Pow2(w - up), x / Pow2(w - up), up);
  }

  /** Rotation keeps the number of one bits. */
  lemma RotlKeepsOnes(x: nat, s: int, w: nat)
    requires 0 < w && x < Pow2(w)
    ensures Ones(Rotl(x, s, w)) == Ones(x)
  {
    hide Pow2, Ones, Rotl;
    RotlReduced(x, s, w);
    DivMod(s, w);
    var up := s % w;
    if up > 0 {
      RotlSwapsParts(x, up, w);
      var high, low := x / Pow2(w - up), x % Pow2(w - up);
      OnesConcat(low, high, up);
      OnesConcat(high, low, w - up);
    } else {
      RotlZero(x, w);
    }
  }

  lemma RotlZero(x: nat, w: nat)
    requires w > 0
    ensures Rotl(x, 0, w) == x
  {
    DivUnique(0, w, 0, 0);
  }

  // ---------------------------------------------------------------- byteswap

  /** The bit that swapping the outer i pairs of bytes of an n-byte word brings to position j. */
  function SwapSource(n: nat, i: nat, j: nat): nat
    requires j < 8 * n
  {
    var k := j / 8;
    if k < i || n - i <= k then 8 * (n - 1 - k) + j % 8 else j
  }

  function ByteMask(shift: nat): nat { 0xff * Pow2(shift) }

  lemma BitByteMask(shift: nat, w: nat, j: nat)
    requires shift + 8 <= w
    ensures ByteMask(shift) < Pow2(w)
    ensures Bit(ByteMask(shift), j) <==> shift <= j < shift + 8
  {
    hide Pow2, Bit;
    Pow2Add(8, shift);
    Pow2Values();
    Pow2Monotone(8 + shift, w);
    MulMono(255, 256, Pow2(shift));
    Distrib(256, 1, Pow2(shift));
    BitConcat(0xff, 0, shift, j);
    if j < shift { BitOfZero(j); } else { BitFf(j - shift); }
  }

  lemma BitFf(i: nat)
    ensures Bit(0xff, i) <==> i < 8
  {
    BitOfOnes(8, i);
    Pow2Values();
  }

  /** One round: bytes i and n - 1 - i change places through the two masks. */
  function SwapRound(val: nat, n: nat, i: nat): nat
    requires 2 * i + 1 < n && val < Pow2(8 * n)
  {
    var w, shift := 8 * n, 8 * (n - 1 - 2 * i);
    var loMask, hiMask := ByteMask(8 * i), ByteMask(8 * (n - 1 - i));
    BitByteMask(8 * i, w, 0);
    BitByteMask(8 * (n - 1 - i), w, 0);
    var loVal, hiVal := And(val, loMask), And(val, hiMask);
    var first := Or(And(val, Not(loMask, w)), Shr(hiVal, shift));
    Or(And(first, Not(hiMask, w)), Shl(loVal, shift, w))
  }

  lemma SwapRoundInRange(val: nat, n: nat, i: nat)
    requires 2 * i + 1 < n && val < Pow2(8 * n)
    ensures SwapRound(val, n, i) < Pow2(8 * n)
  {
    hide Pow2, Or, And, Shl, Shr, Not, ByteMask;
    var w, shift := 8 * n, 8 * (n - 1 - 2 * i);
    var loMask, hiMask := ByteMask(8 * i), ByteMask(8 * (n - 1 - i));
    BitByteMask(8 * i, w, 0);
    BitByteMask(8 * (n - 1 - i), w, 0);
    var loVal, hiVal := And(val, loMask), And(val, hiMask);
    AndBelow(val, hiMask);
    AndBelow(val, Not(loMask, w));
    ShrBelow(hiVal, shift, w);
    var first := Or(And(val, Not(loMask, w)), Shr(hiVal, shift));
    OrBelow(And(val, Not(loMask, w)), Shr(hiVal, shift), w);
    AndBelow(first, Not(hiMask, w));
    OrBelow(And(first, Not(hiMask, w)), Shl(loVal, shift, w), w);
  }

  lemma SwapRoundBits(val: nat, n: nat, i: nat, j: nat)
    requires 2 * i + 1 < n && val < Pow2(8 * n) && j < 8 * n
    ensures var shift := 8 * (n - 1 - 2 * i);
      Bit(SwapRound(val, n, i), j) <==>
        if 8 * i <= j < 8 * i + 8 then Bit(val, j + shift)
        else if 8 * (n - 1 - i) <= j < 8 * (n - 1 - i) + 8 then Bit(val, j - shift)
        else Bit(val, j)
  {
    hide Pow2, Or, And, Shl, Shr, Not, ByteMask, Bit;
    var w, shift := 8 * n, 8 * (n - 1 - 2 * i);
    var loMask, hiMask := ByteMask(8 * i), ByteMask(8 * (n - 1 - i));
    BitByteMask(8 * i, w, j);
    BitByteMask(8 * (n - 1 - i), w, j);
    BitByteMask(8 * (n - 1 - i), w, j + shift);
    if j >= shift { BitByteMask(8 * i, w, j - shift); }
    var loVal, hiVal := And(val, loMask), And(val, hiMask);
    var first := Or(And(val, Not(loMask, w)), Shr(hiVal, shift));
    BitOr(And(first, Not(hiMask, w)), Shl(loVal, shift, w), j);
    BitAnd(first, Not(hiMask, w), j);
    BitNot(hiMask, w, j);
    BitShl(loVal, shift, w, j);
    if j >= shift { BitAnd(val, loMask, j - shift); }
    BitOr(And(val, Not(loMask, w)), Shr(hiVal, shift), j);
    BitAnd(val, Not(loMask, w), j);
    BitNot(loMask, w, j);
    BitShr(hiVal, shift, j);
    BitAnd(val, hiMask, j + shift);
  }

  /** val is x with its outer i pairs of bytes exchanged. */
  ghost predicate Swapped(x: nat, val: nat, n: nat, i: nat) {
    forall j :: 0 <= j < 8 * n ==> (Bit(val, j) <==> Bit(x, SwapSource(n, i, j)))
  }

  lemma SwapRoundSwaps(x: nat, val: nat, n: nat, i: nat)
    requires 2 * i + 1 < n && val < Pow2(8 * n) && Swapped(x, val, n, i)
    ensures SwapRound(val, n, i) < Pow2(8 * n) && Swapped(x, SwapRound(val, n, i), n, i + 1)
  {
    hide Bit, SwapRound, Pow2;
    SwapRoundInRange(val, n, i);
    forall j | 0 <= j < 8 * n ensures Bit(SwapRound(val, n, i), j) <==> Bit(x, SwapSource(n, i + 1, j)) {
      SwapRoundBits(val, n, i, j);
    }
  }

  lemma NoneSwapped(x: nat, n: nat)
    ensures Swapped(x, x, n, 0)
  {
    hide Bit;
  }

  lemma AllSwapped(x: nat, val: nat, n: nat)
    requires Swapped(x, val, n, n / 2)
    ensures forall j :: 0 <= j < 8 * n ==> (Bit(val, j) <==> Bit(x, 8 * (n - 1 - j / 8) + j % 8))
  {
    hide Bit;
    forall j | 0 <= j < 8 * n ensures SwapSource(n, n / 2, j) == 8 * (n - 1 - j / 8) + j % 8 {}
  }

  /** byteswap_fallback on a word of n bytes. */
  method ByteswapFallback(x: nat, n: nat) returns (val: nat)
    requires 1 <= n && x < Pow2(8 * n)
    ensures val < Pow2(8 * n)
    ensures forall j :: 0 <= j < 8 * n ==> (Bit(val, j) <==> Bit(x, 8 * (n - 1 - j / 8) + j % 8))
    ensures forall k :: 0 <= k < n ==> ByteAt(val, k) == ByteAt(x, n - 1 - k)
  {
    hide ByteAt, Pow2, Or, And, Shl, Shr, Not, Bit, ByteMask, Swapped;
    val := x;
    NoneSwapped(x, n);
    if n > 1 {
      var w := 8 * n;
      var shift: int := 8 * (n - 1);
      var loMask: nat := 0xff;
      var hiMask := Shl(loMask, shift, w);
      MaskAt(0, n);
      MaskAt(n - 1, n);
      for i := 0 to n / 2
        invariant shift == 8 * (n - 1 - 2 * i) && val < Pow2(w)
        invariant loMask == ByteMask(8 * i) && hiMask == ByteMask(8 * (n - 1 - i))
        invariant Swapped(x, val, n, i)
      {
        BitByteMask(8 * i, w, 0);
        BitByteMask(8 * (n - 1 - i), w, 0);
        ghost var before := val;
        var loVal := And(val, loMask);
        var hiVal := And(val, hiMask);
        val := Or(And(val, Not(loMask, w)), Shr(hiVal, shift));
        val := Or(And(val, Not(hiMask, w)), Shl(loVal, shift, w));
        SwapRoundSwaps(x, before, n, i);
        assert val == SwapRound(before, n, i);
        MaskNext(i, n);
        loMask := Shl(loMask, 8, w);
        hiMask := Shr(hiMask, 8);
        shift := shift - 16;
      }
    }
    AllSwapped(x, val, n);
    forall k | 0 <= k < n ensures ByteAt(val, k) == ByteAt(x, n - 1 - k) { ByteReversal(x, val, n, k); }
  }

  lemma MaskAt(k: nat, n: nat)
    requires k < n
    ensures Shl(0xff, 8 * k, 8 * n) == ByteMask(8 * k) && ByteMask(0) == 0xff
  {
    hide Pow2;
    BitByteMask(8 * k, 8 * n, 0);
    DivUnique(ByteMask(8 * k), Pow2(8 * n), 0, ByteMask(8 * k));
    Pow2Values();
  }

  lemma MaskNext(i: nat, n: nat)
    requires 2 * i + 1 < n
    ensures Shl(ByteMask(8 * i), 8, 8 * n) == ByteMask(8 * (i + 1))
    ensures Shr(ByteMask(8 * (n - 1 - i)), 8) == ByteMask(8 * (n - 1 - (i + 1)))
  {
    hide Pow2;
    Pow2Values();
    var w := 8 * n;
    Pow2Add(8 * i, 8);
    Assoc(0xff, Pow2(8 * i), Pow2(8));
    assert 8 * i + 8 == 8 * (i + 1);
    BitByteMask(8 * (i + 1), w, 0);
    DivUnique(ByteMask(8 * (i + 1)), Pow2(w), 0, ByteMask(8 * (i + 1)));
    var h := 8 * (n - 1 - (i + 1));
    Pow2Add(h, 8);
    Assoc(0xff, Pow2(h), Pow2(8));
    assert h + 8 == 8 * (n - 1 - i);
    DivUnique(ByteMask(h + 8), Pow2(8), ByteMask(h), 0);
  }

  /** Digit k of x in base 256. */
  function ByteAt(x: nat, k: nat): nat { Shr(x, 8 * k) % 256 }

  /** Reversing bits by bytes is reversing the base-256 digits. */
  lemma ByteReversal(x: nat, y: nat, n: nat, k: nat)
    requires k < n
    requires forall j :: 0 <= j < 8 * n ==> (Bit(y, j) <==> Bit(x, 8 * (n - 1 - j / 8) + j % 8))
    ensures ByteAt(y, k) == ByteAt(x, n - 1 - k)
  {
    hide Pow2, Bit, Shr;
    Pow2Values();
    var r := n - 1 - k;
    forall i | 0 <= i < 8 ensures Bit(ByteAt(y, k), i) <==> Bit(ByteAt(x, r), i) {
      BitLow(Shr(y, 8 * k), 8, i);
      BitLow(Shr(x, 8 * r), 8, i);
      BitShr(y, 8 * k, i);
      BitShr(x, 8 * r, i);
      assert (i + 8 * k) / 8 == k && (i + 8 * k) % 8 == i;
    }
    SameBits(ByteAt(y, k), ByteAt(x, r), 8);
  }

  /** byteswap undoes itself. */
  lemma ByteswapInvolution(x: nat, y: nat, z: nat, n: nat)
    requires x < Pow2(8 * n) && z < Pow2(8 * n)
    requires forall j :: 0 <= j < 8 * n ==> (Bit(y, j) <==> Bit(x, 8 * (n - 1 - j / 8) + j % 8))
    requires forall j :: 0 <= j < 8 * n ==> (Bit(z, j) <==> Bit(y, 8 * (n - 1 - j / 8) + j % 8))
    ensures z == x
  {
    hide Pow2, Bit;
    forall j | 0 <= j < 8 * n ensures Bit(z, j) <==> Bit(x, j) {
      var i := 8 * (n - 1 - j / 8) + j % 8;
      assert 0 <= i < 8 * n && i / 8 == n - 1 - j / 8 && i % 8 == j % 8;
    }
    SameBits(z, x, 8 * n);
  }
}
