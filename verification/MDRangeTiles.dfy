/**
 The index box of each tile, from the flat tile number, as in
 core/src/impl/KokkosExp_Host_IterateTile.hpp, and when the tiles partition the range.
 */
module MDRangeTiles {
  import opened Arith
  import opened Sums
  import opened StridedLayout
  import opened MDRange

  datatype Tiling = Tiling(lower: seq<int>, upper: seq<int>, tile: seq<nat>, tileEnd: seq<int>) {
    /** What the constructor of the policy leaves, for any range. */
    ghost predicate Tiled() {
      && |lower| == |upper| == |tile| == |tileEnd|
      && forall i :: 0 <= i < |lower| ==> tile[i] > 0 && tileEnd[i] == TileCount(upper[i] - lower[i], tile[i])
    }

    ghost predicate NowhereEmpty()
      requires |lower| == |upper|
    {
      forall i :: 0 <= i < |lower| ==> lower[i] < upper[i]
    }

    ghost predicate Valid() { Tiled() && NowhereEmpty() }

    /** The tile counts of a range that is nowhere empty. */
    function Counts(): (c: seq<nat>)
      ensures |c| == |tileEnd|
      ensures forall i :: 0 <= i < |c| ==> c[i] == if tileEnd[i] < 0 then -tileEnd[i] else tileEnd[i]
    {
      Magnitudes(tileEnd)
    }

    ghost predicate InRange(x: seq<int>) {
      |x| == |lower| == |upper| && forall i :: 0 <= i < |lower| ==> lower[i] <= x[i] < upper[i]
    }

    /** First index of tile q of dimension i. */
    function Start(i: nat, q: int): int
      requires i < |lower| && i < |tile|
    {
      q * tile[i] + lower[i]
    }

    /** How many indices of dimension i the tile starting at offset takes. */
    function Partial(i: nat, offset: int): int
      requires i < |lower| && i < |upper| && i < |tile|
    {
      if offset + tile[i] <= upper[i] then tile[i]
      else if upper[i] - 1 - offset == 0 then 1
      else if upper[i] - tile[i] > 0 then upper[i] - offset
      else upper[i] - lower[i]
    }

    /** x lies in the tile with coordinates c. */
    ghost predicate InTile(x: seq<int>, c: seq<int>)
      requires |lower| == |upper| == |tile| == |c|
    {
      |x| == |lower| && forall i :: 0 <= i < |lower| ==>
        Start(i, c[i]) <= x[i] < Start(i, c[i]) + Partial(i, Start(i, c[i]))
    }

    /**
     Dimension i has an upper bound no larger than its tile, yet more than one tile, the last one short
     of full by a remainder of at least two.  The lower bound is then negative.
     */
    predicate Misfit(i: nat)
      requires i < |lower| && i < |upper| && i < |tile|
    {
      tile[i] > 0 && upper[i] <= tile[i] < upper[i] - lower[i] && (upper[i] - lower[i]) % tile[i] >= 2
    }
  }

  function Reverse(s: seq<nat>): (r: seq<nat>)
    ensures |r| == |s| && forall k :: 0 <= k < |s| ==> r[k] == s[|s| - 1 - k]
  {
    seq(|s|, k requires 0 <= k < |s| => s[|s| - 1 - k])
  }

  /** Tile coordinates of a flat tile number, the first or the last dimension fastest. */
  function Coordinates(t: nat, tileEnd: seq<nat>, right: bool): (c: seq<nat>)
    requires Positive(tileEnd)
    ensures |c| == |tileEnd|
  {
    if right then Reverse(Decode(t, Reverse(tileEnd))) else Decode(t, tileEnd)
  }

  // ---------------------------------------------------------------- one dimension

  lemma LengthInTiles(t: Tiling, i: nat)
    requires t.Valid() && i < |t.lower|
    ensures var len := t.upper[i] - t.lower[i];
      t.tileEnd[i] > 0 && (t.tileEnd[i] - 1) * t.tile[i] < len <= t.tileEnd[i] * t.tile[i]
  {
    hide CeilDiv;
    var len, d, n := t.upper[i] - t.lower[i], t.tile[i], t.tileEnd[i];
    CeilDivBounds(len, d);
    Distrib(n, 1, d);
    MulCancelNonNeg(n, d);
  }

  /** A tile before the last is full; the last ends with the range unless the dimension is a misfit. */
  lemma PartialIs(t: Tiling, i: nat, q: nat)
    requires t.Valid() && i < |t.lower| && q < t.tileEnd[i]
    ensures var s := t.Start(i, q); s < t.upper[i] && (!t.Misfit(i) || q < t.tileEnd[i] - 1 ==>
      t.Partial(i, s) == if s + t.tile[i] <= t.upper[i] then t.tile[i] else t.upper[i] - s)
    ensures t.Start(i, 0) == t.lower[i] && (q < t.tileEnd[i] - 1 ==> t.Start(i, q) + t.tile[i] <= t.upper[i])
    ensures t.Start(i, q) >= t.lower[i]
    ensures t.Misfit(i) && q == t.tileEnd[i] - 1 ==>
      t.Start(i, q) > t.lower[i] && t.Partial(i, t.Start(i, q)) == t.upper[i] - t.lower[i]
  {
    LengthInTiles(t, i);
    var len, d, n, s := t.upper[i] - t.lower[i], t.tile[i], t.tileEnd[i], t.Start(i, q);
    MulMono(q, n - 1, d);
    MulNonNeg(q, d);
    if q < n - 1 {
      MulMono(q + 1, n - 1, d);
      Distrib(q, 1, d);
    } else {
      Distrib(n, 1, d);
      if s + d > t.upper[i] {
        DivUnique(len, d, q, len - q * d);
        if q > 0 { MulMono(1, q, d); }
      } else {
        DivUnique(len, d, n, 0);
      }
    }
  }

  /** Without a misfit, a tile's indices in dimension i are those of the range with its quotient. */
  lemma InDimension(t: Tiling, i: nat, q: nat, x: int)
    requires t.Valid() && i < |t.lower| && !t.Misfit(i) && q < t.tileEnd[i]
    ensures var s := t.Start(i, q);
      s <= x < s + t.Partial(i, s) <==> t.lower[i] <= x < t.upper[i] && (x - t.lower[i]) / t.tile[i] == q
  {
    hide Tiling.Partial;
    PartialIs(t, i, q);
    var d, y, s := t.tile[i], x - t.lower[i], t.Start(i, q);
    DivMod(y, d);
    if s <= x < s + t.Partial(i, s) {
      DivUnique(y, d, q, x - s);
    }
  }

  lemma QuotientInRange(t: Tiling, i: nat, x: int)
    requires t.Valid() && i < |t.lower| && t.lower[i] <= x < t.upper[i]
    ensures 0 <= (x - t.lower[i]) / t.tile[i] < t.tileEnd[i]
  {
    LengthInTiles(t, i);
    DivBelow(x - t.lower[i], t.tile[i], t.tileEnd[i]);
    DivNonNeg(x - t.lower[i], t.tile[i]);
  }

  // ---------------------------------------------------------------- tile numbers and coordinates

  lemma {:induction false} ReverseProduct(d: seq<nat>, n: nat)
    requires n <= |d|
    ensures ProductUpTo(Reverse(d), n) == OrderedProduct(d, Visit(|d|, true), n)
  {
    hide Visit, Reverse;
    if n == 0 {
    } else {
      ReverseProduct(d, n - 1);
    }
  }

  lemma ReverseSize(d: seq<nat>)
    ensures Size(Reverse(d)) == Size(d)
  {
    ReverseProduct(d, |d|);
    OrderedProductTotal(d, Visit(|d|, true));
  }

  /** Tile numbers below the number of tiles and coordinates in the tile box name each other one to one. */
  lemma CoordinatesInBox(t: nat, tileEnd: seq<nat>, right: bool)
    requires Positive(tileEnd) && t < Size(tileEnd)
    ensures InBox(Coordinates(t, tileEnd, right), tileEnd)
  {
    hide Decode, Size;
    if right {
      ReverseSize(tileEnd);
      DecodeInBox(t, Reverse(tileEnd));
    } else {
      DecodeInBox(t, tileEnd);
    }
  }

  lemma CoordinatesInjective(t: nat, u: nat, tileEnd: seq<nat>, right: bool)
    requires Positive(tileEnd) && t < Size(tileEnd) && u < Size(tileEnd)
    requires Coordinates(t, tileEnd, right) == Coordinates(u, tileEnd, right)
    ensures t == u
  {
    hide Decode, Size, Reverse;
    if right {
      ReverseSize(tileEnd);
      DecodeInBox(t, Reverse(tileEnd));
      DecodeInBox(u, Reverse(tileEnd));
      ReverseTwice(Decode(t, Reverse(tileEnd)));
      ReverseTwice(Decode(u, Reverse(tileEnd)));
    } else {
      DecodeInBox(t, tileEnd);
      DecodeInBox(u, tileEnd);
    }
  }

  lemma ReverseTwice(s: seq<nat>)
    ensures Reverse(Reverse(s)) == s
  {}

  lemma CoordinatesOnto(c: seq<nat>, tileEnd: seq<nat>, right: bool) returns (t: nat)
    requires InBox(c, tileEnd)
    ensures Positive(tileEnd) && t < Size(tileEnd) && Coordinates(t, tileEnd, right) == c
  {
    hide Decode, Size, Offset;
    if right {
      ReverseSize(tileEnd);
      t := Offset(Reverse(c), Weights(Reverse(tileEnd)));
      DecodeEncode(Reverse(c), Reverse(tileEnd));
      ReverseTwice(c);
    } else {
      t := Offset(c, Weights(tileEnd));
      DecodeEncode(c, tileEnd);
    }
  }

  // ---------------------------------------------------------------- the loops over the dimensions

  /** Division and remainder of C++, truncated towards zero. */
  function CppDiv(a: int, b: int): int
    requires b != 0
  {
    if a >= 0 then if b > 0 then a / b else -(a / -b) else if b > 0 then -(-a / b) else -a / -b
  }

  function CppMod(a: int, b: int): int
    requires b != 0
  {
    a - CppDiv(a, b) * b
  }

  lemma CppModBound(a: int, b: int)
    requires b != 0
    ensures b > 0 ==> -b < CppMod(a, b) < b
    ensures b < 0 ==> b < CppMod(a, b) < -b
    ensures CppDiv(a, b) * b + CppMod(a, b) == a && (a >= 0 ==> CppMod(a, b) >= 0) && (a <= 0 ==> CppMod(a, b) <= 0)
    ensures a >= 0 && b > 0 ==> CppDiv(a, b) == a / b && CppMod(a, b) == a % b
  {
    var x, y := if a >= 0 then a else -a, if b > 0 then b else -b;
    DivMod(x, y);
    assert CppDiv(a, b) * b == if a >= 0 then x / y * y else -(x / y * y);
  }

  predicate NonZero(tileEnd: seq<int>) { forall i :: 0 <= i < |tileEnd| ==> tileEnd[i] != 0 }

  /** The dimension that round k of the loop is about, and the round of dimension k. */
  function Turn(k: nat, rank: nat, right: bool): nat
    requires k < rank
  {
    if right then rank - 1 - k else k
  }

  /** What is left of the tile number after k rounds. */
  function Rest(n: int, tileEnd: seq<int>, right: bool, k: nat): int
    requires NonZero(tileEnd) && k <= |tileEnd|
  {
    if k == 0 then n else CppDiv(Rest(n, tileEnd, right, k - 1), tileEnd[Turn(k - 1, |tileEnd|, right)])
  }

  /** The remainders the loop takes, for tile counts of either sign. */
  function TileCoordinates(n: int, tileEnd: seq<int>, right: bool): (c: seq<int>)
    requires NonZero(tileEnd)
    ensures |c| == |tileEnd|
    ensures forall i :: 0 <= i < |c| ==> c[i] == CppMod(Rest(n, tileEnd, right, Turn(i, |c|, right)), tileEnd[i])
  {
    seq(|tileEnd|, i requires 0 <= i < |tileEnd| =>
      CppMod(Rest(n, tileEnd, right, Turn(i, |tileEnd|, right)), tileEnd[i]))
  }

  /** The loops that turn a tile number into the first index of the tile in every dimension. */
  method TileOffset(t: Tiling, tileIdx: nat, right: bool) returns (offset: seq<int>)
    requires t.Tiled() && NonZero(t.tileEnd)
    ensures |offset| == |t.lower|
    ensures forall i :: 0 <= i < |t.lower| ==> offset[i] == t.Start(i, TileCoordinates(tileIdx, t.tileEnd, right)[i])
    ensures t.Valid() && tileIdx < Size(t.Counts()) ==>
      forall i :: 0 <= i < |t.lower| ==>
        Positive(t.Counts()) && offset[i] == t.Start(i, Coordinates(tileIdx, t.Counts(), right)[i])
  {
    hide CppDiv, CppMod, Rest, Size, Tiling.Start, TileCount, Coordinates, Tiling.Valid, Tiling.Counts;
    var rank := |t.lower|;
    var rest: int := tileIdx;
    ghost var c := TileCoordinates(tileIdx, t.tileEnd, right);
    offset := seq(rank, _ => 0);
    RestStart(tileIdx, t.tileEnd, right);
    for k := 0 to rank
      invariant |offset| == rank && rest == Rest(tileIdx, t.tileEnd, right, k)
      invariant forall i :: 0 <= i < rank && Turn(i, rank, right) < k ==> offset[i] == t.Start(i, c[i])
    {
      var i := if right then rank - 1 - k else k;
      RestNext(tileIdx, t.tileEnd, right, k);
      StartIs(t, i, c[i]);
      offset := offset[i := CppMod(rest, t.tileEnd[i]) * t.tile[i] + t.lower[i]];
      rest := CppDiv(rest, t.tileEnd[i]);
    }
    assert forall i :: 0 <= i < rank ==> offset[i] == t.Start(i, c[i]);
    if t.Valid() && tileIdx < Size(t.Counts()) { CoordinatesDecoded(t, tileIdx, right); }
  }

  lemma RestStart(n: int, tileEnd: seq<int>, right: bool)
    requires NonZero(tileEnd)
    ensures Rest(n, tileEnd, right, 0) == n
  {}

  lemma RestNext(n: int, tileEnd: seq<int>, right: bool, k: nat)
    requires NonZero(tileEnd) && k < |tileEnd|
    ensures Rest(n, tileEnd, right, k + 1) == CppDiv(Rest(n, tileEnd, right, k), tileEnd[Turn(k, |tileEnd|, right)])
  {}

  lemma StartIs(t: Tiling, i: nat, q: int)
    requires i < |t.lower| && i < |t.tile|
    ensures t.Start(i, q) == q * t.tile[i] + t.lower[i]
  {}

  /** What holds of the tile counts of a range that is nowhere empty. */
  lemma ForwardTiles(t: Tiling)
    requires t.Valid()
    ensures NonZero(t.tileEnd) && Positive(t.Counts()) && t.Counts() == t.tileEnd
    ensures CountProduct(t.tileEnd) == Size(t.Counts())
  {
    hide CountProduct, Size;
    CountsPositive(t);
    assert t.Counts() == t.tileEnd;
    ForwardCount(t.Counts());
  }

  /** In a range that is nowhere empty the loop decodes the tile number. */
  lemma CoordinatesDecoded(t: Tiling, n: nat, right: bool)
    requires t.Valid() && n < Size(t.Counts())
    ensures Positive(t.Counts()) && NonZero(t.tileEnd)
    ensures TileCoordinates(n, t.tileEnd, right) == Coordinates(n, t.Counts(), right)
  {
    hide TileCoordinates, Coordinates, Size, Positive, Tiling.Valid, Tiling.Counts;
    ForwardTiles(t);
    var d := t.Counts();
    forall i | 0 <= i < |d| ensures TileCoordinates(n, d, right)[i] == Coordinates(n, d, right)[i] {
      CoordinateDecoded(d, n, right, i);
    }
    assert TileCoordinates(n, d, right) == Coordinates(n, d, right);
  }

  lemma CoordinateDecoded(d: seq<nat>, n: nat, right: bool, i: nat)
    requires Positive(d) && n < Size(d) && i < |d|
    ensures NonZero(d) && TileCoordinates(n, d, right)[i] == Coordinates(n, d, right)[i]
  {
    hide CppMod, Rest, Digit, Quotient, Coordinates, Size;
    var k := Turn(i, |d|, right);
    RestIsQuotient(d, n, right, k);
    CoordinateIsDigit(n, d, right, i);
    LastDigitSmall(n, d, right, k);
    CppModBound(Rest(n, d, right, k), d[i]);
  }

  lemma {:induction false} RestIsQuotient(d: seq<nat>, n: nat, right: bool, k: nat)
    requires Positive(d) && n < Size(d) && k <= |d|
    ensures NonZero(d) && Rest(n, d, right, k) == Quotient(n, if right then Reverse(d) else d, k)
  {
    hide CppDiv, Rest, Digit, Quotient, Size;
    var e := if right then Reverse(d) else d;
    if k == 0 {
      RestStart(n, d, right);
      QuotientStart(n, e);
    } else {
      RestNext(n, d, right, k - 1);
      RestIsQuotient(d, n, right, k - 1);
      LastDigitSmall(n, d, right, k - 1);
      CppModBound(Rest(n, d, right, k - 1), e[k - 1]);
    }
  }

  lemma TilingShape(t: Tiling)
    requires t.Valid()
    ensures t.Tiled() && |t.lower| == |t.upper| == |t.tile| == |t.tileEnd|
  {}

  lemma CoordinateIsDigit(t: nat, tileEnd: seq<nat>, right: bool, i: nat)
    requires Positive(tileEnd) && i < |tileEnd|
    ensures Coordinates(t, tileEnd, right)[i] ==
      Digit(t, if right then Reverse(tileEnd) else tileEnd, if right then |tileEnd| - 1 - i else i)
  {
    hide Digit;
  }

  /** The remainder by every extent is the digit, since what is left at the end is below the last extent. */
  lemma LastDigitSmall(t: nat, tileEnd: seq<nat>, right: bool, k: nat)
    requires Positive(tileEnd) && t < Size(tileEnd) && k < |tileEnd|
    ensures var d := if right then Reverse(tileEnd) else tileEnd;
      && Digit(t, d, k) == Quotient(t, d, k) % d[k]
      && Quotient(t, d, k + 1) == Quotient(t, d, k) / d[k]
  {
    hide Decode, Size;
    var d := if right then Reverse(tileEnd) else tileEnd;
    if right { ReverseSize(tileEnd); }
    DecodeInBox(t, d);
    if k == |d| - 1 {
      assert Decode(t, d)[k] == Quotient(t, d, k) < d[k];
      DivUnique(Quotient(t, d, k), d[k], 0, Quotient(t, d, k));
    }
  }

  lemma QuotientStart(t: nat, d: seq<nat>)
    requires Positive(d)
    ensures Quotient(t, d, 0) == t
  {}

  /**
   check_iteration_bounds.  The contract only names each extent: PartialIs and BackwardExtent say what the
   extents are, and PartitionIffNoMisfit what they amount to.
   */
  method CheckIterationBounds(t: Tiling, offset: seq<int>) returns (isFull: bool, partial: seq<int>)
    requires t.Tiled() && |offset| == |t.lower|
    ensures |partial| == |offset| && forall i :: 0 <= i < |offset| ==> partial[i] == t.Partial(i, offset[i])
    ensures isFull <==> forall i :: 0 <= i < |offset| ==> offset[i] + t.tile[i] <= t.upper[i]
  {
    isFull, partial := true, [];
    for i := 0 to |offset|
      invariant |partial| == i && forall l :: 0 <= l < i ==> partial[l] == t.Partial(l, offset[l])
      invariant isFull <==> forall l :: 0 <= l < i ==> offset[l] + t.tile[l] <= t.upper[l]
    {
      var p := t.tile[i];
      if offset[i] + t.tile[i] > t.upper[i] {
        isFull := false;
        p := if t.upper[i] - 1 - offset[i] == 0 then 1
             else if t.upper[i] - t.tile[i] > 0 then t.upper[i] - offset[i]
             else t.upper[i] - t.lower[i];
      }
      partial := partial + [p];
    }
  }

  // ---------------------------------------------------------------- the tiles partition the range

  /** x is one of the indices that the execution of tile n visits. */
  ghost predicate TileHas(t: Tiling, right: bool, n: nat, x: seq<int>) {
    && |t.lower| == |t.upper| == |t.tile| == |t.tileEnd| && NonZero(t.tileEnd)
    && n < CountProduct(t.tileEnd) && t.InTile(x, TileCoordinates(n, t.tileEnd, right))
  }

  /** The same by decoding, for a range that is nowhere empty. */
  lemma TileHasDecoded(t: Tiling, right: bool, n: nat, x: seq<int>)
    requires t.Valid()
    ensures Positive(t.Counts()) && |t.lower| == |t.upper| == |t.tile| == |t.tileEnd|
    ensures TileHas(t, right, n, x) <==> n < Size(t.Counts()) && t.InTile(x, Coordinates(n, t.Counts(), right))
  {
    hide CountProduct, Size, Tiling.InTile, TileCoordinates, Coordinates;
    ForwardTiles(t);
    if n < Size(t.Counts()) { CoordinatesDecoded(t, n, right); }
  }

  /** Tiles stay inside the range, cover it, and share no index. */
  ghost predicate Partition(t: Tiling, right: bool) {
    && (forall n, x :: TileHas(t, right, n, x) ==> t.InRange(x))
    && (forall x :: t.InRange(x) ==> exists n :: TileHas(t, right, n, x))
    && (forall m, n, x :: TileHas(t, right, m, x) && TileHas(t, right, n, x) ==> m == n)
  }

  ghost predicate NoMisfit(t: Tiling)
    requires t.Tiled()
  {
    forall i :: 0 <= i < |t.lower| ==> !t.Misfit(i)
  }

  lemma CountsPositive(t: Tiling)
    requires t.Valid()
    ensures Positive(t.Counts()) && forall i :: 0 <= i < |t.tileEnd| ==> t.Counts()[i] == t.tileEnd[i]
  {
    forall i | 0 <= i < |t.tileEnd| ensures t.tileEnd[i] > 0 { LengthInTiles(t, i); }
  }

  /** The indices of a tile are those of the range whose quotients are its coordinates. */
  lemma TileMembers(t: Tiling, c: seq<nat>, x: seq<int>)
    requires t.Valid() && NoMisfit(t) && InBox(c, t.Counts()) && |x| == |t.lower|
    ensures t.InTile(x, c) <==> t.InRange(x) && forall i :: 0 <= i < |x| ==> (x[i] - t.lower[i]) / t.tile[i] == c[i]
  {
    hide Tiling.Partial, Tiling.Start, Tiling.Misfit;
    forall i | 0 <= i < |x|
      ensures t.Start(i, c[i]) <= x[i] < t.Start(i, c[i]) + t.Partial(i, t.Start(i, c[i])) <==>
                t.lower[i] <= x[i] < t.upper[i] && (x[i] - t.lower[i]) / t.tile[i] == c[i]
    {
      InDimension(t, i, c[i], x[i]);
    }
  }

  /** The coordinates of the tile an index of the range belongs to. */
  ghost function HomeCoordinates(t: Tiling, x: seq<int>): (c: seq<nat>)
    requires t.Valid() && t.InRange(x)
    ensures InBox(c, t.Counts())
    ensures forall i :: 0 <= i < |x| ==> c[i] == (x[i] - t.lower[i]) / t.tile[i]
  {
    assert forall i :: 0 <= i < |x| ==> 0 <= (x[i] - t.lower[i]) / t.tile[i] < t.tileEnd[i] by {
      forall i | 0 <= i < |x|
        ensures 0 <= (x[i] - t.lower[i]) / t.tile[i] < t.tileEnd[i]
      {
        QuotientInRange(t, i, x[i]);
      }
    }
    seq(|x|, i requires 0 <= i < |x| => (x[i] - t.lower[i]) / t.tile[i])
  }

  lemma HomeIsIn(t: Tiling, x: seq<int>)
    requires t.Valid() && NoMisfit(t) && t.InRange(x)
    ensures t.InTile(x, HomeCoordinates(t, x))
  {
    hide Tiling.Misfit, Tiling.InTile, Tiling.Valid, HomeCoordinates;
    TilingShape(t);
    TileMembers(t, HomeCoordinates(t, x), x);
  }

  lemma HomeTile(t: Tiling, right: bool, x: seq<int>) returns (n: nat)
    requires t.Valid() && NoMisfit(t) && t.InRange(x)
    ensures TileHas(t, right, n, x)
  {
    hide Tiling.InTile, Tiling.InRange, Tiling.Valid, HomeCoordinates, InBox, NoMisfit, Size, Coordinates, TileHas;
    TilingShape(t);
    HomeIsIn(t, x);
    n := CoordinatesOnto(HomeCoordinates(t, x), t.Counts(), right);
    TileHasDecoded(t, right, n, x);
  }

  lemma OneTile(t: Tiling, right: bool, m: nat, n: nat, x: seq<int>)
    requires t.Valid() && NoMisfit(t) && TileHas(t, right, m, x) && TileHas(t, right, n, x)
    ensures t.InRange(x) && m == n
  {
    hide Tiling.Misfit, Tiling.InTile, TileHas;
    TileHasDecoded(t, right, m, x);
    TileHasDecoded(t, right, n, x);
    var d := t.Counts();
    var c, e := Coordinates(m, d, right), Coordinates(n, d, right);
    TileLength(t, c, x);
    CoordinatesInBox(m, d, right);
    CoordinatesInBox(n, d, right);
    TileMembers(t, c, x);
    TileMembers(t, e, x);
    assert c == e;
    CoordinatesInjective(m, n, d, right);
  }

  lemma TileLength(t: Tiling, c: seq<nat>, x: seq<int>)
    requires |t.lower| == |t.upper| == |t.tile| == |c| && t.InTile(x, c)
    ensures |x| == |t.lower|
  {}

  /** In a misfit dimension the last tile runs past the end of the range. */
  lemma SpilledPoint(t: Tiling, i: nat) returns (c: seq<nat>, x: seq<int>)
    requires t.Valid() && i < |t.lower| && t.Misfit(i)
    ensures InBox(c, t.Counts()) && t.InTile(x, c) && !t.InRange(x)
  {
    hide Tiling.Misfit, Tiling.Partial, Tiling.Start, TileCount;
    CountsPositive(t);
    c := seq(|t.lower|, j requires 0 <= j < |t.lower| => if j == i then t.Counts()[i] - 1 else 0);
    x := seq(|t.lower|, j requires 0 <= j < |t.lower| => if j == i then t.upper[i] else t.lower[j]);
    forall j | 0 <= j < |t.lower| ensures t.Start(j, c[j]) <= x[j] < t.Start(j, c[j]) + t.Partial(j, t.Start(j, c[j])) {
      PartialIs(t, j, c[j]);
      if j == i { LastStart(t, i); } else { FirstTileNotEmpty(t, j); }
    }
    assert x[i] == t.upper[i];
  }

  lemma MisfitSpills(t: Tiling, right: bool, i: nat) returns (n: nat, x: seq<int>)
    requires t.Valid() && i < |t.lower| && t.Misfit(i)
    ensures TileHas(t, right, n, x) && !t.InRange(x)
  {
    hide Tiling.Misfit, Tiling.InTile, Tiling.InRange, InBox, TileHas, Coordinates, Size;
    var c: seq<nat>;
    c, x := SpilledPoint(t, i);
    n := CoordinatesOnto(c, t.Counts(), right);
    TileHasDecoded(t, right, n, x);
  }

  lemma LastStart(t: Tiling, i: nat)
    requires t.Valid() && i < |t.lower| && t.tileEnd[i] > 0
    ensures t.Start(i, t.tileEnd[i] - 1) < t.upper[i]
  {
    LengthInTiles(t, i);
  }

  lemma FirstTileNotEmpty(t: Tiling, j: nat)
    requires t.Valid() && j < |t.lower|
    ensures t.Partial(j, t.lower[j]) > 0
  {}

  // ---------------------------------------------------------------- ranges that are empty

  /** In a dimension that runs backwards every tile starts so late that its extent is negative. */
  lemma BackwardExtent(t: Tiling, i: nat, q: int)
    requires t.Tiled() && i < |t.lower| && t.upper[i] <= t.lower[i] && t.tileEnd[i] != 0 && t.tileEnd[i] < q
    ensures t.Partial(i, t.Start(i, q)) < 0
  {
    var len, d, n := t.upper[i] - t.lower[i], t.tile[i], t.tileEnd[i];
    BackwardCount(len, d);
    MulMono(n + 1, q, d);
    Distrib(n, 1, d);
  }

  lemma BackwardCount(len: int, d: nat)
    requires d > 0 && len <= 0 && TileCount(len, d) != 0
    ensures TileCount(len, d) < 0 && len + d - 1 <= TileCount(len, d) * d && len <= 1 - 2 * d
  {
    if len == 0 {
      DivUnique(d - 1, d, 0, d - 1);
    } else {
      var a := len + d - 1;
      if a >= 0 { DivUnique(a, d, 0, a); } else { DivMod(-a, d); }
    }
  }

  /** A range that is empty or runs backwards in some dimension has no index in any of its tiles. */
  lemma EmptyTilesVisitNothing(t: Tiling, right: bool, n: nat, x: seq<int>)
    requires t.Tiled() && !t.NowhereEmpty()
    ensures !TileHas(t, right, n, x)
  {
    hide CppMod, TileCount, Tiling.Partial, Tiling.Start, CountProduct;
    var i :| 0 <= i < |t.lower| && t.upper[i] <= t.lower[i];
    if TileHas(t, right, n, x) {
      var c := TileCoordinates(n, t.tileEnd, right);
      CppModBound(Rest(n, t.tileEnd, right, Turn(i, |c|, right)), t.tileEnd[i]);
      NotPositive(t, i);
      BackwardExtent(t, i, c[i]);
    }
  }

  lemma NotPositive(t: Tiling, i: nat)
    requires t.Tiled() && i < |t.lower| && t.upper[i] <= t.lower[i] && t.tileEnd[i] != 0
    ensures t.tileEnd[i] < 0
  {
    BackwardCount(t.upper[i] - t.lower[i], t.tile[i]);
  }

  /**
   For any bounds, the tiles partition the range exactly when some dimension is empty or none is a misfit.
   A range with an empty dimension has no index, and no tile visits one, however many tiles there are.
   */
  lemma PartitionIffNoMisfit(t: Tiling, right: bool)
    requires t.Tiled()
    ensures Partition(t, right) <==> !t.NowhereEmpty() || NoMisfit(t)
  {
    hide Tiling.Misfit, TileHas, Tiling.InRange, TileCount;
    if !t.NowhereEmpty() {
      forall n, x ensures !TileHas(t, right, n, x) { EmptyTilesVisitNothing(t, right, n, x); }
      forall x ensures !t.InRange(x) { NoIndex(t, x); }
    } else if NoMisfit(t) {
      forall n, x | TileHas(t, right, n, x) ensures t.InRange(x) { OneTile(t, right, n, n, x); }
      forall x | t.InRange(x) ensures exists n :: TileHas(t, right, n, x) { var n := HomeTile(t, right, x); }
      forall m, n, x | TileHas(t, right, m, x) && TileHas(t, right, n, x) ensures m == n { OneTile(t, right, m, n, x); }
    } else {
      var i :| 0 <= i < |t.lower| && t.Misfit(i);
      var n, x := MisfitSpills(t, right, i);
    }
  }

  lemma NoIndex(t: Tiling, x: seq<int>)
    requires |t.lower| == |t.upper| && !t.NowhereEmpty()
    ensures !t.InRange(x)
  {}

  /** The range [-3, 2) in tiles of three: its second tile runs from 0 to 5. */
  lemma MisfitExample(right: bool)
    ensures Tiling([-3], [2], [3], [2]).Valid() && !Partition(Tiling([-3], [2], [3], [2]), right)
  {
    hide Partition;
    var t := Tiling([-3], [2], [3], [2]);
    assert CeilDiv(5, 3) == 2;
    assert t.Misfit(0);
    PartitionIffNoMisfit(t, right);
  }

  /** A range whose lower bounds are not negative never misfits. */
  lemma NonNegativeFits(t: Tiling)
    requires t.Valid() && forall i :: 0 <= i < |t.lower| ==> t.lower[i] >= 0
    ensures NoMisfit(t)
  {}

  /**
   A policy over any range partitions it into its tiles exactly when some dimension is empty or none is a
   misfit, whichever dimension runs fastest.
   */
  lemma PolicyPartitions(p: MDRangePolicy, right: bool)
    requires p.Tiled()
    ensures var t := Tiling(p.lower, p.upper, p.tile, p.tileEnd);
      t.Tiled() && (Partition(t, right) <==> !t.NowhereEmpty() || NoMisfit(t))
  {
    hide Partition, NoMisfit, TileCount;
    PartitionIffNoMisfit(Tiling(p.lower, p.upper, p.tile, p.tileEnd), right);
  }
}
