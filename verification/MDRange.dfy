/**
 Tiles of a multi-dimensional range: init_helper of core/src/KokkosExp_MDRangePolicy.hpp.
 */
module MDRange {
  import opened Arith
  import opened Sums
  import opened StridedLayout

  datatype TileSizeProperties = TileSizeProperties(maxThreads: nat, defaultLargestTileSize: nat, defaultTileSize: nat,
                                                   maxTotalTileSize: nat)

  /** The order the dimensions are visited in: from the fastest one of the inner direction. */
  function Visit(rank: nat, right: bool): (order: seq<nat>)
    ensures IsPermutation(order, rank) && forall k :: 0 <= k < rank ==> order[k] == if right then rank - 1 - k else k
  {
    seq(rank, k requires 0 <= k < rank => if right then rank - 1 - k else k)
  }

  function Lengths(lower: seq<int>, upper: seq<int>): (s: seq<int>)
    requires |lower| == |upper|
    ensures |s| == |lower| && forall i :: 0 <= i < |s| ==> s[i] == upper[i] - lower[i]
  {
    seq(|lower|, i requires 0 <= i < |lower| => upper[i] - lower[i])
  }

  /** (length + tile - 1) / tile, truncated towards zero: negative for a range that runs far enough backwards. */
  function TileCount(length: int, tile: nat): (n: int)
    requires tile > 0
    ensures length >= 0 ==> n == CeilDiv(length, tile)
    ensures n < 0 <==> length <= 1 - 2 * tile
    ensures length < 1 - tile ==> n * tile - tile < length + tile - 1 <= n * tile
  {
    var a := length + tile - 1;
    if a < 0 then
      DivMod(-a, tile);
      if -a < tile then DivUnique(-a, tile, 0, -a); 0 else DivAtLeast(-a, tile, 1); -(-a / tile)
    else
      DivNonNeg(a, tile);
      a / tile
  }

  /** The sizes of the tile counts, and which of them are negative. */
  function Magnitudes(tileEnd: seq<int>): (m: seq<nat>)
    ensures |m| == |tileEnd| && forall i :: 0 <= i < |m| ==> m[i] == if tileEnd[i] < 0 then -tileEnd[i] else tileEnd[i]
  {
    seq(|tileEnd|, i requires 0 <= i < |tileEnd| => if tileEnd[i] < 0 then -tileEnd[i] else tileEnd[i])
  }

  function Backwards(tileEnd: seq<int>): (b: seq<nat>)
    ensures |b| == |tileEnd| && forall i :: 0 <= i < |b| ==> b[i] == if tileEnd[i] < 0 then 1 else 0
  {
    seq(|tileEnd|, i requires 0 <= i < |tileEnd| => if tileEnd[i] < 0 then 1 else 0)
  }

  /** A product of this size with that many negative factors. */
  function Signed(negatives: nat, size: int): int { if negatives % 2 == 0 then size else -size }

  /** The product of all tile counts. */
  function CountProduct(tileEnd: seq<int>): int {
    Signed(SumUpTo(Backwards(tileEnd), |tileEnd|), Size(Magnitudes(tileEnd)))
  }

  /** The product of the tile counts visited first. */
  ghost function CountSoFar(tileEnd: seq<int>, order: seq<nat>, k: nat): int
    requires Distinct(order, |tileEnd|) && k <= |order|
  {
    Signed(OrderedSum(Backwards(tileEnd), order, k), OrderedProduct(Magnitudes(tileEnd), order, k))
  }

  /** A given tile is kept; the fastest dimension gets a long tile, the others short ones while they fit. */
  ghost function DefaultTile(given: int, length: int, fastest: bool, before: nat, p: TileSizeProperties): nat {
    if given > 0 then given
    else if fastest then
      if p.defaultLargestTileSize != 0 then p.defaultLargestTileSize else if length > 1 then length else 1
    else if before * p.defaultTileSize < p.maxTotalTileSize then p.defaultTileSize
    else 1
  }

  /** The tile for dimension order[k], given the tiles of the dimensions visited before it. */
  ghost predicate TileChosen(given: seq<int>, tile: seq<nat>, lengths: seq<int>, order: seq<nat>, k: nat,
                             p: TileSizeProperties)
    requires |given| == |tile| == |lengths| && Distinct(order, |given|) && k < |order|
  {
    tile[order[k]] == DefaultTile(given[order[k]], lengths[order[k]], k == 0, OrderedProduct(tile, order, k), p)
  }

  ghost predicate TilesChosen(given: seq<int>, tile: seq<nat>, lengths: seq<int>, order: seq<nat>, n: nat,
                              p: TileSizeProperties)
    requires |given| == |tile| == |lengths| && Distinct(order, |given|) && n <= |order|
  {
    forall k :: 0 <= k < n ==> TileChosen(given, tile, lengths, order, k, p)
  }

  /** Each tile count visited so far is the length over the tile, rounded up. */
  ghost predicate Counted(tile: seq<nat>, lengths: seq<int>, tileEnd: seq<int>, order: seq<nat>, n: nat)
    requires |tile| == |lengths| == |tileEnd| && Distinct(order, |tile|) && n <= |order|
  {
    forall k :: 0 <= k < n ==> tile[order[k]] > 0 && tileEnd[order[k]] == TileCount(lengths[order[k]], tile[order[k]])
  }

  lemma {:induction false} OrderedProductFrame(a: seq<nat>, b: seq<nat>, order: seq<nat>, r: nat)
    requires |a| == |b| && Distinct(order, |a|) && r <= |order|
    requires forall q :: 0 <= q < r ==> a[order[q]] == b[order[q]]
    ensures OrderedProduct(a, order, r) == OrderedProduct(b, order, r)
  {
    if r == 0 {
    } else {
      OrderedProductFrame(a, b, order, r - 1);
    }
  }

  /** Setting the next visited entry multiplies the product by it and leaves the earlier ones alone. */
  lemma ProductExtend(d: seq<nat>, order: seq<nat>, k: nat, x: nat, l: nat)
    requires Distinct(order, |d|) && k < |order| && l <= k
    ensures OrderedProduct(d[order[k] := x], order, l) == OrderedProduct(d, order, l)
    ensures OrderedProduct(d[order[k] := x], order, k + 1) == OrderedProduct(d, order, k) * x
  {
    OrderedProductFrame(d[order[k] := x], d, order, l);
    OrderedProductFrame(d[order[k] := x], d, order, k);
    ProductNext(d[order[k] := x], order, k + 1);
  }

  lemma ChosenExtend(given: seq<int>, tile: seq<nat>, lengths: seq<int>, order: seq<nat>, k: nat,
                     p: TileSizeProperties, x: nat)
    requires |given| == |tile| == |lengths| && Distinct(order, |given|) && k < |order|
    requires TilesChosen(given, tile, lengths, order, k, p) &&
      TileChosen(given, tile[order[k] := x], lengths, order, k, p)
    ensures TilesChosen(given, tile[order[k] := x], lengths, order, k + 1, p)
  {
    hide OrderedProduct;
    var next := tile[order[k] := x];
    forall l | 0 <= l < k ensures TileChosen(given, next, lengths, order, l, p) {
      ProductExtend(tile, order, k, x, l);
      assert TileChosen(given, tile, lengths, order, l, p);
    }
  }

  lemma CountedExtend(tile: seq<nat>, lengths: seq<int>, tileEnd: seq<int>, order: seq<nat>, k: nat, t: nat)
    requires |tile| == |lengths| == |tileEnd| && Distinct(order, |tile|) && k < |order| && t > 0
    requires Counted(tile, lengths, tileEnd, order, k)
    ensures Counted(tile[order[k] := t], lengths, tileEnd[order[k] := TileCount(lengths[order[k]], t)], order, k + 1)
  {
    hide TileCount;
  }

  lemma SignedTimes(negatives: nat, size: nat, n: int)
    ensures Signed(negatives + (if n < 0 then 1 else 0), size * (if n < 0 then -n else n)) ==
      Signed(negatives, size) * n
  {}

  /** Setting the next visited tile count multiplies the product by it. */
  lemma CountExtend(tileEnd: seq<int>, order: seq<nat>, k: nat, n: int)
    requires Distinct(order, |tileEnd|) && k < |order|
    ensures CountSoFar(tileEnd[order[k] := n], order, k + 1) == CountSoFar(tileEnd, order, k) * n
  {
    hide OrderedProduct, Signed;
    var next, i := tileEnd[order[k] := n], order[k];
    var size := if n < 0 then -n else n;
    assert Magnitudes(next) == Magnitudes(tileEnd)[i := size];
    ProductExtend(Magnitudes(tileEnd), order, k, size, k);
    OrderedSumFrame(Backwards(next), Backwards(tileEnd), order, k);
    SignedTimes(OrderedSum(Backwards(tileEnd), order, k), OrderedProduct(Magnitudes(tileEnd), order, k), n);
  }

  lemma CountTotal(tileEnd: seq<int>, order: seq<nat>)
    requires IsPermutation(order, |tileEnd|)
    ensures CountSoFar(tileEnd, order, |tileEnd|) == CountProduct(tileEnd)
  {
    hide OrderedProduct, ProductUpTo, OrderedSum, SumUpTo;
    OrderedProductTotal(Magnitudes(tileEnd), order);
    forall k | 0 <= k < |tileEnd| ensures Chosen(order, |tileEnd|, k) { PermutationCovers(order, |tileEnd|, k); }
    OrderedSumTotal(Backwards(tileEnd), order, |tileEnd|);
  }

  /** Without backward ranges the product is the number of tiles. */
  lemma ForwardCount(tileEnd: seq<nat>)
    ensures CountProduct(tileEnd) == Size(tileEnd)
  {
    hide ProductUpTo, SumUpTo;
    assert Magnitudes(tileEnd) == tileEnd;
    SumZero(Backwards(tileEnd), |tileEnd|);
  }

  /** Dimensions that run backwards by less than two tiles count zero; an even number of others cancels out. */
  lemma CountPositiveIff(tileEnd: seq<int>)
    ensures CountProduct(tileEnd) > 0 <==>
      (forall i :: 0 <= i < |tileEnd| ==> tileEnd[i] != 0) && SumUpTo(Backwards(tileEnd), |tileEnd|) % 2 == 0
  {
    hide ProductUpTo, SumUpTo;
    var m := Magnitudes(tileEnd);
    if i :| 0 <= i < |tileEnd| && tileEnd[i] == 0 {
      ProductZero(m, |m|, i);
    } else {
      ProductPositive(m, |m|);
    }
  }

  /** One round of the loop, for the lemmas: both products, the choices and the counts grow by one. */
  lemma RoundKeeps(given: seq<int>, tile: seq<nat>, lengths: seq<int>, tileEnd: seq<int>, order: seq<nat>, k: nat,
                   p: TileSizeProperties, t: nat, tiles: int)
    requires |given| == |tile| == |lengths| == |tileEnd| && IsPermutation(order, |given|) && k < |order| && t > 0
    requires TilesChosen(given, tile, lengths, order, k, p) && Counted(tile, lengths, tileEnd, order, k)
    requires t == DefaultTile(given[order[k]], lengths[order[k]], k == 0, OrderedProduct(tile, order, k), p)
    ensures var i, n := order[k], TileCount(lengths[order[k]], t);
      && TilesChosen(given, tile[i := t], lengths, order, k + 1, p)
      && Counted(tile[i := t], lengths, tileEnd[i := n], order, k + 1)
      && OrderedProduct(tile[i := t], order, k + 1) == OrderedProduct(tile, order, k) * t
      && tiles * CountSoFar(tileEnd[i := n], order, k + 1) == (tiles * CountSoFar(tileEnd, order, k)) * n
  {
    hide OrderedProduct, TileCount, Counted, TilesChosen, DefaultTile, CountSoFar;
    var i, n := order[k], TileCount(lengths[order[k]], t);
    ProductExtend(tile, order, k, t, k);
    CountExtend(tileEnd, order, k, n);
    ChosenExtend(given, tile, lengths, order, k, p, t);
    CountedExtend(tile, lengths, tileEnd, order, k, t);
    Assoc(tiles, CountSoFar(tileEnd, order, k), n);
  }

  /**
   The tile of one dimension; before is the product of the tiles chosen so far.  The contract only names
   the rule: DefaultTilesBounded says what the rule achieves.
   */
  method ChooseTile(given: int, length: int, fastest: bool, before: nat, p: TileSizeProperties) returns (t: nat)
    requires p.defaultTileSize > 0
    ensures t > 0 && t == DefaultTile(given, length, fastest, before, p)
  {
    if given > 0 {
      t := given;
    } else if !fastest {
      t := if before * p.defaultTileSize < p.maxTotalTileSize then p.defaultTileSize else 1;
    } else {
      t := if p.defaultLargestTileSize == 0 then (if length > 1 then length else 1) else p.defaultLargestTileSize;
    }
  }

  /** A given tile is kept. */
  ghost predicate KeepsGiven(given: seq<int>, tile: seq<nat>)
    requires |given| == |tile|
  {
    forall i :: 0 <= i < |given| && given[i] > 0 ==> tile[i] == given[i]
  }

  /** Without one, the fastest dimension gets the backend's largest tile, or its whole length if there is none. */
  ghost predicate LongTile(given: seq<int>, tile: seq<nat>, lower: seq<int>, upper: seq<int>, fastest: int,
                           p: TileSizeProperties)
    requires |given| == |tile| == |lower| == |upper|
  {
    0 <= fastest < |given| && given[fastest] <= 0 ==>
      tile[fastest] == if p.defaultLargestTileSize != 0 then p.defaultLargestTileSize
                       else if upper[fastest] - lower[fastest] > 1 then upper[fastest] - lower[fastest] else 1
  }

  /** Every other dimension gets a short tile as long as the tiles before it leave room for one, else one index. */
  ghost predicate ShortTiles(given: seq<int>, tile: seq<nat>, order: seq<nat>, p: TileSizeProperties)
    requires |given| == |tile| && Distinct(order, |given|)
  {
    forall k :: 0 < k < |order| && given[order[k]] <= 0 ==>
      tile[order[k]] == if OrderedProduct(tile, order, k) * p.defaultTileSize < p.maxTotalTileSize
                        then p.defaultTileSize else 1
  }

  lemma ChosenTiles(given: seq<int>, tile: seq<nat>, lower: seq<int>, upper: seq<int>, right: bool,
                    p: TileSizeProperties)
    requires |given| == |tile| == |lower| == |upper|
    requires TilesChosen(given, tile, Lengths(lower, upper), Visit(|lower|, right), |lower|, p)
    ensures KeepsGiven(given, tile) && ShortTiles(given, tile, Visit(|lower|, right), p)
    ensures LongTile(given, tile, lower, upper, if right then |lower| - 1 else 0, p)
  {
    hide OrderedProduct;
    var order := Visit(|lower|, right);
    forall i | 0 <= i < |given| && given[i] > 0 ensures tile[i] == given[i] {
      PermutationCovers(order, |given|, i);
      var k :| 0 <= k < |order| && order[k] == i;
      assert TileChosen(given, tile, Lengths(lower, upper), order, k, p);
    }
    if |given| > 0 { assert TileChosen(given, tile, Lengths(lower, upper), order, 0, p); }
    forall k | 0 < k < |order| && given[order[k]] <= 0
      ensures tile[order[k]] == if OrderedProduct(tile, order, k) * p.defaultTileSize < p.maxTotalTileSize
                                then p.defaultTileSize else 1
    {
      assert TileChosen(given, tile, Lengths(lower, upper), order, k, p);
    }
  }

  /** Some dimension visited so far had no tile given. */
  ghost predicate Tunes(given: seq<int>, order: seq<nat>, n: nat)
    requires Distinct(order, |given|) && n <= |order|
  {
    exists k :: 0 <= k < n && given[order[k]] <= 0
  }

  lemma TunesNext(given: seq<int>, order: seq<nat>, k: nat)
    requires Distinct(order, |given|) && k < |order|
    ensures (Tunes(given, order, k + 1) <==> Tunes(given, order, k) || given[order[k]] <= 0)
  {
    if given[order[k]] <= 0 { assert Tunes(given, order, k + 1); }
    if Tunes(given, order, k) { assert Tunes(given, order, k + 1); }
  }

  class MDRangePolicy {
    const lower: seq<int>
    const upper: seq<int>
    const right: bool
    var given: seq<int>
    var tile: seq<nat>
    var tileEnd: seq<int>
    var numTiles: int
    var prodTileDims: nat
    var tuneTileSize: bool
    var aborted: bool

    ghost predicate Bounds()
      reads this
    {
      |lower| == |upper| == |given| == |tile| == |tileEnd|
    }

    /** Every tile is positive, and the tile counts are the lengths divided by them, rounded up. */
    ghost predicate Tiled()
      reads this
    {
      Bounds() && forall i :: 0 <= i < |lower| ==> tile[i] > 0 && tileEnd[i] == TileCount(upper[i] - lower[i], tile[i])
    }

    constructor (lower: seq<int>, upper: seq<int>, given: seq<int>, right: bool, p: TileSizeProperties)
      requires |lower| == |upper| == |given| && p.defaultTileSize > 0
      ensures this.lower == lower && this.upper == upper && this.right == right && this.given == given
      ensures Tiled() && numTiles == CountProduct(tileEnd) && prodTileDims == Size(tile)
      ensures TilesChosen(given, tile, Lengths(lower, upper), Visit(|lower|, right), |lower|, p)
      ensures KeepsGiven(given, tile) && ShortTiles(given, tile, Visit(|lower|, right), p)
      ensures LongTile(given, tile, lower, upper, if right then |lower| - 1 else 0, p)
      ensures aborted == (prodTileDims > p.maxThreads)
    {
      hide TilesChosen, Size, Visit, Lengths, Tunes, CountProduct, TileCount, KeepsGiven, LongTile, ShortTiles;
      this.lower, this.upper, this.right, this.given := lower, upper, right, given;
      tile, tileEnd := seq(|lower|, _ => 0), seq(|lower|, _ => 0);
      numTiles, prodTileDims, tuneTileSize, aborted := 1, 1, false, false;
      new;
      InitHelper(p);
    }

    /**
     init_helper; given holds m_tile as the caller set it, tile as the loop leaves it.  numTiles is
     multiplied and never reset, so it is the number of tiles only when it was one before.
     */
    method InitHelper(p: TileSizeProperties)
      requires Bounds() && p.defaultTileSize > 0
      modifies this
      ensures given == old(given) && Tiled() && numTiles == old(numTiles) * CountProduct(tileEnd) &&
        prodTileDims == Size(tile)
      ensures TilesChosen(given, tile, Lengths(lower, upper), Visit(|lower|, right), |lower|, p)
      ensures KeepsGiven(given, tile) && ShortTiles(given, tile, Visit(|lower|, right), p)
      ensures LongTile(given, tile, lower, upper, if right then |lower| - 1 else 0, p)
      ensures tuneTileSize == (old(tuneTileSize) || Tunes(given, Visit(|lower|, right), |lower|))
      ensures aborted == (old(aborted) || prodTileDims > p.maxThreads)
    {
      hide OrderedProduct, TileCount, TilesChosen, Counted, Size, Tunes, DefaultTile, Lengths, Visit, ProductUpTo,
        CountSoFar, CountProduct, KeepsGiven, LongTile, ShortTiles;
      var rank := |lower|;
      ghost var order, lengths := Visit(rank, right), Lengths(lower, upper);
      prodTileDims := 1;
      EmptyOrder([], tile, order);
      NoneChosen(given, tile, lengths, tileEnd, order, p);
      for k := 0 to rank
        invariant given == old(given) && |tile| == |tileEnd| == rank
        invariant TilesChosen(given, tile, lengths, order, k, p) && Counted(tile, lengths, tileEnd, order, k)
        invariant prodTileDims == OrderedProduct(tile, order, k)
        invariant numTiles == old(numTiles) * CountSoFar(tileEnd, order, k)
        invariant tuneTileSize == (old(tuneTileSize) || Tunes(given, order, k))
        invariant aborted == old(aborted)
      {
        var i := if right then rank - 1 - k else k;
        var length := upper[i] - lower[i];
        assert i == order[k] && length == lengths[i];
        var t := ChooseTile(given[i], length, k == 0, prodTileDims, p);
        if given[i] <= 0 { tuneTileSize := true; }
        TunesNext(given, order, k);
        RoundKeeps(given, tile, lengths, tileEnd, order, k, p, t, old(numTiles));
        tile := tile[i := t];
        tileEnd := tileEnd[i := TileCount(length, t)];
        numTiles := numTiles * tileEnd[i];
        prodTileDims := prodTileDims * tile[i];
      }
      EveryDimension(tile, lengths, tileEnd, order);
      ChosenTiles(given, tile, lower, upper, right, p);
      if prodTileDims > p.maxThreads { aborted := true; }
    }

    /**
     impl_change_tile_size multiplies the new number of tiles onto the old one, so numTiles is right
     afterwards exactly if it was one before, or there are no tiles at all.
     */
    method ImplChangeTileSize(newTile: seq<int>, p: TileSizeProperties)
      requires Bounds() && |newTile| == |lower| && p.defaultTileSize > 0
      modifies this
      ensures given == newTile && Tiled() && prodTileDims == Size(tile)
      ensures numTiles == old(numTiles) * CountProduct(tileEnd)
      ensures numTiles == CountProduct(tileEnd) <==> old(numTiles) == 1 || CountProduct(tileEnd) == 0
      ensures TilesChosen(given, tile, Lengths(lower, upper), Visit(|lower|, right), |lower|, p)
      ensures KeepsGiven(given, tile) && ShortTiles(given, tile, Visit(|lower|, right), p)
      ensures LongTile(given, tile, lower, upper, if right then |lower| - 1 else 0, p)
      ensures tuneTileSize == (old(tuneTileSize) || Tunes(given, Visit(|lower|, right), |lower|))
      ensures aborted == (old(aborted) || prodTileDims > p.maxThreads)
    {
      hide TilesChosen, Size, Visit, Lengths, Tunes, CountProduct, KeepsGiven, LongTile, ShortTiles;
      given := newTile;
      InitHelper(p);
      TimesIsSame(old(numTiles), CountProduct(tileEnd));
    }
  }

  lemma TimesIsSame(a: int, b: int)
    ensures a * b == b <==> a == 1 || b == 0
  {
    if a != 1 && b != 0 { ProductNonZero(a - 1, b); }
  }

  lemma ProductNonZero(a: int, b: int)
    requires a != 0 && b != 0
    ensures a * b != 0
  {}

  /**
   When only the fastest dimension may have a tile given, the tiles together hold no more indices than
   that first tile, or fewer than the total the backend asks for.
   */
  lemma {:induction false} DefaultTilesBounded(given: seq<int>, tile: seq<nat>, lengths: seq<int>, order: seq<nat>,
                                               r: nat, p: TileSizeProperties)
    requires |given| == |tile| == |lengths| && Distinct(order, |given|) && 0 < r <= |order|
    requires TilesChosen(given, tile, lengths, order, r, p)
    requires forall k :: 0 < k < r ==> given[order[k]] <= 0
    ensures OrderedProduct(tile, order, r) <= tile[order[0]] || OrderedProduct(tile, order, r) < p.maxTotalTileSize
  {
    hide OrderedProduct;
    ProductNext(tile, order, r);
    if r == 1 {
      EmptyOrder(tile, tile, order);
    } else {
      DefaultTilesBounded(given, tile, lengths, order, r - 1, p);
      assert TileChosen(given, tile, lengths, order, r - 1, p);
    }
  }

  /** Default tiles then never abort, if the backend's total and the first tile stay within its threads. */
  lemma DefaultTilesNeverAbort(given: seq<int>, tile: seq<nat>, lengths: seq<int>, order: seq<nat>,
                               p: TileSizeProperties)
    requires |given| == |tile| == |lengths| && IsPermutation(order, |given|) && 0 < |given|
    requires TilesChosen(given, tile, lengths, order, |given|, p)
    requires forall k :: 0 < k < |given| ==> given[order[k]] <= 0
    requires tile[order[0]] <= p.maxThreads && p.maxTotalTileSize <= p.maxThreads + 1
    ensures Size(tile) <= p.maxThreads
  {
    DefaultTilesBounded(given, tile, lengths, order, |given|, p);
    OrderedProductTotal(tile, order);
  }

  lemma NoneChosen(given: seq<int>, tile: seq<nat>, lengths: seq<int>, tileEnd: seq<int>, order: seq<nat>,
                   p: TileSizeProperties)
    requires |given| == |tile| == |lengths| == |tileEnd| && Distinct(order, |given|)
    ensures TilesChosen(given, tile, lengths, order, 0, p) && Counted(tile, lengths, tileEnd, order, 0) &&
      !Tunes(given, order, 0)
    ensures CountSoFar(tileEnd, order, 0) == 1
  {}

  lemma EveryDimension(tile: seq<nat>, lengths: seq<int>, tileEnd: seq<int>, order: seq<nat>)
    requires |tile| == |lengths| == |tileEnd| && IsPermutation(order, |tile|) &&
      Counted(tile, lengths, tileEnd, order, |tile|)
    ensures forall i :: 0 <= i < |tile| ==> tile[i] > 0 && tileEnd[i] == TileCount(lengths[i], tile[i])
    ensures CountSoFar(tileEnd, order, |tile|) == CountProduct(tileEnd) &&
      OrderedProduct(tile, order, |tile|) == Size(tile)
  {
    hide CountSoFar, CountProduct, TileCount;
    CountTotal(tileEnd, order);
    OrderedProductTotal(tile, order);
    forall i | 0 <= i < |tile| ensures tile[i] > 0 && tileEnd[i] == TileCount(lengths[i], tile[i]) {
      PermutationCovers(order, |tile|, i);
      var k :| 0 <= k < |order| && order[k] == i;
    }
  }
}
