/**
  The numbers behind CompressedSize: lengths of the streams of a field with checkered exponents and mantissas, and
  fields for which they are too long.
 */
module CompressedSizeBounds {
  function Size(bands: nat): nat {
    16 * (3 * bands + 1)
  }

  /** The bits of a code up to the last tile with errors. */
  function BusyBits(nbits: nat, cont: nat, width: nat, p: nat, q: nat, bands: nat): int {
    3 + nbits * (16 + 3 * bands) + cont * (5 * q) + 9 * width * (5 * (q - p))
  }

  /** The length word of the mantissas. */
  function FloatsSlot(bands: nat): nat {
    4 + (83 + 350 * bands + 31) / 32
  }

  /** The words the packer keeps in reserve for another tile. */
  function Reserve(nbits: nat): nat {
    (nbits + 1 + 9 * nbits) / 32
  }

  /** Compression does not give up, but the compressed field is the longer one. */
  predicate Overlong(p: nat, q: nat, bands: nat, nbits: nat) {
    var space := Size(bands) * (nbits + 9) / 32 - (FloatsSlot(bands) + 1);
    var busy := BusyBits(nbits, 5, nbits + 2, p, q, bands);
    && p < q <= bands && 5 <= bands <= 2009
    && busy <= 32 * (space - Reserve(nbits))
    && busy + 5 * (5 * (bands - q)) > 32 * (space - 1)
  }

  lemma MulAtMost(a: nat, m: int, n: int)
    requires m <= n
    ensures a * m <= a * n
  {
    assert a * (n - m) >= 0;
  }

  /** The exponents never take more than a byte a value. */
  lemma ExponentsFitBytes(bands: nat, nbits: nat)
    requires bands <= 2009 && nbits <= 23
    ensures 1 + 4 * ((83 + 350 * bands + 31) / 32) <= Size(bands) && Size(bands) * (nbits + 9) < 0x8000_0000
  {
    MulAtMost(Size(bands), nbits + 9, 32);
  }

  /** What a band of tiles with errors takes. */
  function BandCost(nbits: nat): nat {
    45 * nbits + 115
  }

  /** The bits that 2009 bands leave for tiles with errors. */
  function ForNoise(nbits: nat): nat {
    90405 * nbits + 164605 - 32 * Reserve(nbits)
  }

  /** How many of 2009 bands can have errors before the packer would give up. */
  function MostNoisy(nbits: nat): nat {
    ForNoise(nbits) / BandCost(nbits)
  }

  lemma MostNoisyBounds(nbits: nat)
    requires 1 <= nbits <= 23
    ensures var q := MostNoisy(nbits);
      BandCost(nbits) * q <= ForNoise(nbits) < BandCost(nbits) * q + BandCost(nbits)
    ensures 1 <= MostNoisy(nbits) <= 1954
  {
    var cost, q := BandCost(nbits), MostNoisy(nbits);
    if q > 1954 { MulAtMost(cost, 1955, q); }
    if q < 1 { MulAtMost(cost, q, 0); }
  }

  lemma BusyOfMost(nbits: nat, q: nat)
    ensures BusyBits(nbits, 5, nbits + 2, 0, q, 2009) == 3 + 6043 * nbits + BandCost(nbits) * q
  {
    assert 9 * (nbits + 2) * (5 * q) + 25 * q == BandCost(nbits) * q;
    assert nbits * (16 + 3 * 2009) == 6043 * nbits;
  }

  /** The bands behind them are enough for the tiles without errors to use up what the packer keeps in reserve. */
  lemma FlatOverlong(nbits: nat)
    requires 1 <= nbits <= 23
    ensures Overlong(0, MostNoisy(nbits), 2009, nbits) && MostNoisy(nbits) < 2009
  {
    hide MostNoisy, BusyBits;
    MostNoisyBounds(nbits);
    BusyOfMost(nbits, MostNoisy(nbits));
    assert Size(2009) * (nbits + 9) / 32 == 3014 * (nbits + 9) && FloatsSlot(2009) == 21981;
  }

  /** With few bits there is no reserve to use up. */
  lemma EndingOverlong()
    ensures Overlong(3, 8, 8, 1)
    ensures Overlong(2, 6, 6, 2)
    ensures Overlong(2, 9, 9, 3)
  {
  }

  /** A first and a last band of errors, and a number of bands, that make a field too long. */
  function Witness(nbits: nat, ends: bool): (nat, nat, nat) {
    if !ends then (0, MostNoisy(nbits), 2009)
    else if nbits == 1 then (3, 8, 8)
    else if nbits == 2 then (2, 6, 6)
    else (2, 9, 9)
  }

  lemma WitnessOverlong(nbits: nat, ends: bool)
    requires 1 <= nbits <= 23 && (ends ==> nbits <= 3)
    ensures var (p, q, bands) := Witness(nbits, ends); Overlong(p, q, bands, nbits) && (q == bands <==> ends)
  {
    hide Overlong, MostNoisy;
    FlatOverlong(nbits);
    EndingOverlong();
  }
}

/**
  When a field compressed by c_armn_compress32 can be longer than the field of znbits-bit tokens it stands for. The
  fields that are have 16 columns and 3 * bands + 1 rows, so that every tile has 3 x 3 cells; checkerboards make the
  errors of a tile as large as they can be, and the tiles of the mantissas have errors in some bands and none in others.
 */
module CompressedSize {
  import opened Words
  import opened BitStream
  import opened Compress32
  import opened CompressedSizeBounds
  import opened Tiles
  import M = MinMax
  import P = Parallelogram

  // ----- checkerboards -----

  /** How often the checkerboard has changed phase up to row j: once a row in the bands from p to q, else never. */
  function Phase(p: nat, q: nat, j: int): int {
    if j - 1 < 3 * p then 3 * p else if j - 1 > 3 * q then 3 * q else j - 1
  }

  predicate Dark(p: nat, q: nat, i: int, j: int) {
    (i - 1 + Phase(p, q, j)) % 2 == 1
  }

  function Shade(a: nat, p: nat, q: nat, i: int, j: int): nat {
    if Dark(p, q, i, j) then a else 0
  }

  /** A field of 0 and a, row by row. */
  function Checkered(a: nat, p: nat, q: nat, bands: nat): (s: seq<int>)
    ensures |s| == Size(bands)
  {
    seq(Size(bands), k requires 0 <= k < Size(bands) => Shade(a, p, q, k % 16 + 1, k / 16 + 1))
  }

  lemma CheckeredCell(a: nat, p: nat, q: nat, bands: nat, i: int, j: int)
    requires 1 <= i <= 16 && 1 <= j <= 3 * bands + 1
    ensures Cell(Checkered(a, p, q, bands), 16, i, j) == Shade(a, p, q, i, j)
  {
    hide Shade;
    AtIsFtn2c(i, j, 16);
  }

  /** Row j lies in a band with errors. */
  predicate Noisy(p: nat, q: nat, j: int) {
    3 * p < j - 1 <= 3 * q
  }

  /** Where the phase changes from one row to the next each error is twice the value; elsewhere there is none. */
  lemma CheckeredError(a: nat, p: nat, q: nat, bands: nat, i: int, j: int)
    requires p <= q && 2 <= i <= 16 && 2 <= j <= 3 * bands + 1
    ensures P.Abs(P.Residual(Checkered(a, p, q, bands), 16, i, j)) == if Noisy(p, q, j) then 2 * a else 0
  {
    hide Cell, Checkered;
    CheckeredCell(a, p, q, bands, i, j);
    CheckeredCell(a, p, q, bands, i - 1, j);
    CheckeredCell(a, p, q, bands, i, j - 1);
    CheckeredCell(a, p, q, bands, i - 1, j - 1);
  }

  // ----- the tiles of their errors -----

  /** Errors of magnitude e in the bands from p to q, and no others. */
  ghost predicate Banded(d: seq<int>, e: nat, p: nat, q: nat, bands: nat) {
    forall i, j :: 2 <= i <= 16 && 2 <= j <= 3 * bands + 1 ==>
      P.Abs(Cell(d, 16, i, j)) == if Noisy(p, q, j) then e else 0
  }

  lemma CheckeredBanded(a: nat, p: nat, q: nat, bands: nat)
    requires p <= q
    ensures Banded(P.Residuals(Checkered(a, p, q, bands), 16), 2 * a, p, q, bands)
  {
    hide Cell, Checkered, P.Residual, P.Residuals, P.Abs, Noisy;
    forall i, j | 2 <= i <= 16 && 2 <= j <= 3 * bands + 1
      ensures P.Abs(Cell(P.Residuals(Checkered(a, p, q, bands), 16), 16, i, j)) == if Noisy(p, q, j) then 2 * a else 0
    {
      CheckeredError(a, p, q, bands, i, j);
      P.ResidualsCell(Checkered(a, p, q, bands), 16, 3 * bands + 1, i, j);
    }
  }

  lemma {:induction false} TileLevel(d: seq<int>, i: int, j: int, lm: int, ln: int, n: int, m: int, e: nat)
    requires 0 <= n && 0 <= m
    requires forall a, b :: i <= a <= i + lm && j <= b <= j + ln ==> P.Abs(Cell(d, 16, a, b)) == e
    ensures forall x :: x in TileFrom(d, 16, i, j, lm, ln, n, m) ==> P.Abs(x) == e
    decreases ln - n, lm - m
  {
    hide Cell, P.Abs;
    if n > ln {
    } else if m > lm {
      TileLevel(d, i, j, lm, ln, n + 1, 0, e);
    } else {
      TileLevel(d, i, j, lm, ln, n, m + 1, e);
    }
  }

  lemma LevelMax(vs: seq<int>, e: nat)
    requires vs != [] && forall x :: x in vs ==> P.Abs(x) == e
    ensures P.MaxAbs(vs) == e
  {
    hide P.MaxAbs, P.Abs;
    P.MaxAbsBounds(vs);
    assert vs[0] in vs;
  }

  /** Tile t of band b. */
  ghost function BandTile(d: seq<int>, bands: nat, b: nat, t: nat): seq<int> {
    Tile(d, 16, 3 * bands + 1, 3, 2 + 3 * t, 2 + 3 * b)
  }

  /** The errors of a tile all have the same magnitude. */
  lemma BandTileLevel(d: seq<int>, e: nat, p: nat, q: nat, bands: nat, b: nat, t: nat)
    requires Banded(d, e, p, q, bands) && b < bands && t < 5
    ensures |BandTile(d, bands, b, t)| == 9
    ensures P.MaxAbs(BandTile(d, bands, b, t)) == if p <= b < q then e else 0
  {
    hide Cell, P.MaxAbs, P.Abs, TileFrom;
    var i, j := 2 + 3 * t, 2 + 3 * b;
    assert Extent(i, 3, 16) == 2 && Extent(j, 3, 3 * bands + 1) == 2;
    var level := if p <= b < q then e else 0;
    TileFromLength(d, 16, i, j, 2, 2, 0, 0);
    forall x, y | i <= x <= i + 2 && j <= y <= j + 2 ensures P.Abs(Cell(d, 16, x, y)) == level {
      assert Noisy(p, q, y) <==> p <= b < q;
    }
    TileLevel(d, i, j, 2, 2, 0, 0, level);
    LevelMax(BandTile(d, bands, b, t), level);
  }

  /** The bits of a tile. */
  function TileBits(cont: nat, width: nat, p: nat, q: nat, b: nat): nat {
    cont + if p <= b < q then 9 * width else 0
  }

  lemma BandTileBits(v: P.Variant, cont: nat, d: seq<int>, e: nat, p: nat, q: nat, bands: nat, b: nat, t: nat)
    requires Banded(d, e, p, q, bands) && b < bands && t < 5 && P.WidthCode(v, e) != 0 && P.WidthCode(v, 0) == 0
    ensures P.WidthCode(v, P.MaxAbs(BandTile(d, bands, b, t))) == if p <= b < q then P.WidthCode(v, e) else 0
    ensures |P.TileCode(v, cont, BandTile(d, bands, b, t))|
      == TileBits(cont, P.ResidualWidth(v, P.WidthCode(v, e)), p, q, b)
  {
    hide P.MaxAbs, P.WidthCode, P.ResidualWidth, Banded, BandTile;
    BandTileLevel(d, e, p, q, bands, b, t);
    FlatLength(BandTile(d, bands, b, t), P.ResidualWidth(v, P.WidthCode(v, e)));
  }

  /** The bits of the tiles from tile t of band b on. */
  function WalkBits(cont: nat, width: nat, p: nat, q: nat, bands: nat, b: nat, t: nat): nat
    requires t <= 5
    decreases bands - b, 5 - t
  {
    if b >= bands then 0
    else if t == 5 then WalkBits(cont, width, p, q, bands, b + 1, 0)
    else TileBits(cont, width, p, q, b) + WalkBits(cont, width, p, q, bands, b, t + 1)
  }

  ghost function Walk(d: seq<int>, bands: nat, b: nat, t: nat): seq<seq<int>> {
    TilesFrom(d, 16, 3 * bands + 1, 3, 2, 2 + 3 * b, 2 + 3 * t)
  }

  lemma WalkStep(d: seq<int>, bands: nat, b: nat, t: nat)
    requires t <= 5
    ensures b >= bands ==> Walk(d, bands, b, t) == []
    ensures b < bands && t == 5 ==> Walk(d, bands, b, t) == Walk(d, bands, b + 1, 0)
    ensures b < bands && t < 5 ==> Walk(d, bands, b, t) == [BandTile(d, bands, b, t)] + Walk(d, bands, b, t + 1)
  {
    hide Tile;
  }

  lemma {:induction false} WalkCode(v: P.Variant, cont: nat, d: seq<int>, e: nat, p: nat, q: nat, bands: nat, b: nat,
      t: nat)
    requires Banded(d, e, p, q, bands) && t <= 5 && P.WidthCode(v, e) != 0 && P.WidthCode(v, 0) == 0
    ensures |P.TilesCode(v, cont, Walk(d, bands, b, t))|
      == WalkBits(cont, P.ResidualWidth(v, P.WidthCode(v, e)), p, q, bands, b, t)
    decreases bands - b, 5 - t
  {
    hide P.WidthCode, P.ResidualWidth, Banded, BandTile, Walk, P.TileCode, TileBits;
    WalkStep(d, bands, b, t);
    if b >= bands {
      P.TilesCodeNone(v, cont);
    } else if t == 5 {
      WalkCode(v, cont, d, e, p, q, bands, b + 1, 0);
    } else {
      WalkCode(v, cont, d, e, p, q, bands, b, t + 1);
      BandTileBits(v, cont, d, e, p, q, bands, b, t);
      P.TilesCodeStep(v, cont, [], BandTile(d, bands, b, t), Walk(d, bands, b, t + 1));
      assert ([BandTile(d, bands, b, t)] + Walk(d, bands, b, t + 1))[1..] == Walk(d, bands, b, t + 1);
    }
  }

  /** The last tile of the field is the last of the last band. */
  lemma {:induction false} WalkEnds(d: seq<int>, bands: nat, b: nat, t: nat)
    requires t <= 5 && (b + 1 < bands || (b + 1 == bands && t < 5))
    ensures var ts := Walk(d, bands, b, t); ts != [] && ts[|ts| - 1] == BandTile(d, bands, bands - 1, 4)
    decreases bands - b, 5 - t
  {
    hide BandTile, Walk;
    WalkStep(d, bands, b, t);
    if t == 5 {
      WalkEnds(d, bands, b + 1, 0);
    } else if b + 1 == bands && t == 4 {
      WalkStep(d, bands, b, 5);
      WalkStep(d, bands, b + 1, 0);
    } else {
      WalkEnds(d, bands, b, t + 1);
    }
  }

  /** The bits of the tiles from tile t of band b up to the last one with errors. */
  function NoiseBits(cont: nat, width: nat, p: nat, q: nat, bands: nat, b: nat, t: nat): int
    requires t <= 5
  {
    WalkBits(cont, width, p, q, bands, b, t) - WalkBits(cont, width, p, q, bands, q, 0)
  }

  /** The test of the packer passes for all tiles when it passes for the last one with errors. */
  lemma {:induction false} WalkAffordable(cont: nat, d: seq<int>, e: nat, p: nat, q: nat, bands: nat, b: nat, t: nat,
      nbits: nat, len: nat, end: nat, space: int)
    requires Banded(d, e, p, q, bands) && q <= bands && t <= 5
      && P.WidthCode(P.Mantissa, e) != 0 && P.WidthCode(P.Mantissa, 0) == 0
    requires b < q ==>
      len + NoiseBits(cont, P.ResidualWidth(P.Mantissa, P.WidthCode(P.Mantissa, e)), p, q, bands, b, t) <= end
    requires space >= (end - 1) / 32 + (1 + (P.WidthCode(P.Mantissa, e) + 9 * nbits) / 32)
    ensures P.Affordable(P.Mantissa, cont, len, Walk(d, bands, b, t), nbits, space)
    decreases bands - b, 5 - t
  {
    hide P.WidthCode, P.ResidualWidth, Banded, BandTile, Walk, P.TileCode, P.Affordable;
    WalkStep(d, bands, b, t);
    if b >= bands {
      P.AffordableNone(P.Mantissa, cont, len, nbits, space);
    } else if t == 5 {
      WalkAffordable(cont, d, e, p, q, bands, b + 1, 0, nbits, len, end, space);
    } else {
      var width := P.ResidualWidth(P.Mantissa, P.WidthCode(P.Mantissa, e));
      BandTileBits(P.Mantissa, cont, d, e, p, q, bands, b, t);
      if b < q { NoiseLeft(cont, width, p, q, bands, b, t + 1); }
      WalkAffordable(cont, d, e, p, q, bands, b, t + 1, nbits, len + TileBits(cont, width, p, q, b), end, space);
      P.AffordableStep(P.Mantissa, cont, len, BandTile(d, bands, b, t), Walk(d, bands, b, t + 1), nbits, space);
    }
  }

  lemma {:induction false} NoiseLeft(cont: nat, width: nat, p: nat, q: nat, bands: nat, b: nat, t: nat)
    requires t <= 5 && b < q <= bands
    ensures NoiseBits(cont, width, p, q, bands, b, t) >= 0
    decreases q - b, 5 - t
  {
    if t < 5 {
      NoiseLeft(cont, width, p, q, bands, b, t + 1);
    } else if b + 1 < q {
      NoiseLeft(cont, width, p, q, bands, b + 1, 0);
    }
  }

  /** The tiles with errors from tile t of band b on. */
  function NoisyLeft(p: nat, q: nat, b: nat, t: nat): int {
    if b >= q then 0 else if b < p then 5 * (q - p) else 5 * (q - b) - t
  }

  lemma MulStep(a: nat, n: int)
    ensures a * (n + 1) == a * n + a && a * 0 == 0
  {
  }

  lemma {:induction false} WalkTotal(cont: nat, width: nat, p: nat, q: nat, bands: nat, b: nat, t: nat)
    requires t <= 5 && p <= q <= bands && b <= bands && (b == bands ==> t == 0)
    ensures WalkBits(cont, width, p, q, bands, b, t)
      == cont * (5 * (bands - b) - t) + 9 * width * NoisyLeft(p, q, b, t)
    decreases bands - b, 5 - t
  {
    if b == bands {
      MulStep(cont, 0);
      MulStep(9 * width, 0);
    } else if t == 5 {
      WalkTotal(cont, width, p, q, bands, b + 1, 0);
    } else {
      WalkTotal(cont, width, p, q, bands, b, t + 1);
      MulStep(cont, 5 * (bands - b) - (t + 1));
      MulStep(9 * width, NoisyLeft(p, q, b, t) - 1);
    }
  }

  // ----- the codes of checkerboards -----

  lemma BorderLength(v: P.Variant, g: seq<int>, bands: nat, nbits: nat)
    requires !v.Short?
    ensures P.BorderBits(v, g, 16, 3 * bands + 1, nbits, 3) == 3 + nbits * (16 + 3 * bands)
  {
    hide TileFrom, Flat;
    var row, column := TileFrom(g, 16, 1, 1, 15, 0, 0, 0), TileFrom(g, 16, 1, 2, 0, 3 * bands - 1, 0, 0);
    TileFromLength(g, 16, 1, 1, 15, 0, 0, 0);
    TileFromLength(g, 16, 1, 2, 0, 3 * bands - 1, 0, 0);
    FlatLength(row, nbits);
    FlatLength(column, nbits);
    P.Distribute(nbits, 16, 3 * bands);
  }

  lemma CheckeredCode(v: P.Variant, cont: nat, a: nat, p: nat, q: nat, bands: nat, nbits: nat)
    requires !v.Short? && cont == (if v.Byte? then 4 else 5) && p < q <= bands
    requires P.WidthCode(v, 2 * a) != 0 && P.WidthCode(v, 0) == 0
    ensures |P.FieldCode(v, Checkered(a, p, q, bands), 16, 3 * bands + 1, nbits, 3)|
      == BusyBits(nbits, cont, P.ResidualWidth(v, P.WidthCode(v, 2 * a)), p, q, bands) + cont * (5 * (bands - q))
  {
    hide P.WidthCode, P.ResidualWidth, Banded, Checkered, P.Residuals, TilesFrom, P.TilesCode, TileFrom, Flat,
      WalkBits;
    var g, width := Checkered(a, p, q, bands), P.ResidualWidth(v, P.WidthCode(v, 2 * a));
    var d := P.Residuals(g, 16);
    CheckeredBanded(a, p, q, bands);
    BorderLength(v, g, bands, nbits);
    WalkCode(v, cont, d, 2 * a, p, q, bands, 0, 0);
    WalkTotal(cont, width, p, q, bands, 0, 0);
    P.Distribute(cont, 5 * q, 5 * (bands - q));
  }

  /** The packer does not give up. */
  lemma CheckeredAffordable(a: nat, p: nat, q: nat, bands: nat, nbits: nat, code: nat, space: int)
    requires p < q <= bands && P.WidthCode(P.Mantissa, 2 * a) == code != 0
    requires var end := BusyBits(nbits, 5, code + 1, p, q, bands);
      end >= 0 && space >= (end - 1) / 32 + (1 + (code + 9 * nbits) / 32)
    ensures P.WithinBudget(P.Mantissa, Checkered(a, p, q, bands), 16, 3 * bands + 1, nbits, 3, space)
  {
    hide P.WidthCode, Banded, Checkered, P.Residuals, TilesFrom, P.BorderBits, WalkBits, P.Affordable;
    var g := Checkered(a, p, q, bands);
    CheckeredBanded(a, p, q, bands);
    BorderLength(P.Mantissa, g, bands, nbits);
    NothingNeedsNoBits();
    WalkTotal(5, code + 1, p, q, bands, 0, 0);
    WalkTotal(5, code + 1, p, q, bands, q, 0);
    P.Distribute(5, 5 * q, 5 * (bands - q));
    MulStep(9 * (code + 1), 0);
    WalkAffordable(5, P.Residuals(g, 16), 2 * a, p, q, bands, 0, 0, nbits, 3 + nbits * (16 + 3 * bands),
      BusyBits(nbits, 5, code + 1, p, q, bands), space);
  }

  lemma NothingNeedsNoBits()
    ensures P.WidthCode(P.Mantissa, 0) == 0 && P.WidthCode(P.Byte, 0) == 0
  {
  }

  lemma CheckeredEnd(a: nat, p: nat, q: nat, bands: nat)
    requires p < q <= bands && P.WidthCode(P.Mantissa, 2 * a) != 0
    ensures P.EndsWithErrors(P.Mantissa, Checkered(a, p, q, bands), 16, 3 * bands + 1, 3) <==> q == bands
  {
    hide P.WidthCode, Banded, Checkered, P.Residuals, TilesFrom, P.MaxAbs, BandTile;
    var d := P.Residuals(Checkered(a, p, q, bands), 16);
    CheckeredBanded(a, p, q, bands);
    WalkEnds(d, bands, 0, 0);
    BandTileLevel(d, 2 * a, p, q, bands, bands - 1, 4);
    NothingNeedsNoBits();
  }

  // ----- floats with checkered exponents and mantissas -----

  function Value(high: bool, ones: bool): Word {
    (if high then 131 else 100) * 0x80_0000 + if ones then 0x7F_FFFF else 0
  }

  /** Positive floats, all exponents 100 or 131, all mantissas zeros or ones. */
  function Floats(p: nat, q: nat, bands: nat): (g: seq<Word>)
    ensures |g| == Size(bands)
  {
    seq(Size(bands), k requires 0 <= k < Size(bands) =>
      Value(Dark(0, bands, k % 16 + 1, k / 16 + 1), Dark(p, q, k % 16 + 1, k / 16 + 1)))
  }

  lemma {:induction false} ShrOnes(m: nat, k: nat)
    ensures Shr(Pow2(m + k) - 1, k) == Pow2(m) - 1
    decreases k
  {
    if k > 0 {
      assert (Pow2(m + k) - 1) / 2 == Pow2(m + (k - 1)) - 1;
      ShrOnes(m, k - 1);
    }
  }

  lemma {:induction false} ShrZero(k: nat)
    ensures Shr(0, k) == 0
    decreases k
  {
    if k > 0 { ShrZero(k - 1); }
  }

  lemma ValueParts(high: bool, ones: bool, nbits: nat)
    requires nbits <= 23
    ensures var w := Value(high, ones);
      && Sign(w) == 0 && Exponent(w) == (if high then 131 else 100)
      && Mantissa(w, nbits) == if ones then Pow2(nbits) - 1 else 0
  {
    hide Shr, Pow2;
    Pow23();
    ShrOnes(nbits, 23 - nbits);
    ShrZero(23 - nbits);
  }

  lemma FloatsParts(p: nat, q: nat, bands: nat, nbits: nat)
    requires nbits <= 23
    ensures var g := Floats(p, q, bands);
      && SameSign(g) && ExponentWidth(g) == 5 && ExponentOffsets(g) == Checkered(31, 0, bands, bands)
      && Mantissas(g, nbits) == Checkered(Pow2(nbits) - 1, p, q, bands)
  {
    hide Sign, Exponent, Mantissa, Value, Pow2, Dark;
    var g := Floats(p, q, bands);
    forall k | 0 <= k < |g|
      ensures Sign(g[k]) == 0 && Exponent(g[k]) == 100 + Shade(31, 0, bands, k % 16 + 1, k / 16 + 1)
      ensures Mantissa(g[k], nbits) == Shade(Pow2(nbits) - 1, p, q, k % 16 + 1, k / 16 + 1)
    {
      ValueParts(Dark(0, bands, k % 16 + 1, k / 16 + 1), Dark(p, q, k % 16 + 1, k / 16 + 1), nbits);
    }
    FloatsBase(p, q, bands);
  }

  lemma FloatsBase(p: nat, q: nat, bands: nat)
    ensures var g := Floats(p, q, bands); ExponentBase(g) == 100 && ExponentWidth(g) == 5
  {
    hide M.MinOf, M.MaxOf, Floats, Exponents;
    var e := Exponents(Floats(p, q, bands));
    FloatsExponents(p, q, bands);
    M.Extremes(e);
    assert e[0] == 100 && e[1] == 131;
    assert BitLength(31) == 5;
  }

  lemma FloatsExponents(p: nat, q: nat, bands: nat)
    ensures var e := Exponents(Floats(p, q, bands));
      && |e| >= 2 && e[0] == 100 && e[1] == 131 && forall k :: 0 <= k < |e| ==> e[k] == 100 || e[k] == 131
  {
    hide Exponent, Value, Dark;
    var e := Exponents(Floats(p, q, bands));
    forall k | 0 <= k < |e|
      ensures e[k] == if Dark(0, bands, k % 16 + 1, k / 16 + 1) then 131 else 100
    {
      ValueParts(Dark(0, bands, k % 16 + 1, k / 16 + 1), Dark(p, q, k % 16 + 1, k / 16 + 1), 0);
    }
    FirstTwo(bands);
  }

  lemma FirstTwo(bands: nat)
    ensures !Dark(0, bands, 0 % 16 + 1, 0 / 16 + 1) && Dark(0, bands, 1 % 16 + 1, 1 / 16 + 1)
  {
  }

  lemma ErrorCodes(nbits: nat)
    requires 1 <= nbits <= 23
    ensures P.WidthCode(P.Byte, 62) == 6
    ensures P.WidthCode(P.Mantissa, 2 * (Pow2(nbits) - 1)) == nbits + 1
  {
    hide Pow2;
    NbitsNeededIsLength(62);
    AllOnes(nbits);
    Pow2Double(nbits);
    OnesLength(nbits);
  }

  lemma AllOnes(nbits: nat)
    requires nbits >= 1
    ensures Pow2(nbits) >= 2
  {
  }

  lemma {:induction false} OnesLength(n: nat)
    requires n >= 1
    ensures BitLength(2 * (Pow2(n) - 1)) == n + 1
  {
    if n == 1 {
      assert BitLength(2) == 2;
    } else {
      assert 2 * (Pow2(n) - 1) / 2 == 2 * (Pow2(n - 1) - 1) + 1;
      OnesLength(n - 1);
      EvenLength(2 * (Pow2(n - 1) - 1));
    }
  }

  lemma EvenLength(m: nat)
    requires m >= 2 && m % 2 == 0
    ensures BitLength(m + 1) == BitLength(m)
  {
  }

  // ----- the length of their compressed form -----

  lemma FloatsStreams(p: nat, q: nat, bands: nat, nbits: nat)
    requires p < q <= bands && 1 <= nbits <= 23
    ensures var g := Floats(p, q, bands);
      && |ExponentCode(g, 16, 3 * bands + 1)| == 83 + 350 * bands
      && MantissaSlot(g, 16, 3 * bands + 1) == FloatsSlot(bands)
      && |MantissaCode(g, 16, 3 * bands + 1, nbits)|
        == BusyBits(nbits, 5, nbits + 2, p, q, bands) + 5 * (5 * (bands - q))
  {
    hide Floats, P.FieldCode, Checkered, ExponentWidth, ExponentOffsets, Mantissas, P.WidthCode, Pow2, SameSign;
    FloatsParts(p, q, bands, nbits);
    ErrorCodes(nbits);
    NothingNeedsNoBits();
    CheckeredCode(P.Byte, 4, 31, 0, bands, bands, 5);
    CheckeredCode(P.Mantissa, 5, Pow2(nbits) - 1, p, q, bands, nbits);
  }

  /** A field that compression accepts, and whether the last tile of its mantissas has errors. */
  ghost predicate Accepted(g: seq<Word>, ni: nat, nj: nat, znbits: nat, ends: bool)
    requires 10 <= znbits <= 32
  {
    && |g| == ni * nj && ni * nj * znbits < 0x8000_0000 && !Refused(g, ni, nj, znbits)
    && (P.EndsWithErrors(P.Mantissa, Mantissas(g, znbits - 9), ni, nj, 3) <==> ends)
  }

  /** The compressed field is no longer than one of znbits-bit tokens. */
  ghost predicate NoLonger(g: seq<Word>, ni: nat, nj: nat, znbits: nat)
    requires 10 <= znbits <= 32
  {
    CompressedLength(g, ni, nj, znbits - 9) <= 4 * (ni * nj * znbits / 32)
  }

  lemma FloatsOverlong(p: nat, q: nat, bands: nat, znbits: nat)
    requires 10 <= znbits <= 32 && Overlong(p, q, bands, znbits - 9)
    ensures var g := Floats(p, q, bands);
      Accepted(g, 16, 3 * bands + 1, znbits, q == bands) && !NoLonger(g, 16, 3 * bands + 1, znbits)
  {
    hide Floats, P.FieldCode, Checkered, ExponentWidth, ExponentOffsets, Mantissas, MantissaSlot, P.WidthCode, Pow2,
      P.WithinBudget, P.EndsWithErrors, SameSign, MantissaCode, ExponentCode, BusyBits;
    var nbits := znbits - 9;
    FloatsStreams(p, q, bands, nbits);
    FloatsParts(p, q, bands, nbits);
    ErrorCodes(nbits);
    BusyIsPositive(nbits, p, q, bands);
    ExponentsFitBytes(bands, nbits);
    CheckeredEnd(Pow2(nbits) - 1, p, q, bands);
    CheckeredAffordable(Pow2(nbits) - 1, p, q, bands, nbits, nbits + 1,
      Compress32.Remaining(Floats(p, q, bands), 16, 3 * bands + 1, znbits));
  }

  lemma BusyIsPositive(nbits: nat, p: nat, q: nat, bands: nat)
    requires p < q <= bands
    ensures BusyBits(nbits, 5, nbits + 2, p, q, bands) >= 0
  {
    assert nbits * (16 + 3 * bands) >= 0 && 9 * (nbits + 2) * (5 * (q - p)) >= 0;
  }

  /**
    No accepted field takes more room compressed than it had exactly when there are at least 13 bits to a token and the
    last tile of the mantissas has errors: the packer looks at the space left after each tile with errors and only
    there, and with fewer bits keeps none in reserve.
   */
  lemma NeverLonger(znbits: nat, ends: bool)
    requires 10 <= znbits <= 32
    ensures (forall g, ni, nj :: Accepted(g, ni, nj, znbits, ends) ==> NoLonger(g, ni, nj, znbits))
      <==> (znbits >= 13 && ends)
  {
    hide Accepted, NoLonger, Floats, Overlong;
    if znbits >= 13 && ends {
      forall g, ni, nj | Accepted(g, ni, nj, znbits, ends) ensures NoLonger(g, ni, nj, znbits) {
        KeepsAWord(g, ni, nj, znbits);
      }
    } else {
      var (p, q, bands) := Witness(znbits - 9, ends);
      WitnessOverlong(znbits - 9, ends);
      FloatsOverlong(p, q, bands, znbits);
    }
  }

  lemma KeepsAWord(g: seq<Word>, ni: nat, nj: nat, znbits: nat)
    requires 13 <= znbits <= 32 && Accepted(g, ni, nj, znbits, true)
    ensures NoLonger(g, ni, nj, znbits)
  {
    hide MantissaSlot, MantissaCode, MantissasOverBudget, ExponentsTooLong, Mantissas, P.EndsWithErrors;
    NoLongerThanField(g, ni, nj, znbits);
  }
}
