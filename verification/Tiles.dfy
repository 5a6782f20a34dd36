/**
  Two-dimensional fields stored by rows, and the walk of the compressors over them: tiles of step x step
  cells, cut off at the edges, row by row from the cell (origin, origin).
 */
module Tiles {

  /** FTN2C(i, j, ni), defined by rows to keep it linear; see AtIsFtn2c. */
  function At(i: int, j: int, ni: nat): int
    decreases j
  {
    if j <= 1 then i - 1 else ni + At(i, j - 1, ni)
  }

  lemma {:induction false} AtIsFtn2c(i: int, j: int, ni: nat)
    requires j >= 1
    ensures At(i, j, ni) == ni * (j - 1) + i - 1
  {
    if j > 1 {
      AtIsFtn2c(i, j - 1, ni);
      assert ni * (j - 2) + ni == ni * (j - 1);
    }
  }

  lemma {:induction false} AtBounds(i: int, j: int, ni: nat, nj: nat)
    requires 1 <= i <= ni && 1 <= j <= nj
    ensures 0 <= At(i, j, ni) < ni * nj
  {
    AtIsFtn2c(i, j, ni);
    assert ni * (j - 1) >= 0;
    assert ni * nj - ni * (j - 1) == ni * (nj - j + 1);
    assert ni * (nj - j) >= 0;
  }

  lemma {:induction false} AtShift(i: int, j: int, d: int, ni: nat)
    ensures At(i + d, j, ni) == At(i, j, ni) + d
    decreases j
  {
    if j > 1 { AtShift(i, j - 1, d, ni); }
  }

  lemma {:induction false} AtInjective(i: int, j: int, i': int, j': int, ni: nat)
    requires 1 <= i <= ni && 1 <= i' <= ni && j >= 1 && j' >= 1
    requires At(i, j, ni) == At(i', j', ni)
    ensures i == i' && j == j'
    decreases j + j'
  {
    if j > 1 && j' > 1 {
      AtInjective(i, j - 1, i', j' - 1, ni);
    } else if j > 1 {
      AtAtLeast(i, j - 1, ni);
    } else if j' > 1 {
      AtAtLeast(i', j' - 1, ni);
    }
  }

  lemma {:induction false} AtAtLeast(i: int, j: int, ni: nat)
    requires i >= 1
    ensures At(i, j, ni) >= i - 1
    decreases j
  {
    if j > 1 { AtAtLeast(i, j - 1, ni); }
  }

  /** Writing one cell leaves the others alone. */
  lemma AtDistinct(i: int, j: int, ni: nat, nj: nat)
    requires 1 <= i <= ni && 1 <= j <= nj
    ensures forall a, b :: 1 <= a <= ni && 1 <= b <= nj && (a != i || b != j) ==> At(a, b, ni) != At(i, j, ni)
  {
    forall a, b | 1 <= a <= ni && 1 <= b <= nj && (a != i || b != j)
      ensures At(a, b, ni) != At(i, j, ni)
    {
      if At(a, b, ni) == At(i, j, ni) { AtInjective(a, b, i, j, ni); }
    }
  }

  lemma RowBound(ni: nat, q: nat, nj: nat)
    requires ni * q < ni * nj
    ensures q < nj
  {
    assert ni * nj - ni * q == ni * (nj - q);
    if q >= nj { NotPositive(ni, nj - q); }
  }

  lemma NotPositive(a: nat, b: int)
    requires b <= 0
    ensures a * b <= 0
  {
  }

  /** Every index is the index of a cell. */
  lemma AtSurjective(k: nat, ni: nat, nj: nat) returns (i: int, j: int)
    requires k < ni * nj
    ensures 1 <= i <= ni && 1 <= j <= nj && At(i, j, ni) == k
  {
    assert ni > 0;
    i, j := k % ni + 1, k / ni + 1;
    assert k == ni * (j - 1) + (i - 1);
    RowBound(ni, j - 1, nj);
    AtIsFtn2c(i, j, ni);
  }

  /** The value of a cell; 0 outside the field. */
  function Cell(g: seq<int>, ni: nat, i: int, j: int): int {
    var k := At(i, j, ni);
    if 0 <= k < |g| then g[k] else 0
  }

  lemma SameCells(f: seq<int>, g: seq<int>, ni: nat, nj: nat)
    requires |f| == |g| == ni * nj
    requires forall a, b :: 1 <= a <= ni && 1 <= b <= nj ==> Cell(f, ni, a, b) == Cell(g, ni, a, b)
    ensures f == g
  {
    forall k | 0 <= k < |f| ensures f[k] == g[k] {
      var a, b := AtSurjective(k, ni, nj);
      assert Cell(f, ni, a, b) == Cell(g, ni, a, b);
    }
  }

  /** lcl_m and lcl_n: how far the tile starting at i goes beyond it. */
  function Extent(i: int, step: int, n: int): int {
    if i + step - 1 >= n then n - i else step - 1
  }

  /** The cells of a tile still to come at the loop position (n, m). */
  function TileFrom(g: seq<int>, ni: nat, i: int, j: int, lm: int, ln: int, n: int, m: int): (vs: seq<int>)
    decreases ln - n, lm - m
  {
    if n > ln then []
    else if m > lm then TileFrom(g, ni, i, j, lm, ln, n + 1, 0)
    else [Cell(g, ni, i + m, j + n)] + TileFrom(g, ni, i, j, lm, ln, n, m + 1)
  }

  lemma TileStep(g: seq<int>, ni: nat, i: int, j: int, lm: int, ln: int, n: int, m: int)
    requires n <= ln && m <= lm
    ensures TileFrom(g, ni, i, j, lm, ln, n, m) == [Cell(g, ni, i + m, j + n)] + TileFrom(g, ni, i, j, lm, ln, n, m + 1)
  {
  }

  lemma TileRowEnd(g: seq<int>, ni: nat, i: int, j: int, lm: int, ln: int, n: int)
    requires n <= ln
    ensures TileFrom(g, ni, i, j, lm, ln, n, lm + 1) == TileFrom(g, ni, i, j, lm, ln, n + 1, 0)
  {
  }

  lemma TileEnd(g: seq<int>, ni: nat, i: int, j: int, lm: int, ln: int)
    ensures TileFrom(g, ni, i, j, lm, ln, ln + 1, 0) == []
  {
  }

  /** The cell at (i, j), read through the index macro. */
  lemma CellAt(g: seq<int>, i: int, j: int, ni: nat, nj: nat)
    requires 1 <= i <= ni && 1 <= j <= nj && |g| == ni * nj
    ensures 0 <= At(i, j, ni) < |g| && g[At(i, j, ni)] == Cell(g, ni, i, j)
  {
    AtBounds(i, j, ni, nj);
  }

  predicate Below(vs: seq<int>, bound: int) {
    forall k :: 0 <= k < |vs| ==> 0 <= vs[k] < bound
  }

  lemma {:induction false} TileBelow(g: seq<int>, ni: nat, i: int, j: int, lm: int, ln: int, n: int, m: int, bound: int)
    requires Below(g, bound) && bound > 0
    ensures Below(TileFrom(g, ni, i, j, lm, ln, n, m), bound)
    decreases ln - n, lm - m
  {
    if n > ln {
    } else if m > lm {
      TileBelow(g, ni, i, j, lm, ln, n + 1, 0, bound);
    } else {
      TileBelow(g, ni, i, j, lm, ln, n, m + 1, bound);
    }
  }

  /** All the cells of the tile at (i, j). */
  function Tile(g: seq<int>, ni: nat, nj: nat, step: int, i: int, j: int): (vs: seq<int>) {
    TileFrom(g, ni, i, j, Extent(i, step, ni), Extent(j, step, nj), 0, 0)
  }

  /** The tiles still to come at the loop position (j, i). */
  function TilesFrom(g: seq<int>, ni: nat, nj: nat, step: int, origin: int, j: int, i: int): (ts: seq<seq<int>>)
    requires step >= 1
    decreases nj - j, ni - i
  {
    if j > nj then []
    else if i > ni then TilesFrom(g, ni, nj, step, origin, j + step, origin)
    else [Tile(g, ni, nj, step, i, j)] + TilesFrom(g, ni, nj, step, origin, j, i + step)
  }

  lemma TilesStep(g: seq<int>, ni: nat, nj: nat, step: int, origin: int, j: int, i: int)
    requires step >= 1 && j <= nj && i <= ni
    ensures TilesFrom(g, ni, nj, step, origin, j, i)
         == [Tile(g, ni, nj, step, i, j)] + TilesFrom(g, ni, nj, step, origin, j, i + step)
  {
  }

  lemma TilesBandEnd(g: seq<int>, ni: nat, nj: nat, step: int, origin: int, j: int, i: int)
    requires step >= 1 && j <= nj && i > ni
    ensures TilesFrom(g, ni, nj, step, origin, j, i) == TilesFrom(g, ni, nj, step, origin, j + step, origin)
  {
  }

  lemma TilesEnd(g: seq<int>, ni: nat, nj: nat, step: int, origin: int, j: int, i: int)
    requires step >= 1 && j > nj
    ensures TilesFrom(g, ni, nj, step, origin, j, i) == []
  {
  }

  /** The cell (i, j) set to v. */
  function Put(out: seq<int>, ni: nat, i: int, j: int, v: int): (r: seq<int>)
    ensures |r| == |out|
  {
    var k := At(i, j, ni);
    if 0 <= k < |out| then out[k := v] else out
  }

  /** Copying the cells of a tile from g that come from (n, m) on. */
  ghost function PutTile(out: seq<int>, g: seq<int>, ni: nat, i: int, j: int, lm: int, ln: int, n: int,
      m: int): (r: seq<int>)
    ensures |r| == |out|
    decreases ln - n, lm - m
  {
    if n > ln then out
    else if m > lm then PutTile(out, g, ni, i, j, lm, ln, n + 1, 0)
    else PutTile(Put(out, ni, i + m, j + n, Cell(g, ni, i + m, j + n)), g, ni, i, j, lm, ln, n, m + 1)
  }

  /** Copying the tiles from (j, i) on. */
  ghost function PutTiles(out: seq<int>, g: seq<int>, ni: nat, nj: nat, step: int, origin: int, j: int,
      i: int): (r: seq<int>)
    requires step >= 1
    ensures |r| == |out|
    decreases nj - j, ni - i
  {
    if j > nj then out
    else if i > ni then PutTiles(out, g, ni, nj, step, origin, j + step, origin)
    else PutTiles(PutTile(out, g, ni, i, j, Extent(i, step, ni), Extent(j, step, nj), 0, 0), g, ni, nj, step, origin,
      j, i + step)
  }

  lemma PutTileStep(out: seq<int>, g: seq<int>, ni: nat, i: int, j: int, lm: int, ln: int, n: int, m: int)
    requires n <= ln && m <= lm
    requires 0 <= At(i + m, j + n, ni) < |out|
    ensures PutTile(out, g, ni, i, j, lm, ln, n, m)
         == PutTile(out[At(i + m, j + n, ni) := Cell(g, ni, i + m, j + n)], g, ni, i, j, lm, ln, n, m + 1)
  {
  }

  lemma PutTileRowEnd(out: seq<int>, g: seq<int>, ni: nat, i: int, j: int, lm: int, ln: int, n: int)
    requires n <= ln
    ensures PutTile(out, g, ni, i, j, lm, ln, n, lm + 1) == PutTile(out, g, ni, i, j, lm, ln, n + 1, 0)
  {
  }

  lemma PutTileEnd(out: seq<int>, g: seq<int>, ni: nat, i: int, j: int, lm: int, ln: int)
    ensures PutTile(out, g, ni, i, j, lm, ln, ln + 1, 0) == out
  {
  }

  lemma PutTilesStep(out: seq<int>, g: seq<int>, ni: nat, nj: nat, step: int, origin: int, j: int, i: int)
    requires step >= 1 && j <= nj && i <= ni
    ensures PutTiles(out, g, ni, nj, step, origin, j, i)
         == PutTiles(PutTile(out, g, ni, i, j, Extent(i, step, ni), Extent(j, step, nj), 0, 0), g, ni, nj, step,
           origin, j, i + step)
  {
  }

  lemma PutTilesBandEnd(out: seq<int>, g: seq<int>, ni: nat, nj: nat, step: int, origin: int, j: int, i: int)
    requires step >= 1 && j <= nj && i > ni
    ensures PutTiles(out, g, ni, nj, step, origin, j, i) == PutTiles(out, g, ni, nj, step, origin, j + step, origin)
  {
  }

  lemma PutTilesEnd(out: seq<int>, g: seq<int>, ni: nat, nj: nat, step: int, origin: int, j: int, i: int)
    requires step >= 1 && j > nj
    ensures PutTiles(out, g, ni, nj, step, origin, j, i) == out
  {
  }

  lemma PutCell(out: seq<int>, ni: nat, nj: nat, i: int, j: int, v: int, a: int, b: int)
    requires |out| == ni * nj && 1 <= i <= ni && 1 <= j <= nj && 1 <= a <= ni && 1 <= b <= nj
    ensures Cell(Put(out, ni, i, j, v), ni, a, b) == if a == i && b == j then v else Cell(out, ni, a, b)
  {
    AtBounds(i, j, ni, nj);
    AtDistinct(i, j, ni, nj);
  }

  lemma {:induction false} PutTileCell(out: seq<int>, g: seq<int>, ni: nat, nj: nat, i: int, j: int, lm: int, ln: int,
      n: int, m: int, a: int, b: int)
    requires |out| == ni * nj && 1 <= i && 1 <= j && i + lm <= ni && j + ln <= nj && 1 <= a <= ni && 1 <= b <= nj
    requires 0 <= n && 0 <= m
    ensures Cell(PutTile(out, g, ni, i, j, lm, ln, n, m), ni, a, b)
         == if i <= a <= i + lm && ((b == j + n && b <= j + ln && a >= i + m) || j + n < b <= j + ln)
           then Cell(g, ni, a, b) else Cell(out, ni, a, b)
    decreases ln - n, lm - m
  {
    hide Cell, Put, At;
    if n > ln {
    } else if m > lm {
      PutTileCell(out, g, ni, nj, i, j, lm, ln, n + 1, 0, a, b);
    } else {
      var v := Cell(g, ni, i + m, j + n);
      PutTileCell(Put(out, ni, i + m, j + n, v), g, ni, nj, i, j, lm, ln, n, m + 1, a, b);
      PutCell(out, ni, nj, i + m, j + n, v, a, b);
    }
  }

  /** The walk has still to reach the cell (a, b) at the loop position (j, i). */
  predicate ToCome(ni: nat, nj: nat, step: int, origin: int, j: int, i: int, a: int, b: int) {
    || (j <= b <= j + Extent(j, step, nj) && a >= i)
    || (b > j + Extent(j, step, nj) && a >= origin && j <= nj)
  }

  /** The tile walk reaches every cell from the origin on: each is copied, and nothing else is. */
  lemma {:induction false} PutTilesCell(out: seq<int>, g: seq<int>, ni: nat, nj: nat, step: int, origin: int, j: int,
      i: int, a: int, b: int)
    requires |out| == ni * nj && step >= 1 && 1 <= origin <= i && 1 <= j && 1 <= a <= ni && 1 <= b <= nj
    ensures Cell(PutTiles(out, g, ni, nj, step, origin, j, i), ni, a, b)
         == if ToCome(ni, nj, step, origin, j, i, a, b) then Cell(g, ni, a, b) else Cell(out, ni, a, b)
    decreases nj - j, ni - i
  {
    hide Cell, Put, At, PutTile;
    if j > nj {
    } else if i > ni {
      PutTilesCell(out, g, ni, nj, step, origin, j + step, origin, a, b);
    } else {
      var lm, ln := Extent(i, step, ni), Extent(j, step, nj);
      PutTilesCell(PutTile(out, g, ni, i, j, lm, ln, 0, 0), g, ni, nj, step, origin, j, i + step, a, b);
      PutTileCell(out, g, ni, nj, i, j, lm, ln, 0, 0, a, b);
    }
  }

  /** The cells (i, j) at which the tiles start that are still to come at the loop position (j, i). */
  function TileStarts(ni: nat, nj: nat, step: int, origin: int, j: int, i: int): (ss: seq<(int, int)>)
    requires step >= 1
    decreases nj - j, ni - i
  {
    if j > nj then []
    else if i > ni then TileStarts(ni, nj, step, origin, j + step, origin)
    else [(i, j)] + TileStarts(ni, nj, step, origin, j, i + step)
  }

  /** The cell (a, b) is in the tile that starts at (i, j). */
  predicate InTile(start: (int, int), ni: nat, nj: nat, step: int, a: int, b: int) {
    var (i, j) := start;
    i <= a <= i + Extent(i, step, ni) && j <= b <= j + Extent(j, step, nj)
  }

  /** The tiles of the walk are the tiles at these starts, in this order. */
  lemma {:induction false} TilesAtStarts(g: seq<int>, ni: nat, nj: nat, step: int, origin: int, j: int, i: int)
    requires step >= 1
    ensures var ts, ss := TilesFrom(g, ni, nj, step, origin, j, i), TileStarts(ni, nj, step, origin, j, i);
      |ts| == |ss| && forall k :: 0 <= k < |ts| ==> ts[k] == Tile(g, ni, nj, step, ss[k].0, ss[k].1)
    decreases nj - j, ni - i
  {
    hide Tile;
    if j > nj {
    } else if i > ni {
      TilesAtStarts(g, ni, nj, step, origin, j + step, origin);
    } else {
      TilesAtStarts(g, ni, nj, step, origin, j, i + step);
    }
  }

  lemma ReachedOnce(ni: nat, nj: nat, step: int, origin: int, j: int, i: int, a: int, b: int)
    requires step >= 1 && 1 <= origin <= i && 1 <= j <= nj && 1 <= a <= ni && 1 <= b <= nj
    ensures var now, later := InTile((i, j), ni, nj, step, a, b), ToCome(ni, nj, step, origin, j, i + step, a, b);
      !(now && later) && (i <= ni ==> (ToCome(ni, nj, step, origin, j, i, a, b) <==> now || later))
    ensures i > ni ==> (ToCome(ni, nj, step, origin, j, i, a, b)
      <==> ToCome(ni, nj, step, origin, j + step, origin, a, b))
  {
  }

  /** The cell is in tile k and in no other; in none when k is -1. */
  ghost predicate OnlyIn(ss: seq<(int, int)>, k: int, ni: nat, nj: nat, step: int, a: int, b: int) {
    -1 <= k < |ss| && forall l :: 0 <= l < |ss| ==> (InTile(ss[l], ni, nj, step, a, b) <==> l == k)
  }

  lemma OnlyInFront(s: (int, int), rest: seq<(int, int)>, k: int, ni: nat, nj: nat, step: int, a: int, b: int)
    requires OnlyIn(rest, k, ni, nj, step, a, b) && (InTile(s, ni, nj, step, a, b) ==> k == -1)
    ensures OnlyIn([s] + rest, if InTile(s, ni, nj, step, a, b) then 0 else if k < 0 then -1
      else k + 1, ni, nj, step, a, b)
  {
    hide InTile;
    var ss, k' := [s] + rest, if InTile(s, ni, nj, step, a, b) then 0 else if k < 0 then -1 else k + 1;
    forall l | 0 <= l < |ss| ensures InTile(ss[l], ni, nj, step, a, b) <==> l == k' {
      if l > 0 { assert ss[l] == rest[l - 1]; }
    }
  }

  /** A cell that the walk has still to reach is in one tile and in no other; one that it has passed is in none. */
  lemma {:induction false} CellInOneTile(ni: nat, nj: nat, step: int, origin: int, j: int, i: int, a: int, b: int)
    returns (k: int)
    requires step >= 1 && 1 <= origin <= i && 1 <= j && 1 <= a <= ni && 1 <= b <= nj
    ensures OnlyIn(TileStarts(ni, nj, step, origin, j, i), k, ni, nj, step, a, b)
    ensures k >= -1 && (k >= 0 <==> ToCome(ni, nj, step, origin, j, i, a, b))
    decreases nj - j, ni - i
  {
    hide InTile, OnlyIn, ToCome;
    if j > nj {
      k := NoTileBelow(ni, nj, step, origin, j, i, a, b);
    } else {
      ReachedOnce(ni, nj, step, origin, j, i, a, b);
      if i > ni {
        k := CellInOneTile(ni, nj, step, origin, j + step, origin, a, b);
      } else {
        var rest := CellInOneTile(ni, nj, step, origin, j, i + step, a, b);
        k := if InTile((i, j), ni, nj, step, a, b) then 0 else if rest < 0 then -1 else rest + 1;
        OnlyInFront((i, j), TileStarts(ni, nj, step, origin, j, i + step), rest, ni, nj, step, a, b);
      }
    }
  }

  lemma NoTileBelow(ni: nat, nj: nat, step: int, origin: int, j: int, i: int, a: int, b: int) returns (k: int)
    requires step >= 1 && b <= nj < j
    ensures k == -1 && OnlyIn(TileStarts(ni, nj, step, origin, j, i), k, ni, nj, step, a, b)
      && !ToCome(ni, nj, step, origin, j, i, a, b)
  {
    k := -1;
  }

  /** Different tiles of a walk share no cell, and the tiles leave out none from the origin on. */
  lemma TilesPartition(ni: nat, nj: nat, step: int, origin: int, a: int, b: int)
    requires step >= 1 && origin >= 1 && 1 <= a <= ni && 1 <= b <= nj
    ensures var ss := TileStarts(ni, nj, step, origin, origin, origin);
      && (forall k, l :: 0 <= k < l < |ss| ==>
          !(InTile(ss[k], ni, nj, step, a, b) && InTile(ss[l], ni, nj, step, a, b)))
      && ((exists k :: 0 <= k < |ss| && InTile(ss[k], ni, nj, step, a, b)) <==> a >= origin && b >= origin)
  {
    hide InTile, TileStarts;
    var k := CellInOneTile(ni, nj, step, origin, origin, origin, a, b);
    if k >= 0 {
      assert InTile(TileStarts(ni, nj, step, origin, origin, origin)[k], ni, nj, step, a, b);
    }
  }

  function TotalCells(ts: seq<seq<int>>): (n: nat)
  {
    if ts == [] then 0 else |ts[0]| + TotalCells(ts[1..])
  }

  lemma {:induction false} TileFromLength(g: seq<int>, ni: nat, i: int, j: int, lm: int, ln: int, n: int, m: int)
    requires 0 <= n <= ln + 1 && 0 <= m <= lm + 1 && lm >= 0 && (n > ln ==> m == 0)
    ensures |TileFrom(g, ni, i, j, lm, ln, n, m)| == (ln + 1 - n) * (lm + 1) - m
    decreases ln - n, lm - m
  {
    if n <= ln {
      if m > lm {
        TileFromLength(g, ni, i, j, lm, ln, n + 1, 0);
        assert (ln + 1 - n) * (lm + 1) == (ln + 1 - (n + 1)) * (lm + 1) + (lm + 1);
      } else {
        TileFromLength(g, ni, i, j, lm, ln, n, m + 1);
      }
    }
  }

  /** The cells of a tile are listed row by row. */
  lemma CellOfTile(g: seq<int>, ni: nat, i: int, j: int, lm: nat, ln: nat, m: nat, n: nat)
    requires m <= lm && n <= ln
    ensures var vs := TileFrom(g, ni, i, j, lm, ln, 0, 0);
      |vs| == (ln + 1) * (lm + 1) && n * (lm + 1) + m < |vs| && vs[n * (lm + 1) + m] == Cell(g, ni, i + m, j + n)
  {
    hide Cell;
    TileFromLength(g, ni, i, j, lm, ln, 0, 0);
    CellBehind(g, ni, i, j, lm, ln, 0, 0, m, n);
  }

  /** The cell (m, n) of a tile, as seen from the loop position (n0, m0). */
  lemma {:induction false} CellBehind(g: seq<int>, ni: nat, i: int, j: int, lm: nat, ln: nat, n0: int, m0: int, m: int,
      n: int)
    requires 0 <= m <= lm && n0 <= n <= ln && 0 <= m0 <= lm + 1 && (n == n0 ==> m0 <= m)
    ensures var vs, k := TileFrom(g, ni, i, j, lm, ln, n0, m0), (n - n0) * (lm + 1) + m - m0;
      0 <= k < |vs| && vs[k] == Cell(g, ni, i + m, j + n)
    decreases ln - n0, lm - m0
  {
    hide Cell, TileFrom;
    RowLess(n, n0, lm + 1);
    if m0 > lm {
      TileRowEnd(g, ni, i, j, lm, ln, n0);
      CellBehind(g, ni, i, j, lm, ln, n0 + 1, 0, m, n);
    } else {
      TileStep(g, ni, i, j, lm, ln, n0, m0);
      if n > n0 || m > m0 { CellBehind(g, ni, i, j, lm, ln, n0, m0 + 1, m, n); }
    }
  }

  lemma RowLess(n: int, n0: int, width: int)
    ensures (n - n0) * width == (n - (n0 + 1)) * width + width
    ensures n == n0 ==> (n - n0) * width == 0
  {
  }

  /** The tiles go along the rows of tiles, `cols` to a row. */
  lemma {:induction false} TileStartAt(ni: nat, nj: nat, step: int, origin: int, j: int, cols: nat, x: nat, y: nat)
    requires step >= 1 && cols >= 1 && origin + step * (cols - 1) <= ni < origin + step * cols
    requires x < cols && j + step * y <= nj
    ensures var ss := TileStarts(ni, nj, step, origin, j, origin);
      y * cols + x < |ss| && ss[y * cols + x] == (origin + step * x, j + step * y)
    decreases y
  {
    hide TileStarts;
    Product(step, x, cols - 1);
    Product(step, 0, y);
    StartsOfRow(ni, nj, step, origin, j, origin, cols, x);
    if y > 0 {
      Product(step, y - 1, y);
      TileStartAt(ni, nj, step, origin, j + step, cols, x, y - 1);
      BehindRow(TileStarts(ni, nj, step, origin, j, origin), TileStarts(ni, nj, step, origin, j + step, origin), cols,
        x, y);
    }
  }

  lemma BehindRow<T>(s: seq<T>, rest: seq<T>, cols: nat, x: nat, y: nat)
    requires y > 0 && cols <= |s| && s[cols..] == rest && (y - 1) * cols + x < |rest|
    ensures y * cols + x < |s| && s[y * cols + x] == rest[(y - 1) * cols + x]
  {
    assert y * cols == (y - 1) * cols + cols;
  }

  /** The starts of one row of tiles, and those behind it. */
  lemma {:induction false} StartsOfRow(ni: nat, nj: nat, step: int, origin: int, j: int, i: int, left: nat, x: nat)
    requires step >= 1 && j <= nj && left >= 1 && i + step * (left - 1) <= ni < i + step * left
    requires x < left && i + step * x <= ni
    ensures var ss := TileStarts(ni, nj, step, origin, j, i);
      |ss| >= left && ss[x] == (i + step * x, j) && ss[left..] == TileStarts(ni, nj, step, origin, j + step, origin)
    decreases left
  {
    hide TileStarts;
    Product(step, 0, left - 1);
    Product(step, left - 1, left);
    StartsStep(ni, nj, step, origin, j, i);
    if left > 1 {
      Product(step, left - 2, left - 1);
      if x > 0 { Product(step, x - 1, x); }
      StartsOfRow(ni, nj, step, origin, j, i + step, left - 1, if x > 0 then x - 1 else 0);
    } else {
      StartsStep(ni, nj, step, origin, j, i + step);
    }
  }

  lemma StartsStep(ni: nat, nj: nat, step: int, origin: int, j: int, i: int)
    requires step >= 1 && j <= nj
    ensures TileStarts(ni, nj, step, origin, j, i) == if i > ni then TileStarts(ni, nj, step, origin, j + step, origin)
      else [(i, j)] + TileStarts(ni, nj, step, origin, j, i + step)
  {
  }

  lemma Product(step: int, a: int, b: int)
    requires step >= 1 && a <= b
    ensures step * a <= step * b && (b == a + 1 ==> step * b == step * a + step)
  {
    assert step * b - step * a == step * (b - a) >= 0;
  }

  /** How many cells are still to come: the rest of the band and the rows below it. */
  function CellsLeft(ni: nat, nj: nat, step: int, origin: int, j: int, i: int): int {
    if j > nj then 0
    else
      var rows := Extent(j, step, nj) + 1;
      rows * (if i > ni then 0 else ni - i + 1) + (nj - j + 1 - rows) * (ni - origin + 1)
  }

  lemma NextBand(ni: nat, nj: nat, step: int, origin: int, j: int, i: int)
    requires step >= 1 && j <= nj && i > ni && origin <= ni + 1
    ensures CellsLeft(ni, nj, step, origin, j + step, origin) == CellsLeft(ni, nj, step, origin, j, i)
  {
    var w, j', rows := ni - origin + 1, j + step, Extent(j, step, nj) + 1;
    assert rows * 0 == 0;
    if j' <= nj {
      var rows' := Extent(j', step, nj) + 1;
      assert rows' * w + (nj - j' + 1 - rows') * w == (nj - j' + 1) * w;
    } else {
      assert nj - j + 1 - rows == 0;
    }
  }

  lemma NextTile(ni: nat, nj: nat, step: int, origin: int, j: int, i: int)
    requires step >= 1 && j <= nj && i <= ni
    ensures CellsLeft(ni, nj, step, origin, j, i)
         == (Extent(j, step, nj) + 1) * (Extent(i, step, ni) + 1) + CellsLeft(ni, nj, step, origin, j, i + step)
  {
    var rows, cols := Extent(j, step, nj) + 1, Extent(i, step, ni) + 1;
    assert rows * (ni - i + 1) == rows * cols + rows * (ni - i + 1 - cols);
    if i + step > ni { assert rows * 0 == 0; }
  }

  /** The tiles have as many cells as the field from the origin on. */
  lemma {:induction false} TilesCount(g: seq<int>, ni: nat, nj: nat, step: int, origin: int, j: int, i: int)
    requires step >= 1 && origin <= ni + 1
    ensures TotalCells(TilesFrom(g, ni, nj, step, origin, j, i)) == CellsLeft(ni, nj, step, origin, j, i)
    decreases nj - j, ni - i
  {
    hide CellsLeft, TileFrom;
    if j > nj {
      NoneLeft(ni, nj, step, origin, j, i);
    } else if i > ni {
      TilesCount(g, ni, nj, step, origin, j + step, origin);
      NextBand(ni, nj, step, origin, j, i);
    } else {
      TilesCount(g, ni, nj, step, origin, j, i + step);
      TileFromLength(g, ni, i, j, Extent(i, step, ni), Extent(j, step, nj), 0, 0);
      NextTile(ni, nj, step, origin, j, i);
    }
  }

  lemma Together(x: int, y: int, w: int)
    ensures x * w + y * w == (x + y) * w
  {
  }

  lemma NoneLeft(ni: nat, nj: nat, step: int, origin: int, j: int, i: int)
    requires j > nj
    ensures CellsLeft(ni, nj, step, origin, j, i) == 0
  {
  }

  lemma AllLeft(ni: nat, nj: nat, step: int, origin: int)
    requires step >= 1 && 1 <= origin <= ni + 1 && origin <= nj + 1
    ensures CellsLeft(ni, nj, step, origin, origin, origin) == (ni - origin + 1) * (nj - origin + 1)
  {
    hide Extent;
    var rows, w := Extent(origin, step, nj) + 1, ni - origin + 1;
    Together(rows, nj - origin + 1 - rows, w);
  }

  lemma AllCells(g: seq<int>, ni: nat, nj: nat, step: int, origin: int)
    requires step >= 1 && 1 <= origin <= ni + 1 && origin <= nj + 1
    ensures TotalCells(TilesFrom(g, ni, nj, step, origin, origin, origin)) == (ni - origin + 1) * (nj - origin + 1)
  {
    hide CellsLeft, TilesFrom, TotalCells;
    TilesCount(g, ni, nj, step, origin, origin, origin);
    AllLeft(ni, nj, step, origin);
  }
}
