/**
  packTokensMinimum and unpackTokensMinimum: each tile is coded by its minimum and the offsets from it,
  as one value when it is constant, or raw when the offsets need 15 bits or more.
 */
module TileMinimum {
  import opened Words
  import opened BitStream
  import opened MinMax
  import opened Tiles

  /** Consecutive w-bit offsets from `off`. */
  ghost function Offsets(vs: seq<int>, off: int, w: nat): (s: seq<bool>)
  {
    if vs == [] then [] else Bits(vs[0] - off, w) + Offsets(vs[1..], off, w)
  }

  /** Offsets are tokens of one width: the values less `off`, in their order. */
  lemma {:induction false} OffsetsAre(vs: seq<int>, off: int, w: nat, ts: seq<int>)
    requires |ts| == |vs| && forall k :: 0 <= k < |vs| ==> ts[k] == vs[k] - off
    ensures Offsets(vs, off, w) == Flat(ts, w)
    decreases |vs|
  {
    hide Bits;
    if vs != [] { OffsetsAre(vs[1..], off, w, ts[1..]); }
  }

  /** The width code written for a tile of the given spread. */
  function WidthCode(spread: int): nat {
    var b := NbitsNeeded(spread);
    if b == 16 then 15 else b
  }

  /** What follows the width code of a tile with minimum lo. */
  ghost function TileBody(vs: seq<int>, lo: int, code: nat, nbits: nat): (s: seq<bool>)
  {
    if code == 0 then Bits(lo, nbits)
    else if code == 15 then Offsets(vs, 0, 16)
    else Bits(lo, nbits) + Offsets(vs, lo, code)
  }

  ghost function TileCode(vs: seq<int>, nbits: nat): (s: seq<bool>)
  {
    var code := WidthCode(MaxOf(vs) - MinOf(vs));
    Bits(code, 4) + TileBody(vs, MinOf(vs), code, nbits)
  }

  /** The bit stream of a list of tiles. */
  ghost function TilesCode(ts: seq<seq<int>>, nbits: nat): (s: seq<bool>)
  {
    if ts == [] then [] else TileCode(ts[0], nbits) + TilesCode(ts[1..], nbits)
  }

  /** The width code fits its 4 bits, and the offsets written fit the width it stands for. */
  lemma WidthCodeFits(vs: seq<int>, nbits: nat)
    requires vs != [] && Below(vs, Pow2(nbits)) && nbits <= 16
    ensures var lo, code := MinOf(vs), WidthCode(MaxOf(vs) - MinOf(vs));
      && 0 <= lo < Pow2(nbits)
      && code <= 15
      && (code == 15 ==> Within(vs, 0, 16))
      && (code < 15 ==> Within(vs, lo, code))
  {
    hide Pow2, BitLength, NbitsNeeded, MinOf, MaxOf;
    Extremes(vs);
    var spread := MaxOf(vs) - MinOf(vs);
    NbitsNeededIsLength(spread);
    Pow2Mono(nbits, 16);
    BitLengthFits(spread, 16);
    BitLengthFits(spread, BitLength(spread));
  }

  /** w bits are enough for the difference of any two values, and one bit less is not. */
  ghost predicate LeastWidth(vs: seq<int>, w: nat) {
    && (forall a, b :: 0 <= a < |vs| && 0 <= b < |vs| ==> vs[a] - vs[b] < Pow2(w))
    && (w > 0 ==> exists a, b :: 0 <= a < |vs| && 0 <= b < |vs| && vs[a] - vs[b] >= Pow2(w - 1))
  }

  /** The code of a spread is the number of bits it takes, but for 15 and 16, which are both written as 15. */
  lemma SpreadCode(spread: nat, w: nat)
    requires spread < Pow2(w) && (w > 0 ==> spread >= Pow2(w - 1))
    ensures WidthCode(spread) == if w == 16 then 15 else w
  {
    hide Pow2, BitLength, NbitsNeeded;
    NbitsNeededIsLength(spread);
    BitLengthFits(spread, w);
    if w > 0 { BitLengthFits(spread, w - 1); }
  }

  lemma SpreadOf(vs: seq<int>, w: nat)
    requires vs != [] && LeastWidth(vs, w)
    ensures MaxOf(vs) - MinOf(vs) < Pow2(w) && (w > 0 ==> MaxOf(vs) - MinOf(vs) >= Pow2(w - 1))
    ensures MaxOf(vs) >= MinOf(vs)
  {
    hide Pow2, MinOf, MaxOf;
    Extremes(vs);
    var i :| 0 <= i < |vs| && vs[i] == MinOf(vs);
    var j :| 0 <= j < |vs| && vs[j] == MaxOf(vs);
    assert vs[j] - vs[i] < Pow2(w);
    if w > 0 { var a, b :| 0 <= a < |vs| && 0 <= b < |vs| && vs[a] - vs[b] >= Pow2(w - 1); }
  }

  /**
    A tile is sent as the least width that holds the differences of its values, its minimum, and its offsets on that
    width, or none when it is constant; from 15 bits on it is sent as it is, on 16 bits a value.
   */
  lemma TileCodeIs(vs: seq<int>, nbits: nat, w: nat, lo: int)
    requires vs != [] && LeastWidth(vs, w) && w <= 16
    requires lo in vs && forall k :: 0 <= k < |vs| ==> lo <= vs[k]
    ensures TileCode(vs, nbits) == if w >= 15 then Bits(15, 4) + Offsets(vs, 0, 16)
      else Bits(w, 4) + Bits(lo, nbits) + if w == 0 then [] else Offsets(vs, lo, w)
    ensures |TileCode(vs, nbits)| == if w >= 15 then 4 + 16 * |vs| else 4 + nbits + w * |vs|
  {
    hide LeastWidth, MinOf, MaxOf, Bits, Offsets, WidthCode;
    CodeOfTile(vs, w, lo);
    OffsetsLength(vs, 0, 16);
    OffsetsLength(vs, lo, w);
    Regrouped(Bits(w, 4), Bits(lo, nbits), Offsets(vs, lo, w));
  }

  lemma CodeOfTile(vs: seq<int>, w: nat, lo: int)
    requires vs != [] && LeastWidth(vs, w) && w <= 16
    requires lo in vs && forall k :: 0 <= k < |vs| ==> lo <= vs[k]
    ensures MinOf(vs) == lo && WidthCode(MaxOf(vs) - MinOf(vs)) == if w == 16 then 15 else w
  {
    hide LeastWidth, Pow2, MinOf, MaxOf, WidthCode;
    Extremes(vs);
    SpreadOf(vs, w);
    SpreadCode(MaxOf(vs) - MinOf(vs), w);
  }

  lemma Regrouped(a: seq<bool>, b: seq<bool>, c: seq<bool>)
    ensures a + (b + c) == a + b + c && a + b + [] == a + b
  {
  }

  /** The loops that look for local_min and local_max. */
  method TileRange(ufld: seq<int>, ni: nat, nj: nat, i: int, j: int, lm: int, ln: int) returns (lo: int, hi: int)
    requires |ufld| == ni * nj
    requires 1 <= i && 1 <= j && 0 <= lm && 0 <= ln && i + lm <= ni && j + ln <= nj
    ensures var vs := TileFrom(ufld, ni, i, j, lm, ln, 0, 0); lo == MinOf(vs) && hi == MaxOf(vs)
  {
    hide At, TileFrom, MinOf, MaxOf, Cell, Narrowed;
    CellAt(ufld, i, j, ni, nj);
    var k := At(i, j, ni);
    lo, hi := ufld[k], ufld[k];
    ghost var min, max := MinOf(TileFrom(ufld, ni, i, j, lm, ln, 0, 0)), MaxOf(TileFrom(ufld, ni, i, j, lm, ln, 0, 0));
    TileStep(ufld, ni, i, j, lm, ln, 0, 0);
    NarrowedStart(ufld[k], TileFrom(ufld, ni, i, j, lm, ln, 0, 1));
    var n := 0;
    while n <= ln
      invariant 0 <= n <= ln + 1
      invariant Narrowed(lo, hi, TileFrom(ufld, ni, i, j, lm, ln, n, 0), min, max)
    {
      var m := 0;
      while m <= lm
        invariant 0 <= m <= lm + 1
        invariant Narrowed(lo, hi, TileFrom(ufld, ni, i, j, lm, ln, n, m), min, max)
      {
        CellAt(ufld, i + m, j + n, ni, nj);
        k := At(i + m, j + n, ni);
        TileStep(ufld, ni, i, j, lm, ln, n, m);
        NarrowedStep(lo, hi, ufld[k], TileFrom(ufld, ni, i, j, lm, ln, n, m + 1), min, max);
        if lo > ufld[k] { lo := ufld[k]; }
        if hi < ufld[k] { hi := ufld[k]; }
        m := m + 1;
      }
      TileRowEnd(ufld, ni, i, j, lm, ln, n);
      n := n + 1;
    }
    TileEnd(ufld, ni, i, j, lm, ln);
    NarrowedEnd(lo, hi, min, max);
  }

  /** Every value is an offset of w bits from `off`. */
  ghost predicate Within(vs: seq<int>, off: int, w: nat) {
    forall k :: 0 <= k < |vs| ==> 0 <= vs[k] - off < Pow2(w)
  }

  lemma OffsetsStep(sent: seq<bool>, v: int, rest: seq<int>, off: int, w: nat)
    ensures Within([v] + rest, off, w) ==> 0 <= v - off < Pow2(w) && Within(rest, off, w)
    ensures sent + Offsets([v] + rest, off, w) == (sent + Bits(v - off, w)) + Offsets(rest, off, w)
    ensures |sent| + w <= |sent + Offsets([v] + rest, off, w)|
  {
    hide Bits;
    var vs := [v] + rest;
    assert vs[1..] == rest && vs[0] == v;
    if Within(vs, off, w) {
      forall k | 0 <= k < |rest| ensures 0 <= rest[k] - off < Pow2(w) { assert rest[k] == vs[k + 1]; }
    }
  }

  lemma OffsetsNone(off: int, w: nat)
    ensures Offsets([], off, w) == []
  {
  }

  /** One stuff per cell of the tile. */
  method StuffOffsets(w: BitPacker, ufld: seq<int>, ni: nat, nj: nat, i: int, j: int, lm: int, ln: int, off: int,
      width: nat)
    requires |ufld| == ni * nj
    requires 1 <= i && 1 <= j && 0 <= lm && 0 <= ln && i + lm <= ni && j + ln <= nj
    requires 1 <= width < 32 && off >= 0
    requires Within(TileFrom(ufld, ni, i, j, lm, ln, 0, 0), off, width)
    requires w.Valid()
    requires |w.sent| + |Offsets(TileFrom(ufld, ni, i, j, lm, ln, 0, 0), off, width)| <= 32 * (w.z.Length - w.base)
    modifies w, w.z
    ensures w.Valid()
    ensures w.sent == old(w.sent) + Offsets(TileFrom(ufld, ni, i, j, lm, ln, 0, 0), off, width)
  {
    hide Bits, WordBits, Pow2, At, TileFrom, Offsets, Cell, Within;
    ghost var goal := w.sent + Offsets(TileFrom(ufld, ni, i, j, lm, ln, 0, 0), off, width);
    var n := 0;
    while n <= ln
      invariant 0 <= n <= ln + 1
      invariant w.Valid() && w.sent + Offsets(TileFrom(ufld, ni, i, j, lm, ln, n, 0), off, width) == goal
      invariant Within(TileFrom(ufld, ni, i, j, lm, ln, n, 0), off, width)
    {
      var m := 0;
      while m <= lm
        invariant 0 <= m <= lm + 1
        invariant w.Valid() && w.sent + Offsets(TileFrom(ufld, ni, i, j, lm, ln, n, m), off, width) == goal
        invariant Within(TileFrom(ufld, ni, i, j, lm, ln, n, m), off, width)
      {
        CellAt(ufld, i + m, j + n, ni, nj);
        var k := At(i + m, j + n, ni);
        TileStep(ufld, ni, i, j, lm, ln, n, m);
        OffsetsStep(w.sent, ufld[k], TileFrom(ufld, ni, i, j, lm, ln, n, m + 1), off, width);
        w.Stuff(ufld[k] - off, width);
        m := m + 1;
      }
      TileRowEnd(ufld, ni, i, j, lm, ln, n);
      n := n + 1;
    }
    TileEnd(ufld, ni, i, j, lm, ln);
    OffsetsNone(off, width);
  }

  /** One tile: its width code and what the code calls for. */
  method StuffTile(w: BitPacker, ufld: seq<int>, ni: nat, nj: nat, i: int, j: int, lm: int, ln: int, nbits: nat)
    requires |ufld| == ni * nj && 1 <= nbits <= 16 && Below(ufld, Pow2(nbits))
    requires 1 <= i && 1 <= j && 0 <= lm && 0 <= ln && i + lm <= ni && j + ln <= nj
    requires w.Valid()
    requires |w.sent| + |TileCode(TileFrom(ufld, ni, i, j, lm, ln, 0, 0), nbits)| <= 32 * (w.z.Length - w.base)
    modifies w, w.z
    ensures w.Valid()
    ensures w.sent == old(w.sent) + TileCode(TileFrom(ufld, ni, i, j, lm, ln, 0, 0), nbits)
  {
    hide Bits, WordBits, At, TileFrom, Offsets, Cell, Within, NbitsNeeded, MinOf, MaxOf, Below, WidthCode,
      BitPacker.Valid;
    ghost var vs := TileFrom(ufld, ni, i, j, lm, ln, 0, 0);
    TileBelow(ufld, ni, i, j, lm, ln, 0, 0, Pow2(nbits));
    TileStep(ufld, ni, i, j, lm, ln, 0, 0);
    WidthCodeFits(vs, nbits);
    var local_min, local_max := TileRange(ufld, ni, nj, i, j, lm, ln);
    var nbits_needed := WidthCode(local_max - local_min);
    w.Stuff(nbits_needed, 4);
    if nbits_needed == 0 {
      w.Stuff(local_min, nbits);
    } else if nbits_needed == 15 {
      StuffOffsets(w, ufld, ni, nj, i, j, lm, ln, 0, 16);
    } else {
      w.Stuff(local_min, nbits);
      StuffOffsets(w, ufld, ni, nj, i, j, lm, ln, local_min, nbits_needed);
    }
  }

  lemma TilesCodeStep(sent: seq<bool>, t: seq<int>, rest: seq<seq<int>>, nbits: nat)
    ensures sent + TilesCode([t] + rest, nbits) == (sent + TileCode(t, nbits)) + TilesCode(rest, nbits)
    ensures |sent| + |TileCode(t, nbits)| <= |sent + TilesCode([t] + rest, nbits)|
  {
    hide TileCode;
    assert ([t] + rest)[1..] == rest;
  }

  lemma TilesCodeFront(u: seq<bool>, t: seq<int>, left: seq<seq<int>>, nbits: nat, rest: seq<bool>)
    requires u == TilesCode([t] + left, nbits) + rest
    ensures u == TileCode(t, nbits) + (TilesCode(left, nbits) + rest)
  {
    hide TileCode;
    assert ([t] + left)[1..] == left;
  }

  lemma TilesCodeNone(nbits: nat)
    ensures TilesCode([], nbits) == []
  {
  }

  /** The bit stream of a field, which follows the header word. */
  ghost function FieldCode(g: seq<int>, ni: nat, nj: nat, nbits: nat, istep: int): (s: seq<bool>)
    requires istep >= 1
  {
    TilesCode(TilesFrom(g, ni, nj, istep, 1, 1, 1), nbits)
  }

  /** The tile loops of the packer. */
  method StuffTiles(w: BitPacker, ufld: seq<int>, ni: nat, nj: nat, nbits: nat, istep: int)
    requires |ufld| == ni * nj && 1 <= nbits <= 16 && istep >= 1 && Below(ufld, Pow2(nbits))
    requires w.Valid()
    requires |w.sent| + |FieldCode(ufld, ni, nj, nbits, istep)| <= 32 * (w.z.Length - w.base)
    modifies w, w.z
    ensures w.Valid()
    ensures w.sent == old(w.sent) + FieldCode(ufld, ni, nj, nbits, istep)
  {
    hide TilesCode, TilesFrom, TileFrom, TileCode, Below, Pow2, BitPacker.Valid;
    ghost var goal := w.sent + FieldCode(ufld, ni, nj, nbits, istep);
    var j := 1;
    while j <= nj
      invariant 1 <= j
      invariant w.Valid() && w.sent + TilesCode(TilesFrom(ufld, ni, nj, istep, 1, j, 1), nbits) == goal
      decreases nj - j
    {
      var lcl_n := Extent(j, istep, nj);
      var i := 1;
      while i <= ni
        invariant 1 <= i
        invariant w.Valid() && w.sent + TilesCode(TilesFrom(ufld, ni, nj, istep, 1, j, i), nbits) == goal
        decreases ni - i
      {
        var lcl_m := Extent(i, istep, ni);
        TilesStep(ufld, ni, nj, istep, 1, j, i);
        TilesCodeStep(w.sent, Tile(ufld, ni, nj, istep, i, j), TilesFrom(ufld, ni, nj, istep, 1, j, i + istep), nbits);
        StuffTile(w, ufld, ni, nj, i, j, lcl_m, lcl_n, nbits);
        i := i + istep;
      }
      TilesBandEnd(ufld, ni, nj, istep, 1, j, i);
      j := j + istep;
    }
    TilesEnd(ufld, ni, nj, istep, 1, j, 1);
    TilesCodeNone(nbits);
  }

  method PackTokensMinimum(z: array<Word>, ufld: seq<int>, ni: nat, nj: nat, nbits: nat, istep: int, header: Word)
    returns (zlng: int)
    requires |ufld| == ni * nj && 1 <= nbits <= 16 && istep >= 1 && Below(ufld, Pow2(nbits))
    requires z.Length >= 2 && |FieldCode(ufld, ni, nj, nbits, istep)| <= 32 * (z.Length - 1)
    modifies z
    ensures var words := (|FieldCode(ufld, ni, nj, nbits, istep)| + 31) / 32;
      && zlng == 1 + 4 * (1 + words)
      && (forall k :: 2 <= k < z.Length && k > words ==> z[k] == old(z[k]))
    ensures z[0] == header && StartsWith(z[..], 1, FieldCode(ufld, ni, nj, nbits, istep))
  {
    hide WordBits, FieldCode, Below;
    z[0] := header;
    z[1] := 0;
    var w := new BitPacker(z, 1);
    StuffTiles(w, ufld, ni, nj, nbits, istep);
    ghost var code := w.sent;
    assert code == FieldCode(ufld, ni, nj, nbits, istep);
    w.Flush();
    var cur := w.availableWordPtr;
    assert z[..][1..cur] == z[1..cur];
    StartsWithFlushed(z[..], 1, cur, code, Bits(0, 32)[..32 * (cur - 1) - |code|]);
    zlng := 1 + cur * 4;
  }

  /** The offset at the front of a queue, and the queue behind it. */
  lemma OffsetsFront(u: seq<bool>, v: int, left: seq<int>, off: int, w: nat, rest: seq<bool>)
    requires u == Offsets([v] + left, off, w) + rest && Within([v] + left, off, w)
    ensures |u| >= w + |rest| && Val(u[..w]) == v - off && u[w..] == Offsets(left, off, w) + rest
    ensures Within(left, off, w)
  {
    hide Bits, Val;
    OffsetsStep([], v, left, off, w);
    assert u == Bits(v - off, w) + (Offsets(left, off, w) + rest);
    FrontValue(u, v - off, w, Offsets(left, off, w) + rest);
  }

  /** One extract per cell of the tile, the minimum added back in 16-bit arithmetic. */
  method ExtractOffsets(r: BitUnpacker, ufld: array<int>, ghost g: seq<int>, ni: nat, nj: nat, i: int, j: int, lm: int,
      ln: int,
      off: int, width: nat, ghost rest: seq<bool>)
    requires ufld.Length == |g| == ni * nj && Below(g, 0x1_0000)
    requires 1 <= i && 1 <= j && 0 <= lm && 0 <= ln && i + lm <= ni && j + ln <= nj
    requires 1 <= width < 32
    requires Within(TileFrom(g, ni, i, j, lm, ln, 0, 0), off, width)
    requires r.Valid() && |rest| > 0 && r.unread == Offsets(TileFrom(g, ni, i, j, lm, ln, 0, 0), off, width) + rest
    modifies r, ufld
    ensures r.Valid() && r.unread == rest
    ensures ufld[..] == PutTile(old(ufld[..]), g, ni, i, j, lm, ln, 0, 0)
  {
    hide Bits, WordBits, Pow2, At, TileFrom, Offsets, Cell, Within, Val, PutTile, BitUnpacker.Valid;
    ghost var goal := PutTile(ufld[..], g, ni, i, j, lm, ln, 0, 0);
    var n := 0;
    while n <= ln
      invariant 0 <= n <= ln + 1
      invariant r.Valid() && r.unread == Offsets(TileFrom(g, ni, i, j, lm, ln, n, 0), off, width) + rest
      invariant Within(TileFrom(g, ni, i, j, lm, ln, n, 0), off, width)
      invariant PutTile(ufld[..], g, ni, i, j, lm, ln, n, 0) == goal
    {
      var m := 0;
      while m <= lm
        invariant 0 <= m <= lm + 1
        invariant r.Valid() && r.unread == Offsets(TileFrom(g, ni, i, j, lm, ln, n, m), off, width) + rest
        invariant Within(TileFrom(g, ni, i, j, lm, ln, n, m), off, width)
        invariant PutTile(ufld[..], g, ni, i, j, lm, ln, n, m) == goal
      {
        CellAt(g, i + m, j + n, ni, nj);
        var k := At(i + m, j + n, ni);
        TileStep(g, ni, i, j, lm, ln, n, m);
        OffsetsFront(r.unread, g[k], TileFrom(g, ni, i, j, lm, ln, n, m + 1), off, width, rest);
        var token := r.Extract(width);
        PutTileStep(ufld[..], g, ni, i, j, lm, ln, n, m);
        ufld[k] := (token + off) % 0x1_0000;
        m := m + 1;
      }
      TileRowEnd(g, ni, i, j, lm, ln, n);
      PutTileRowEnd(ufld[..], g, ni, i, j, lm, ln, n);
      n := n + 1;
    }
    TileEnd(g, ni, i, j, lm, ln);
    OffsetsNone(off, width);
    PutTileEnd(ufld[..], g, ni, i, j, lm, ln);
  }

  /** The reading loops for a constant tile. */
  method FillTile(ufld: array<int>, ghost g: seq<int>, ni: nat, nj: nat, i: int, j: int, lm: int, ln: int, v: int)
    requires ufld.Length == |g| == ni * nj
    requires 1 <= i && 1 <= j && 0 <= lm && 0 <= ln && i + lm <= ni && j + ln <= nj
    requires Within(TileFrom(g, ni, i, j, lm, ln, 0, 0), v, 0)
    modifies ufld
    ensures ufld[..] == PutTile(old(ufld[..]), g, ni, i, j, lm, ln, 0, 0)
  {
    hide At, TileFrom, Cell, Within, PutTile;
    ghost var goal := PutTile(ufld[..], g, ni, i, j, lm, ln, 0, 0);
    var n := 0;
    while n <= ln
      invariant 0 <= n <= ln + 1
      invariant Within(TileFrom(g, ni, i, j, lm, ln, n, 0), v, 0)
      invariant PutTile(ufld[..], g, ni, i, j, lm, ln, n, 0) == goal
    {
      var m := 0;
      while m <= lm
        invariant 0 <= m <= lm + 1
        invariant Within(TileFrom(g, ni, i, j, lm, ln, n, m), v, 0)
        invariant PutTile(ufld[..], g, ni, i, j, lm, ln, n, m) == goal
      {
        CellAt(g, i + m, j + n, ni, nj);
        var k := At(i + m, j + n, ni);
        TileStep(g, ni, i, j, lm, ln, n, m);
        OffsetsStep([], g[k], TileFrom(g, ni, i, j, lm, ln, n, m + 1), v, 0);
        PutTileStep(ufld[..], g, ni, i, j, lm, ln, n, m);
        ufld[k] := v;
        m := m + 1;
      }
      TileRowEnd(g, ni, i, j, lm, ln, n);
      PutTileRowEnd(ufld[..], g, ni, i, j, lm, ln, n);
      n := n + 1;
    }
    PutTileEnd(ufld[..], g, ni, i, j, lm, ln);
  }

  /** The width code at the front of a tile. */
  lemma TileFront(u: seq<bool>, vs: seq<int>, nbits: nat, rest: seq<bool>)
    requires vs != [] && Below(vs, Pow2(nbits)) && 1 <= nbits <= 16
    requires u == TileCode(vs, nbits) + rest
    ensures var lo, code := MinOf(vs), WidthCode(MaxOf(vs) - MinOf(vs));
      && |u| >= 4 + |rest| && Val(u[..4]) == code && u[4..] == TileBody(vs, lo, code, nbits) + rest
  {
    hide Bits, Val, TileBody, MinOf, MaxOf, NbitsNeeded, WidthCode, Pow2, Below, Within;
    var lo, code := MinOf(vs), WidthCode(MaxOf(vs) - MinOf(vs));
    WidthCodeFits(vs, nbits);
    assert u == Bits(code, 4) + (TileBody(vs, lo, code, nbits) + rest);
    Pow2Values();
    FrontValue(u, code, 4, TileBody(vs, lo, code, nbits) + rest);
  }

  /** The minimum in front of the offsets. */
  lemma MinimumFront(u: seq<bool>, lo: int, nbits: nat, body: seq<bool>, rest: seq<bool>)
    requires u == Bits(lo, nbits) + body + rest && 0 <= lo < Pow2(nbits)
    ensures |u| >= nbits + |rest| && Val(u[..nbits]) == lo && u[nbits..] == body + rest
  {
    assert u == Bits(lo, nbits) + (body + rest);
    FrontValue(u, lo, nbits, body + rest);
  }

  /** One tile read back. */
  method ExtractTile(r: BitUnpacker, ufld: array<int>, ghost g: seq<int>, ni: nat, nj: nat, i: int, j: int, lm: int,
      ln: int,
      nbits: nat, ghost rest: seq<bool>)
    requires ufld.Length == |g| == ni * nj && 1 <= nbits <= 16 && Below(g, Pow2(nbits))
    requires 1 <= i && 1 <= j && 0 <= lm && 0 <= ln && i + lm <= ni && j + ln <= nj
    requires r.Valid() && |rest| > 0 && r.unread == TileCode(TileFrom(g, ni, i, j, lm, ln, 0, 0), nbits) + rest
    modifies r, ufld
    ensures r.Valid() && r.unread == rest
    ensures ufld[..] == PutTile(old(ufld[..]), g, ni, i, j, lm, ln, 0, 0)
  {
    hide Bits, WordBits, At, TileFrom, Offsets, Cell, Within, NbitsNeeded, MinOf, MaxOf, Below, WidthCode, Val,
      PutTile, Pow2, BitUnpacker.Valid;
    ghost var vs := TileFrom(g, ni, i, j, lm, ln, 0, 0);
    ghost var lo := MinOf(vs);
    TileBelow(g, ni, i, j, lm, ln, 0, 0, Pow2(nbits));
    TileStep(g, ni, i, j, lm, ln, 0, 0);
    WidthCodeFits(vs, nbits);
    ShortsBelow(g, nbits);
    TileFront(r.unread, vs, nbits, rest);
    var nbits_needed := r.Extract(4);
    if nbits_needed == 0 {
      MinimumFront(r.unread, lo, nbits, [], rest);
      var local_min := r.Extract(nbits);
      FillTile(ufld, g, ni, nj, i, j, lm, ln, local_min);
    } else if nbits_needed == 15 || nbits_needed == 16 {
      ExtractOffsets(r, ufld, g, ni, nj, i, j, lm, ln, 0, 16, rest);
    } else {
      MinimumFront(r.unread, lo, nbits, Offsets(vs, lo, nbits_needed), rest);
      var local_min := r.Extract(nbits);
      ExtractOffsets(r, ufld, g, ni, nj, i, j, lm, ln, local_min, nbits_needed, rest);
    }
  }

  lemma ShortsBelow(g: seq<int>, nbits: nat)
    requires Below(g, Pow2(nbits)) && nbits <= 16
    ensures Below(g, 0x1_0000)
  {
    Pow2Mono(nbits, 16);
    Pow2Values();
  }

  /** The tile loops of the unpacker. */
  method ExtractTiles(r: BitUnpacker, ufld: array<int>, ghost g: seq<int>, ni: nat, nj: nat, nbits: nat, istep: int,
      ghost rest: seq<bool>)
    requires ufld.Length == |g| == ni * nj && 1 <= nbits <= 16 && istep >= 1 && Below(g, Pow2(nbits))
    requires r.Valid() && |rest| > 0 && r.unread == FieldCode(g, ni, nj, nbits, istep) + rest
    modifies r, ufld
    ensures ufld[..] == PutTiles(old(ufld[..]), g, ni, nj, istep, 1, 1, 1)
  {
    hide TilesCode, TilesFrom, TileFrom, TileCode, Below, Pow2, PutTiles, PutTile, BitUnpacker.Valid;
    ghost var goal := PutTiles(ufld[..], g, ni, nj, istep, 1, 1, 1);
    var j := 1;
    while j <= nj
      invariant 1 <= j
      invariant r.Valid() && r.unread == TilesCode(TilesFrom(g, ni, nj, istep, 1, j, 1), nbits) + rest
      invariant PutTiles(ufld[..], g, ni, nj, istep, 1, j, 1) == goal
      decreases nj - j
    {
      var lcl_n := Extent(j, istep, nj);
      var i := 1;
      while i <= ni
        invariant 1 <= i
        invariant r.Valid() && r.unread == TilesCode(TilesFrom(g, ni, nj, istep, 1, j, i), nbits) + rest
        invariant PutTiles(ufld[..], g, ni, nj, istep, 1, j, i) == goal
        decreases ni - i
      {
        var lcl_m := Extent(i, istep, ni);
        ghost var left := TilesFrom(g, ni, nj, istep, 1, j, i + istep);
        TilesStep(g, ni, nj, istep, 1, j, i);
        TilesCodeFront(r.unread, Tile(g, ni, nj, istep, i, j), left, nbits, rest);
        PutTilesStep(ufld[..], g, ni, nj, istep, 1, j, i);
        ExtractTile(r, ufld, g, ni, nj, i, j, lcl_m, lcl_n, nbits, TilesCode(left, nbits) + rest);
        i := i + istep;
      }
      TilesBandEnd(g, ni, nj, istep, 1, j, i);
      PutTilesBandEnd(ufld[..], g, ni, nj, istep, 1, j, i);
      j := j + istep;
    }
    PutTilesEnd(ufld[..], g, ni, nj, istep, 1, j, 1);
  }

  /** Reading a stream that starts with the code of a field gives back the field, cell by cell. */
  method UnpackTokensMinimum(ufld: array<int>, z: array<Word>, ni: nat, nj: nat, nbits: nat, istep: int,
      ghost g: seq<int>)
    returns (header: Word)
    requires ufld.Length == |g| == ni * nj && 1 <= nbits <= 16 && istep >= 1 && Below(g, Pow2(nbits))
    requires z.Length >= 2 && StartsWith(z[..], 1, FieldCode(g, ni, nj, nbits, istep))
    requires |FieldCode(g, ni, nj, nbits, istep)| < 32 * (z.Length - 1)   // extract reads one word ahead
    modifies ufld
    ensures header == z[0] && ufld[..] == g
  {
    hide WordBits, FieldCode, Below, Pow2, PutTiles, Cell;
    header := z[0];
    var r := new BitUnpacker(z, 1);
    assert z[..][1..] == z[1..];
    ghost var code := FieldCode(g, ni, nj, nbits, istep);
    ghost var before := ufld[..];
    ExtractTiles(r, ufld, g, ni, nj, nbits, istep, WordBits(z[1..])[|code|..]);
    WholeField(before, g, ni, nj, istep);
  }

  lemma WholeField(out: seq<int>, g: seq<int>, ni: nat, nj: nat, step: int)
    requires |out| == |g| == ni * nj && step >= 1
    ensures PutTiles(out, g, ni, nj, step, 1, 1, 1) == g
  {
    hide Cell, PutTiles;
    var f := PutTiles(out, g, ni, nj, step, 1, 1, 1);
    forall a, b | 1 <= a <= ni && 1 <= b <= nj
      ensures Cell(f, ni, a, b) == Cell(g, ni, a, b)
    {
      PutTilesCell(out, g, ni, nj, step, 1, 1, 1, a, b);
    }
    SameCells(f, g, ni, nj);
  }

  lemma {:induction false} OffsetsLength(vs: seq<int>, off: int, w: nat)
    ensures |Offsets(vs, off, w)| == |vs| * w
  {
    if vs != [] { OffsetsLength(vs[1..], off, w); }
  }

  lemma SpreadOfOne(vs: seq<int>)
    requires |vs| == 1
    ensures WidthCode(MaxOf(vs) - MinOf(vs)) == 0
  {
  }

  lemma TimesAtMost(n: nat, a: nat, b: nat)
    requires a <= b
    ensures n * a <= n * b
  {
  }

  /** A tile never costs more than 24 bits per cell. */
  lemma TileCost(vs: seq<int>, nbits: nat)
    requires vs != [] && Below(vs, Pow2(nbits)) && 1 <= nbits <= 16
    ensures |TileCode(vs, nbits)| <= 24 * |vs|
  {
    hide Bits, Offsets, NbitsNeeded, MinOf, MaxOf, WidthCode, Below, Within, Pow2;
    var lo := MinOf(vs);
    var code := WidthCode(MaxOf(vs) - lo);
    WidthCodeFits(vs, nbits);
    if code == 15 {
      OffsetsLength(vs, 0, 16);
    } else if code > 0 {
      OffsetsLength(vs, lo, code);
      TimesAtMost(|vs|, code, 14);
      if |vs| == 1 { SpreadOfOne(vs); }
    }
  }

  /** Every tile of a field is a non-empty list of values of the field. */
  ghost predicate GoodTiles(ts: seq<seq<int>>, bound: int) {
    forall k :: 0 <= k < |ts| ==> ts[k] != [] && Below(ts[k], bound)
  }

  lemma {:induction false} FieldTilesGood(g: seq<int>, ni: nat, nj: nat, step: int, origin: int, j: int, i: int,
      bound: int)
    requires step >= 1 && Below(g, bound) && bound > 0
    ensures GoodTiles(TilesFrom(g, ni, nj, step, origin, j, i), bound)
    decreases nj - j, ni - i
  {
    hide Below, TileFrom;
    if j > nj {
    } else if i > ni {
      FieldTilesGood(g, ni, nj, step, origin, j + step, origin, bound);
    } else {
      FieldTilesGood(g, ni, nj, step, origin, j, i + step, bound);
      TileBelow(g, ni, i, j, Extent(i, step, ni), Extent(j, step, nj), 0, 0, bound);
      TileStep(g, ni, i, j, Extent(i, step, ni), Extent(j, step, nj), 0, 0);
      assert Tile(g, ni, nj, step, i, j) != [];
    }
  }

  lemma {:induction false} TilesCost(ts: seq<seq<int>>, nbits: nat)
    requires 1 <= nbits <= 16 && GoodTiles(ts, Pow2(nbits))
    ensures |TilesCode(ts, nbits)| <= 24 * TotalCells(ts)
  {
    hide TileCode, Below, Pow2;
    if ts != [] {
      TileCost(ts[0], nbits);
      assert forall k :: 0 <= k < |ts[1..]| ==> ts[1..][k] == ts[k + 1];
      TilesCost(ts[1..], nbits);
    }
  }

  /** The packed field costs at most 24 bits per cell, so with its header it fits in ni * nj words. */
  lemma FieldFits(g: seq<int>, ni: nat, nj: nat, nbits: nat, istep: int)
    requires ni >= 2 && nj >= 2 && |g| == ni * nj && 1 <= nbits <= 16 && istep >= 1 && Below(g, Pow2(nbits))
    ensures |FieldCode(g, ni, nj, nbits, istep)| <= 24 * (ni * nj)
    ensures 1 + (|FieldCode(g, ni, nj, nbits, istep)| + 31) / 32 <= ni * nj
  {
    hide TilesFrom, TilesCode, TotalCells, Below, GoodTiles, Pow2;
    FieldTilesGood(g, ni, nj, istep, 1, 1, 1, Pow2(nbits));
    TilesCost(TilesFrom(g, ni, nj, istep, 1, 1, 1), nbits);
    AllCells(g, ni, nj, istep, 1);
    AtLeastFour(ni, nj);
  }

  lemma AtLeastFour(ni: nat, nj: nat)
    requires ni >= 2 && nj >= 2
    ensures ni * nj >= 4 && ni * nj != 5
  {
    if ni == 2 {
    } else {
      assert ni * nj >= ni * 2;
    }
  }
}
