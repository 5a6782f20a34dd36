/**
  The parallelogram predictor: the borders of a field are stored as they are, and every other cell as its
  difference from west + south - southwest, in tiles with a common width. One model of the three copies in
  the source, for 16-bit fields, for exponents and for mantissas.
 */
module Parallelogram {
  import opened Words
  import opened BitStream
  import opened Tiles

  datatype Variant = Short | Byte | Mantissa

  /** Values of a field are unsigned short, char or int. */
  function Modulus(v: Variant): int {
    match v
    case Short => 0x1_0000
    case Byte => 0x100
    case Mantissa => 0x1_0000_0000
  }

  /** The bits per value each variant is used with. */
  predicate Widths(v: Variant, nbits: nat) {
    match v
    case Short => 1 <= nbits <= 16
    case Byte => 1 <= nbits <= 8
    case Mantissa => 1 <= nbits <= 23
  }

  /** What the first token is wide: 3 bits for shorts, and istep bits in the other two. */
  function ContainerBits(v: Variant, istep: int): int {
    if v.Short? then 3 else istep
  }

  predicate Steps(v: Variant, istep: int) {
    if v.Short? then istep >= 1 else 3 <= istep <= 31
  }

  /** ufld_dst: the prediction error of a cell, 0 on the first row and column. */
  function Residual(g: seq<int>, ni: nat, i: int, j: int): int {
    if i <= 1 || j <= 1 then 0
    else Cell(g, ni, i, j) - (Cell(g, ni, i, j - 1) + Cell(g, ni, i - 1, j) - Cell(g, ni, i - 1, j - 1))
  }

  /** All the prediction errors, as a field. */
  ghost function Residuals(g: seq<int>, ni: nat): (d: seq<int>)
    ensures |d| == |g|
  {
    seq(|g|, k requires 0 <= k < |g| => if ni == 0 then 0 else Residual(g, ni, k % ni + 1, k / ni + 1))
  }

  lemma ResidualsCell(g: seq<int>, ni: nat, nj: nat, a: int, b: int)
    requires |g| == ni * nj && 1 <= a <= ni && 1 <= b <= nj
    ensures Cell(Residuals(g, ni), ni, a, b) == Residual(g, ni, a, b)
  {
    hide Residual;
    AtBounds(a, b, ni, nj);
    AtIsFtn2c(a, b, ni);
    DivUnique(At(a, b, ni), ni, b - 1, a - 1);
  }

  lemma CellBelow(g: seq<int>, ni: nat, i: int, j: int, bound: int)
    requires Below(g, bound) && bound > 0
    ensures 0 <= Cell(g, ni, i, j) < bound
  {
  }

  lemma ResidualBound(g: seq<int>, ni: nat, i: int, j: int, nbits: nat)
    requires Below(g, Pow2(nbits))
    ensures -2 * (Pow2(nbits) - 1) <= Residual(g, ni, i, j) <= 2 * (Pow2(nbits) - 1)
  {
    hide Cell, Below;
    CellBelow(g, ni, i, j, Pow2(nbits));
    CellBelow(g, ni, i, j - 1, Pow2(nbits));
    CellBelow(g, ni, i - 1, j, Pow2(nbits));
    CellBelow(g, ni, i - 1, j - 1, Pow2(nbits));
  }

  /** Each cell is the sum of what its row and its column begin with. */
  ghost predicate Separable(g: seq<int>, ni: nat, nj: nat) {
    forall i, j :: 1 <= i <= ni && 1 <= j <= nj ==>
      Cell(g, ni, i, j) == Cell(g, ni, i, 1) + Cell(g, ni, 1, j) - Cell(g, ni, 1, 1)
  }

  /** The prediction is exact everywhere for the separable fields, a plane among them, and for no others. */
  lemma {:induction false} ExactPrediction(g: seq<int>, ni: nat, nj: nat)
    ensures (forall i, j :: 2 <= i <= ni && 2 <= j <= nj ==> Residual(g, ni, i, j) == 0) <==> Separable(g, ni, nj)
  {
    hide Cell;
    if forall i, j :: 2 <= i <= ni && 2 <= j <= nj ==> Residual(g, ni, i, j) == 0 {
      forall i, j | 1 <= i <= ni && 1 <= j <= nj
        ensures Cell(g, ni, i, j) == Cell(g, ni, i, 1) + Cell(g, ni, 1, j) - Cell(g, ni, 1, 1)
      {
        CellIsSum(g, ni, nj, i, j);
      }
    }
  }

  lemma {:induction false} CellIsSum(g: seq<int>, ni: nat, nj: nat, i: int, j: int)
    requires forall a, b :: 2 <= a <= ni && 2 <= b <= nj ==> Residual(g, ni, a, b) == 0
    requires 1 <= i <= ni && 1 <= j <= nj
    ensures Cell(g, ni, i, j) == Cell(g, ni, i, 1) + Cell(g, ni, 1, j) - Cell(g, ni, 1, 1)
    decreases i, j
  {
    hide Cell;
    if i > 1 && j > 1 {
      assert Residual(g, ni, i, j) == 0;
      CellIsSum(g, ni, nj, i - 1, j);
      CellIsSum(g, ni, nj, i, j - 1);
      CellIsSum(g, ni, nj, i - 1, j - 1);
    }
  }

  function Abs(x: int): nat {
    if x < 0 then -x else x
  }

  function MaxAbs(vs: seq<int>): nat {
    if vs == [] then 0
    else if Abs(vs[0]) > MaxAbs(vs[1..]) then Abs(vs[0])
    else MaxAbs(vs[1..])
  }

  lemma {:induction false} MaxAbsBounds(vs: seq<int>)
    ensures forall k :: 0 <= k < |vs| ==> Abs(vs[k]) <= MaxAbs(vs)
    ensures MaxAbs(vs) == 0 || exists k :: 0 <= k < |vs| && Abs(vs[k]) == MaxAbs(vs)
  {
    if vs != [] {
      MaxAbsBounds(vs[1..]);
      forall k | 0 <= k < |vs|
        ensures Abs(vs[k]) <= MaxAbs(vs)
      {
        if k > 0 { assert vs[k] == vs[1..][k - 1]; }
      }
      if MaxAbs(vs) != 0 && MaxAbs(vs) != Abs(vs[0]) {
        var k :| 0 <= k < |vs[1..]| && Abs(vs[1..][k]) == MaxAbs(vs[1..]);
        assert vs[k + 1] == vs[1..][k];
      }
    }
  }

  /** The number of bits of a width code: 5 when a 16-bit field has an error beyond 65535, or for mantissas. */
  function Container(v: Variant, nbits: nat, d: seq<int>): nat {
    match v
    case Short => if nbits >= 15 && exists k :: 0 <= k < |d| && Abs(d[k]) > 65535 then 5 else 4
    case Byte => 4
    case Mantissa => 5
  }

  /**
    nbits_needed: by table for shorts and bytes, by logarithm above 65535, by the exponent of a float for mantissas.
   */
  function WidthCode(v: Variant, local_max: nat): nat {
    match v
    case Short =>
      var b := if local_max > 65535 then BitLength(local_max) else NbitsNeeded(local_max);
      if b == 16 then 15 else b
    case Byte => NbitsNeeded(local_max)
    case Mantissa => BitLength(local_max)
  }

  /** nbits2: one more bit for the sign; code 15 of a short stands for 15 and 16. */
  function ResidualWidth(v: Variant, code: nat): nat {
    if v.Short? && (code == 15 || code == 16) then 17 else code + 1
  }

  /** Every value is in the range of a signed field of w bits. */
  ghost predicate SignedFields(vs: seq<int>, w: nat) {
    w >= 1 && forall k :: 0 <= k < |vs| ==> 0 <= vs[k] + Pow2(w - 1) < 2 * Pow2(w - 1)
  }

  /** All errors are within the bound for values of nbits bits. */
  ghost predicate Bounded(vs: seq<int>, nbits: nat) {
    forall k :: 0 <= k < |vs| ==> Abs(vs[k]) <= 2 * (Pow2(nbits) - 1)
  }

  lemma AbsFits(vs: seq<int>, w: nat)
    requires w >= 1 && MaxAbs(vs) < Pow2(w - 1)
    ensures SignedFields(vs, w)
  {
    hide MaxAbs, Pow2;
    MaxAbsBounds(vs);
  }

  /** A container that is wide enough for the field it is chosen for. */
  ghost predicate ContainerFor(v: Variant, nbits: nat, vs: seq<int>, cont: nat) {
    match v
    case Short => cont == 5 || (cont == 4 && (nbits < 15 || forall k :: 0 <= k < |vs| ==> Abs(vs[k]) <= 65535))
    case Byte => cont == 4
    case Mantissa => cont == 5
  }

  /** The number of bits of the largest error. */
  lemma ErrorLength(v: Variant, nbits: nat, vs: seq<int>, cont: nat)
    requires Widths(v, nbits) && Bounded(vs, nbits) && ContainerFor(v, nbits, vs, cont)
    ensures var m := MaxAbs(vs);
      && m < Pow2(BitLength(m)) && BitLength(m) <= nbits + 1
      && (m <= 65535 ==> BitLength(m) <= 16)
      && (v.Short? && m > 65535 ==> cont == 5 && BitLength(m) == 17)
  {
    hide MaxAbs, Abs, BitLength;
    var m := MaxAbs(vs);
    MaxAbsBounds(vs);
    BitLengthFits(m, BitLength(m));
    BitLengthFits(m, nbits + 1);
    BitLengthFits(m, 16);
    Pow2Values();
    if v.Short? && nbits < 15 { Pow2Mono(nbits + 1, 16); }
  }

  /** The container always holds the code, and every error fits the width the code stands for. */
  lemma WidthCodeFits(v: Variant, nbits: nat, vs: seq<int>, cont: nat)
    requires Widths(v, nbits) && Bounded(vs, nbits) && ContainerFor(v, nbits, vs, cont)
    ensures var code := WidthCode(v, MaxAbs(vs));
      && code < Pow2(cont)
      && code <= nbits + 1 <= 24
      && ResidualWidth(v, code) <= 31
      && SignedFields(vs, ResidualWidth(v, code))
      && (code == 0 ==> MaxAbs(vs) == 0)
  {
    hide MaxAbs, Abs, BitLength, NbitsNeeded, SignedFields, Bounded, Pow2;
    var m := MaxAbs(vs);
    var code := WidthCode(v, m);
    ErrorLength(v, nbits, vs, cont);
    NbitsNeededIsLength(m);
    Pow2Values();
    Pow2Double(5);
    if BitLength(m) == 15 { Pow2Mono(15, 16); }
    AbsFits(vs, ResidualWidth(v, code));
    if m > 0 { PositiveLength(m); }
  }

  lemma PositiveLength(m: nat)
    requires m > 0
    ensures BitLength(m) > 0
  {
  }

  /** The bits of one tile of errors. */
  ghost function TileCode(v: Variant, cont: nat, vs: seq<int>): (s: seq<bool>)
  {
    var code := WidthCode(v, MaxAbs(vs));
    Bits(code, cont) + (if code == 0 then [] else Flat(vs, ResidualWidth(v, code)))
  }

  /** w bits are enough for the magnitude of every error, and one bit less is not. */
  ghost predicate LeastWidth(vs: seq<int>, w: nat) {
    && (forall k :: 0 <= k < |vs| ==> Abs(vs[k]) < Pow2(w))
    && (w > 0 ==> exists k :: 0 <= k < |vs| && Abs(vs[k]) >= Pow2(w - 1))
  }

  lemma LargestError(vs: seq<int>, w: nat)
    requires LeastWidth(vs, w)
    ensures BitLength(MaxAbs(vs)) == w
  {
    hide Pow2, MaxAbs, BitLength, Abs;
    var m := MaxAbs(vs);
    MaxAbsBounds(vs);
    Pow2Positive(w);
    BitLengthFits(m, w);
    if w > 0 {
      var k :| 0 <= k < |vs| && Abs(vs[k]) >= Pow2(w - 1);
      BitLengthFits(m, w - 1);
    }
  }

  lemma Pow2Positive(n: nat)
    ensures Pow2(n) > 0
  {
  }

  /**
    A tile is sent as the least width that holds the magnitudes of its errors, and its errors on one bit more, or none
    when they are all zero; for shorts, 15 and 16 are both sent as 15, and the errors then on 17 bits.
   */
  lemma TileCodeIs(v: Variant, cont: nat, vs: seq<int>, w: nat)
    requires LeastWidth(vs, w) && (v.Byte? ==> w <= 16)
    ensures var short := v.Short? && (w == 15 || w == 16);
      && TileCode(v, cont, vs) == Bits(if short then 15 else w, cont)
        + (if w == 0 then [] else Flat(vs, if short then 17 else w + 1))
      && |TileCode(v, cont, vs)| == cont + if w == 0 then 0 else |vs| * (if short then 17 else w + 1)
  {
    hide Pow2, MaxAbs, BitLength, NbitsNeeded, LeastWidth, Bits;
    LargestError(vs, w);
    NbitsNeededIsLength(MaxAbs(vs));
    if w > 0 { FlatLength(vs, if v.Short? && (w == 15 || w == 16) then 17 else w + 1); }
  }

  /** The five-bit codes of shorts are chosen exactly when an error takes 17 bits. */
  lemma ContainerIsLeast(nbits: nat, d: seq<int>)
    requires Widths(Short, nbits) && Bounded(d, nbits)
    ensures Container(Short, nbits, d) == 4 <==> forall k :: 0 <= k < |d| ==> Abs(d[k]) <= 0xFFFF
    ensures Container(Short, nbits, d) == 4 || Container(Short, nbits, d) == 5
  {
    hide Pow2, Abs;
    if nbits < 15 {
      Pow2Mono(nbits + 1, 15);
      Pow2Double(nbits + 1);
      Pow2Values();
      Pow2Double(16);
    }
  }

  ghost function TilesCode(v: Variant, cont: nat, ts: seq<seq<int>>): (s: seq<bool>)
  {
    if ts == [] then [] else TileCode(v, cont, ts[0]) + TilesCode(v, cont, ts[1..])
  }

  lemma TilesCodeStep(v: Variant, cont: nat, sent: seq<bool>, t: seq<int>, rest: seq<seq<int>>)
    ensures sent + TilesCode(v, cont, [t] + rest) == (sent + TileCode(v, cont, t)) + TilesCode(v, cont, rest)
    ensures |sent| + |TileCode(v, cont, t)| <= |sent + TilesCode(v, cont, [t] + rest)|
  {
    hide TileCode;
    assert ([t] + rest)[1..] == rest;
  }

  lemma TilesCodeFront(v: Variant, cont: nat, u: seq<bool>, t: seq<int>, left: seq<seq<int>>, rest: seq<bool>)
    requires u == TilesCode(v, cont, [t] + left) + rest
    ensures u == TileCode(v, cont, t) + (TilesCode(v, cont, left) + rest)
  {
    hide TileCode;
    assert ([t] + left)[1..] == left;
  }

  lemma TilesCodeNone(v: Variant, cont: nat)
    ensures TilesCode(v, cont, []) == []
  {
  }

  /** The first row and the rest of the first column, then the tiles of errors. */
  ghost function FieldCode(v: Variant, g: seq<int>, ni: nat, nj: nat, nbits: nat, istep: int): (s: seq<bool>)
    requires Steps(v, istep)
  {
    var d := Residuals(g, ni);
    var cont := Container(v, nbits, d);
    Bits(cont, ContainerBits(v, istep))
      + Flat(TileFrom(g, ni, 1, 1, ni - 1, 0, 0, 0), nbits)
      + Flat(TileFrom(g, ni, 1, 2, 0, nj - 2, 0, 0), nbits)
      + TilesCode(v, cont, TilesFrom(d, ni, nj, istep, 2, 2, 2))
  }

  /** The cells sent as they are: the first row, then the first column without its first cell. */
  ghost predicate BorderOf(border: seq<int>, g: seq<int>, ni: nat, nj: nat) {
    && ni >= 1 && nj >= 1 && |border| == ni + nj - 1
    && (forall k :: 1 <= k <= ni ==> border[k - 1] == Cell(g, ni, k, 1))
    && forall k :: 2 <= k <= nj ==> border[ni + k - 2] == Cell(g, ni, 1, k)
  }

  /** The code of a field: the container on three bits, or in some copies on one; the border; the tiles of errors. */
  lemma FieldCodeIs(v: Variant, g: seq<int>, ni: nat, nj: nat, nbits: nat, istep: int) returns (border: seq<int>)
    requires Steps(v, istep) && ni >= 1 && nj >= 1
    ensures BorderOf(border, g, ni, nj)
    ensures var d := Residuals(g, ni); var cont := Container(v, nbits, d);
      FieldCode(v, g, ni, nj, nbits, istep) == Bits(cont, if v.Short? then 3 else istep) + Flat(border, nbits)
        + TilesCode(v, cont, TilesFrom(d, ni, nj, istep, 2, 2, 2))
  {
    hide Cell, TileFrom, Flat, Bits, TilesCode, TilesFrom, Container;
    var row, column := TileFrom(g, ni, 1, 1, ni - 1, 0, 0, 0), TileFrom(g, ni, 1, 2, 0, nj - 2, 0, 0);
    border := row + column;
    FlatConcat(row, column, nbits);
    CellOfTile(g, ni, 1, 1, ni - 1, 0, 0, 0);
    forall k | 1 <= k <= ni ensures row[k - 1] == Cell(g, ni, k, 1) { CellOfTile(g, ni, 1, 1, ni - 1, 0, k - 1, 0); }
    if nj >= 2 {
      CellOfTile(g, ni, 1, 2, 0, nj - 2, 0, 0);
      forall k | 2 <= k <= nj
        ensures column[k - 2] == Cell(g, ni, 1, k)
      {
        CellOfTile(g, ni, 1, 2, 0, nj - 2, 0, k - 2);
      }
    } else {
      TileEmpty(g, ni, 1, 2, 0, -1);
    }
    var c, f, e := Bits(Container(v, nbits, Residuals(g, ni)), ContainerBits(v, istep)), Flat(row, nbits),
      Flat(column, nbits);
    assert c + f + e == c + (f + e);
  }

  lemma TileEmpty(g: seq<int>, ni: nat, i: int, j: int, lm: int, ln: int)
    requires ln < 0
    ensures TileFrom(g, ni, i, j, lm, ln, 0, 0) == []
  {
  }

  /** The loops that look for the largest error of a tile. */
  method TileMax(d: seq<int>, ni: nat, nj: nat, i: int, j: int, lm: int, ln: int) returns (local_max: int)
    requires |d| == ni * nj
    requires 1 <= i && 1 <= j && 0 <= lm && 0 <= ln && i + lm <= ni && j + ln <= nj
    ensures local_max == MaxAbs(TileFrom(d, ni, i, j, lm, ln, 0, 0))
  {
    hide At, TileFrom, MaxAbs, Cell, Widened;
    CellAt(d, i, j, ni, nj);
    local_max := d[At(i, j, ni)];
    ghost var max := MaxAbs(TileFrom(d, ni, i, j, lm, ln, 0, 0));
    TileStep(d, ni, i, j, lm, ln, 0, 0);
    WidenedStart(local_max, TileFrom(d, ni, i, j, lm, ln, 0, 1));
    var n := 0;
    while n <= ln
      invariant 0 <= n <= ln + 1
      invariant Widened(local_max, TileFrom(d, ni, i, j, lm, ln, n, 0), max)
    {
      var m := 0;
      while m <= lm
        invariant 0 <= m <= lm + 1
        invariant Widened(local_max, TileFrom(d, ni, i, j, lm, ln, n, m), max)
      {
        CellAt(d, i + m, j + n, ni, nj);
        var k := At(i + m, j + n, ni);
        TileStep(d, ni, i, j, lm, ln, n, m);
        WidenedStep(local_max, d[k], TileFrom(d, ni, i, j, lm, ln, n, m + 1), max);
        if local_max < Abs(d[k]) { local_max := Abs(d[k]); }
        m := m + 1;
      }
      TileRowEnd(d, ni, i, j, lm, ln, n);
      n := n + 1;
    }
    TileEnd(d, ni, i, j, lm, ln);
    WidenedEnd(local_max, max);
  }

  /** Taking the remaining values into account will turn `now` into the largest magnitude. */
  ghost predicate Widened(now: int, rest: seq<int>, max: int) {
    max == if rest == [] || now > MaxAbs(rest) then now else MaxAbs(rest)
  }

  lemma WidenedStart(v: int, rest: seq<int>)
    ensures Widened(v, [v] + rest, MaxAbs([v] + rest))
  {
    assert ([v] + rest)[1..] == rest && ([v] + rest)[0] == v;
  }

  lemma WidenedStep(now: int, v: int, rest: seq<int>, max: int)
    requires Widened(now, [v] + rest, max)
    ensures Widened(if now < Abs(v) then Abs(v) else now, rest, max)
  {
    var vs := [v] + rest;
    assert vs[1..] == rest && vs[0] == v;
    assert MaxAbs(vs) == if Abs(v) > MaxAbs(rest) then Abs(v) else MaxAbs(rest);
  }

  lemma WidenedEnd(now: int, max: int)
    requires Widened(now, [], max)
    ensures now == max
  {
  }

  /** token = value & ~(-1 << w): the low w bits. */
  lemma Masked(x: int, w: nat)
    requires w < 32
    ensures And(Wrap(x), Wrap(-1 - Shl(-1, w))) == Low(x, w) < Pow2(w)
    ensures Bits(Low(x, w), w) == Bits(x, w)
  {
    hide And, Low, Bits;
    ShlIsMul(-1, w);
    FitsWord(Pow2(w) - 1, w);
    AndOnes(Wrap(x), w);
    LowWrap(x, w);
    LowBound(x, w);
    BitsLow(x, w, w);
  }

  /** One stuff per cell of the tile. */
  method StuffCells(w: BitPacker, d: seq<int>, ni: nat, nj: nat, i: int, j: int, lm: int, ln: int, width: nat)
    requires |d| == ni * nj
    requires 1 <= i && 1 <= j && 0 <= lm && 0 <= ln && i + lm <= ni && j + ln <= nj
    requires 1 <= width < 32
    requires w.Valid() && w.spaceInLastWord < 32
    requires |w.sent| + |Flat(TileFrom(d, ni, i, j, lm, ln, 0, 0), width)| <= 32 * (w.z.Length - w.base)
    modifies w, w.z
    ensures w.Valid() && w.spaceInLastWord < 32
    ensures w.sent == old(w.sent) + Flat(TileFrom(d, ni, i, j, lm, ln, 0, 0), width)
  {
    hide Bits, WordBits, Pow2, At, TileFrom, Flat, Cell, And, Shl, Low, BitPacker.Valid;
    ghost var goal := w.sent + Flat(TileFrom(d, ni, i, j, lm, ln, 0, 0), width);
    var n := 0;
    while n <= ln
      invariant 0 <= n <= ln + 1
      invariant w.Valid() && w.spaceInLastWord < 32 && w.sent + Flat(TileFrom(d, ni, i, j, lm, ln, n, 0), width) == goal
    {
      var m := 0;
      while m <= lm
        invariant 0 <= m <= lm + 1
        invariant w.Valid() && w.spaceInLastWord < 32 && w.sent + Flat(TileFrom(d, ni, i, j, lm, ln, n, m), width)
          == goal
      {
        CellAt(d, i + m, j + n, ni, nj);
        var k := At(i + m, j + n, ni);
        TileStep(d, ni, i, j, lm, ln, n, m);
        FlatStep(w.sent, d[k], TileFrom(d, ni, i, j, lm, ln, n, m + 1), width);
        Masked(d[k], width);
        var token := And(Wrap(d[k]), Wrap(-1 - Shl(-1, width)));
        w.Stuff(token, width);
        m := m + 1;
      }
      TileRowEnd(d, ni, i, j, lm, ln, n);
      n := n + 1;
    }
    TileEnd(d, ni, i, j, lm, ln);
    FlatEmpty(width);
  }

  /** One tile: its width code, and its errors unless they are all zero. */
  method StuffTile(w: BitPacker, v: Variant, cont: nat, d: seq<int>, ni: nat, nj: nat, i: int, j: int, lm: int,
      ln: int, nbits: nat)
      returns (nbits_needed: nat)
    requires |d| == ni * nj && Widths(v, nbits) && Bounded(d, nbits) && ContainerFor(v, nbits, d, cont)
    requires 1 <= i && 1 <= j && 0 <= lm && 0 <= ln && i + lm <= ni && j + ln <= nj
    requires w.Valid()
    requires |w.sent| + |TileCode(v, cont, TileFrom(d, ni, i, j, lm, ln, 0, 0))| <= 32 * (w.z.Length - w.base)
    modifies w, w.z
    ensures w.Valid()
    ensures w.sent == old(w.sent) + TileCode(v, cont, TileFrom(d, ni, i, j, lm, ln, 0, 0))
    ensures nbits_needed == WidthCode(v, MaxAbs(TileFrom(d, ni, i, j, lm, ln, 0, 0)))
    ensures w.spaceInLastWord < 32
  {
    hide Bits, WordBits, At, TileFrom, Flat, Cell, MaxAbs, Bounded, WidthCode, SignedFields, BitPacker.Valid, Pow2;
    ghost var vs := TileFrom(d, ni, i, j, lm, ln, 0, 0);
    TileBounded(v, nbits, cont, d, ni, i, j, lm, ln);
    WidthCodeFits(v, nbits, vs, cont);
    var local_max := TileMax(d, ni, nj, i, j, lm, ln);
    nbits_needed := WidthCode(v, local_max);
    w.Stuff(nbits_needed, cont);
    if nbits_needed != 0 {
      StuffCells(w, d, ni, nj, i, j, lm, ln, ResidualWidth(v, nbits_needed));
    }
  }

  /** The cells of a tile are cells of the field, or 0. */
  lemma {:induction false} TileCells(d: seq<int>, ni: nat, i: int, j: int, lm: int, ln: int, n: int, m: int)
    ensures forall x :: x in TileFrom(d, ni, i, j, lm, ln, n, m) ==> x == 0 || x in d
    decreases ln - n, lm - m
  {
    if n > ln {
    } else if m > lm {
      TileCells(d, ni, i, j, lm, ln, n + 1, 0);
    } else {
      TileCells(d, ni, i, j, lm, ln, n, m + 1);
    }
  }

  lemma TileBounded(v: Variant, nbits: nat, cont: nat, d: seq<int>, ni: nat, i: int, j: int, lm: int, ln: int)
    requires Bounded(d, nbits) && ContainerFor(v, nbits, d, cont)
    ensures var vs := TileFrom(d, ni, i, j, lm, ln, 0, 0); Bounded(vs, nbits) && ContainerFor(v, nbits, vs, cont)
  {
    hide TileFrom, Pow2;
    var vs := TileFrom(d, ni, i, j, lm, ln, 0, 0);
    TileCells(d, ni, i, j, lm, ln, 0, 0);
    forall k | 0 <= k < |vs|
      ensures Abs(vs[k]) <= 2 * (Pow2(nbits) - 1)
      ensures v.Short? && cont == 4 && nbits >= 15 ==> Abs(vs[k]) <= 65535
    {
      assert vs[k] in vs;
      if vs[k] != 0 {
        var q :| 0 <= q < |d| && d[q] == vs[k];
      }
    }
  }

  /**
    The tiles that follow a stream of `len` bits stay within a budget of words: after each tile that is not
    empty there is room for the words completed and for one more tile of the same width code.
   */
  ghost predicate Affordable(v: Variant, cont: nat, len: int, ts: seq<seq<int>>, nbits: nat, remaining_space: int)
    decreases |ts|
  {
    ts == [] ||
    var code := WidthCode(v, MaxAbs(ts[0]));
    var len' := len + |TileCode(v, cont, ts[0])|;
    && (code == 0 || remaining_space >= (len' - 1) / 32 + (1 + (code + 9 * nbits) / 32))
    && Affordable(v, cont, len', ts[1..], nbits, remaining_space)
  }

  lemma AffordableStep(v: Variant, cont: nat, len: int, t: seq<int>, rest: seq<seq<int>>, nbits: nat,
      remaining_space: int)
    ensures var code := WidthCode(v, MaxAbs(t));
      var len' := len + |TileCode(v, cont, t)|;
      Affordable(v, cont, len, [t] + rest, nbits, remaining_space) <==>
        && (code == 0 || remaining_space >= (len' - 1) / 32 + (1 + (code + 9 * nbits) / 32))
        && Affordable(v, cont, len', rest, nbits, remaining_space)
  {
    hide TileCode, WidthCode, MaxAbs;
    assert ([t] + rest)[1..] == rest;
  }

  /** The bits of the tiles before tile n, behind the first `len`. */
  ghost function BitsUpTo(v: Variant, cont: nat, len: nat, ts: seq<seq<int>>, n: nat): nat
    requires n <= |ts|
  {
    if n == 0 then len else BitsUpTo(v, cont, len, ts, n - 1) + |TileCode(v, cont, ts[n - 1])|
  }

  lemma {:induction false} BitsUpToStep(v: Variant, cont: nat, len: nat, ts: seq<seq<int>>, n: nat)
    requires ts != [] && 1 <= n <= |ts|
    ensures BitsUpTo(v, cont, len, ts, n) == BitsUpTo(v, cont, len + |TileCode(v, cont, ts[0])|, ts[1..], n - 1)
    decreases n
  {
    hide TileCode;
    if n > 1 { BitsUpToStep(v, cont, len, ts, n - 1); }
  }

  /** Tile n has no errors, or the words completed after it, one more, and those for such a tile fit the space. */
  ghost predicate TileAffordable(v: Variant, cont: nat, len: nat, ts: seq<seq<int>>, n: nat, nbits: nat,
      remaining_space: int)
    requires n < |ts|
  {
    MaxAbs(ts[n]) == 0
    || (BitsUpTo(v, cont, len, ts, n + 1) - 1) / 32 + 1 + (WidthCode(v, MaxAbs(ts[n])) + 9 * nbits) / 32
      <= remaining_space
  }

  /** A packer does not give up exactly when it does not after any of the tiles. */
  lemma {:induction false} AffordableIs(v: Variant, cont: nat, len: nat, ts: seq<seq<int>>, nbits: nat,
      remaining_space: int)
    ensures Affordable(v, cont, len, ts, nbits, remaining_space) <==>
      forall n :: 0 <= n < |ts| ==> TileAffordable(v, cont, len, ts, n, nbits, remaining_space)
    decreases |ts|
  {
    hide TileCode, WidthCode, MaxAbs, TileAffordable;
    if ts != [] {
      var len' := len + |TileCode(v, cont, ts[0])|;
      AffordableIs(v, cont, len', ts[1..], nbits, remaining_space);
      FirstAffordable(v, cont, len, ts, nbits, remaining_space);
      forall n | 1 <= n < |ts|
        ensures TileAffordable(v, cont, len, ts, n, nbits, remaining_space)
          <==> TileAffordable(v, cont, len', ts[1..], n - 1, nbits, remaining_space)
      {
        NextAffordable(v, cont, len, ts, n, nbits, remaining_space);
      }
      forall n | 0 <= n < |ts[1..]|
        ensures TileAffordable(v, cont, len', ts[1..], n, nbits, remaining_space)
          <==> TileAffordable(v, cont, len, ts, n + 1, nbits, remaining_space)
      {
        NextAffordable(v, cont, len, ts, n + 1, nbits, remaining_space);
      }
      if forall n :: 0 <= n < |ts| ==> TileAffordable(v, cont, len, ts, n, nbits, remaining_space) {
        assert TileAffordable(v, cont, len, ts, 0, nbits, remaining_space);
      } else {
        var n :| 0 <= n < |ts| && !TileAffordable(v, cont, len, ts, n, nbits, remaining_space);
        if n > 0 { assert !TileAffordable(v, cont, len', ts[1..], n - 1, nbits, remaining_space); }
      }
    }
  }

  lemma FirstAffordable(v: Variant, cont: nat, len: nat, ts: seq<seq<int>>, nbits: nat, remaining_space: int)
    requires ts != []
    ensures TileAffordable(v, cont, len, ts, 0, nbits, remaining_space) <==>
      (var code, len' := WidthCode(v, MaxAbs(ts[0])), len + |TileCode(v, cont, ts[0])|;
       code == 0 || remaining_space >= (len' - 1) / 32 + (1 + (code + 9 * nbits) / 32))
  {
    hide TileCode, WidthCode, MaxAbs;
    CodeOfZero(v, MaxAbs(ts[0]));
    assert BitsUpTo(v, cont, len, ts, 1) == BitsUpTo(v, cont, len, ts, 0) + |TileCode(v, cont, ts[0])|;
  }

  lemma NextAffordable(v: Variant, cont: nat, len: nat, ts: seq<seq<int>>, n: nat, nbits: nat, remaining_space: int)
    requires 1 <= n < |ts|
    ensures TileAffordable(v, cont, len, ts, n, nbits, remaining_space)
      <==> TileAffordable(v, cont, len + |TileCode(v, cont, ts[0])|, ts[1..], n - 1, nbits, remaining_space)
  {
    hide TileCode, WidthCode, MaxAbs;
    BitsUpToStep(v, cont, len, ts, n + 1);
  }

  lemma CodeOfZero(v: Variant, m: nat)
    ensures WidthCode(v, m) == 0 <==> m == 0
  {
    hide BitLength, NbitsNeeded;
    NbitsNeededIsLength(m);
    if m > 0 { PositiveLength(m); } else { ZeroLength(); }
  }

  lemma ZeroLength()
    ensures BitLength(0) == 0
  {
  }

  /** The mantissa packer stops after a tile with width code `code` that ends at bit `len`. */
  predicate Stops(v: Variant, code: nat, len: int, nbits: nat, remaining_space: int) {
    v.Mantissa? && code != 0 && remaining_space < (len - 1) / 32 + (1 + (code + 9 * nbits) / 32)
  }

  /** The bits that are sent, on top of the first `len`, before the packer ends or stops: the room it needs. */
  ghost function SentBits(v: Variant, cont: nat, len: nat, ts: seq<seq<int>>, nbits: nat,
      remaining_space: int): (n: nat)
    ensures n >= len
    decreases |ts|
  {
    if ts == [] then len
    else
      var len' := len + |TileCode(v, cont, ts[0])|;
      if Stops(v, WidthCode(v, MaxAbs(ts[0])), len', nbits, remaining_space) then len'
      else SentBits(v, cont, len', ts[1..], nbits, remaining_space)
  }

  lemma SentBitsStep(v: Variant, cont: nat, len: nat, t: seq<int>, rest: seq<seq<int>>, nbits: nat,
      remaining_space: int)
    ensures var len' := len + |TileCode(v, cont, t)|;
      var n := SentBits(v, cont, len, [t] + rest, nbits, remaining_space);
      && n >= len'
      && (!Stops(v, WidthCode(v, MaxAbs(t)), len', nbits, remaining_space)
        ==> n == SentBits(v, cont, len', rest, nbits, remaining_space))
  {
    hide TileCode, WidthCode, MaxAbs, Stops;
    assert ([t] + rest)[1..] == rest;
  }

  /** Never more bits than the tiles have, and all of them unless the packer stops. */
  lemma {:induction false} SentBitsAll(v: Variant, cont: nat, len: nat, ts: seq<seq<int>>, nbits: nat,
      remaining_space: int)
    ensures SentBits(v, cont, len, ts, nbits, remaining_space) <= len + |TilesCode(v, cont, ts)|
    ensures !v.Mantissa? || Affordable(v, cont, len, ts, nbits, remaining_space) ==>
      SentBits(v, cont, len, ts, nbits, remaining_space) == len + |TilesCode(v, cont, ts)|
    decreases |ts|
  {
    hide TileCode, WidthCode, MaxAbs;
    if ts == [] {
      TilesCodeNone(v, cont);
    } else {
      TilesCodeStep(v, cont, [], ts[0], ts[1..]);
      assert [ts[0]] + ts[1..] == ts;
      SentBitsAll(v, cont, len + |TileCode(v, cont, ts[0])|, ts[1..], nbits, remaining_space);
    }
  }

  lemma AffordableNone(v: Variant, cont: nat, len: int, nbits: nat, remaining_space: int)
    ensures Affordable(v, cont, len, [], nbits, remaining_space)
  {
  }

  /** The words completed, from the bits pushed, once the pending word is not empty. */
  lemma WordsDone(w: BitPacker)
    requires w.Valid() && w.spaceInLastWord < 32
    ensures w.availableWordPtr - w.base == (|w.sent| - 1) / 32
  {
    hide WordBits, Bits;
  }

  /** The tile loops of the packer; with a budget in words, as for mantissas, they stop when it is exceeded. */
  method StuffTiles(w: BitPacker, v: Variant, cont: nat, d: seq<int>, ni: nat, nj: nat, nbits: nat, istep: int,
      remaining_space: int)
      returns (fits: bool)
    requires |d| == ni * nj && Widths(v, nbits) && Steps(v, istep) && Bounded(d, nbits)
      && ContainerFor(v, nbits, d, cont)
    requires w.Valid()
    requires SentBits(v, cont, |w.sent|, TilesFrom(d, ni, nj, istep, 2, 2, 2), nbits, remaining_space)
      <= 32 * (w.z.Length - w.base)
    modifies w, w.z
    ensures w.Valid()
    ensures fits ==> w.sent == old(w.sent) + TilesCode(v, cont, TilesFrom(d, ni, nj, istep, 2, 2, 2))
    ensures fits <==> !v.Mantissa? || Affordable(v, cont, |old(w.sent)|, TilesFrom(d, ni, nj, istep, 2, 2, 2), nbits,
      remaining_space)
  {
    hide TilesCode, TilesFrom, TileFrom, TileCode, Bounded, ContainerFor, Pow2, WidthCode, MaxAbs, BitPacker.Valid,
      Affordable, SentBits;
    ghost var room := SentBits(v, cont, |w.sent|, TilesFrom(d, ni, nj, istep, 2, 2, 2), nbits, remaining_space);
    ghost var goal := w.sent + TilesCode(v, cont, TilesFrom(d, ni, nj, istep, 2, 2, 2));
    ghost var fine := Affordable(v, cont, |w.sent|, TilesFrom(d, ni, nj, istep, 2, 2, 2), nbits, remaining_space);
    var j := 2;
    while j <= nj
      invariant 2 <= j
      invariant w.Valid() && w.sent + TilesCode(v, cont, TilesFrom(d, ni, nj, istep, 2, j, 2)) == goal
      invariant v.Mantissa? ==> fine == Affordable(v, cont, |w.sent|, TilesFrom(d, ni, nj, istep, 2, j, 2), nbits,
        remaining_space)
      invariant room == SentBits(v, cont, |w.sent|, TilesFrom(d, ni, nj, istep, 2, j, 2), nbits, remaining_space)
      decreases nj - j
    {
      var lcl_n := Extent(j, istep, nj);
      var i := 2;
      while i <= ni
        invariant 2 <= i
        invariant w.Valid() && w.sent + TilesCode(v, cont, TilesFrom(d, ni, nj, istep, 2, j, i)) == goal
        invariant v.Mantissa? ==> fine == Affordable(v, cont, |w.sent|, TilesFrom(d, ni, nj, istep, 2, j, i), nbits,
          remaining_space)
        invariant room == SentBits(v, cont, |w.sent|, TilesFrom(d, ni, nj, istep, 2, j, i), nbits, remaining_space)
        decreases ni - i
      {
        var lcl_m := Extent(i, istep, ni);
        TilesStep(d, ni, nj, istep, 2, j, i);
        TilesCodeStep(v, cont, w.sent, Tile(d, ni, nj, istep, i, j), TilesFrom(d, ni, nj, istep, 2, j, i + istep));
        AffordableStep(v, cont, |w.sent|, Tile(d, ni, nj, istep, i, j), TilesFrom(d, ni, nj, istep, 2, j, i + istep),
          nbits, remaining_space);
        SentBitsStep(v, cont, |w.sent|, Tile(d, ni, nj, istep, i, j), TilesFrom(d, ni, nj, istep, 2, j, i + istep),
          nbits, remaining_space);
        var nbits_needed := StuffTile(w, v, cont, d, ni, nj, i, j, lcl_m, lcl_n, nbits);
        WordsDone(w);
        if v.Mantissa? && nbits_needed != 0
          && remaining_space < w.availableWordPtr - w.base + (1 + (nbits_needed + 9 * nbits) / 32) {
          return false;
        }
        i := i + istep;
      }
      TilesBandEnd(d, ni, nj, istep, 2, j, i);
      j := j + istep;
    }
    TilesEnd(d, ni, nj, istep, 2, j, 2);
    TilesCodeNone(v, cont);
    AffordableNone(v, cont, |w.sent|, nbits, remaining_space);
    return true;
  }

  /** The loops that fill ufld_dst. */
  method FillErrors(g: seq<int>, ni: nat, nj: nat) returns (ufld_dst: array<int>)
    requires |g| == ni * nj && ni >= 1 && nj >= 1
    ensures fresh(ufld_dst) && ufld_dst[..] == Residuals(g, ni)
  {
    hide At, Cell, Residual, Residuals;
    ufld_dst := new int[ni * nj];
    var j := 1;
    while j <= nj
      invariant 1 <= j <= nj + 1
      invariant forall b :: 1 <= b < j ==> Cell(ufld_dst[..], ni, 1, b) == 0
    {
      var k := At(1, j, ni);
      SetCell(ufld_dst[..], ni, nj, 1, j, k, 0);
      ufld_dst[k] := 0;
      j := j + 1;
    }
    var i := 1;
    while i <= ni
      invariant 1 <= i <= ni + 1
      invariant forall b :: 1 <= b <= nj ==> Cell(ufld_dst[..], ni, 1, b) == 0
      invariant forall a :: 1 <= a < i ==> Cell(ufld_dst[..], ni, a, 1) == 0
    {
      var k := At(i, 1, ni);
      SetCell(ufld_dst[..], ni, nj, i, 1, k, 0);
      ufld_dst[k] := 0;
      i := i + 1;
    }
    BordersDone(ufld_dst[..], g, ni, nj);
    j := 2;
    while j <= nj
      invariant 2 <= j
      invariant ErrorsUpTo(ufld_dst[..], g, ni, nj, 2, j)
    {
      i := 2;
      while i <= ni
        invariant 2 <= i
        invariant ErrorsUpTo(ufld_dst[..], g, ni, nj, i, j)
      {
        Neighbours(g, i, j, ni, nj);
        var k22 := At(i, j, ni);
        var e := g[k22] - (g[k22 - ni] + g[k22 - 1] - g[k22 - 1 - ni]);
        SetError(ufld_dst[..], g, ni, nj, i, j, k22, e);
        ufld_dst[k22] := e;
        i := i + 1;
      }
      ErrorsBandEnd(ufld_dst[..], g, ni, nj, i, j);
      j := j + 1;
    }
    ErrorsDone(ufld_dst[..], g, ni, nj, j);
  }

  /** The borders, the rows before j and the cells of row j before i hold the errors of g. */
  ghost predicate ErrorsUpTo(d: seq<int>, g: seq<int>, ni: nat, nj: nat, i: int, j: int) {
    && |d| == ni * nj
    && forall a, b :: 1 <= a <= ni && 1 <= b <= nj && (a == 1 || b < j || (b == j && a < i)) ==>
      Cell(d, ni, a, b) == Residual(g, ni, a, b)
  }

  lemma SetCell(d: seq<int>, ni: nat, nj: nat, i: int, j: int, k: int, x: int)
    requires |d| == ni * nj && 1 <= i <= ni && 1 <= j <= nj && k == At(i, j, ni)
    ensures 0 <= k < |d|
    ensures forall a, b {:trigger Cell(d[k := x], ni, a, b)} :: 1 <= a <= ni && 1 <= b <= nj ==>
      Cell(d[k := x], ni, a, b) == if a == i && b == j then x else Cell(d, ni, a, b)
  {
    AtBounds(i, j, ni, nj);
    forall a, b {:trigger Cell(d[k := x], ni, a, b)} | 1 <= a <= ni && 1 <= b <= nj
      ensures Cell(d[k := x], ni, a, b) == if a == i && b == j then x else Cell(d, ni, a, b)
    {
      PutCell(d, ni, nj, i, j, x, a, b);
    }
  }

  lemma BordersDone(d: seq<int>, g: seq<int>, ni: nat, nj: nat)
    requires |d| == ni * nj
    requires forall b :: 1 <= b <= nj ==> Cell(d, ni, 1, b) == 0
    requires forall a :: 1 <= a <= ni ==> Cell(d, ni, a, 1) == 0
    ensures ErrorsUpTo(d, g, ni, nj, 2, 2)
  {
    hide Cell;
  }

  /** The four cells of the predictor, by index. */
  lemma Neighbours(g: seq<int>, i: int, j: int, ni: nat, nj: nat)
    requires |g| == ni * nj && 2 <= i <= ni && 2 <= j <= nj
    ensures var k22 := At(i, j, ni);
      && 0 <= k22 - 1 - ni && k22 < |g|
      && g[k22] == Cell(g, ni, i, j) && g[k22 - ni] == Cell(g, ni, i, j - 1)
      && g[k22 - 1] == Cell(g, ni, i - 1, j) && g[k22 - 1 - ni] == Cell(g, ni, i - 1, j - 1)
      && At(i, j - 1, ni) == k22 - ni && At(i - 1, j, ni) == k22 - 1 && At(i - 1, j - 1, ni) == k22 - 1 - ni
  {
    AtBounds(i, j, ni, nj);
    AtBounds(i - 1, j - 1, ni, nj);
    AtShift(i, j, -1, ni);
    AtShift(i, j - 1, -1, ni);
  }

  lemma SetError(d: seq<int>, g: seq<int>, ni: nat, nj: nat, i: int, j: int, k: int, e: int)
    requires |g| == ni * nj && 2 <= i <= ni && 2 <= j <= nj && k == At(i, j, ni) && ErrorsUpTo(d, g, ni, nj, i, j)
    requires e == Cell(g, ni, i, j) - (Cell(g, ni, i, j - 1) + Cell(g, ni, i - 1, j) - Cell(g, ni, i - 1, j - 1))
    ensures 0 <= k < |d| && ErrorsUpTo(d[k := e], g, ni, nj, i + 1, j)
  {
    hide Cell;
    SetCell(d, ni, nj, i, j, k, e);
  }

  lemma ErrorsBandEnd(d: seq<int>, g: seq<int>, ni: nat, nj: nat, i: int, j: int)
    requires i > ni && ErrorsUpTo(d, g, ni, nj, i, j)
    ensures ErrorsUpTo(d, g, ni, nj, 2, j + 1)
  {
    hide Cell, Residual;
  }

  lemma ErrorsDone(d: seq<int>, g: seq<int>, ni: nat, nj: nat, j: int)
    requires j > nj && |g| == ni * nj && ErrorsUpTo(d, g, ni, nj, 2, j)
    ensures d == Residuals(g, ni)
  {
    hide Cell, Residual;
    forall a, b | 1 <= a <= ni && 1 <= b <= nj
      ensures Cell(d, ni, a, b) == Cell(Residuals(g, ni), ni, a, b)
    {
      ResidualsCell(g, ni, nj, a, b);
    }
    SameCells(d, Residuals(g, ni), ni, nj);
  }

  /** The choice of the container, with the gt16 scan for shorts. */
  method ChooseContainer(v: Variant, nbits: nat, d: seq<int>) returns (nbits_req_container: nat)
    ensures nbits_req_container == Container(v, nbits, d)
  {
    nbits_req_container := if v.Mantissa? then 5 else 4;
    if v.Short? && nbits >= 15 {
      var i, gt16 := 0, false;
      while i < |d| && !gt16
        invariant 0 <= i <= |d|
        invariant gt16 <==> exists k :: 0 <= k < i && Abs(d[k]) > 65535
        invariant nbits_req_container == if gt16 then 5 else 4
      {
        if 65535 < Abs(d[i]) {
          nbits_req_container, gt16 := 5, true;
        }
        i := i + 1;
      }
    }
  }

  lemma ContainerSuits(v: Variant, nbits: nat, d: seq<int>)
    ensures ContainerFor(v, nbits, d, Container(v, nbits, d))
  {
  }

  lemma ResidualsBounded(g: seq<int>, ni: nat, nbits: nat)
    requires Below(g, Pow2(nbits))
    ensures Bounded(Residuals(g, ni), nbits)
  {
    hide Residual, Pow2, Below;
    var d := Residuals(g, ni);
    forall k | 0 <= k < |d|
      ensures Abs(d[k]) <= 2 * (Pow2(nbits) - 1)
    {
      if ni > 0 { ResidualBound(g, ni, k % ni + 1, k / ni + 1, nbits); }
    }
  }

  /** The first row, then the rest of the first column, nbits per value. */
  method StuffBorders(w: BitPacker, g: seq<int>, ni: nat, nj: nat, nbits: nat)
    requires |g| == ni * nj && ni >= 1 && nj >= 1 && 1 <= nbits < 32 && Below(g, Pow2(nbits))
    requires w.Valid()
    requires |w.sent| + |Flat(TileFrom(g, ni, 1, 1, ni - 1, 0, 0, 0), nbits)|
      + |Flat(TileFrom(g, ni, 1, 2, 0, nj - 2, 0, 0), nbits)|
      <= 32 * (w.z.Length - w.base)
    modifies w, w.z
    ensures w.Valid()
    ensures w.sent == old(w.sent) + Flat(TileFrom(g, ni, 1, 1, ni - 1, 0, 0, 0), nbits)
      + Flat(TileFrom(g, ni, 1, 2, 0, nj - 2, 0, 0), nbits)
  {
    hide Bits, WordBits, Pow2, At, TileFrom, Flat, Cell, Below, BitPacker.Valid;
    ghost var goal := w.sent + Flat(TileFrom(g, ni, 1, 1, ni - 1, 0, 0, 0), nbits);
    FlatEmpty(nbits);
    var i := 1;
    while i <= ni
      invariant 1 <= i <= ni + 1
      invariant w.Valid() && w.sent + Flat(TileFrom(g, ni, 1, 1, ni - 1, 0, 0, i - 1), nbits) == goal
    {
      CellAt(g, i, 1, ni, nj);
      CellBelow(g, ni, i, 1, Pow2(nbits));
      TileStep(g, ni, 1, 1, ni - 1, 0, 0, i - 1);
      var k := At(i, 1, ni);
      FlatStep(w.sent, g[k], TileFrom(g, ni, 1, 1, ni - 1, 0, 0, i), nbits);
      w.Stuff(g[k], nbits);
      i := i + 1;
    }
    TileRowEnd(g, ni, 1, 1, ni - 1, 0, 0);
    TileEnd(g, ni, 1, 1, ni - 1, 0);
    goal := goal + Flat(TileFrom(g, ni, 1, 2, 0, nj - 2, 0, 0), nbits);
    var j := 2;
    while j <= nj
      invariant 2 <= j <= nj + 1 || (j == 2 && nj == 1)
      invariant w.Valid() && w.sent + Flat(TileFrom(g, ni, 1, 2, 0, nj - 2, j - 2, 0), nbits) == goal
    {
      CellAt(g, 1, j, ni, nj);
      CellBelow(g, ni, 1, j, Pow2(nbits));
      TileStep(g, ni, 1, 2, 0, nj - 2, j - 2, 0);
      TileRowEnd(g, ni, 1, 2, 0, nj - 2, j - 2);
      var k := At(1, j, ni);
      FlatStep(w.sent, g[k], TileFrom(g, ni, 1, 2, 0, nj - 2, j - 1, 0), nbits);
      w.Stuff(g[k], nbits);
      j := j + 1;
    }
    if nj >= 2 {
      TileEnd(g, ni, 1, 2, 0, nj - 2);
    } else {
      NoRows(g, ni, 1, 2, 0, nj - 2);
    }
  }

  lemma NoRows(g: seq<int>, ni: nat, i: int, j: int, lm: int, ln: int)
    requires ln < 0
    ensures TileFrom(g, ni, i, j, lm, ln, 0, 0) == []
  {
  }

  /** The mantissa packer keeps within its budget of words all along. */
  ghost predicate WithinBudget(v: Variant, g: seq<int>, ni: nat, nj: nat, nbits: nat, istep: int, remaining_space: int)
    requires Steps(v, istep)
  {
    var d := Residuals(g, ni);
    var cont := Container(v, nbits, d);
    Affordable(v, cont, BorderBits(v, g, ni, nj, nbits, istep), TilesFrom(d, ni, nj, istep, 2, 2, 2), nbits,
      remaining_space)
  }

  /** The bits in front of the tiles: the container width, the first row and the rest of the first column. */
  ghost function BorderBits(v: Variant, g: seq<int>, ni: nat, nj: nat, nbits: nat, istep: int): nat
    requires Steps(v, istep)
  {
    ContainerBits(v, istep) + |Flat(TileFrom(g, ni, 1, 1, ni - 1, 0, 0, 0), nbits)|
      + |Flat(TileFrom(g, ni, 1, 2, 0, nj - 2, 0, 0), nbits)|
  }

  /** The bits sent for a field before the packer ends or stops. */
  ghost function FieldBits(v: Variant, g: seq<int>, ni: nat, nj: nat, nbits: nat, istep: int, remaining_space: int): nat
    requires Steps(v, istep)
  {
    var d := Residuals(g, ni);
    SentBits(v, Container(v, nbits, d), BorderBits(v, g, ni, nj, nbits, istep), TilesFrom(d, ni, nj, istep, 2, 2, 2),
      nbits, remaining_space)
  }

  /** A packer that is not stopped sends the whole code, and one that is stopped no more. */
  lemma FieldBitsAll(v: Variant, g: seq<int>, ni: nat, nj: nat, nbits: nat, istep: int, remaining_space: int)
    requires Steps(v, istep)
    ensures BorderBits(v, g, ni, nj, nbits, istep) <= FieldBits(v, g, ni, nj, nbits, istep, remaining_space)
    ensures FieldBits(v, g, ni, nj, nbits, istep, remaining_space) <= |FieldCode(v, g, ni, nj, nbits, istep)|
    ensures !v.Mantissa? || WithinBudget(v, g, ni, nj, nbits, istep, remaining_space) ==>
      FieldBits(v, g, ni, nj, nbits, istep, remaining_space) == |FieldCode(v, g, ni, nj, nbits, istep)|
  {
    hide Affordable, Flat, TileFrom, TilesFrom, TilesCode, Residuals, Container, SentBits;
    var d := Residuals(g, ni);
    SentBitsAll(v, Container(v, nbits, d), BorderBits(v, g, ni, nj, nbits, istep),
      TilesFrom(d, ni, nj, istep, 2, 2, 2), nbits, remaining_space);
  }

  /** The test after a last tile that is not empty covers the whole code. */
  lemma {:induction false} LastTileChecked(v: Variant, cont: nat, len: nat, ts: seq<seq<int>>, nbits: nat,
      remaining_space: int)
    requires ts != [] && Affordable(v, cont, len, ts, nbits, remaining_space)
    ensures var code := WidthCode(v, MaxAbs(ts[|ts| - 1]));
      code != 0 ==> remaining_space >= (len + |TilesCode(v, cont, ts)| - 1) / 32 + (1 + (code + 9 * nbits) / 32)
    decreases |ts|
  {
    hide TileCode, WidthCode, MaxAbs;
    TilesCodeStep(v, cont, [], ts[0], ts[1..]);
    assert [ts[0]] + ts[1..] == ts;
    if |ts| == 1 {
      TilesCodeNone(v, cont);
    } else {
      LastTileChecked(v, cont, len + |TileCode(v, cont, ts[0])|, ts[1..], nbits, remaining_space);
    }
  }

  /** The last tile has a prediction error that is not zero. */
  ghost predicate EndsWithErrors(v: Variant, g: seq<int>, ni: nat, nj: nat, istep: int)
    requires Steps(v, istep)
  {
    var ts := TilesFrom(Residuals(g, ni), ni, nj, istep, 2, 2, 2);
    ts != [] && WidthCode(v, MaxAbs(ts[|ts| - 1])) != 0
  }

  /** A packer that is not stopped leaves a word of its budget unused when the last tile has errors. */
  lemma BudgetKept(g: seq<int>, ni: nat, nj: nat, nbits: nat, istep: int, remaining_space: int)
    requires Steps(Mantissa, istep) && nbits >= 4
    requires WithinBudget(Mantissa, g, ni, nj, nbits, istep, remaining_space)
      && EndsWithErrors(Mantissa, g, ni, nj, istep)
    ensures |FieldCode(Mantissa, g, ni, nj, nbits, istep)| <= 32 * (remaining_space - 1)
  {
    hide Affordable, Flat, TileFrom, TilesFrom, TilesCode, Residuals, Container, WidthCode, MaxAbs;
    var d := Residuals(g, ni);
    LastTileChecked(Mantissa, Container(Mantissa, nbits, d), BorderBits(Mantissa, g, ni, nj, nbits, istep),
                   TilesFrom(d, ni, nj, istep, 2, 2, 2), nbits, remaining_space);
  }

  /** The body common to the three packers: everything from the container width to the flush. */
  method StuffField(w: BitPacker, v: Variant, g: seq<int>, ni: nat, nj: nat, nbits: nat, istep: int,
      remaining_space: int)
      returns (fits: bool)
    requires |g| == ni * nj && ni >= 1 && nj >= 1 && Widths(v, nbits) && Steps(v, istep) && Below(g, Pow2(nbits))
    requires w.Valid() && w.sent == []
    requires FieldBits(v, g, ni, nj, nbits, istep, remaining_space) <= 32 * (w.z.Length - w.base)
    modifies w, w.z
    ensures w.Valid()
    ensures fits ==> w.availableWordPtr == w.base + (|FieldCode(v, g, ni, nj, nbits, istep)| + 31) / 32
    ensures fits ==> StartsWith(w.z[..], w.base, FieldCode(v, g, ni, nj, nbits, istep))
    ensures fits <==> !v.Mantissa? || WithinBudget(v, g, ni, nj, nbits, istep, remaining_space)
  {
    hide Affordable, Bits, WordBits, Flat, TileFrom, TilesFrom, TilesCode, Residuals, Below, Pow2, Bounded,
      ContainerFor, Container, BitPacker.Valid,
      StartsWith, SentBits;
    FieldBitsAll(v, g, ni, nj, nbits, istep, remaining_space);
    var ufld_dst := FillErrors(g, ni, nj);
    var d := ufld_dst[..];
    ResidualsBounded(g, ni, nbits);
    ContainerSuits(v, nbits, d);
    ContainerFits(v, nbits, d, istep);
    var nbits_req_container := ChooseContainer(v, nbits, d);
    w.Stuff(nbits_req_container, ContainerBits(v, istep));
    StuffBorders(w, g, ni, nj, nbits);
    fits := StuffTiles(w, v, nbits_req_container, d, ni, nj, nbits, istep, remaining_space);
    if fits {
      ghost var code := FieldCode(v, g, ni, nj, nbits, istep);
      assert w.sent == code;
      w.Flush();
      ghost var end := w.availableWordPtr;
      StartsWithFlushed(w.z[..], w.base, end, code, Bits(0, 32)[..32 * (end - w.base) - |code|]);
    }
  }

  lemma ContainerFits(v: Variant, nbits: nat, d: seq<int>, istep: int)
    requires Steps(v, istep)
    ensures 4 <= Container(v, nbits, d) <= 5
    ensures 3 <= ContainerBits(v, istep) <= 31 && Container(v, nbits, d) < Pow2(ContainerBits(v, istep))
  {
    hide Pow2;
    Pow2Mono(3, ContainerBits(v, istep));
    Pow2Values();
    Pow2Double(4);
  }

  lemma SignedFieldsStep(x: int, rest: seq<int>, w: nat)
    requires SignedFields([x] + rest, w)
    ensures 0 <= x + Pow2(w - 1) < 2 * Pow2(w - 1) && SignedFields(rest, w)
  {
    hide Pow2;
    var vs := [x] + rest;
    assert vs[0] == x;
    forall k | 0 <= k < |rest| ensures 0 <= rest[k] + Pow2(w - 1) < 2 * Pow2(w - 1) { assert rest[k] == vs[k + 1]; }
  }

  /** One extract per cell of the tile, sign extended. */
  method ExtractCells(r: BitUnpacker, ufld_tmp: array<int>, ghost d: seq<int>, ni: nat, nj: nat, i: int, j: int,
      lm: int, ln: int,
      nbits2: nat, ghost rest: seq<bool>)
    requires ufld_tmp.Length == |d| == ni * nj
    requires 1 <= i && 1 <= j && 0 <= lm && 0 <= ln && i + lm <= ni && j + ln <= nj
    requires 1 <= nbits2 < 32
    requires SignedFields(TileFrom(d, ni, i, j, lm, ln, 0, 0), nbits2)
    requires r.Valid() && |rest| > 0 && r.unread == Flat(TileFrom(d, ni, i, j, lm, ln, 0, 0), nbits2) + rest
    modifies r, ufld_tmp
    ensures r.Valid() && r.unread == rest
    ensures ufld_tmp[..] == PutTile(old(ufld_tmp[..]), d, ni, i, j, lm, ln, 0, 0)
  {
    hide Bits, WordBits, Pow2, At, TileFrom, Flat, Cell, SignedFields, Val, PutTile, SignExtend, Low, BitUnpacker.Valid;
    ghost var goal := PutTile(ufld_tmp[..], d, ni, i, j, lm, ln, 0, 0);
    var n := 0;
    while n <= ln
      invariant 0 <= n <= ln + 1
      invariant r.Valid() && r.unread == Flat(TileFrom(d, ni, i, j, lm, ln, n, 0), nbits2) + rest
      invariant SignedFields(TileFrom(d, ni, i, j, lm, ln, n, 0), nbits2)
      invariant PutTile(ufld_tmp[..], d, ni, i, j, lm, ln, n, 0) == goal
    {
      var m := 0;
      while m <= lm
        invariant 0 <= m <= lm + 1
        invariant r.Valid() && r.unread == Flat(TileFrom(d, ni, i, j, lm, ln, n, m), nbits2) + rest
        invariant SignedFields(TileFrom(d, ni, i, j, lm, ln, n, m), nbits2)
        invariant PutTile(ufld_tmp[..], d, ni, i, j, lm, ln, n, m) == goal
      {
        CellAt(d, i + m, j + n, ni, nj);
        var k := At(i + m, j + n, ni);
        ghost var left := TileFrom(d, ni, i, j, lm, ln, n, m + 1);
        TileStep(d, ni, i, j, lm, ln, n, m);
        SignedFieldsStep(d[k], left, nbits2);
        FlatFront(r.unread, d[k], left, nbits2, rest);
        SignExtendExact(d[k], nbits2);
        var token := r.Extract(nbits2);
        PutTileStep(ufld_tmp[..], d, ni, i, j, lm, ln, n, m);
        ufld_tmp[k] := SignExtend(token, nbits2);
        m := m + 1;
      }
      TileRowEnd(d, ni, i, j, lm, ln, n);
      PutTileRowEnd(ufld_tmp[..], d, ni, i, j, lm, ln, n);
      n := n + 1;
    }
    TileEnd(d, ni, i, j, lm, ln);
    FlatEmpty(nbits2);
    PutTileEnd(ufld_tmp[..], d, ni, i, j, lm, ln);
  }

  ghost predicate AllZero(vs: seq<int>) {
    forall k :: 0 <= k < |vs| ==> vs[k] == 0
  }

  lemma AllZeroStep(x: int, rest: seq<int>)
    requires AllZero([x] + rest)
    ensures x == 0 && AllZero(rest)
  {
    var vs := [x] + rest;
    assert vs[0] == x;
    forall k | 0 <= k < |rest| ensures rest[k] == 0 { assert rest[k] == vs[k + 1]; }
  }

  lemma NoErrors(vs: seq<int>)
    requires MaxAbs(vs) == 0
    ensures AllZero(vs)
  {
    hide MaxAbs;
    MaxAbsBounds(vs);
  }

  /** The reading loops for a tile without errors. */
  method ClearTile(ufld_tmp: array<int>, ghost d: seq<int>, ni: nat, nj: nat, i: int, j: int, lm: int, ln: int)
    requires ufld_tmp.Length == |d| == ni * nj
    requires 1 <= i && 1 <= j && 0 <= lm && 0 <= ln && i + lm <= ni && j + ln <= nj
    requires AllZero(TileFrom(d, ni, i, j, lm, ln, 0, 0))
    modifies ufld_tmp
    ensures ufld_tmp[..] == PutTile(old(ufld_tmp[..]), d, ni, i, j, lm, ln, 0, 0)
  {
    hide At, TileFrom, Cell, AllZero, PutTile;
    ghost var goal := PutTile(ufld_tmp[..], d, ni, i, j, lm, ln, 0, 0);
    var n := 0;
    while n <= ln
      invariant 0 <= n <= ln + 1
      invariant AllZero(TileFrom(d, ni, i, j, lm, ln, n, 0))
      invariant PutTile(ufld_tmp[..], d, ni, i, j, lm, ln, n, 0) == goal
    {
      var m := 0;
      while m <= lm
        invariant 0 <= m <= lm + 1
        invariant AllZero(TileFrom(d, ni, i, j, lm, ln, n, m))
        invariant PutTile(ufld_tmp[..], d, ni, i, j, lm, ln, n, m) == goal
      {
        CellAt(d, i + m, j + n, ni, nj);
        var k := At(i + m, j + n, ni);
        TileStep(d, ni, i, j, lm, ln, n, m);
        AllZeroStep(d[k], TileFrom(d, ni, i, j, lm, ln, n, m + 1));
        PutTileStep(ufld_tmp[..], d, ni, i, j, lm, ln, n, m);
        ufld_tmp[k] := 0;
        m := m + 1;
      }
      TileRowEnd(d, ni, i, j, lm, ln, n);
      PutTileRowEnd(ufld_tmp[..], d, ni, i, j, lm, ln, n);
      n := n + 1;
    }
    PutTileEnd(ufld_tmp[..], d, ni, i, j, lm, ln);
  }

  /** The width code at the front of a tile. */
  lemma TileFront(u: seq<bool>, v: Variant, cont: nat, vs: seq<int>, nbits: nat, rest: seq<bool>)
    requires Widths(v, nbits) && Bounded(vs, nbits) && ContainerFor(v, nbits, vs, cont)
    requires u == TileCode(v, cont, vs) + rest
    ensures var code := WidthCode(v, MaxAbs(vs));
      && |u| >= cont + |rest| && Val(u[..cont]) == code
      && u[cont..] == (if code == 0 then [] else Flat(vs, ResidualWidth(v, code))) + rest
  {
    hide Bits, Val, Flat, MaxAbs, WidthCode, Pow2, Bounded, SignedFields, ContainerFor;
    var code := WidthCode(v, MaxAbs(vs));
    WidthCodeFits(v, nbits, vs, cont);
    var body := if code == 0 then [] else Flat(vs, ResidualWidth(v, code));
    assert u == Bits(code, cont) + (body + rest);
    FrontValue(u, code, cont, body + rest);
  }

  /** One tile of errors read back. */
  method ExtractTile(r: BitUnpacker, v: Variant, cont: nat, ufld_tmp: array<int>, ghost d: seq<int>, ni: nat, nj: nat,
      i: int, j: int, lm: int, ln: int, ghost nbits: nat, ghost rest: seq<bool>)
    requires ufld_tmp.Length == |d| == ni * nj && Widths(v, nbits) && Bounded(d, nbits)
      && ContainerFor(v, nbits, d, cont)
    requires 1 <= i && 1 <= j && 0 <= lm && 0 <= ln && i + lm <= ni && j + ln <= nj
    requires r.Valid() && |rest| > 0 && r.unread == TileCode(v, cont, TileFrom(d, ni, i, j, lm, ln, 0, 0)) + rest
    modifies r, ufld_tmp
    ensures r.Valid() && r.unread == rest
    ensures ufld_tmp[..] == PutTile(old(ufld_tmp[..]), d, ni, i, j, lm, ln, 0, 0)
  {
    hide Bits, WordBits, At, TileFrom, Flat, Cell, MaxAbs, Bounded, WidthCode, SignedFields, TileCode, Val, PutTile,
      Pow2, BitUnpacker.Valid;
    ghost var vs := TileFrom(d, ni, i, j, lm, ln, 0, 0);
    TileBounded(v, nbits, cont, d, ni, i, j, lm, ln);
    WidthCodeFits(v, nbits, vs, cont);
    TileFront(r.unread, v, cont, vs, nbits, rest);
    var nbits_needed := r.Extract(cont);
    if nbits_needed == 0 {
      NoErrors(vs);
      ClearTile(ufld_tmp, d, ni, nj, i, j, lm, ln);
    } else {
      ExtractCells(r, ufld_tmp, d, ni, nj, i, j, lm, ln, ResidualWidth(v, nbits_needed), rest);
    }
  }

  /** The tile loops of the unpacker. */
  method ExtractTiles(r: BitUnpacker, v: Variant, cont: nat, ufld_tmp: array<int>, ghost d: seq<int>, ni: nat, nj: nat,
      istep: int,
      ghost nbits: nat, ghost rest: seq<bool>)
    requires ufld_tmp.Length == |d| == ni * nj && Widths(v, nbits) && Steps(v, istep) && Bounded(d, nbits)
      && ContainerFor(v, nbits, d, cont)
    requires r.Valid() && |rest| > 0 && r.unread == TilesCode(v, cont, TilesFrom(d, ni, nj, istep, 2, 2, 2)) + rest
    modifies r, ufld_tmp
    ensures ufld_tmp[..] == PutTiles(old(ufld_tmp[..]), d, ni, nj, istep, 2, 2, 2)
  {
    hide TilesCode, TilesFrom, TileFrom, TileCode, Bounded, ContainerFor, Pow2, PutTiles, PutTile, BitUnpacker.Valid;
    ghost var goal := PutTiles(ufld_tmp[..], d, ni, nj, istep, 2, 2, 2);
    var j := 2;
    while j <= nj
      invariant 2 <= j
      invariant r.Valid() && r.unread == TilesCode(v, cont, TilesFrom(d, ni, nj, istep, 2, j, 2)) + rest
      invariant PutTiles(ufld_tmp[..], d, ni, nj, istep, 2, j, 2) == goal
      decreases nj - j
    {
      var lcl_n := Extent(j, istep, nj);
      var i := 2;
      while i <= ni
        invariant 2 <= i
        invariant r.Valid() && r.unread == TilesCode(v, cont, TilesFrom(d, ni, nj, istep, 2, j, i)) + rest
        invariant PutTiles(ufld_tmp[..], d, ni, nj, istep, 2, j, i) == goal
        decreases ni - i
      {
        var lcl_m := Extent(i, istep, ni);
        ghost var left := TilesFrom(d, ni, nj, istep, 2, j, i + istep);
        TilesStep(d, ni, nj, istep, 2, j, i);
        TilesCodeFront(v, cont, r.unread, Tile(d, ni, nj, istep, i, j), left, rest);
        PutTilesStep(ufld_tmp[..], d, ni, nj, istep, 2, j, i);
        ExtractTile(r, v, cont, ufld_tmp, d, ni, nj, i, j, lcl_m, lcl_n, nbits, TilesCode(v, cont, left) + rest);
        i := i + istep;
      }
      TilesBandEnd(d, ni, nj, istep, 2, j, i);
      PutTilesBandEnd(ufld_tmp[..], d, ni, nj, istep, 2, j, i);
      j := j + istep;
    }
    PutTilesEnd(ufld_tmp[..], d, ni, nj, istep, 2, j, 2);
  }

  /** The first row and column read back into the field. */
  method ExtractBorders(r: BitUnpacker, ufld: array<int>, ghost g: seq<int>, ni: nat, nj: nat, nbits: nat,
      ghost rest: seq<bool>)
    requires ufld.Length == |g| == ni * nj && ni >= 1 && nj >= 1 && 1 <= nbits < 32 && Below(g, Pow2(nbits))
    requires r.Valid() && |rest| > 0
    requires r.unread == Flat(TileFrom(g, ni, 1, 1, ni - 1, 0, 0, 0), nbits)
      + (Flat(TileFrom(g, ni, 1, 2, 0, nj - 2, 0, 0), nbits) + rest)
    modifies r, ufld
    ensures r.Valid() && r.unread == rest
    ensures BordersRead(ufld[..], g, ni, nj)
  {
    hide Bits, WordBits, Pow2, At, TileFrom, Flat, Cell, Val, Low, Below, BitUnpacker.Valid;
    ghost var column := Flat(TileFrom(g, ni, 1, 2, 0, nj - 2, 0, 0), nbits) + rest;
    FlatEmpty(nbits);
    var i := 1;
    while i <= ni
      invariant 1 <= i <= ni + 1
      invariant r.Valid() && r.unread == Flat(TileFrom(g, ni, 1, 1, ni - 1, 0, 0, i - 1), nbits) + column
      invariant forall a :: 1 <= a < i ==> Cell(ufld[..], ni, a, 1) == Cell(g, ni, a, 1)
    {
      CellAt(g, i, 1, ni, nj);
      CellBelow(g, ni, i, 1, Pow2(nbits));
      TileStep(g, ni, 1, 1, ni - 1, 0, 0, i - 1);
      var k := At(i, 1, ni);
      FlatFront(r.unread, g[k], TileFrom(g, ni, 1, 1, ni - 1, 0, 0, i), nbits, column);
      LowId(g[k], nbits);
      var token := r.Extract(nbits);
      SetCell(ufld[..], ni, nj, i, 1, k, token);
      ufld[k] := token;
      i := i + 1;
    }
    TileRowEnd(g, ni, 1, 1, ni - 1, 0, 0);
    TileEnd(g, ni, 1, 1, ni - 1, 0);
    var j := 2;
    while j <= nj
      invariant 2 <= j <= nj + 1 || (j == 2 && nj == 1)
      invariant r.Valid() && r.unread == Flat(TileFrom(g, ni, 1, 2, 0, nj - 2, j - 2, 0), nbits) + rest
      invariant forall a :: 1 <= a <= ni ==> Cell(ufld[..], ni, a, 1) == Cell(g, ni, a, 1)
      invariant forall b :: 1 <= b < j ==> Cell(ufld[..], ni, 1, b) == Cell(g, ni, 1, b)
    {
      CellAt(g, 1, j, ni, nj);
      CellBelow(g, ni, 1, j, Pow2(nbits));
      TileStep(g, ni, 1, 2, 0, nj - 2, j - 2, 0);
      TileRowEnd(g, ni, 1, 2, 0, nj - 2, j - 2);
      var k := At(1, j, ni);
      FlatFront(r.unread, g[k], TileFrom(g, ni, 1, 2, 0, nj - 2, j - 1, 0), nbits, rest);
      LowId(g[k], nbits);
      var token := r.Extract(nbits);
      SetCell(ufld[..], ni, nj, 1, j, k, token);
      ufld[k] := token;
      j := j + 1;
    }
    if nj >= 2 {
      TileEnd(g, ni, 1, 2, 0, nj - 2);
    } else {
      NoRows(g, ni, 1, 2, 0, nj - 2);
    }
  }

  ghost predicate BordersRead(f: seq<int>, g: seq<int>, ni: nat, nj: nat) {
    && |f| == ni * nj
    && (forall a :: 1 <= a <= ni ==> Cell(f, ni, a, 1) == Cell(g, ni, a, 1))
    && (forall b :: 1 <= b <= nj ==> Cell(f, ni, 1, b) == Cell(g, ni, 1, b))
  }

  /** The borders, the rows before j and the cells of row j before i are those of g. */
  ghost predicate RebuiltUpTo(f: seq<int>, g: seq<int>, ni: nat, nj: nat, i: int, j: int) {
    && |f| == ni * nj
    && forall a, b :: 1 <= a <= ni && 1 <= b <= nj && (a == 1 || b < j || (b == j && a < i)) ==>
      Cell(f, ni, a, b) == Cell(g, ni, a, b)
  }

  /** ufld_tmp holds the error of every interior cell. */
  ghost predicate ErrorsRead(tmp: seq<int>, g: seq<int>, ni: nat, nj: nat) {
    && |tmp| == ni * nj
    && forall a, b :: 2 <= a <= ni && 2 <= b <= nj ==> Cell(tmp, ni, a, b) == Residual(g, ni, a, b)
  }

  lemma RebuildStart(f: seq<int>, g: seq<int>, ni: nat, nj: nat)
    requires BordersRead(f, g, ni, nj)
    ensures RebuiltUpTo(f, g, ni, nj, 2, 2)
  {
    hide Cell;
  }

  lemma RebuildCell(f: seq<int>, tmp: seq<int>, g: seq<int>, v: Variant, ni: nat, nj: nat, i: int, j: int)
    requires |g| == ni * nj && 2 <= i <= ni && 2 <= j <= nj && Below(g, Modulus(v))
    requires RebuiltUpTo(f, g, ni, nj, i, j) && ErrorsRead(tmp, g, ni, nj)
    ensures var k22 := At(i, j, ni);
      && 0 <= k22 - 1 - ni && k22 < |f|
      && (tmp[k22] + (f[k22 - ni] + f[k22 - 1] - f[k22 - 1 - ni])) % Modulus(v) == Cell(g, ni, i, j)
  {
    hide Cell, Below;
    Neighbours(f, i, j, ni, nj);
    CellAt(tmp, i, j, ni, nj);
    CellBelow(g, ni, i, j, Modulus(v));
  }

  lemma RebuildStep(f: seq<int>, g: seq<int>, ni: nat, nj: nat, i: int, j: int, k: int, x: int)
    requires |g| == ni * nj && 2 <= i <= ni && 2 <= j <= nj && k == At(i, j, ni)
    requires RebuiltUpTo(f, g, ni, nj, i, j) && x == Cell(g, ni, i, j)
    ensures 0 <= k < |f| && RebuiltUpTo(f[k := x], g, ni, nj, i + 1, j)
  {
    hide Cell;
    SetCell(f, ni, nj, i, j, k, x);
  }

  lemma RebuildBandEnd(f: seq<int>, g: seq<int>, ni: nat, nj: nat, i: int, j: int)
    requires i > ni && RebuiltUpTo(f, g, ni, nj, i, j)
    ensures RebuiltUpTo(f, g, ni, nj, 2, j + 1)
  {
    hide Cell;
  }

  lemma RebuildEnd(f: seq<int>, g: seq<int>, ni: nat, nj: nat, j: int)
    requires j > nj && |g| == ni * nj && RebuiltUpTo(f, g, ni, nj, 2, j)
    ensures f == g
  {
    hide Cell;
    SameCells(f, g, ni, nj);
  }

  /** The reconstruction loops: each cell from its error and three cells already rebuilt. */
  method Rebuild(v: Variant, ufld: array<int>, ufld_tmp: array<int>, ghost g: seq<int>, ni: nat, nj: nat)
    requires ufld.Length == ufld_tmp.Length == |g| == ni * nj && ufld != ufld_tmp && Below(g, Modulus(v))
    requires BordersRead(ufld[..], g, ni, nj) && ErrorsRead(ufld_tmp[..], g, ni, nj)
    modifies ufld
    ensures ufld[..] == g
  {
    hide At, Cell, Below, BordersRead, ErrorsRead, RebuiltUpTo;
    ghost var tmp := ufld_tmp[..];
    RebuildStart(ufld[..], g, ni, nj);
    var j := 2;
    while j <= nj
      invariant 2 <= j && RebuiltUpTo(ufld[..], g, ni, nj, 2, j)
    {
      var i := 2;
      while i <= ni
        invariant 2 <= i && RebuiltUpTo(ufld[..], g, ni, nj, i, j)
      {
        RebuildCell(ufld[..], tmp, g, v, ni, nj, i, j);
        var k22 := At(i, j, ni);
        var x := (ufld_tmp[k22] + (ufld[k22 - ni] + ufld[k22 - 1] - ufld[k22 - 1 - ni])) % Modulus(v);
        RebuildStep(ufld[..], g, ni, nj, i, j, k22, x);
        ufld[k22] := x;
        i := i + 1;
      }
      RebuildBandEnd(ufld[..], g, ni, nj, i, j);
      j := j + 1;
    }
    RebuildEnd(ufld[..], g, ni, nj, j);
  }

  lemma ErrorsComplete(before: seq<int>, g: seq<int>, ni: nat, nj: nat, istep: int)
    requires |before| == |g| == ni * nj && istep >= 1
    ensures ErrorsRead(PutTiles(before, Residuals(g, ni), ni, nj, istep, 2, 2, 2), g, ni, nj)
  {
    hide Cell, Residual, PutTiles, Residuals;
    var d := Residuals(g, ni);
    var tmp := PutTiles(before, d, ni, nj, istep, 2, 2, 2);
    forall a, b | 2 <= a <= ni && 2 <= b <= nj
      ensures Cell(tmp, ni, a, b) == Residual(g, ni, a, b)
    {
      PutTilesCell(before, d, ni, nj, istep, 2, 2, 2, a, b);
      ResidualsCell(g, ni, nj, a, b);
    }
  }

  lemma FieldFront(u: seq<bool>, v: Variant, g: seq<int>, ni: nat, nj: nat, nbits: nat, istep: int, rest: seq<bool>)
    requires Steps(v, istep) && u == FieldCode(v, g, ni, nj, nbits, istep) + rest
    ensures var d := Residuals(g, ni); var cont := Container(v, nbits, d); var cb := ContainerBits(v, istep);
      && cb >= 0 && |u| >= cb + |rest| && Val(u[..cb]) == cont
      && u[cb..] == Flat(TileFrom(g, ni, 1, 1, ni - 1, 0, 0, 0), nbits)
          + (Flat(TileFrom(g, ni, 1, 2, 0, nj - 2, 0, 0), nbits)
            + (TilesCode(v, cont, TilesFrom(d, ni, nj, istep, 2, 2, 2)) + rest))
  {
    hide Bits, Flat, TileFrom, TilesFrom, TilesCode, Residuals, Container, Val, Pow2;
    var d := Residuals(g, ni);
    var cont := Container(v, nbits, d);
    var cb := ContainerBits(v, istep);
    ContainerFits(v, nbits, d, istep);
    var a, b, c := Flat(TileFrom(g, ni, 1, 1, ni - 1, 0, 0, 0), nbits),
      Flat(TileFrom(g, ni, 1, 2, 0, nj - 2, 0, 0), nbits), TilesCode(v, cont, TilesFrom(d, ni, nj, istep, 2, 2, 2));
    assert u == Bits(cont, cb) + (a + (b + (c + rest)));
    FrontValue(u, cont, cb, a + (b + (c + rest)));
  }

  /** The body common to the three unpackers: a stream that starts with the code of a field gives back the field. */
  method ExtractField(v: Variant, ufld: array<int>, z: array<Word>, slot: nat, ni: nat, nj: nat, nbits: nat,
      istep: int, ghost g: seq<int>)
    requires ufld.Length == |g| == ni * nj && ni >= 1 && nj >= 1
    requires Widths(v, nbits) && Steps(v, istep) && Below(g, Pow2(nbits))
    requires slot < z.Length && StartsWith(z[..], slot, FieldCode(v, g, ni, nj, nbits, istep))
    requires |FieldCode(v, g, ni, nj, nbits, istep)| < 32 * (z.Length - slot)   // extract reads one word ahead
    modifies ufld
    ensures ufld[..] == g
  {
    hide WordBits, FieldCode, Below, Pow2, PutTiles, Cell, TileFrom, TilesFrom, TilesCode, Flat, Val, Residuals,
      Container, Bounded, ContainerFor, ErrorsRead, BordersRead, BitUnpacker.Valid;
    var r := new BitUnpacker(z, slot);
    assert z[..][slot..] == z[slot..];
    ghost var code := FieldCode(v, g, ni, nj, nbits, istep);
    ghost var rest := WordBits(z[slot..])[|code|..];
    ghost var d := Residuals(g, ni);
    ResidualsBounded(g, ni, nbits);
    ContainerSuits(v, nbits, d);
    ContainerFits(v, nbits, d, istep);
    FieldFront(r.unread, v, g, ni, nj, nbits, istep, rest);
    var nbits_req_container := r.Extract(ContainerBits(v, istep));
    ghost var tiles := TilesCode(v, nbits_req_container, TilesFrom(d, ni, nj, istep, 2, 2, 2));
    ExtractBorders(r, ufld, g, ni, nj, nbits, tiles + rest);
    var ufld_tmp := new int[ni * nj];
    ghost var before := ufld_tmp[..];
    ExtractTiles(r, v, nbits_req_container, ufld_tmp, d, ni, nj, istep, nbits, rest);
    ErrorsComplete(before, g, ni, nj, istep);
    BelowModulus(v, g, nbits);
    Rebuild(v, ufld, ufld_tmp, g, ni, nj);
  }

  lemma BelowModulus(v: Variant, g: seq<int>, nbits: nat)
    requires Widths(v, nbits) && Below(g, Pow2(nbits))
    ensures Below(g, Modulus(v))
  {
    match v
    case Short => Pow2Mono(nbits, 16); Pow2Values();
    case Byte => Pow2Mono(nbits, 8); Pow2Values();
    case Mantissa => Pow2Mono(nbits, 32); Pow2Values();
  }

  /** packTokensParallelogram: the header word, then the code of the field. */
  method PackTokensParallelogram(z: array<Word>, ufld: seq<int>, ni: nat, nj: nat, nbits: nat, istep: int, header: Word)
    returns (zlng: int)
    requires |ufld| == ni * nj && ni >= 1 && nj >= 1 && 1 <= nbits <= 16 && istep >= 1 && Below(ufld, Pow2(nbits))
    requires z.Length >= 2 && |FieldCode(Short, ufld, ni, nj, nbits, istep)| <= 32 * (z.Length - 1)
    modifies z
    ensures z[0] == header && StartsWith(z[..], 1, FieldCode(Short, ufld, ni, nj, nbits, istep))
    ensures zlng == 1 + 4 * (1 + (|FieldCode(Short, ufld, ni, nj, nbits, istep)| + 31) / 32)
  {
    hide FieldCode, FieldBits, Below, Pow2, BitPacker.Valid;
    z[0] := header;
    z[1] := 0;
    var w := new BitPacker(z, 1);
    HeaderKept(w);
    FieldBitsAll(Short, ufld, ni, nj, nbits, istep, 0);
    var fits := StuffField(w, Short, ufld, ni, nj, nbits, istep, 0);
    HeaderKept(w);
    zlng := 1 + w.availableWordPtr * 4;
  }

  /** What lies in front of the first word written stays as it was. */
  lemma HeaderKept(w: BitPacker)
    requires w.Valid()
    ensures w.z.Length == |w.before| && w.base <= w.availableWordPtr <= w.z.Length
    ensures forall k :: 0 <= k < w.base ==> w.z[k] == w.before[k]
    ensures forall k :: w.availableWordPtr <= k < w.z.Length ==> w.z[k] == w.before[k]
  {
  }

  /** unpackTokensParallelogram: any stream that starts with the code of a field gives back the field. */
  method UnpackTokensParallelogram(ufld: array<int>, z: array<Word>, ni: nat, nj: nat, nbits: nat, istep: int,
      ghost g: seq<int>)
    returns (header: Word)
    requires ufld.Length == |g| == ni * nj && ni >= 1 && nj >= 1 && 1 <= nbits <= 16 && istep >= 1
      && Below(g, Pow2(nbits))
    requires z.Length >= 2 && StartsWith(z[..], 1, FieldCode(Short, g, ni, nj, nbits, istep))
    requires |FieldCode(Short, g, ni, nj, nbits, istep)| < 32 * (z.Length - 1)   // extract reads one word ahead
    modifies ufld
    ensures header == z[0] && ufld[..] == g
  {
    hide FieldCode, Below, Pow2;
    header := z[0];
    ExtractField(Short, ufld, z, 1, ni, nj, nbits, istep, g);
  }

  /**
    packTokensParallelogram_8 and, with a budget of words, packTokensParallelogram32: no header, written from `slot`
    on.
   */
  method PackTokensAt(v: Variant, z: array<Word>, slot: nat, ufld: seq<int>, ni: nat, nj: nat, nbits: nat, istep: int,
      remaining_space: int)
    returns (zlng: int)
    requires !v.Short? && |ufld| == ni * nj && ni >= 1 && nj >= 1 && Widths(v, nbits) && Steps(v, istep)
      && Below(ufld, Pow2(nbits))
    requires slot < z.Length && FieldBits(v, ufld, ni, nj, nbits, istep, remaining_space) <= 32 * (z.Length - slot)
    modifies z
    ensures zlng == 0 <==> v.Mantissa? && !WithinBudget(v, ufld, ni, nj, nbits, istep, remaining_space)
    ensures zlng != 0 ==> zlng == 1 + 4 * ((|FieldCode(v, ufld, ni, nj, nbits, istep)| + 31) / 32)
    ensures zlng != 0 ==> StartsWith(z[..], slot, FieldCode(v, ufld, ni, nj, nbits, istep))
    ensures forall k :: 0 <= k < slot ==> z[k] == old(z[k])
  {
    hide FieldCode, FieldBits, WithinBudget, Below, Pow2, BitPacker.Valid, StartsWith;
    z[slot] := 0;
    var w := new BitPacker(z, slot);
    var fits := StuffField(w, v, ufld, ni, nj, nbits, istep, remaining_space);
    HeaderKept(w);
    zlng := if fits then 1 + (w.availableWordPtr - slot) * 4 else 0;
  }

  /** The most a cell can cost, its share of the width code included. */
  function CellCost(v: Variant): nat {
    match v
    case Short => 23
    case Byte => 14
    case Mantissa => 30
  }

  lemma TileCost(v: Variant, nbits: nat, cont: nat, vs: seq<int>)
    requires vs != [] && cont <= 5 && Widths(v, nbits) && Bounded(vs, nbits) && ContainerFor(v, nbits, vs, cont)
    ensures |TileCode(v, cont, vs)| <= CellCost(v) * |vs|
  {
    hide Flat, MaxAbs, WidthCode, Bounded, SignedFields, Pow2;
    var code := WidthCode(v, MaxAbs(vs));
    WidthCodeFits(v, nbits, vs, cont);
    CodeBound(v, nbits, vs, cont);
    FlatLength(vs, ResidualWidth(v, code));
    Cheaper(|vs|, ResidualWidth(v, code), CellCost(v), cont);
  }

  lemma CodeBound(v: Variant, nbits: nat, vs: seq<int>, cont: nat)
    requires Widths(v, nbits) && Bounded(vs, nbits) && ContainerFor(v, nbits, vs, cont)
    ensures cont + ResidualWidth(v, WidthCode(v, MaxAbs(vs))) <= CellCost(v)
  {
    hide MaxAbs, Bounded, SignedFields, Pow2, BitLength, NbitsNeeded;
    var m := MaxAbs(vs);
    ErrorLength(v, nbits, vs, cont);
    NbitsNeededIsLength(m);
  }

  lemma Cheaper(n: nat, width: nat, cost: nat, cont: nat)
    requires n >= 1 && cont + width <= cost
    ensures cont + n * width <= cost * n && cont <= cost * n
  {
    assert cost * n == (cost - width) * n + n * width;
    MulAtLeast(cost - width + 1, n);
    assert (cost - width) * n >= cost - width by { MulGrows(cost - width, n); }
    assert n * width >= 0;
  }

  lemma MulGrows(a: nat, n: nat)
    requires n >= 1
    ensures a * n >= a
  {
    assert a * (n - 1) >= 0;
  }

  lemma {:induction false} TilesCost(v: Variant, nbits: nat, cont: nat, d: seq<int>, ni: nat, nj: nat, istep: int,
      j: int, i: int)
    requires |d| == ni * nj && Widths(v, nbits) && istep >= 1 && cont <= 5 && Bounded(d, nbits)
      && ContainerFor(v, nbits, d, cont)
    requires i >= 2 && j >= 2
    ensures |TilesCode(v, cont, TilesFrom(d, ni, nj, istep, 2, j, i))|
      <= CellCost(v) * TotalCells(TilesFrom(d, ni, nj, istep, 2, j, i))
    decreases nj - j, ni - i
  {
    hide TileCode, TileFrom, Bounded, ContainerFor, CellCost;
    if j > nj {
    } else if i > ni {
      TilesCost(v, nbits, cont, d, ni, nj, istep, j + istep, 2);
    } else {
      var t, left := Tile(d, ni, nj, istep, i, j), TilesFrom(d, ni, nj, istep, 2, j, i + istep);
      TilesCost(v, nbits, cont, d, ni, nj, istep, j, i + istep);
      TileBounded(v, nbits, cont, d, ni, i, j, Extent(i, istep, ni), Extent(j, istep, nj));
      TileStep(d, ni, i, j, Extent(i, istep, ni), Extent(j, istep, nj), 0, 0);
      TileCost(v, nbits, cont, t);
      TilesCodeStep(v, cont, [], t, left);
      assert ([t] + left)[1..] == left;
      Distribute(CellCost(v), |t|, TotalCells(left));
    }
  }

  lemma Distribute(c: nat, a: nat, b: nat)
    ensures c * (a + b) == c * a + c * b
  {
  }

  /** A packed field costs at most CellCost bits per cell beyond its first token. */
  lemma FieldCost(v: Variant, g: seq<int>, ni: nat, nj: nat, nbits: nat, istep: int)
    requires |g| == ni * nj && ni >= 1 && nj >= 1 && Widths(v, nbits) && Steps(v, istep) && Below(g, Pow2(nbits))
    ensures |FieldCode(v, g, ni, nj, nbits, istep)| <= ContainerBits(v, istep) + CellCost(v) * (ni * nj)
  {
    hide TilesCode, TilesFrom, TileFrom, Flat, Container, Residuals, Below, Pow2, Bounded, ContainerFor, TotalCells,
      CellsLeft;
    var d := Residuals(g, ni);
    var cont := Container(v, nbits, d);
    ResidualsBounded(g, ni, nbits);
    ContainerSuits(v, nbits, d);
    ContainerFits(v, nbits, d, istep);
    TilesCost(v, nbits, cont, d, ni, nj, istep, 2, 2);
    AllCells(d, ni, nj, istep, 2);
    var row, column := TileFrom(g, ni, 1, 1, ni - 1, 0, 0, 0), TileFrom(g, ni, 1, 2, 0, nj - 2, 0, 0);
    TileFromLength(g, ni, 1, 1, ni - 1, 0, 0, 0);
    if nj >= 2 { TileFromLength(g, ni, 1, 2, 0, nj - 2, 0, 0); } else { NoRows(g, ni, 1, 2, 0, nj - 2); }
    FlatLength(row, nbits);
    FlatLength(column, nbits);
    BordersAndInside(ni, nj, nbits, CellCost(v));
  }

  lemma BordersAndInside(ni: nat, nj: nat, nbits: nat, c: nat)
    requires ni >= 1 && nj >= 1 && nbits <= c
    ensures ni * nbits + (nj - 1) * nbits + c * ((ni - 1) * (nj - 1)) <= c * (ni * nj)
  {
    var inside := (ni - 1) * (nj - 1);
    assert ni * nj == inside + (ni + nj - 1);
    Distribute(c, inside, ni + nj - 1);
    assert ni * nbits + (nj - 1) * nbits == (ni + nj - 1) * nbits;
    assert (ni + nj - 1) * (c - nbits) >= 0;
  }
}
