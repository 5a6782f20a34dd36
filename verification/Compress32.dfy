/**
  c_armn_compress32 and c_armn_uncompress32: the words of a 32-bit floating point field are split into signs,
  exponents and mantissas, each coded by its own stream.
 */
module Compress32 {
  import opened Words
  import opened BitStream
  import opened FstzipHeader
  import opened Tiles
  import M = MinMax
  import P = Parallelogram
  import R = Rle

  const MEME_SIGNE_POSITIF: nat := 0x00
  const MEME_SIGNE_NEGATIF: nat := 0x10
  const DIFF_SIGNE_PACKED: nat := 0x20
  const MEME_EXPOSANT: nat := 0x00
  const DIFF_EXPOSANT_PACKED: nat := 0x08

  function Sign(w: Word): nat {
    w / 0x8000_0000
  }

  function Exponent(w: Word): nat {
    w / 0x80_0000 % 256
  }

  /** The nbits leading bits of the 23-bit mantissa. */
  function Mantissa(w: Word, nbits: nat): int
    requires nbits <= 23
  {
    Shr(w % 0x80_0000, 23 - nbits)
  }

  function Signs(g: seq<Word>): (s: seq<int>)
    ensures |s| == |g|
  {
    seq(|g|, i requires 0 <= i < |g| => Sign(g[i]))
  }

  function Exponents(g: seq<Word>): (s: seq<int>)
    ensures |s| == |g|
  {
    seq(|g|, i requires 0 <= i < |g| => Exponent(g[i]))
  }

  function Mantissas(g: seq<Word>, nbits: nat): (s: seq<int>)
    requires nbits <= 23
    ensures |s| == |g|
  {
    seq(|g|, i requires 0 <= i < |g| => Mantissa(g[i], nbits))
  }

  /** What compression keeps of a value: all but the low bits of its mantissa. */
  function Truncated(w: Word, nbits: nat): Word
    requires nbits <= 23
  {
    LowIsMod(w, 23 - nbits);
    LowAtMost(w, 23 - nbits);
    w - w % Pow2(23 - nbits)
  }

  lemma {:induction false} LowAtMost(v: nat, n: nat)
    ensures Low(v, n) <= v
  {
    if n > 0 { LowAtMost(v / 2, n - 1); }
  }

  lemma Pow23()
    ensures Pow2(23) == 0x80_0000 && Pow2(31) == 0x8000_0000 && Pow2(8) == 256
  {
    Pow2Values();
    assert Pow2(20) == 0x10_0000;
    assert Pow2(28) == 0x1000_0000;
  }

  /** The shifts and masks of the splitting loop. */
  lemma FloatFields(w: Word)
    ensures Shr(w, 31) == Sign(w) < 2
    ensures 0 <= Shr(w, 23) && And(Shr(w, 23), 0xFF) == Exponent(w)
    ensures And(w, 0x7F_FFFF) == w % 0x80_0000
  {
    hide Shr, And, Low, Pow2;
    Pow23();
    ShrIsDiv(w, 31);
    ShrIsDiv(w, 23);
    AndOnes(Shr(w, 23), 8);
    LowIsMod(Shr(w, 23), 8);
    AndOnes(w, 23);
    LowIsMod(w, 23);
  }

  lemma {:induction false} ShrThenShl(v: int, n: nat)
    ensures Shl(Shr(v, n), n) + Low(v, n) == v
    decreases n
  {
    if n > 0 { ShrThenShl(v / 2, n - 1); }
  }

  lemma {:induction false} ShrMonotone(v: int, n: nat)
    requires v >= 0
    ensures Shr(v, n) >= 0
    decreases n
  {
    if n > 0 { ShrMonotone(v / 2, n - 1); }
  }

  lemma {:induction false} ShlMonotone(v: int, n: nat)
    requires v >= 0
    ensures Shl(v, n) >= 0
  {
    if n > 0 { ShlMonotone(v, n - 1); }
  }

  /** (s << 31) | (e << 23) | (m << (23 - nbits)) */
  function Assembled(s: nat, e: nat, m: nat, nbits: nat): nat
    requires nbits <= 23
  {
    ShlMonotone(s, 31);
    ShlMonotone(e, 23);
    ShlMonotone(m, 23 - nbits);
    Or(Or(Shl(s, 31), Shl(e, 23)), Shl(m, 23 - nbits))
  }

  lemma MantissaFits(w: Word, nbits: nat)
    requires nbits <= 23
    ensures 0 <= Mantissa(w, nbits) < Pow2(nbits)
    ensures 0 <= Shl(Mantissa(w, nbits), 23 - nbits) == w % 0x80_0000 - w % Pow2(23 - nbits) < Pow2(23)
  {
    hide Shr, Low, Pow2, Shl;
    var f, k := w % 0x80_0000, 23 - nbits;
    Pow23();
    ShrBound(f, k, nbits);
    ShrThenShl(f, k);
    LowIsMod(w, 23);
    LowLow(w, 23, k);
    LowIsMod(w, k);
    ShlMonotone(Shr(f, k), k);
  }

  lemma Disjoint(x: nat, t: nat, n: nat)
    requires t < Pow2(n)
    ensures Shl(x, n) == x * Pow2(n) && Or(x * Pow2(n), t) == x * Pow2(n) + t
  {
    OrDisjoint(x, t, n);
    ShlIsMul(x, n);
  }

  lemma AssembledSum(s: nat, e: nat, m: nat, nbits: nat)
    requires nbits <= 23 && s < 2 && e < 256 && 0 <= Shl(m, 23 - nbits) < 0x80_0000
    ensures Assembled(s, e, m, nbits) == s * 0x8000_0000 + e * 0x80_0000 + Shl(m, 23 - nbits)
  {
    hide Shl, Or, Pow2;
    Pow23();
    ShlIsMul(e, 23);
    Disjoint(s, e * 0x80_0000, 31);
    Disjoint(s * 256 + e, Shl(m, 23 - nbits), 23);
  }

  lemma PartsSum(w: Word)
    ensures w == Sign(w) * 0x8000_0000 + Exponent(w) * 0x80_0000 + w % 0x80_0000
    ensures Sign(w) < 2
  {
    var q := w / 0x80_0000;
    DivUnique(w, 0x8000_0000, q / 256, q % 256 * 0x80_0000 + w % 0x80_0000);
  }

  /** Putting the three parts of a value together again. */
  lemma AssembledFromParts(w: Word, nbits: nat)
    requires nbits <= 23
    ensures Mantissa(w, nbits) >= 0
    ensures Assembled(Sign(w), Exponent(w), Mantissa(w, nbits), nbits) == Truncated(w, nbits)
  {
    hide Shl, Or, Pow2, Mantissa, Assembled, Sign, Exponent;
    MantissaFits(w, nbits);
    Pow23();
    PartsSum(w);
    ExponentByte(w);
    AssembledSum(Sign(w), Exponent(w), Mantissa(w, nbits), nbits);
  }

  lemma ExponentByte(w: Word)
    ensures Exponent(w) < 256
  {
  }

  /**
    At 32 bits nothing is lost; below, the value keeps its sign, its exponent and the leading bits of its mantissa,
    and only those.
   */
  lemma TruncatedKeeps(w: Word, nbits: nat)
    requires nbits <= 23
    ensures nbits == 23 ==> Truncated(w, nbits) == w
    ensures var t := Truncated(w, nbits);
      && Sign(t) == Sign(w) && Exponent(t) == Exponent(w) && Mantissa(t, nbits) == Mantissa(w, nbits)
      && t <= w < t + Pow2(23 - nbits) && Low(t, 23 - nbits) == 0
  {
    hide Shl, Shr, Pow2, Low;
    MantissaFits(w, nbits);
    PartsSum(w);
    ExponentByte(w);
    Pow23();
    var k, m := 23 - nbits, Mantissa(w, nbits);
    var f := Shl(m, k);
    var t := Truncated(w, nbits);
    DivUnique(t, 0x80_0000, Sign(w) * 256 + Exponent(w), f);
    DivUnique(t, 0x8000_0000, Sign(w), Exponent(w) * 0x80_0000 + f);
    ShrShl(m, 0, k);
    ShlNone(m);
    LowIsMod(f, k);
    LowShl(m, 0, k);
    LowIsMod(w, 23);
    LowIsMod(t, 23);
    LowLow(t, 23, k);
    NoLowBits(m, k);
    OneValue();
  }

  lemma OneValue()
    ensures Pow2(0) == 1
  {
  }

  lemma {:induction false} NoLowBits(v: int, n: nat)
    ensures Low(Shl(v, n), n) == 0
    decreases n
  {
    if n > 0 {
      assert Shl(v, n) / 2 == Shl(v, n - 1) && Shl(v, n) % 2 == 0;
      NoLowBits(v, n - 1);
    }
  }

  predicate SameSign(g: seq<Word>) {
    forall i :: 0 <= i < |g| ==> Sign(g[i]) == Sign(g[0])
  }

  /** nbits_needed: the width of the exponents once the least one is subtracted. */
  ghost function ExponentWidth(g: seq<Word>): (b: nat)
  {
    var e := Exponents(g);
    if M.MaxOf(e) <= M.MinOf(e) then 0 else BitLength(M.MaxOf(e) - M.MinOf(e))
  }

  ghost function ExponentBase(g: seq<Word>): int {
    M.MinOf(Exponents(g))
  }

  ghost function ExponentOffsets(g: seq<Word>): (s: seq<int>)
    ensures |s| == |g|
  {
    seq(|g|, i requires 0 <= i < |g| => Exponent(g[i]) - ExponentBase(g))
  }

  lemma ExponentFacts(g: seq<Word>)
    requires |g| > 0
    ensures 0 <= ExponentBase(g) < 256 && ExponentWidth(g) <= 8
    ensures forall i :: 0 <= i < |g| ==> ExponentOffsets(g)[i] + ExponentBase(g) == Exponent(g[i])
    ensures Below(ExponentOffsets(g), Pow2(ExponentWidth(g)))
    ensures forall i :: 0 <= i < |g| && ExponentWidth(g) == 0 ==> Exponent(g[i]) == ExponentBase(g)
  {
    hide Pow2, BitLength, Exponent;
    var e := Exponents(g);
    M.Extremes(e);
    ExponentsSmall(g);
    var d := M.MaxOf(e) - M.MinOf(e);
    BitLengthFits(d, 8);
    BitLengthFits(d, BitLength(d));
    Pow2Values();
    if d > 0 { P.PositiveLength(d); }
    forall i | 0 <= i < |g|
      ensures 0 <= ExponentOffsets(g)[i] <= d
    {
      assert e[i] == Exponent(g[i]);
    }
    OneValue();
  }

  lemma ExponentsSmall(g: seq<Word>)
    ensures forall x :: x in Exponents(g) ==> 0 <= x < 256
  {
  }

  /** The base is the least exponent, and the width the least that holds the exponents less the base. */
  lemma ExponentsLeast(g: seq<Word>)
    requires |g| > 0
    ensures (forall i :: 0 <= i < |g| ==> ExponentBase(g) <= Exponent(g[i]) < ExponentBase(g) + Pow2(ExponentWidth(g)))
    ensures exists i :: 0 <= i < |g| && Exponent(g[i]) == ExponentBase(g)
    ensures ExponentWidth(g) > 0 ==>
      exists i :: 0 <= i < |g| && Exponent(g[i]) >= ExponentBase(g) + Pow2(ExponentWidth(g) - 1)
  {
    hide Pow2, BitLength, Exponent, M.MinOf, M.MaxOf;
    var e := Exponents(g);
    M.Extremes(e);
    ExponentFacts(g);
    var i :| 0 <= i < |e| && e[i] == M.MinOf(e);
    var j :| 0 <= j < |e| && e[j] == M.MaxOf(e);
    assert Exponent(g[i]) == ExponentBase(g) && Exponent(g[j]) == M.MaxOf(e);
    forall k | 0 <= k < |g| ensures ExponentBase(g) <= Exponent(g[k]) < ExponentBase(g) + Pow2(ExponentWidth(g)) {
      assert ExponentOffsets(g)[k] + ExponentBase(g) == Exponent(g[k]);
    }
    var d := M.MaxOf(e) - M.MinOf(e);
    if d > 0 {
      P.PositiveLength(d);
      BitLengthFits(d, BitLength(d) - 1);
    }
  }

  /** The bits of the coded signs. */
  ghost function SignStream(g: seq<Word>): seq<bool> {
    R.Code(R.Encode(Signs(g), 0))
  }

  /** The words of the sign part: none, or a length word, the code, and a word that is only skipped. */
  ghost function SignWords(g: seq<Word>): (n: nat)
  {
    if SameSign(g) then 0 else 2 + (|SignStream(g)| + 31) / 32
  }

  ghost function ExponentCode(g: seq<Word>, ni: nat, nj: nat): (s: seq<bool>) {
    P.FieldCode(P.Byte, ExponentOffsets(g), ni, nj, ExponentWidth(g), 3)
  }

  ghost function ExponentWords(g: seq<Word>, ni: nat, nj: nat): (n: nat)
  {
    if ExponentWidth(g) == 0 then 0 else 2 + (|ExponentCode(g, ni, nj)| + 31) / 32
  }

  ghost function MantissaCode(g: seq<Word>, ni: nat, nj: nat, nbits: nat): (s: seq<bool>)
    requires nbits <= 23
  {
    P.FieldCode(P.Mantissa, Mantissas(g, nbits), ni, nj, nbits, 3)
  }

  /** The exponent stream is longer than one byte per value. */
  ghost predicate ExponentsTooLong(g: seq<Word>, ni: nat, nj: nat) {
    ExponentWidth(g) > 0 && 1 + 4 * ((|ExponentCode(g, ni, nj)| + 31) / 32) > ni * nj
  }

  function SignCode(g: seq<Word>): nat {
    if !SameSign(g) then DIFF_SIGNE_PACKED else if g != [] && Sign(g[0]) == 1 then MEME_SIGNE_NEGATIF
      else MEME_SIGNE_POSITIF
  }

  ghost function Codes(g: seq<Word>): (c: nat)
    ensures c < 256
  {
    SignCode(g) + (if ExponentWidth(g) == 0 then MEME_EXPOSANT else DIFF_EXPOSANT_PACKED)
  }

  /** The length word of the mantissas: it comes after the two header words, the signs and the exponents. */
  ghost function MantissaSlot(g: seq<Word>, ni: nat, nj: nat): nat {
    2 + SignWords(g) + ExponentWords(g, ni, nj)
  }

  ghost predicate SignsAt(z: seq<Word>, g: seq<Word>) {
    SameSign(g) || (|z| > 3 && StartsWith(z, 3, SignStream(g)) && z[2] / 4 == SignWords(g) - 1)
  }

  ghost predicate ExponentsAt(z: seq<Word>, slot: nat, g: seq<Word>, ni: nat, nj: nat) {
    ExponentWidth(g) == 0
    || (|z| > slot + 1 && StartsWith(z, slot + 1, ExponentCode(g, ni, nj))
      && z[slot] / 4 == ExponentWords(g, ni, nj) - 1)
  }

  function Header(nbits: nat): Fstzip {
    Fstzip(PARALLELOGRAM32, 1, 3, nbits, 1, 2)
  }

  /** What the words of a compressed field are. */
  ghost predicate Layout(z: seq<Word>, g: seq<Word>, ni: nat, nj: nat, nbits: nat) {
    && nbits <= 23 && |z| >= 2
    && FromWord(z[0]) == Header(nbits)
    && z[1] == ExponentBase(g) * 0x1_0000 + ExponentWidth(g) * 0x100 + Codes(g)
    && SignsAt(z, g)
    && ExponentsAt(z, 2 + SignWords(g), g, ni, nj)
    && StartsWith(z, MantissaSlot(g, ni, nj) + 1, MantissaCode(g, ni, nj, nbits))
  }

  /** zlng: the bytes up to the end of the mantissa stream, rounded up; the last word is one that is not written. */
  ghost function CompressedLength(g: seq<Word>, ni: nat, nj: nat, nbits: nat): int
    requires nbits <= 23
  {
    4 * (MantissaSlot(g, ni, nj) + 1) + 4 * (1 + (|MantissaCode(g, ni, nj, nbits)| + 31) / 32)
  }

  /** The words for the mantissas, before any are packed. */
  ghost function Remaining(g: seq<Word>, ni: nat, nj: nat, znbits: nat): int {
    ni * nj * znbits / 32 - (MantissaSlot(g, ni, nj) + 1)
  }

  /** The bits the mantissa packer sends before it ends or gives up. */
  ghost function MantissaBits(g: seq<Word>, ni: nat, nj: nat, znbits: nat): nat
    requires 10 <= znbits <= 32
  {
    P.FieldBits(P.Mantissa, Mantissas(g, znbits - 9), ni, nj, znbits - 9, 3, Remaining(g, ni, nj, znbits))
  }

  /** `len` words hold the signs, the exponents and as much of the mantissas as is sent: all that compression writes. */
  ghost predicate Suffices(len: nat, g: seq<Word>, ni: nat, nj: nat, znbits: nat)
    requires 10 <= znbits <= 32
  {
    ni < 16 || nj < 16
    || (SignsFit(len, g) && ExponentsFit(len, g, ni, nj) && (ExponentsTooLong(g, ni, nj)
      || MantissasFit(len, g, ni, nj, znbits)))
  }

  ghost predicate SignsFit(len: nat, g: seq<Word>) {
    SameSign(g) || (3 < len && |SignStream(g)| <= 32 * (len - 3))
  }

  ghost predicate ExponentsFit(len: nat, g: seq<Word>, ni: nat, nj: nat) {
    ExponentWidth(g) == 0 || (3 + SignWords(g) < len && |ExponentCode(g, ni, nj)| <= 32 * (len - (3 + SignWords(g))))
  }

  ghost predicate MantissasFit(len: nat, g: seq<Word>, ni: nat, nj: nat, znbits: nat)
    requires 10 <= znbits <= 32
  {
    var slot := MantissaSlot(g, ni, nj) + 1;
    slot < len && MantissaBits(g, ni, nj, znbits) <= 32 * (len - slot)
  }

  /** No stream is longer than this, and a buffer of 2 words per value and 8 more is always enough. */
  lemma Sizes(g: seq<Word>, ni: nat, nj: nat, znbits: nat)
    requires |g| == ni * nj && ni >= 16 && nj >= 16 && 10 <= znbits <= 32
    ensures |SignStream(g)| <= 8 * ((ni * nj + 6) / 7)
    ensures ExponentWidth(g) > 0 ==> |ExponentCode(g, ni, nj)| <= 3 + 14 * (ni * nj)
    ensures |MantissaCode(g, ni, nj, znbits - 9)| <= 3 + 30 * (ni * nj)
    ensures CompressedLength(g, ni, nj, znbits - 9) <= 4 * (2 * (ni * nj) + 8)
      && Suffices(2 * (ni * nj) + 8, g, ni, nj, znbits)
  {
    hide P.FieldCode, P.FieldBits, SignStream, Below, Pow2, ExponentWidth, ExponentOffsets, SameSign, Mantissas,
      ExponentsTooLong, Remaining;
    AtLeast16(ni, nj);
    SignStreamDecodes(g);
    ExponentFacts(g);
    if ExponentWidth(g) > 0 { P.FieldCost(P.Byte, ExponentOffsets(g), ni, nj, ExponentWidth(g), 3); }
    MantissasBelow(g, znbits - 9);
    P.FieldCost(P.Mantissa, Mantissas(g, znbits - 9), ni, nj, znbits - 9, 3);
    P.FieldBitsAll(P.Mantissa, Mantissas(g, znbits - 9), ni, nj, znbits - 9, 3, Remaining(g, ni, nj, znbits));
  }

  /** The coded signs are those of the field, and short. */
  lemma SignStreamDecodes(g: seq<Word>)
    ensures var ts := R.Encode(Signs(g), 0); R.Chain(ts, 0, |g|, |g|) && R.Decode(ts, 255) == Signs(g)
    ensures |SignStream(g)| <= 8 * ((|g| + 6) / 7)
    ensures |g| >= 256 ==> 1 + 4 * ((|SignStream(g)| + 31) / 32) <= |g| / 4
  {
    hide R.Encode, R.Chain, R.Decode, R.Code, Sign;
    forall k | 0 <= k < |g| ensures Signs(g)[k] == 0 || Signs(g)[k] == 1 { FloatFields(g[k]); }
    var ts := R.Encode(Signs(g), 0);
    R.EncodeDecodes(Signs(g), 0, 255);
    R.CodeCost(ts, 0, |g|, |g|);
    if |g| >= 256 { R.SignStreamIsShort(ts, |g|); }
  }

  /** A reader of as many words as compression reports has a spare word behind each stream. */
  lemma Room(len: nat, g: seq<Word>, ni: nat, nj: nat, nbits: nat)
    requires nbits <= 23 && 4 * len >= CompressedLength(g, ni, nj, nbits)
    ensures MantissaSlot(g, ni, nj) + 1 < len
      && |MantissaCode(g, ni, nj, nbits)| < 32 * (len - (MantissaSlot(g, ni, nj) + 1))
    ensures !SameSign(g) ==> |SignStream(g)| < 32 * (len - 3)
    ensures ExponentWidth(g) > 0 ==> |ExponentCode(g, ni, nj)| < 32 * (len - (3 + SignWords(g)))
  {
    hide MantissaCode, ExponentCode, SignStream, ExponentWidth, SameSign;
  }

  /** Any copy of the bytes that compression reports is as good as its own buffer. */
  lemma LayoutOfCopy(z: seq<Word>, z': seq<Word>, g: seq<Word>, ni: nat, nj: nat, nbits: nat)
    requires Layout(z, g, ni, nj, nbits) && 4 * |z'| >= CompressedLength(g, ni, nj, nbits)
    requires forall k :: 0 <= k < |z| && k < CompressedLength(g, ni, nj, nbits) / 4 ==> z'[k] == z[k]
    ensures Layout(z', g, ni, nj, nbits)
  {
    hide StartsWith, MantissaCode, ExponentCode, SignStream, ExponentWidth, SameSign, FromWord, Codes;
    Room(|z'|, g, ni, nj, nbits);
    if !SameSign(g) { StartsWithKept(z, z', 3, SignStream(g)); }
    if ExponentWidth(g) != 0 { StartsWithKept(z, z', 3 + SignWords(g), ExponentCode(g, ni, nj)); }
    StartsWithKept(z, z', MantissaSlot(g, ni, nj) + 1, MantissaCode(g, ni, nj, nbits));
  }

  lemma MantissasBelow(g: seq<Word>, nbits: nat)
    requires nbits <= 23
    ensures Below(Mantissas(g, nbits), Pow2(nbits))
  {
    hide Pow2, Mantissa;
    forall i | 0 <= i < |g|
      ensures 0 <= Mantissas(g, nbits)[i] < Pow2(nbits)
    {
      MantissaFits(g[i], nbits);
    }
  }

  lemma {:induction false} ShrOr(a: nat, b: nat, n: nat)
    ensures Shr(a, n) >= 0 && Shr(b, n) >= 0 && Shr(Or(a, b), n) == Or(Shr(a, n), Shr(b, n))
    decreases n
  {
    if n > 0 {
      ShrOr(a / 2, b / 2, n - 1);
      assert Or(a, b) / 2 == Or(a / 2, b / 2);
    }
  }

  lemma {:induction false} ShrAnd(a: nat, b: nat, n: nat)
    ensures Shr(a, n) >= 0 && Shr(b, n) >= 0 && Shr(And(a, b), n) == And(Shr(a, n), Shr(b, n))
    decreases n
  {
    if n > 0 {
      ShrAnd(a / 2, b / 2, n - 1);
      if a == 0 || b == 0 { ZeroAnd(a / 2, b / 2); }
      assert And(a, b) / 2 == And(a / 2, b / 2);
    }
  }

  lemma ZeroAnd(a: nat, b: nat)
    ensures And(a, 0) == 0 && And(0, b) == 0
  {
  }

  /** The top bits of the running or and and. */
  lemma TopBits(o: Word, a: Word, w: Word)
    ensures Or(o, w) < WORD && And(a, w) < WORD
    ensures Shr(o, 31) in {0, 1} && Shr(a, 31) in {0, 1}
    ensures Shr(Or(o, w), 31) == (if Shr(o, 31) == 1 || Sign(w) == 1 then 1 else 0)
    ensures Shr(And(a, w), 31) == (if Shr(a, 31) == 1 && Sign(w) == 1 then 1 else 0)
  {
    hide Shr, Pow2, Or, And, Sign, Exponent;
    FloatFields(o);
    FloatFields(a);
    FloatFields(w);
    ShrOr(o, w, 31);
    ShrAnd(a, w, 31);
    Pow2Values();
    OrBound(o, w, 32);
    AndBound(a, w);
    OneBit(Shr(o, 31), Shr(w, 31));
    OneBit(Shr(a, 31), Shr(w, 31));
  }

  lemma OneBit(x: nat, y: nat)
    requires x < 2 && y < 2
    ensures Or(x, y) == (if x == 1 || y == 1 then 1 else 0) && And(x, y) == (if x == 1 && y == 1 then 1 else 0)
  {
  }

  lemma {:induction false} AndBound(a: nat, b: nat)
    ensures And(a, b) <= b
  {
    if a > 0 && b > 0 { AndBound(a / 2, b / 2); }
  }

  /** The or and the and of the words seen so far, by their top bits. */
  ghost predicate TopBitsOf(g: seq<Word>, n: nat, o: Word, a: Word)
    requires n <= |g|
  {
    && Shr(o, 31) in {0, 1} && Shr(a, 31) in {0, 1}
    && (Shr(o, 31) == 0 <==> forall k :: 0 <= k < n ==> Sign(g[k]) == 0)
    && (Shr(a, 31) == 1 <==> forall k :: 0 <= k < n ==> Sign(g[k]) == 1)
  }

  lemma TopBitsStart(g: seq<Word>)
    ensures TopBitsOf(g, 0, 0, 0xFFFF_FFFF)
  {
    hide Shr;
    FloatFields(0);
    FloatFields(0xFFFF_FFFF);
  }

  lemma TopBitsStep(g: seq<Word>, n: nat, o: Word, a: Word)
    requires n < |g| && TopBitsOf(g, n, o, a)
    ensures Or(o, g[n]) < WORD && And(a, g[n]) < WORD && TopBitsOf(g, n + 1, Or(o, g[n]), And(a, g[n]))
  {
    hide Shr, Or, And, Sign;
    TopBits(o, a, g[n]);
    FloatFields(g[n]);
  }

  lemma TopBitsEnd(g: seq<Word>, o: Word, a: Word)
    requires |g| > 0 && TopBitsOf(g, |g|, o, a)
    ensures Shr(o, 31) == Shr(a, 31) <==> SameSign(g)
    ensures SameSign(g) ==> Shr(o, 31) == Sign(g[0])
  {
    hide Shr, Sign;
    forall k | 0 <= k < |g| ensures Sign(g[k]) == 0 || Sign(g[k]) == 1 { FloatFields(g[k]); }
    var first := Sign(g[0]);
    if SameSign(g) {
      assert forall k :: 0 <= k < |g| ==> Sign(g[k]) == first;
    } else {
      var k :| 0 <= k < |g| && Sign(g[k]) != first;
      assert Shr(o, 31) == 1 && Shr(a, 31) == 0;
    }
  }

  /** The loops that split the field into its three parts. */
  method Split(fld: seq<Word>, nbits: nat)
    returns (signe: array<int>, exposant2: array<int>, mantisse: array<int>, le_signe_or: Word, le_signe_and: Word)
    requires 1 <= nbits <= 23
    ensures fresh(signe) && fresh(exposant2) && fresh(mantisse)
    ensures signe != exposant2 && exposant2 != mantisse && mantisse != signe
    ensures signe.Length == exposant2.Length == mantisse.Length == 2 * |fld|
    ensures signe[..|fld|] == Signs(fld) && exposant2[..|fld|] == Exponents(fld)
      && mantisse[..|fld|] == Mantissas(fld, nbits)
    ensures TopBitsOf(fld, |fld|, le_signe_or, le_signe_and)
  {
    hide Shr, And, Or, Sign, Exponent, TopBitsOf;
    var npts := |fld|;
    signe, exposant2, mantisse := new int[2 * npts], new int[2 * npts], new int[2 * npts];
    le_signe_or, le_signe_and := 0, 0xFFFF_FFFF;
    TopBitsStart(fld);
    var i := 0;
    while i < npts
      invariant 0 <= i <= npts && TopBitsOf(fld, i, le_signe_or, le_signe_and)
      invariant forall k :: 0 <= k < i ==> signe[k] == Sign(fld[k])
      invariant forall k :: 0 <= k < i ==> exposant2[k] == Exponent(fld[k])
      invariant forall k :: 0 <= k < i ==> mantisse[k] == fld[k] % 0x80_0000
    {
      FloatFields(fld[i]);
      TopBitsStep(fld, i, le_signe_or, le_signe_and);
      signe[i] := Shr(fld[i], 31);
      le_signe_or := Or(le_signe_or, fld[i]);
      le_signe_and := And(le_signe_and, fld[i]);
      exposant2[i] := And(Shr(fld[i], 23), 0xFF);
      mantisse[i] := And(fld[i], 0x7F_FFFF);
      i := i + 1;
    }
    assert signe[..npts] == Signs(fld) && exposant2[..npts] == Exponents(fld);
    KeepMantissas(fld, mantisse, nbits);
  }

  lemma NoShift(v: int)
    ensures Shr(v, 0) == v
  {
  }

  method KeepMantissas(ghost fld: seq<Word>, mantisse: array<int>, nbits: nat)
    requires 1 <= nbits <= 23 && mantisse.Length == 2 * |fld|
    requires forall k :: 0 <= k < |fld| ==> mantisse[k] == fld[k] % 0x80_0000
    modifies mantisse
    ensures mantisse[..|fld|] == Mantissas(fld, nbits)
  {
    hide Shr;
    var npts := mantisse.Length / 2;
    if nbits < 23 {
      var i := 0;
      while i < npts
        invariant 0 <= i <= npts
        invariant forall k :: i <= k < npts ==> mantisse[k] == fld[k] % 0x80_0000
        invariant forall k :: 0 <= k < i ==> mantisse[k] == Mantissa(fld[k], nbits)
      {
        mantisse[i] := Shr(mantisse[i], 23 - nbits);
        i := i + 1;
      }
    } else {
      forall k | 0 <= k < npts ensures mantisse[k] == Mantissa(fld[k], nbits) { NoShift(mantisse[k]); }
    }
  }

  method ExponentRange(e: seq<int>) returns (exp_min: int, exp_max: int)
    requires |e| > 0
    ensures exp_min == M.MinOf(e) && exp_max == M.MaxOf(e)
  {
    hide M.MinOf, M.MaxOf, M.Narrowed;
    exp_min, exp_max := e[0], e[0];
    M.NarrowedStart(e[0], e[1..]);
    assert e == [e[0]] + e[1..];
    var i := 0;
    while i < |e|
      invariant 0 <= i <= |e| && M.Narrowed(exp_min, exp_max, e[i..], M.MinOf(e), M.MaxOf(e))
    {
      assert e[i..] == [e[i]] + e[i + 1..];
      M.NarrowedStep(exp_min, exp_max, e[i], e[i + 1..], M.MinOf(e), M.MaxOf(e));
      if e[i] < exp_min { exp_min := e[i]; }
      if e[i] > exp_max { exp_max := e[i]; }
      i := i + 1;
    }
    assert e[|e|..] == [];
    M.NarrowedEnd(exp_min, exp_max, M.MinOf(e), M.MaxOf(e));
  }

  lemma SignsBinary(g: seq<Word>, signe: seq<int>)
    requires |g| <= |signe| && signe[..|g|] == Signs(g)
    ensures R.Binary(signe[..|g|])
  {
    hide Sign;
    forall k | 0 <= k < |g| ensures signe[..|g|][k] in {0, 1} { FloatFields(g[k]); }
  }

  /** The sign part, from word 2 on; le_pointeur is counted in words. */
  method PackSigns(z: array<Word>, signe: seq<int>, npts: nat, le_signe_or: Word, le_signe_and: Word,
      ghost g: seq<Word>)
    returns (code_signe: nat, le_pointeur: nat, lng_signe: Word)
    requires 256 <= npts == |g| < 0x8000_0000 && |signe| == 2 * npts && signe[..npts] == Signs(g)
    requires TopBitsOf(g, npts, le_signe_or, le_signe_and) && SignsFit(z.Length, g)
    modifies z
    ensures SignsAt(z[..], g)
    ensures code_signe == SignCode(g) && le_pointeur == 2 + SignWords(g)
  {
    hide R.Code, R.Encode, SameSign, Shr, Sign, StartsWith, TopBitsOf;
    TopBitsEnd(g, le_signe_or, le_signe_and);
    SignStreamDecodes(g);
    le_pointeur := 2;
    var lng := 0;
    if Shr(le_signe_or, 31) == Shr(le_signe_and, 31) {
      code_signe := if Shr(le_signe_or, 31) == 1 then MEME_SIGNE_NEGATIF else MEME_SIGNE_POSITIF;
    } else {
      le_pointeur := le_pointeur + 1;
      SignsBinary(g, signe);
      lng := R.Pack1BitRLE(z, le_pointeur, signe, npts);
      code_signe := DIFF_SIGNE_PACKED;
    }
    if lng > npts / 4 {
      // DIFF_SIGNE_STREAM is never chosen
      assert false;
    }
    if lng % 4 != 0 { lng := lng + (4 - lng % 4); }
    lng_signe := lng;
    le_pointeur := le_pointeur + lng_signe / 4;
    if code_signe == DIFF_SIGNE_PACKED {
      ghost var packed := z[..];
      z[2] := lng_signe;
      StartsWithKept(packed, z[..], 3, SignStream(g));
    }
  }

  /** The sign part is not disturbed by what is written behind it. */
  lemma SignsKept(z: seq<Word>, z': seq<Word>, g: seq<Word>)
    requires SignsAt(z, g) && |z| == |z'|
    requires forall k :: 2 <= k < |z| && k < 2 + SignWords(g) ==> z'[k] == z[k]
    ensures SignsAt(z', g)
  {
    hide SignStream, SameSign, StartsWith;
    if !SameSign(g) { StartsWithKept(z, z', 3, SignStream(g)); }
  }

  lemma ExponentsKept(z: seq<Word>, z': seq<Word>, slot: nat, g: seq<Word>, ni: nat, nj: nat)
    requires ExponentsAt(z, slot, g, ni, nj) && |z| == |z'|
    requires forall k :: slot <= k < |z| && k < slot + ExponentWords(g, ni, nj) ==> z'[k] == z[k]
    ensures ExponentsAt(z', slot, g, ni, nj)
  {
    hide ExponentCode, ExponentWidth, StartsWith;
    if ExponentWidth(g) != 0 { StartsWithKept(z, z', slot + 1, ExponentCode(g, ni, nj)); }
  }

  /** The loop that subtracts exp_base, in unsigned char arithmetic. */
  method SubtractBase(exposant2: array<int>, npts: nat, exp_base: int, ghost g: seq<Word>)
    requires npts == |g| > 0 && exposant2.Length == 2 * npts && exposant2[..npts] == Exponents(g)
      && exp_base == ExponentBase(g)
    modifies exposant2
    ensures exposant2[..npts] == ExponentOffsets(g)
  {
    hide Exponent, ExponentBase, ExponentWidth, Pow2;
    ExponentFacts(g);
    ExponentsSmall(g);
    var i := 0;
    assert forall k :: 0 <= k < npts ==> exposant2[k] == exposant2[..npts][k] == Exponent(g[k]);
    while i < npts
      invariant 0 <= i <= npts
      invariant forall k :: i <= k < npts ==> exposant2[k] == Exponent(g[k])
      invariant forall k :: 0 <= k < i ==> exposant2[k] == ExponentOffsets(g)[k]
    {
      assert Exponents(g)[i] == Exponent(g[i]) && Exponents(g)[i] in Exponents(g);
      OffsetInRange(g, i);
      exposant2[i] := (exposant2[i] - exp_base) % 256;
      i := i + 1;
    }
  }

  lemma OffsetInRange(g: seq<Word>, i: nat)
    requires i < |g|
    ensures 0 <= Exponent(g[i]) - ExponentBase(g) < 256
  {
    hide Exponent;
    var e := Exponents(g);
    M.Extremes(e);
    ExponentsSmall(g);
    assert e[i] in e;
  }

  /** The least exponent is subtracted from all, and the width of the differences is found. */
  method PrepareExponents(exposant2: array<int>, npts: nat, ghost g: seq<Word>)
    returns (exp_base: nat, nbits_needed: nat)
    requires npts == |g| > 0 && exposant2.Length == 2 * npts && exposant2[..npts] == Exponents(g)
    modifies exposant2
    ensures exposant2[..npts] == ExponentOffsets(g)
    ensures exp_base == ExponentBase(g) && nbits_needed == ExponentWidth(g)
  {
    hide BitLength, M.MaxOf, M.MinOf, Exponents, ExponentOffsets, Below, Pow2;
    var exp_min, exp_max := ExponentRange(exposant2[..npts]);
    M.Extremes(Exponents(g));
    ExponentFacts(g);
    SubtractBase(exposant2, npts, exp_min, g);
    exp_base := exp_min;
    exp_max, exp_min := exp_max - exp_min, 0;
    nbits_needed := if exp_max == exp_min then 0 else BitLength(exp_max);
  }

  lemma ExponentsPacked(z: seq<Word>, slot: nat, g: seq<Word>, ni: nat, nj: nat)
    requires ExponentWidth(g) > 0 && slot + 1 < |z| && StartsWith(z, slot + 1, ExponentCode(g, ni, nj))
    requires z[slot] == 4 * (1 + (|ExponentCode(g, ni, nj)| + 31) / 32)
    ensures ExponentsAt(z, slot, g, ni, nj)
    ensures slot + 1 + z[slot] / 4 == slot + ExponentWords(g, ni, nj)
  {
    hide ExponentCode, ExponentWidth, StartsWith;
  }

  lemma NoExponents(z: seq<Word>, slot: nat, g: seq<Word>, ni: nat, nj: nat)
    ensures ExponentWidth(g) == 0 ==> ExponentsAt(z, slot, g, ni, nj) && ExponentWords(g, ni, nj) == 0
  {
  }

  lemma AllExponentBits(g: seq<Word>, ni: nat, nj: nat)
    ensures P.FieldBits(P.Byte, ExponentOffsets(g), ni, nj, ExponentWidth(g), 3, 0) == |ExponentCode(g, ni, nj)|
  {
    hide P.FieldCode, P.FieldBits, ExponentWidth, ExponentOffsets;
    P.FieldBitsAll(P.Byte, ExponentOffsets(g), ni, nj, ExponentWidth(g), 3, 0);
  }

  /** The length word of the exponents and their code, from word `slot` on. */
  method PackExponentStream(z: array<Word>, slot: nat, exposant2: seq<int>, ni: nat, nj: nat, nbits_needed: nat,
      ghost g: seq<Word>)
    returns (ok: bool, le_pointeur: nat)
    requires ni >= 16 && nj >= 16 && |g| == |exposant2| == ni * nj < 0x8000_0000 && |g| > 0
    requires exposant2 == ExponentOffsets(g) && nbits_needed == ExponentWidth(g) > 0
    requires slot + 1 < z.Length && |ExponentCode(g, ni, nj)| <= 32 * (z.Length - (slot + 1))
    modifies z
    ensures forall k :: 0 <= k < slot ==> z[k] == old(z[k])
    ensures ok <==> !ExponentsTooLong(g, ni, nj)
    ensures ok ==> ExponentsAt(z[..], slot, g, ni, nj) && le_pointeur == slot + ExponentWords(g, ni, nj)
  {
    hide P.FieldCode, P.FieldBits, P.WithinBudget, ExponentWidth, ExponentOffsets, StartsWith, Below, Pow2,
      ExponentsAt, ExponentBase, ExponentWords;
    ExponentFacts(g);
    AllExponentBits(g, ni, nj);
    le_pointeur := slot + 1;
    var lng_exposant := P.PackTokensAt(P.Byte, z, le_pointeur, exposant2, ni, nj, nbits_needed, 3, 0);
    ghost var packed := z[..];
    assert StartsWith(packed, slot + 1, ExponentCode(g, ni, nj));
    if lng_exposant > ni * nj { return false, le_pointeur; }
    if lng_exposant % 4 != 0 { lng_exposant := lng_exposant + (4 - lng_exposant % 4); }
    z[slot] := lng_exposant;
    LengthWritten(packed, z[..], slot, ExponentCode(g, ni, nj));
    ExponentsPacked(z[..], slot, g, ni, nj);
    le_pointeur := le_pointeur + lng_exposant / 4;
    ok := true;
  }

  lemma LengthWritten(packed: seq<Word>, z: seq<Word>, slot: nat, code: seq<bool>)
    requires |z| == |packed| && slot < |z| && z == packed[slot := z[slot]] && StartsWith(packed, slot + 1, code)
    ensures StartsWith(z, slot + 1, code)
  {
    hide StartsWith;
    StartsWithKept(packed, z, slot + 1, code);
  }

  /** The exponent part; nothing at all when the exponents are the same. */
  method PackExponents(z: array<Word>, slot: nat, exposant2: seq<int>, ni: nat, nj: nat, nbits_needed: nat,
      ghost g: seq<Word>)
    returns (ok: bool, code_exposant: nat, le_pointeur: nat)
    requires ni >= 16 && nj >= 16 && |g| == |exposant2| == ni * nj < 0x8000_0000
    requires exposant2 == ExponentOffsets(g) && nbits_needed == ExponentWidth(g)
    requires slot == 2 + SignWords(g) && ExponentsFit(z.Length, g, ni, nj)
    modifies z
    ensures forall k :: 0 <= k < slot && k < z.Length ==> z[k] == old(z[k])
    ensures ok <==> !ExponentsTooLong(g, ni, nj)
    ensures ok ==> ExponentsAt(z[..], slot, g, ni, nj) && le_pointeur == slot + ExponentWords(g, ni, nj)
    ensures code_exposant == if nbits_needed == 0 then MEME_EXPOSANT else DIFF_EXPOSANT_PACKED
  {
    hide ExponentWidth, ExponentOffsets, SameSign, ExponentsAt, SignWords, ExponentWords, SignStream, ExponentCode,
      MantissaCode;
    ok, code_exposant, le_pointeur := true, MEME_EXPOSANT, slot;
    NoExponents(z[..], slot, g, ni, nj);
    if nbits_needed != 0 {
      AtLeast16(ni, nj);
      code_exposant := DIFF_EXPOSANT_PACKED;
      ok, le_pointeur := PackExponentStream(z, slot, exposant2, ni, nj, nbits_needed, g);
    }
  }

  lemma AtLeast16(ni: nat, nj: nat)
    requires ni >= 16 && nj >= 16
    ensures ni * nj >= 256
  {
    assert (ni - 16) * nj >= 0;
  }

  /** Compression gives up: a small field, exponents too far apart, or mantissas over the budget of words. */
  ghost predicate Refused(g: seq<Word>, ni: nat, nj: nat, znbits: nat)
    requires 10 <= znbits <= 32
  {
    || ni < 16 || nj < 16
    || ExponentsTooLong(g, ni, nj)
    || MantissasOverBudget(g, ni, nj, znbits)
  }

  ghost predicate MantissasOverBudget(g: seq<Word>, ni: nat, nj: nat, znbits: nat)
    requires 10 <= znbits <= 32
  {
    !P.WithinBudget(P.Mantissa, Mantissas(g, znbits - 9), ni, nj, znbits - 9, 3, Remaining(g, ni, nj, znbits))
  }

  /** (exp_base << 16) | (nbits_needed << 8) | codes */
  lemma InfoWord(base: nat, width: nat, codes: nat)
    requires base < 256 && width < 256 && codes < 256
    ensures Shl(base, 16) >= 0 && Shl(width, 8) >= 0
    ensures Or(Or(Shl(base, 16), Shl(width, 8)), codes) == base * 0x1_0000 + width * 0x100 + codes
  {
    hide Shl, Or, Pow2;
    Pow2Values();
    ShlMonotone(base, 16);
    ShlMonotone(width, 8);
    ShlIsMul(width, 8);
    Disjoint(base, width * 256, 16);
    Disjoint(base * 256 + width, codes, 8);
  }

  lemma {:induction false} AndShifted(x: nat, m: nat, k: nat)
    ensures Shl(m, k) >= 0 && Shr(x, k) >= 0 && And(x, Shl(m, k)) == Shl(And(Shr(x, k), m), k)
    decreases k
  {
    if k > 0 {
      AndShifted(x / 2, m, k - 1);
      assert Shl(m, k) / 2 == Shl(m, k - 1) && Shl(m, k) % 2 == 0;
      if x == 0 { ZeroAnd(0, Shl(m, k - 1)); }
    }
  }

  /** A mask of two bits, k bits up. */
  lemma AndField(x: nat, k: nat)
    ensures And(x, 3 * Pow2(k)) == x / Pow2(k) % 4 * Pow2(k)
  {
    hide And, Shl, Shr, Low;
    AndShifted(x, 3, k);
    ShlIsMul(3, k);
    ShrIsDiv(x, k);
    AndOnes(Shr(x, k), 2);
    LowIsMod(Shr(x, k), 2);
    ShlIsMul(And(Shr(x, k), 3), k);
  }

  /** The sign code and the exponent code share a byte. */
  lemma CodeWord(s: nat, e: nat)
    requires s in {0x00, 0x10, 0x20} && e in {0x00, 0x08}
    ensures Or(s, e) == s + e && And(s + e, 0x30) == s && And(s + e, 0xC) == e
  {
    hide Or, And, Pow2, Shl;
    Pow2Values();
    FourIsPow2();
    Disjoint(s / 16, e, 4);
    AndField(s + e, 4);
    AndField(s + e, 2);
    Digits(s, e);
  }

  lemma FourIsPow2()
    ensures Pow2(2) == 4
  {
  }

  lemma Digits(s: nat, e: nat)
    requires s in {0x00, 0x10, 0x20} && e in {0x00, 0x08}
    ensures s / 16 * 16 == s && (s + e) / 16 % 4 * 16 == s && (s + e) / 4 % 4 * 4 == e
  {
  }

  lemma HeaderWord(nbits: nat)
    requires nbits <= 23
    ensures FromWord(ToWord(Header(nbits))) == Header(nbits)
  {
    FromToWord(Header(nbits));
  }

  /** The header words, and the length word of the mantissas, which holds the length of the signs and is never used. */
  method WriteHeader(z: array<Word>, pos: nat, lng_signe: Word, nbits: nat, exp_base: nat, nbits_needed: nat,
      code_signe: nat, code_exposant: nat,
      ghost signed: seq<Word>, ghost g: seq<Word>, ni: nat, nj: nat)
    requires nbits <= 23 && |g| > 0 && |signed| == z.Length && pos == MantissaSlot(g, ni, nj) && pos + 1 < z.Length
    requires exp_base == ExponentBase(g) && nbits_needed == ExponentWidth(g)
    requires code_signe == SignCode(g) && code_exposant == if nbits_needed == 0 then MEME_EXPOSANT
      else DIFF_EXPOSANT_PACKED
    requires SignsAt(signed, g) && ExponentsAt(signed, 2 + SignWords(g), g, ni, nj)
    requires StartsWith(z[..], pos + 1, MantissaCode(g, ni, nj, nbits))
    requires forall k :: 0 <= k <= pos ==> z[k] == signed[k]
    modifies z
    ensures Layout(z[..], g, ni, nj, nbits)
  {
    hide StartsWith, Shr, Or, And, Shl, Pow2, Layout, SignsAt, ExponentsAt, SignWords, ExponentWords, ToWord, FromWord,
      MantissaCode, SameSign,
      ExponentBase, ExponentWidth, Below;
    ghost var packed := z[..];
    var codes := Or(code_signe, code_exposant);
    ExponentFacts(g);
    CodeWord(code_signe, code_exposant);
    InfoWord(exp_base, nbits_needed, codes);
    HeaderWord(nbits);
    z[pos] := lng_signe;
    z[0] := ToWord(Header(nbits));
    z[1] := Or(Or(Shl(exp_base, 16), Shl(nbits_needed, 8)), codes);
    LayoutDone(signed, packed, z[..], g, ni, nj, nbits);
  }

  /** The mantissa stream; 0 when it goes over the budget. */
  method PackMantissas(z: array<Word>, slot: nat, mantisse: seq<int>, ni: nat, nj: nat, znbits: nat,
      remaining_space: int, ghost g: seq<Word>)
    returns (lng_mantisse: int)
    requires 10 <= znbits <= 32 && ni >= 1 && nj >= 1 && |g| == ni * nj && mantisse == Mantissas(g, znbits - 9)
    requires slot == MantissaSlot(g, ni, nj) + 1 && remaining_space == Remaining(g, ni, nj, znbits)
      && MantissasFit(z.Length, g, ni, nj, znbits)
    modifies z
    ensures forall k :: 0 <= k < slot ==> z[k] == old(z[k])
    ensures lng_mantisse == 0 <==> MantissasOverBudget(g, ni, nj, znbits)
    ensures lng_mantisse != 0 ==> lng_mantisse == 1 + 4 * ((|MantissaCode(g, ni, nj, znbits - 9)| + 31) / 32)
    ensures lng_mantisse != 0 ==> StartsWith(z[..], slot, MantissaCode(g, ni, nj, znbits - 9))
  {
    hide P.FieldCode, P.FieldBits, P.WithinBudget, Mantissas, StartsWith, Below, Pow2, MantissaSlot;
    MantissasBelow(g, znbits - 9);
    lng_mantisse := P.PackTokensAt(P.Mantissa, z, slot, mantisse, ni, nj, znbits - 9, 3, remaining_space);
  }

  lemma LengthRounded(g: seq<Word>, ni: nat, nj: nat, nbits: nat, lng: int)
    requires nbits <= 23 && lng == 1 + 4 * ((|MantissaCode(g, ni, nj, nbits)| + 31) / 32)
    ensures 4 * (MantissaSlot(g, ni, nj) + 1) + (if lng % 4 != 0 then lng + (4 - lng % 4) else lng)
      == CompressedLength(g, ni, nj, nbits) > 0
  {
    hide MantissaCode, MantissaSlot;
  }

  /** Where the mantissas start: behind two header words, and two words and the code for signs and for exponents. */
  ghost function FirstMantissa(g: seq<Word>, ni: nat, nj: nat): nat {
    3 + (if SameSign(g) then 0 else 2 + (|SignStream(g)| + 31) / 32)
      + if ExponentWidth(g) == 0 then 0 else 2 + (|ExponentCode(g, ni, nj)| + 31) / 32
  }

  /** A small field; exponents that take more than a byte a value; or mantissas that exceed the words that are left. */
  ghost predicate GivesUp(g: seq<Word>, ni: nat, nj: nat, znbits: nat, first: nat)
    requires 10 <= znbits <= 32
  {
    || ni < 16 || nj < 16
    || (ExponentWidth(g) > 0 && 1 + 4 * ((|ExponentCode(g, ni, nj)| + 31) / 32) > ni * nj)
    || !P.WithinBudget(P.Mantissa, Mantissas(g, znbits - 9), ni, nj, znbits - 9, 3, ni * nj * znbits / 32 - first)
  }

  /** The header words, the streams behind them, and the length: all of it, and a word that is not written. */
  ghost predicate WellFormed(z: seq<Word>, g: seq<Word>, ni: nat, nj: nat, nbits: nat, first: nat, zlng: int) {
    && nbits <= 23 && |z| >= 2 && FromWord(z[0]) == Fstzip(5, 1, 3, nbits, 1, 2)
    && z[1] == ExponentBase(g) * 0x1_0000 + ExponentWidth(g) * 0x100 + (if ExponentWidth(g) > 0 then 8 else 0)
      + (if !SameSign(g) then 0x20 else if g != [] && Sign(g[0]) == 1 then 0x10 else 0)
    && (SameSign(g) || (|z| > 3 && z[2] / 4 == 1 + (|SignStream(g)| + 31) / 32 && StartsWith(z, 3, SignStream(g))))
    && (var at := if SameSign(g) then 2 else 4 + (|SignStream(g)| + 31) / 32;
      ExponentWidth(g) == 0 || (|z| > at + 1 && z[at] / 4 == 1 + (|ExponentCode(g, ni, nj)| + 31) / 32
        && StartsWith(z, at + 1, ExponentCode(g, ni, nj))))
    && StartsWith(z, first, MantissaCode(g, ni, nj, nbits))
    && zlng == 4 * first + 4 * (1 + (|MantissaCode(g, ni, nj, nbits)| + 31) / 32)
  }

  lemma RefusedIs(g: seq<Word>, ni: nat, nj: nat, znbits: nat)
    requires 10 <= znbits <= 32
    ensures Refused(g, ni, nj, znbits) <==> GivesUp(g, ni, nj, znbits, FirstMantissa(g, ni, nj))
  {
    hide SignStream, ExponentCode, ExponentWidth, P.WithinBudget, Mantissas, SameSign;
  }

  lemma LayoutIs(z: seq<Word>, g: seq<Word>, ni: nat, nj: nat, nbits: nat)
    requires Layout(z, g, ni, nj, nbits)
    ensures WellFormed(z, g, ni, nj, nbits, FirstMantissa(g, ni, nj), CompressedLength(g, ni, nj, nbits))
  {
    hide SignStream, ExponentCode, ExponentWidth, MantissaCode, StartsWith, SameSign, Sign, FromWord;
  }

  /** The signs are packed only when they differ, and the parts of a word are its top bit, eight bits and the rest. */
  lemma PartsAre(g: seq<Word>, nbits: nat)
    requires nbits <= 23
    ensures SameSign(g) <==>
      forall i, j :: 0 <= i < |g| && 0 <= j < |g| ==> g[i] / 0x8000_0000 == g[j] / 0x8000_0000
    ensures |Signs(g)| == |Exponents(g)| == |Mantissas(g, nbits)| == |g|
    ensures forall i :: 0 <= i < |g| ==>
      && Signs(g)[i] == g[i] / 0x8000_0000 && Exponents(g)[i] == g[i] / 0x80_0000 % 0x100
      && Mantissas(g, nbits)[i] == g[i] % 0x80_0000 / Pow2(23 - nbits)
  {
    hide Shr, Pow2;
    forall i | 0 <= i < |g| ensures Mantissas(g, nbits)[i] == g[i] % 0x80_0000 / Pow2(23 - nbits) {
      ShrIsDiv(g[i] % 0x80_0000, 23 - nbits);
    }
    if SameSign(g) {
      forall i, j | 0 <= i < |g| && 0 <= j < |g| ensures g[i] / 0x8000_0000 == g[j] / 0x8000_0000 {
        assert Sign(g[i]) == Sign(g[0]) == Sign(g[j]);
      }
    }
  }

  /** c_armn_compress32; -1 when the field is left as it is. */
  method Compress(z: array<Word>, fld: seq<Word>, ni: nat, nj: nat, znbits: nat) returns (zlng: int)
    requires |fld| == ni * nj && 10 <= znbits <= 32 && ni * nj * znbits < 0x8000_0000
    requires Suffices(z.Length, fld, ni, nj, znbits)
    modifies z
    ensures zlng == -1 <==> Refused(fld, ni, nj, znbits)
    ensures zlng != -1 ==> Layout(z[..], fld, ni, nj, znbits - 9)
    ensures zlng != -1 ==> zlng == CompressedLength(fld, ni, nj, znbits - 9)
    ensures zlng == -1 <==> GivesUp(fld, ni, nj, znbits, FirstMantissa(fld, ni, nj))
    ensures zlng != -1 ==> WellFormed(z[..], fld, ni, nj, znbits - 9, FirstMantissa(fld, ni, nj), zlng)
  {
    hide GivesUp, WellFormed, FirstMantissa, SignStream, TopBitsOf, Mantissas, ExponentOffsets, ExponentsTooLong,
      MantissasOverBudget, CompressedLength,
      MantissaCode, ExponentCode, SignCode,
      Codes, SameSign, StartsWith, Shr, Or, Shl, Below, Pow2, Layout, ExponentWidth, ExponentBase, SignsAt,
        ExponentsAt, SignWords, ExponentWords,
      ToWord, FromWord, BitLength, Exponents, MantissaBits;
    RefusedIs(fld, ni, nj, znbits);
    if ni < 16 || nj < 16 { return -1; }
    var nbits, npts := znbits - 9, ni * nj;
    AtLeast256(ni, nj, znbits);
    var signe, exposant2, mantisse, le_signe_or, le_signe_and := Split(fld, nbits);
    var exp_base, nbits_needed := PrepareExponents(exposant2, npts, fld);
    ExponentFacts(fld);
    var code_signe, le_pointeur, lng_signe;
    assert signe[..][..npts] == signe[..npts];
    code_signe, le_pointeur, lng_signe := PackSigns(z, signe[..], npts, le_signe_or, le_signe_and, fld);
    ghost var signed := z[..];
    var ok, code_exposant, pos := PackExponents(z, le_pointeur, exposant2[..npts], ni, nj, nbits_needed, fld);
    if !ok { return -1; }
    SignsKept(signed, z[..], fld);
    signed := z[..];
    le_pointeur := pos + 1;
    var remaining_space := ni * nj * znbits / 32 - le_pointeur;
    var lng_mantisse := PackMantissas(z, le_pointeur, mantisse[..npts], ni, nj, znbits, remaining_space, fld);
    if lng_mantisse == 0 { return -1; }
    LengthRounded(fld, ni, nj, nbits, lng_mantisse);
    if lng_mantisse % 4 != 0 { lng_mantisse := lng_mantisse + (4 - lng_mantisse % 4); }
    WriteHeader(z, pos, lng_signe, nbits, exp_base, nbits_needed, code_signe, code_exposant, signed, fld, ni, nj);
    zlng := 4 * le_pointeur + lng_mantisse;
    LayoutIs(z[..], fld, ni, nj, nbits);
  }

  /**
    A compressed field takes no more room than it had when the mantissas leave a word of their budget unused. The packer
    sees to that by its test after each tile with errors, so only tiles without errors at the end of the field, after
    which the space left is not looked at, or a width so small that the test keeps nothing in reserve, can make it
    longer.
   */
  lemma NoLongerThanField(g: seq<Word>, ni: nat, nj: nat, znbits: nat)
    requires |g| == ni * nj && ni >= 16 && nj >= 16 && 10 <= znbits <= 32 && !Refused(g, ni, nj, znbits)
    ensures CompressedLength(g, ni, nj, znbits - 9) <= 4 * (ni * nj * znbits / 32)
      <==> |MantissaCode(g, ni, nj, znbits - 9)| <= 32 * (Remaining(g, ni, nj, znbits) - 1)
    ensures znbits >= 13 && P.EndsWithErrors(P.Mantissa, Mantissas(g, znbits - 9), ni, nj, 3) ==>
      CompressedLength(g, ni, nj, znbits - 9) <= 4 * (ni * nj * znbits / 32)
  {
    hide P.FieldCode, P.WithinBudget, P.EndsWithErrors, Mantissas, MantissaSlot, ExponentsTooLong;
    if znbits >= 13 && P.EndsWithErrors(P.Mantissa, Mantissas(g, znbits - 9), ni, nj, 3) {
      P.BudgetKept(Mantissas(g, znbits - 9), ni, nj, znbits - 9, 3, Remaining(g, ni, nj, znbits));
    }
  }

  /** The streams are still in place once the header words and the last length word are written. */
  lemma LayoutDone(signed: seq<Word>, packed: seq<Word>, z: seq<Word>, g: seq<Word>, ni: nat, nj: nat, nbits: nat)
    requires nbits <= 23 && |signed| == |packed| == |z| && MantissaSlot(g, ni, nj) + 1 < |z|
    requires SignsAt(signed, g) && ExponentsAt(signed, 2 + SignWords(g), g, ni, nj)
    requires StartsWith(packed, MantissaSlot(g, ni, nj) + 1, MantissaCode(g, ni, nj, nbits))
    requires forall k :: 0 <= k <= MantissaSlot(g, ni, nj) ==> packed[k] == signed[k]
    requires forall k :: 2 <= k < |z| && k != MantissaSlot(g, ni, nj) ==> z[k] == packed[k]
    requires FromWord(z[0]) == Header(nbits)
    requires z[1] == ExponentBase(g) * 0x1_0000 + ExponentWidth(g) * 0x100 + Codes(g)
    ensures Layout(z, g, ni, nj, nbits)
  {
    hide SignsAt, ExponentsAt, SignWords, ExponentWords, StartsWith, MantissaCode, FromWord, Codes, ExponentWidth,
      ExponentBase;
    SignsKept(signed, z, g);
    ExponentsKept(signed, z, 2 + SignWords(g), g, ni, nj);
    StartsWithKept(packed, z, MantissaSlot(g, ni, nj) + 1, MantissaCode(g, ni, nj, nbits));
  }

  lemma AtLeast256(ni: nat, nj: nat, znbits: nat)
    requires ni >= 16 && nj >= 16 && 10 <= znbits && ni * nj * znbits < 0x8000_0000
    ensures 256 <= ni * nj < 0x8000_0000
  {
    AtLeast16(ni, nj);
    assert ni * nj * (znbits - 1) >= 0;
  }

  /** zieee_info taken apart again. */
  lemma InfoRead(info: Word, base: nat, width: nat, codes: nat)
    requires width < 256 && codes < 256 && info == base * 0x1_0000 + width * 0x100 + codes
    ensures Shr(info, 16) == base && 0 <= Shr(info, 8) && And(Shr(info, 8), 0xFF) == width && And(info, 0xFF) == codes
  {
    hide Shr, And, Low, Pow2;
    Pow2Values();
    ShrIsDiv(info, 16);
    ShrIsDiv(info, 8);
    AndOnes(Shr(info, 8), 8);
    LowIsMod(Shr(info, 8), 8);
    AndOnes(info, 8);
    LowIsMod(info, 8);
    DivUnique(info, 0x100, base * 0x100 + width, codes);
    DivUnique(base * 0x100 + width, 0x100, base, width);
    DivUnique(info, 0x1_0000, base, width * 0x100 + codes);
  }

  /** The signs, packed or all the same; cur is the next word to read. */
  method ReadSigns(z: array<Word>, npts: nat, code_signe: nat, ghost g: seq<Word>)
    returns (signe: array<int>, cur: nat)
    requires npts == |g| > 0 && SignsAt(z[..], g) && code_signe == SignCode(g)
    requires !SameSign(g) ==> |SignStream(g)| < 32 * (z.Length - 3)
    ensures fresh(signe) && signe.Length == 2 * npts && signe[..npts] == Signs(g)
    ensures cur == 2 + SignWords(g)
  {
    hide R.Encode, R.Chain, R.Decode, R.Code, StartsWith, Sign;
    signe, cur := new int[2 * npts], 2;
    if code_signe == DIFF_SIGNE_PACKED {
      var lng_signe := z[cur];
      cur := cur + 1;
      SignStreamDecodes(g);
      R.Unpack1BitRLE(signe, z, cur, npts, R.Encode(Signs(g), 0));
      cur := cur + lng_signe / 4;
    } else {
      var value := if code_signe == MEME_SIGNE_POSITIF then 0 else 1;
      FloatFields(g[0]);
      var i := 0;
      while i < npts
        invariant 0 <= i <= npts
        invariant forall k :: 0 <= k < i ==> signe[k] == value
      {
        signe[i] := value;
        i := i + 1;
      }
      assert signe[..npts] == Signs(g);
    }
  }

  /** The exponents, the base added back in unsigned char arithmetic. */
  method ReadExponents(z: array<Word>, slot: nat, ni: nat, nj: nat, code_exposant: nat, nbits_needed: nat,
      exp_min: nat, ghost g: seq<Word>)
    returns (exposant2: array<int>, cur: nat)
    requires ni >= 16 && nj >= 16 && |g| == ni * nj && |g| > 0
    requires ExponentsAt(z[..], slot, g, ni, nj) && nbits_needed == ExponentWidth(g) && exp_min == ExponentBase(g)
    requires code_exposant == if ExponentWidth(g) == 0 then MEME_EXPOSANT else DIFF_EXPOSANT_PACKED
    requires ExponentWidth(g) > 0 ==> |ExponentCode(g, ni, nj)| < 32 * (z.Length - (slot + 1))
    ensures fresh(exposant2) && exposant2[..] == Exponents(g)
    ensures cur == slot + ExponentWords(g, ni, nj)
  {
    hide P.FieldCode, ExponentWidth, ExponentBase, ExponentOffsets, Exponent, Below, Pow2, StartsWith;
    exposant2, cur := new int[ni * nj], slot;
    ExponentFacts(g);
    if code_exposant == DIFF_EXPOSANT_PACKED {
      var lng_exposant := z[cur];
      cur := cur + 1;
      P.ExtractField(P.Byte, exposant2, z, cur, ni, nj, nbits_needed, 3, ExponentOffsets(g));
      cur := cur + lng_exposant / 4;
      AddBase(exposant2, exp_min, g);
    } else {
      var i := 0;
      while i < ni * nj
        invariant 0 <= i <= ni * nj
        invariant forall k :: 0 <= k < i ==> exposant2[k] == exp_min
      {
        exposant2[i] := exp_min;
        i := i + 1;
      }
      SameExponents(exposant2[..], g);
    }
  }

  lemma SameExponents(e: seq<int>, g: seq<Word>)
    requires |e| == |g| > 0 && ExponentWidth(g) == 0 && forall k :: 0 <= k < |e| ==> e[k] == ExponentBase(g)
    ensures e == Exponents(g)
  {
    hide ExponentWidth, ExponentBase, Exponent, Pow2;
    ExponentFacts(g);
  }

  method AddBase(exposant2: array<int>, exp_min: nat, ghost g: seq<Word>)
    requires exposant2.Length == |g| > 0 && exposant2[..] == ExponentOffsets(g) && exp_min == ExponentBase(g)
    modifies exposant2
    ensures exposant2[..] == Exponents(g)
  {
    hide Exponent, ExponentBase, ExponentWidth, ExponentOffsets, Pow2, Below;
    ExponentFacts(g);
    ghost var d := ExponentOffsets(g);
    var i := 0;
    while i < exposant2.Length
      invariant 0 <= i <= exposant2.Length
      invariant forall k :: i <= k < exposant2.Length ==> exposant2[k] == d[k]
      invariant forall k :: 0 <= k < i ==> exposant2[k] == Exponent(g[k])
    {
      ExponentByte(g[i]);
      exposant2[i] := (exposant2[i] + exp_min) % 256;
      i := i + 1;
    }
  }

  lemma Binary01(g: seq<Word>, i: nat)
    requires i < |g|
    ensures Sign(g[i]) in {0, 1}
  {
  }

  /** *temp |= ...: a sign, an exponent and a mantissa put together. */
  method Assemble(fld: array<Word>, signe: array<int>, exposant2: array<int>, mantisse: array<int>, npts: nat,
      code_signe: nat, nbits: nat, ghost g: seq<Word>)
    requires npts == |g| == fld.Length == exposant2.Length == mantisse.Length && signe.Length == 2 * npts && nbits <= 23
    requires signe[..npts] == Signs(g) && exposant2[..] == Exponents(g) && mantisse[..] == Mantissas(g, nbits)
    requires code_signe == SignCode(g)
    modifies fld
    ensures forall k :: 0 <= k < npts ==> fld[k] == Truncated(g[k], nbits)
  {
    hide Shl, Or, Sign, Exponent, Mantissa, Truncated, Assembled;
    var i := 0;
    while i < npts
      invariant 0 <= i <= npts
      invariant forall k :: 0 <= k < i ==> fld[k] == Truncated(g[k], nbits)
    {
      Binary01(g, i);
      assert signe[i] == signe[..npts][i] == Sign(g[i]);
      AssembledFromParts(g[i], nbits);
      var sign := match code_signe
        case 0 => 0
        case 0x10 => 1
        case _ => signe[i];
      fld[i] := Assembled(sign, exposant2[i], mantisse[i], nbits);
      i := i + 1;
    }
  }

  /** c_armn_uncompress32: what compression kept of every value comes back. */
  method Uncompress(fld: array<Word>, z: array<Word>, ni: nat, nj: nat, ghost nbits0: nat, ghost g: seq<Word>)
    requires |g| == fld.Length == ni * nj && ni >= 16 && nj >= 16 && 1 <= nbits0 <= 23
    requires Layout(z[..], g, ni, nj, nbits0) && 4 * z.Length >= CompressedLength(g, ni, nj, nbits0) && z != fld
    modifies fld
    ensures forall k :: 0 <= k < |g| ==> fld[k] == Truncated(g[k], nbits0)
  {
    hide P.FieldCode, SignStream, Mantissas, SameSign, StartsWith, Shr, And, Truncated, ExponentCode, FromWord,
      Below, Pow2, ExponentWidth, ExponentBase, SignsAt, ExponentsAt, SignWords, ExponentWords;
    var npts := ni * nj;
    Room(z.Length, g, ni, nj, nbits0);
    AtLeast16(ni, nj);
    ExponentFacts(g);
    MantissasBelow(g, nbits0);
    InfoRead(z[1], ExponentBase(g), ExponentWidth(g), Codes(g));
    CodeWord(SignCode(g), Codes(g) - SignCode(g));
    var nbits := FromWord(z[0]).nbits;
    var zieee_info := z[1];
    var exp_min, nbits_needed_exposant, codes := Shr(zieee_info, 16), And(Shr(zieee_info, 8), 0xFF),
      And(zieee_info, 0xFF);
    var code_signe, code_exposant := And(codes, 0x30), And(codes, 0xC);
    var signe, cur := ReadSigns(z, npts, code_signe, g);
    var exposant2, pos := ReadExponents(z, cur, ni, nj, code_exposant, nbits_needed_exposant, exp_min, g);
    var mantisse := new int[npts];
    P.ExtractField(P.Mantissa, mantisse, z, pos + 1, ni, nj, nbits, 3, Mantissas(g, nbits0));
    Assemble(fld, signe, exposant2, mantisse, npts, code_signe, nbits, g);
  }

  /**
    A field written to a record and read back: just the bytes that compression reports are kept, and what they give back
    is the field less the mantissa bits dropped.
   */
  method StoreAndRead(z: array<Word>, fld: seq<Word>, ni: nat, nj: nat, znbits: nat)
    returns (zlng: int, back: array<Word>)
    requires |fld| == ni * nj && 10 <= znbits <= 32 && ni * nj * znbits < 0x8000_0000
    requires Suffices(z.Length, fld, ni, nj, znbits)
    modifies z
    ensures zlng == -1 <==> Refused(fld, ni, nj, znbits)
    ensures zlng != -1 ==> back.Length == |fld|
    ensures zlng != -1 ==> forall k :: 0 <= k < |fld| ==> back[k] == Truncated(fld[k], znbits - 9)
  {
    hide Refused, Layout, Suffices, CompressedLength, Truncated, GivesUp, WellFormed, FirstMantissa;
    back := new Word[|fld|];
    zlng := Compress(z, fld, ni, nj, znbits);
    if zlng == -1 { return; }
    AcceptedSize(fld, ni, nj, znbits);
    ghost var written := z[..];
    var record := new Word[zlng / 4];
    var i := 0;
    while i < record.Length && i < z.Length
      invariant 0 <= i <= record.Length && i <= z.Length && z[..] == written
      invariant forall k :: 0 <= k < i ==> record[k] == z[k]
    {
      record[i] := z[i];
      i := i + 1;
    }
    LayoutOfCopy(written, record[..], fld, ni, nj, znbits - 9);
    Uncompress(back, record, ni, nj, znbits - 9, fld);
  }

  lemma AcceptedSize(g: seq<Word>, ni: nat, nj: nat, znbits: nat)
    requires 10 <= znbits <= 32 && !Refused(g, ni, nj, znbits)
    ensures ni >= 16 && nj >= 16
    ensures CompressedLength(g, ni, nj, znbits - 9) % 4 == 0 && CompressedLength(g, ni, nj, znbits - 9) > 0
  {
    hide MantissaCode, MantissaSlot, ExponentsTooLong, MantissasOverBudget;
  }
}
