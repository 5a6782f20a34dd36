/**
  The BURP report: a list of blocks kept as a region of block headers followed by the element lists and values of
  the blocks, in one word array that is spliced on every change.
 */
module Burp {
  import opened Words
  import opened ReportBuffer
  import C = CompactInteger
  import M = MinMax
  import B = BitStream

  const BURP_ERR_BNUM: int := -33
  const BURP_ERR_CMPR: int := -41
  const GROSNELE: nat := 128
  const GROSDIM: nat := 256
  const NBENTB: nat := 128
  const DIMENT: nat := 4
  const ALLONES: Word := 0xFFFF_FFFF
  const HEADER_WORDS: nat := 9     // words of a buffer before its data
  const LARGEST: nat := 0x20_0000   // words of a report whose offsets fit the 20 bits of bit0

  // ----- block headers -----

  /** burp_block_header; nbit is stored less one. */
  datatype Header = Header(bfamdesc: nat, btyp: nat, nbit: nat, nt: nat, datyp: nat, bit0: nat,
    flag: nat, nele: nat, nval: nat, elem1: nat, elem2: nat, elem3: nat)

  predicate InRange(h: Header) {
    && h.bfamdesc < 0x1000 && h.btyp < 0x8000 && h.nbit < 0x20
    && h.nt < 0x100 && h.datyp < 0x10 && h.bit0 < 0x10_0000
    && h.flag < 2 && h.nele < 0x80 && h.nval < 0x100 && h.elem1 < 0x1_0000
    && h.elem2 < 0x1_0000 && h.elem3 < 0x1_0000
  }

  function ToWords(h: Header): (ws: seq<Word>)
    requires InRange(h)
    ensures |ws| == DIMENT
  {
    [h.nbit + 0x20 * h.btyp + 0x10_0000 * h.bfamdesc,
     h.bit0 + 0x10_0000 * h.datyp + 0x100_0000 * h.nt,
     h.elem1 + 0x1_0000 * h.nval + 0x100_0000 * h.nele + 0x8000_0000 * h.flag,
     h.elem3 + 0x1_0000 * h.elem2]
  }

  function FromWords(ws: seq<Word>): Header
    requires |ws| >= DIMENT
  {
    Header(ws[0] / 0x10_0000 % 0x1000, ws[0] / 0x20 % 0x8000, ws[0] % 0x20,
      ws[1] / 0x100_0000 % 0x100, ws[1] / 0x10_0000 % 0x10, ws[1] % 0x10_0000,
      ws[2] / 0x8000_0000 % 2, ws[2] / 0x100_0000 % 0x80, ws[2] / 0x1_0000 % 0x100, ws[2] % 0x1_0000,
      ws[3] / 0x1_0000 % 0x1_0000, ws[3] % 0x1_0000)
  }

  lemma FirstWords(h: Header)
    requires InRange(h)
    ensures var g := FromWords(ToWords(h));
      && g.bfamdesc == h.bfamdesc && g.btyp == h.btyp && g.nbit == h.nbit
      && g.nt == h.nt && g.datyp == h.datyp && g.bit0 == h.bit0
  {
    var w := ToWords(h);
    BitField(w[0], 0, 1, h.nbit, 0x20, h.btyp + 0x8000 * h.bfamdesc);
    BitField(w[0], h.nbit, 0x20, h.btyp, 0x8000, h.bfamdesc);
    BitField(w[0], h.nbit + 0x20 * h.btyp, 0x10_0000, h.bfamdesc, 0x1000, 0);
    BitField(w[1], 0, 1, h.bit0, 0x10_0000, h.datyp + 0x10 * h.nt);
    BitField(w[1], h.bit0, 0x10_0000, h.datyp, 0x10, h.nt);
    BitField(w[1], h.bit0 + 0x10_0000 * h.datyp, 0x100_0000, h.nt, 0x100, 0);
  }

  lemma LastWords(h: Header)
    requires InRange(h)
    ensures var g := FromWords(ToWords(h));
      && g.flag == h.flag && g.nele == h.nele && g.nval == h.nval
      && g.elem1 == h.elem1 && g.elem2 == h.elem2 && g.elem3 == h.elem3
  {
    var w := ToWords(h);
    BitField(w[2], 0, 1, h.elem1, 0x1_0000, h.nval + 0x100 * h.nele + 0x8000 * h.flag);
    BitField(w[2], h.elem1, 0x1_0000, h.nval, 0x100, h.nele + 0x80 * h.flag);
    BitField(w[2], h.elem1 + 0x1_0000 * h.nval, 0x100_0000, h.nele, 0x80, h.flag);
    BitField(w[2], h.elem1 + 0x1_0000 * h.nval + 0x100_0000 * h.nele, 0x8000_0000, h.flag, 2, 0);
    BitField(w[3], 0, 1, h.elem3, 0x1_0000, h.elem2);
    BitField(w[3], h.elem3, 0x1_0000, h.elem2, 0x1_0000, 0);
  }

  /** Every field stands at its bit of its word, and comes back from there. */
  lemma FromToWords(h: Header)
    requires InRange(h)
    ensures FromWords(ToWords(h)) == h
    ensures var ws := ToWords(h);
      && |ws| == 4
      && ws[0] % 32 == h.nbit && ws[0] / 32 % 32768 == h.btyp && ws[0] / 0x10_0000 == h.bfamdesc
      && ws[1] % 0x10_0000 == h.bit0 && ws[1] / 0x10_0000 % 16 == h.datyp && ws[1] / 0x100_0000 == h.nt
      && ws[2] % 0x1_0000 == h.elem1 && ws[2] / 0x1_0000 % 256 == h.nval && ws[2] / 0x100_0000 % 128 == h.nele
      && ws[2] / 0x8000_0000 == h.flag
      && ws[3] % 0x1_0000 == h.elem3 && ws[3] / 0x1_0000 == h.elem2
  {
    hide ToWords, InRange;
    FirstWords(h);
    LastWords(h);
    HighParts(ToWords(h));
  }

  lemma HighParts(ws: seq<Word>)
    requires |ws| == DIMENT
    ensures ws[0] / 0x10_0000 % 0x1000 == ws[0] / 0x10_0000 && ws[1] / 0x100_0000 % 0x100 == ws[1] / 0x100_0000
    ensures ws[2] / 0x8000_0000 % 2 == ws[2] / 0x8000_0000 && ws[3] / 0x1_0000 % 0x1_0000 == ws[3] / 0x1_0000
  {
  }

  // ----- widths -----

  function SignedValues(vals: seq<Word>): (s: seq<int>)
    ensures |s| == |vals|
  {
    seq(|vals|, k requires 0 <= k < |vals| => Signed(vals[k]))
  }

  /** The bits of the largest value, one more when it is all ones, so that all ones is left for a missing value. */
  function NeededBits(top: nat): nat {
    var b := BitLength(top);
    if top == Pow2(b) - 1 then b + 1 else b
  }

  datatype Choice = Choice(err: int, nbits: nat, datyp: nat)

  /** burp_nbit_datyp for datyp 2 and 4: the width never shrinks; values below -1 call for signed integers. */
  function Width(vals: seq<Word>, nbits: nat, datyp: nat): Choice
  {
    var lo, hi := M.MinOf(SignedValues(vals)), M.MaxOf(SignedValues(vals));
    if datyp == 2 && nbits == 32 then Choice(0, nbits, datyp)
    else if lo == -1 && hi == -1 then Choice(0, nbits, datyp)
    else
      var top := if lo < -1 && -lo >= hi then -lo else hi;
      var need := NeededBits(if top < 0 then 0 else top);
      if lo < -1 || datyp == 4 then
        if need + 1 > 31 then Choice(BURP_ERR_CMPR, 32, 2)
        else Choice(0, if nbits > need + 1 then nbits else need + 1, 4)
      else Choice(0, if nbits > need then nbits else if need > 32 then 32 else need, datyp)
  }

  /** What extraction does with a value that is all ones on nbit bits. */
  function Restored(x: Word, nbit: nat): Word
    requires 1 <= nbit <= 32
  {
    if nbit < 32 && x == Pow2(nbit) - 1 then ALLONES else x
  }

  /** Every value, the missing value -1 included, comes back from its token. */
  ghost predicate Suits(vals: seq<Word>, nbit: nat, datyp: nat)
    requires 1 <= nbit <= 32
  {
    forall k :: 0 <= k < |vals| ==>
      Restored(C.Value(C.Token(vals[k], nbit, datyp == 4), nbit, datyp == 4), nbit) == vals[k]
  }

  lemma NeededBitsFit(top: nat)
    ensures NeededBits(top) >= 1 && top < Pow2(NeededBits(top)) - 1
    ensures top < 0x8000_0000 ==> NeededBits(top) <= 32
  {
    BitLengthFits(top, BitLength(top));
    BitLengthFits(top, 31);
    Pow31();
    Pow2Double(BitLength(top) + 1);
  }

  lemma Pow31()
    ensures Pow2(31) == 0x8000_0000
  {
    Pow2Values();
    Pow2Double(32);
  }

  /** A value below all ones fits an unsigned token. */
  lemma UnsignedComesBack(v: Word, nbit: nat)
    requires 1 <= nbit <= 32 && v < Pow2(nbit) - 1
    ensures Restored(C.Value(C.Token(v, nbit, false), nbit, false), nbit) == v
  {
    hide Pow2, C.Token, C.Value;
    C.ValueOfToken(v, nbit, false);
  }

  /** A missing value is stored as all ones and comes back as all ones, whatever the width. */
  lemma MissingComesBack(nbit: nat, datyp: nat)
    requires 1 <= nbit <= 32
    ensures Restored(C.Value(C.Token(ALLONES, nbit, datyp == 4), nbit, datyp == 4), nbit) == ALLONES
  {
    hide Pow2, Low, C.Token;
    Pow2Double(nbit);
    FitsWord(Pow2(nbit) - 1, nbit);
    if datyp == 4 {
      C.ValueOfToken(ALLONES, nbit, true);
    } else {
      C.TokenIsLow(ALLONES, nbit, false);
      LowOnes(nbit);
      Pow2Values();
    }
  }

  lemma LowOnes(n: nat)
    requires n <= 32
    ensures Low(0xFFFF_FFFF, n) == Pow2(n) - 1
  {
    hide Low;
    Pow2Values();
    LowIsMod(0xFFFF_FFFF, n);
    LowNegative(-1, 32);
    LowLow(-1, 32, n);
    LowNegative(-1, n);
  }

  lemma SignedComesBack(v: Word, nbit: nat)
    requires 1 <= nbit <= 32 && 0 <= Signed(v) + Pow2(nbit - 1) < 2 * Pow2(nbit - 1)
    ensures Restored(C.Value(C.Token(v, nbit, true), nbit, true), nbit) == v
  {
    hide Pow2, C.Token, C.Value;
    Pow2Double(nbit);
    C.ValueOfToken(v, nbit, true);
    if nbit < 32 {
      Pow2Mono(nbit, 31);
      Pow31();
    }
  }

  lemma WholeWordComesBack(v: Word)
    ensures Restored(C.Value(C.Token(v, 32, false), 32, false), 32) == v
  {
    hide C.Token, C.Value;
    Pow2Values();
    C.ValueOfToken(v, 32, false);
  }

  /** All values are missing. */
  predicate AllMissing(vals: seq<Word>) {
    forall k :: 0 <= k < |vals| ==> vals[k] == ALLONES
  }

  /**
    The width chosen suits every value, missing values included, and is at least 1,
    except that no bits at all are kept when none are asked for and all values are missing.
   */
  lemma WidthSuits(vals: seq<Word>, nbits: nat, datyp: nat)
    requires vals != [] && nbits <= 32 && (datyp == 2 || datyp == 4)
    requires forall k :: 0 <= k < |vals| ==> vals[k] != 0x8000_0000
    ensures var c := Width(vals, nbits, datyp);
      && (c.err == 0 || c.err == BURP_ERR_CMPR)
      && (c.err == 0 ==> nbits <= c.nbits <= 32 && (c.datyp == 2 || c.datyp == 4))
      && (c.err == 0 ==> (c.nbits == 0 <==> nbits == 0 && AllMissing(vals)))
      && (c.err == 0 && c.nbits > 0 ==> Suits(vals, c.nbits, c.datyp))
  {
    hide Pow2, C.Token, C.Value, Restored, NeededBits, M.MinOf, M.MaxOf;
    var s := SignedValues(vals);
    var lo, hi := M.MinOf(s), M.MaxOf(s);
    var c := Width(vals, nbits, datyp);
    M.Extremes(s);
    SignedRange(vals);
    var top := if lo < -1 && -lo >= hi then -lo else hi;
    NeededBitsFit(if top < 0 then 0 else top);
    MissingOnly(vals);
    if c.err == 0 && c.nbits > 0 {
      forall k | 0 <= k < |vals|
        ensures Restored(C.Value(C.Token(vals[k], c.nbits, c.datyp == 4), c.nbits, c.datyp == 4), c.nbits) == vals[k]
      {
        assert s[k] == Signed(vals[k]);
        if datyp == 2 && nbits == 32 {
          WholeWordComesBack(vals[k]);
        } else {
          OneComesBack(vals[k], lo, hi, top, nbits, datyp, c);
        }
      }
    }
  }

  /** The extremes are both -1 when all values are missing. */
  lemma MissingOnly(vals: seq<Word>)
    requires vals != []
    ensures AllMissing(vals) <==> M.MinOf(SignedValues(vals)) == -1 && M.MaxOf(SignedValues(vals)) == -1
  {
    hide M.MinOf, M.MaxOf;
    var s := SignedValues(vals);
    M.Extremes(s);
    forall k | 0 <= k < |vals| ensures vals[k] == ALLONES <==> s[k] == -1 { assert s[k] == Signed(vals[k]); }
  }

  lemma SignedRange(vals: seq<Word>)
    requires forall k :: 0 <= k < |vals| ==> vals[k] != 0x8000_0000
    ensures forall x :: x in SignedValues(vals) ==> -0x8000_0000 < x < 0x8000_0000
  {
  }

  lemma OneComesBack(v: Word, lo: int, hi: int, top: int, nbits: nat, datyp: nat, c: Choice)
    requires lo <= Signed(v) <= hi && -0x8000_0000 < lo && hi < 0x8000_0000 && nbits <= 32 && (datyp == 2 || datyp == 4)
    requires top == if lo < -1 && -lo >= hi then -lo else hi
    requires 1 <= c.nbits <= 32
    requires if lo == -1 && hi == -1 then c.datyp == datyp else
      var need := NeededBits(if top < 0 then 0 else top);
      && c.datyp == (if lo < -1 || datyp == 4 then 4 else datyp)
      && c.nbits >= (if c.datyp == 4 then need + 1 else need)
    ensures Restored(C.Value(C.Token(v, c.nbits, c.datyp == 4), c.nbits, c.datyp == 4), c.nbits) == v
  {
    hide Pow2, C.Token, C.Value, Restored, NeededBits;
    if v == ALLONES {
      MissingComesBack(c.nbits, c.datyp);
    } else {
      var need := NeededBits(top);
      NeededBitsFit(top);
      if c.datyp == 4 {
        Pow2Mono(need, c.nbits - 1);
        SignedComesBack(v, c.nbits);
      } else {
        Pow2Mono(need, c.nbits);
        UnsignedComesBack(v, c.nbits);
      }
    }
  }

  function Magnitude(x: int): nat { if x < 0 then -x else x }

  /** The bits are enough for every value that is not missing, all ones excepted. */
  ghost predicate Enough(s: seq<int>, nbits: nat, signed: bool) {
    nbits >= 1 && forall k :: 0 <= k < |s| && s[k] != -1 ==>
      if signed then Magnitude(s[k]) < Pow2(nbits - 1) - 1 else 0 <= s[k] < Pow2(nbits) - 1
  }

  /** For some value one bit less would not be enough. */
  ghost predicate NotLess(s: seq<int>, nbits: nat, signed: bool) {
    exists k :: 0 <= k < |s| && s[k] != -1 && nbits >= 1
      && (if signed then nbits >= 2 && Magnitude(s[k]) >= Pow2(nbits - 2) - 1 else s[k] >= Pow2(nbits - 1) - 1)
  }

  /**
    What the width chosen is, said of the values alone. Values below -1 call for signed integers. The bits are enough
    for
    the values, and no more than were asked for or are needed; and the request fails exactly when signed integers would
    take 32.
   */
  ghost predicate BestWidth(vals: seq<Word>, nbits: nat, datyp: nat, c: Choice) {
    var s := SignedValues(vals);
    if (datyp == 2 && nbits == 32) || forall k :: 0 <= k < |s| ==> s[k] == -1 then c == Choice(0, nbits, datyp)
    else
      var signed := datyp == 4 || exists k :: 0 <= k < |s| && s[k] < -1;
      && (c.err == 0 || c == Choice(BURP_ERR_CMPR, 32, 2))
      && (c.err != 0 <==> signed && exists k :: 0 <= k < |s| && Magnitude(s[k]) >= 0x3FFF_FFFF)
      && (c.err == 0 ==>
        && nbits <= c.nbits <= 32 && c.datyp == (if signed then 4 else datyp) && Enough(s, c.nbits, signed)
        && (c.nbits > nbits ==> NotLess(s, c.nbits, signed)))
  }

  /** The bits counted for a largest value are the least that leave all ones free. */
  lemma NeededBitsLeast(top: nat)
    ensures NeededBits(top) >= 1 && Pow2(NeededBits(top) - 1) - 1 <= top < Pow2(NeededBits(top)) - 1
  {
    hide Pow2, BitLength;
    var b := BitLength(top);
    NeededBitsFit(top);
    BitLengthFits(top, b);
    if b > 0 { BitLengthFits(top, b - 1); }
  }

  lemma Pow30()
    ensures Pow2(30) == 0x4000_0000
  {
    Pow31();
    Pow2Double(31);
  }

  /** The width that burp_nbit_datyp chooses is the least that suits the values. */
  lemma WidthIsBest(vals: seq<Word>, nbits: nat, datyp: nat)
    requires vals != [] && nbits <= 32 && (datyp == 2 || datyp == 4)
    requires forall k :: 0 <= k < |vals| ==> vals[k] != 0x8000_0000
    ensures BestWidth(vals, nbits, datyp, Width(vals, nbits, datyp))
  {
    hide NeededBits, M.MinOf, M.MaxOf, Enough, NotLess, SignedValues;
    var s := SignedValues(vals);
    var lo, hi := M.MinOf(s), M.MaxOf(s);
    SignedRange(vals);
    M.Extremes(s);
    var i :| 0 <= i < |s| && s[i] == lo;
    var j :| 0 <= j < |s| && s[j] == hi;
    if !(datyp == 2 && nbits == 32) && !(lo == -1 && hi == -1) {
      var below := lo < -1 && -lo >= hi;
      var top := if below then -lo else hi;
      assert s[if below then i else j] == if below then lo else hi;
      WidthForTop(s, lo, hi, top, if below then i else j, nbits, datyp == 4 || lo < -1);
    }
  }

  /** The bits for a value of the largest magnitude. */
  lemma WidthForTop(s: seq<int>, lo: int, hi: int, top: nat, at: nat, nbits: nat, signed: bool)
    requires forall k :: 0 <= k < |s| ==> lo <= s[k] <= hi
    requires top == (if lo < -1 && -lo >= hi then -lo else hi) && (lo < -1 ==> signed) && top < 0x8000_0000
    requires at < |s| && Magnitude(s[at]) == top && s[at] != -1 && nbits <= 32
    ensures var need := if signed then NeededBits(top) + 1 else NeededBits(top);
      var c := if nbits > need then nbits else need;
      && (need > 31 && signed <==> signed && exists k :: 0 <= k < |s| && Magnitude(s[k]) >= 0x3FFF_FFFF)
      && need <= 33 && (!signed ==> need <= 32)
      && Enough(s, c, signed) && (c > nbits ==> NotLess(s, c, signed))
  {
    hide Pow2, NeededBits;
    var need := NeededBits(top);
    NeededBitsLeast(top);
    NeededBitsFit(top);
    Widest(need, top);
    TopIsLargest(s, lo, hi, top);
    var c := if nbits > (if signed then need + 1 else need) then nbits else if signed then need + 1 else need;
    MoreBits(need, c, signed);
  }

  /** No value has a larger magnitude than the one the bits are counted for, but for missing ones. */
  lemma TopIsLargest(s: seq<int>, lo: int, hi: int, top: int)
    requires forall k :: 0 <= k < |s| ==> lo <= s[k] <= hi
    requires top == if lo < -1 && -lo >= hi then -lo else hi
    ensures forall k :: 0 <= k < |s| && s[k] != -1 ==> Magnitude(s[k]) <= top
  {
  }

  lemma Widest(need: nat, top: nat)
    requires need >= 1 && Pow2(need - 1) - 1 <= top < Pow2(need) - 1
    ensures need > 30 <==> top >= 0x3FFF_FFFF
  {
    hide Pow2;
    Pow30();
    if need > 30 { Pow2Mono(30, need - 1); } else { Pow2Mono(need, 30); }
  }

  lemma MoreBits(need: nat, nbits: nat, signed: bool)
    ensures nbits >= need ==> Pow2(nbits) >= Pow2(need)
    ensures signed && nbits >= need + 1 ==> Pow2(nbits - 1) >= Pow2(need)
  {
    hide Pow2;
    if nbits >= need { Pow2Mono(need, nbits); }
    if nbits >= need + 1 { Pow2Mono(need, nbits - 1); }
  }

  /** The values burp_nbit_datyp looks at; the first one in any case. */
  function Seen(tblval: seq<Word>, tbldim: nat): (s: seq<Word>)
    requires tbldim <= |tblval| && |tblval| > 0
    ensures s != []
  {
    if tbldim == 0 then tblval[..1] else tblval[..tbldim]
  }

  /** The loop that looks for the extremes. */
  method FindRange(tblval: seq<Word>, tbldim: nat) returns (tblmin: int, tblmax: int)
    requires |tblval| > 0 && tbldim <= |tblval|
    ensures tblmin == M.MinOf(SignedValues(Seen(tblval, tbldim)))
      && tblmax == M.MaxOf(SignedValues(Seen(tblval, tbldim)))
  {
    hide M.MinOf, M.MaxOf, M.Narrowed, Signed, Seen, SignedValues;
    ghost var seen := SignedValues(Seen(tblval, tbldim));
    ghost var min, max := M.MinOf(seen), M.MaxOf(seen);
    SeenValues(tblval, tbldim);
    tblmin, tblmax := Signed(tblval[0]), Signed(tblval[0]);
    Front(seen, 0);
    M.NarrowedStart(seen[0], seen[1..]);
    if tbldim == 0 {
      M.NarrowedStep(tblmin, tblmax, seen[0], seen[1..], min, max);
    }
    var i := 0;
    while i < tbldim
      invariant 0 <= i <= tbldim
      invariant M.Narrowed(tblmin, tblmax, seen[if tbldim == 0 then 1 else i..], min, max)
    {
      Front(seen, i);
      M.NarrowedStep(tblmin, tblmax, seen[i], seen[i + 1..], min, max);
      tblmax := if Signed(tblval[i]) > tblmax then Signed(tblval[i]) else tblmax;
      tblmin := if Signed(tblval[i]) < tblmin then Signed(tblval[i]) else tblmin;
      i := i + 1;
    }
    assert seen[|seen|..] == [];
    M.NarrowedEnd(tblmin, tblmax, min, max);
  }

  lemma Front<T>(s: seq<T>, i: nat)
    requires i < |s|
    ensures s[i..] == [s[i]] + s[i + 1..] && (i == 0 ==> s == [s[0]] + s[1..])
  {
  }

  lemma SeenValues(tblval: seq<Word>, tbldim: nat)
    requires |tblval| > 0 && tbldim <= |tblval|
    ensures |SignedValues(Seen(tblval, tbldim))| == if tbldim == 0 then 1 else tbldim
    ensures forall i :: 0 <= i < |SignedValues(Seen(tblval, tbldim))| ==>
      SignedValues(Seen(tblval, tbldim))[i] == Signed(tblval[i])
  {
    hide Signed;
  }

  lemma SeenNotLeast(tblval: seq<Word>, tbldim: nat)
    requires |tblval| > 0 && tbldim <= |tblval| && forall k :: 0 <= k < |tblval| ==> tblval[k] != 0x8000_0000
    ensures forall k :: 0 <= k < |Seen(tblval, tbldim)| ==> Seen(tblval, tbldim)[k] != 0x8000_0000
  {
  }

  /** burp_nbit_datyp */
  method BurpNbitDatyp(inbits: nat, indatyp: nat, tblval: seq<Word>, tbldim: nat)
    returns (err: int, nbits: nat, datyp: nat)
    requires |tblval| > 0 && tbldim <= |tblval| && inbits <= 32 && (indatyp == 2 || indatyp == 4)
    requires forall k :: 0 <= k < |tblval| ==> tblval[k] != 0x8000_0000   // -tblmin would overflow
    ensures Choice(err, nbits, datyp) == Width(Seen(tblval, tbldim), inbits, indatyp)
    ensures BestWidth(Seen(tblval, tbldim), inbits, indatyp, Choice(err, nbits, datyp))
  {
    hide M.MinOf, M.MaxOf, NeededBits, Signed, Seen, BestWidth;
    SeenNotLeast(tblval, tbldim);
    WidthIsBest(Seen(tblval, tbldim), inbits, indatyp);
    nbits, datyp := inbits, indatyp;
    if datyp == 2 && nbits == 32 { return 0, nbits, datyp; }
    var tblmin, tblmax := FindRange(tblval, tbldim);
    ExtremesInRange(tblval, tbldim);
    if tblmin == tblmax && tblmin == -1 { return 0, nbits, datyp; }
    if tblmin < -1 {
      tblmax := if tblmax > -tblmin then tblmax else -tblmin;
      datyp := 4;
    }
    var needed := CountBits(tblmax);
    nbits := needed;
    if datyp == 4 {
      nbits := nbits + 1;
      if nbits > 31 { return BURP_ERR_CMPR, 32, 2; }
    }
    nbits := if nbits > 32 then 32 else nbits;
    nbits := if inbits > nbits then inbits else nbits;
    err := 0;
  }

  lemma ExtremesInRange(tblval: seq<Word>, tbldim: nat)
    requires |tblval| > 0 && tbldim <= |tblval|
    requires forall k :: 0 <= k < |tblval| ==> tblval[k] != 0x8000_0000
    ensures var s := SignedValues(Seen(tblval, tbldim)); -0x8000_0000 < M.MinOf(s) <= M.MaxOf(s) < 0x8000_0000
  {
    hide M.MinOf, M.MaxOf;
    SignedRange(Seen(tblval, tbldim));
    M.Extremes(SignedValues(Seen(tblval, tbldim)));
  }

  /** The loop that counts the bits of the largest value, one more if it is all ones. */
  method CountBits(tblmax: int) returns (needed: nat)
    requires 0 <= tblmax < 0x8000_0000
    ensures needed == NeededBits(tblmax)
  {
    var temp: int := tblmax;
    needed := 0;
    BitLengthFits(tblmax, 31);
    Pow31();
    while temp != 0 && needed < 32
      invariant temp >= 0 && BitLength(tblmax) == needed + BitLength(temp) <= 31
      decreases temp
    {
      needed := needed + 1;
      temp := temp / 2;
    }
    if tblmax == Pow2(needed) - 1 { needed := needed + 1; }
  }

  // ----- the report as a list of blocks -----

  /** A block: its header, with bit0 left at 0, the elements behind those the header holds, and its values. */
  datatype Block = Block(h: Header, tail: seq<Word>, vals: seq<Word>)

  function Nele(h: Header): nat { if h.flag != 0 then h.elem1 else h.nele }
  function Nval(h: Header): nat { if h.flag != 0 then h.elem2 else h.nval }
  function Nt(h: Header): nat { if h.flag != 0 then h.elem3 else h.nt }
  function Count(h: Header): nat { Nele(h) * Nval(h) * Nt(h) }

  /** The elements that do not fit in the header. */
  function TailCount(h: Header): nat {
    if h.flag != 0 then h.elem1 else if h.nele > 3 then h.nele - 3 else 0
  }

  function Elements(b: Block): (s: seq<Word>)
    requires InRange(b.h)
  {
    if b.h.flag != 0 then b.tail
    else [b.h.elem1, b.h.elem2, b.h.elem3][..if b.h.nele < 3 then b.h.nele else 3] + b.tail
  }

  ghost predicate Shaped(b: Block) {
    && InRange(b.h) && b.h.bit0 == 0 && (b.h.datyp == 2 || b.h.datyp == 4)
    && |b.tail| == TailCount(b.h) && (forall k :: 0 <= k < |b.tail| ==> b.tail[k] < 0x1_0000)
    && |b.vals| == Count(b.h) && Suits(b.vals, b.h.nbit + 1, b.h.datyp)
  }

  function ListWords(b: Block): nat { Words64(|b.tail|, 16) }
  function ValueWords(b: Block): nat { Words64(|b.vals|, b.h.nbit + 1) }

  /** The size of the elements and values of a block, in units of 64 bits. */
  function Units(b: Block): nat { (ListWords(b) + ValueWords(b)) / 2 }

  /** The words of a block behind the headers: the list of elements, then the values, each rounded up to 64 bits. */
  ghost predicate RegionOf(ws: seq<Word>, b: Block) {
    && |ws| == ListWords(b) + ValueWords(b) && b.h.nbit < 32
    && Holds(ws[..ListWords(b)], b.tail, 16, false)
    && Holds(ws[ListWords(b)..], b.vals, b.h.nbit + 1, b.h.datyp == 4)
  }

  function HeaderWords(h: Header, off: nat): (ws: seq<Word>)
    ensures |ws| == DIMENT
  {
    if InRange(h.(bit0 := off)) then ToWords(h.(bit0 := off)) else [0, 0, 0, 0]
  }

  function Offset(bs: seq<Block>): nat {
    if bs == [] then 0 else Units(bs[0]) + Offset(bs[1..])
  }

  /** The headers of consecutive blocks, the first of which starts `off` units behind the headers. */
  function Headers(bs: seq<Block>, off: nat): (ws: seq<Word>)
    ensures |ws| == DIMENT * |bs|
  {
    if bs == [] then [] else HeaderWords(bs[0].h, off) + Headers(bs[1..], off + Units(bs[0]))
  }

  function Concat(rs: seq<seq<Word>>): seq<Word> {
    if rs == [] then [] else rs[0] + Concat(rs[1..])
  }

  ghost predicate AllGood(bs: seq<Block>, rs: seq<seq<Word>>) {
    |bs| == |rs| && forall k :: 0 <= k < |bs| ==> Shaped(bs[k]) && RegionOf(rs[k], bs[k])
  }

  lemma {:induction false} OffsetSplit(a: seq<Block>, c: seq<Block>)
    ensures Offset(a + c) == Offset(a) + Offset(c)
  {
    hide Units;
    if a == [] {
      assert a + c == c;
    } else {
      OffsetSplit(a[1..], c);
      assert (a + c)[0] == a[0] && (a + c)[1..] == a[1..] + c;
    }
  }

  lemma {:induction false} HeadersSplit(a: seq<Block>, c: seq<Block>, off: nat)
    ensures Headers(a + c, off) == Headers(a, off) + Headers(c, off + Offset(a))
    decreases |a|
  {
    hide Units, HeaderWords;
    if a == [] {
      assert a + c == c;
    } else {
      HeadersSplit(a[1..], c, off + Units(a[0]));
      assert (a + c)[0] == a[0] && (a + c)[1..] == a[1..] + c;
    }
  }

  lemma {:induction false} ConcatSplit(a: seq<seq<Word>>, c: seq<seq<Word>>)
    ensures Concat(a + c) == Concat(a) + Concat(c)
  {
    if a == [] {
      assert a + c == c;
    } else {
      ConcatSplit(a[1..], c);
      assert (a + c)[0] == a[0] && (a + c)[1..] == a[1..] + c;
      Grouped(a[0], Concat(a[1..]), Concat(c));
    }
  }

  lemma Grouped<T>(x: seq<T>, y: seq<T>, z: seq<T>)
    ensures x + (y + z) == (x + y) + z
  {
  }

  lemma WholeUnits(b: Block)
    ensures 2 * Units(b) == ListWords(b) + ValueWords(b)
  {
    Words64Covers(|b.tail|, 16);
    Words64Covers(|b.vals|, b.h.nbit + 1);
  }

  lemma {:induction false} ConcatLength(bs: seq<Block>, rs: seq<seq<Word>>)
    requires AllGood(bs, rs)
    ensures |Concat(rs)| == 2 * Offset(bs)
  {
    hide Shaped, Units, ListWords, ValueWords, Holds;
    if bs != [] {
      AllGoodTail(bs, rs);
      ConcatLength(bs[1..], rs[1..]);
      WholeUnits(bs[0]);
    }
  }

  lemma AllGoodTail(bs: seq<Block>, rs: seq<seq<Word>>)
    requires AllGood(bs, rs) && bs != []
    ensures AllGood(bs[1..], rs[1..]) && RegionOf(rs[0], bs[0]) && Shaped(bs[0])
  {
    hide Shaped, RegionOf;
  }

  lemma AllGoodSplit(a: seq<Block>, b: Block, c: seq<Block>, ra: seq<seq<Word>>, r: seq<Word>, rc: seq<seq<Word>>)
    requires |a| == |ra| && |c| == |rc|
    ensures AllGood(a + [b] + c, ra + [r] + rc) <==> AllGood(a, ra) && Shaped(b) && RegionOf(r, b) && AllGood(c, rc)
    ensures AllGood(a + c, ra + rc) <==> AllGood(a, ra) && AllGood(c, rc)
  {
    hide Shaped, RegionOf;
    var bs, rs := a + [b] + c, ra + [r] + rc;
    if AllGood(bs, rs) {
      forall k | 0 <= k < |a| ensures Shaped(a[k]) && RegionOf(ra[k], a[k]) { assert bs[k] == a[k] && rs[k] == ra[k]; }
      forall k | 0 <= k < |c|
        ensures Shaped(c[k]) && RegionOf(rc[k], c[k])
      {
        assert bs[|a| + 1 + k] == c[k] && rs[|a| + 1 + k] == rc[k];
      }
      assert bs[|a|] == b && rs[|a|] == r;
    }
    var bs', rs' := a + c, ra + rc;
    if AllGood(bs', rs') {
      forall k | 0 <= k < |a|
        ensures Shaped(a[k]) && RegionOf(ra[k], a[k])
      {
        assert bs'[k] == a[k] && rs'[k] == ra[k];
      }
      forall k | 0 <= k < |c|
        ensures Shaped(c[k]) && RegionOf(rc[k], c[k])
      {
        assert bs'[|a| + k] == c[k] && rs'[|a| + k] == rc[k];
      }
    }
  }

  // ----- where a block is -----

  /** A record: ten words of keys and index, the headers of all blocks, then their regions. */
  ghost predicate Represents(rec: seq<Word>, prefix: seq<Word>, bs: seq<Block>, rs: seq<seq<Word>>) {
    && |prefix| == DATA_INDEX && AllGood(bs, rs)
    && rec == prefix + Headers(bs, 0) + Concat(rs)
  }

  lemma Parts<T>(s: seq<T>, k: nat)
    requires k < |s|
    ensures s == s[..k] + [s[k]] + s[k + 1..] && s == s[..k] + s[k..] && s[k..] == [s[k]] + s[k + 1..]
  {
  }

  lemma RecordLength(rec: seq<Word>, prefix: seq<Word>, bs: seq<Block>, rs: seq<seq<Word>>)
    requires Represents(rec, prefix, bs, rs)
    ensures |rec| == DATA_INDEX + DIMENT * |bs| + 2 * Offset(bs)
  {
    hide AllGood, Headers, Concat, Offset;
    ConcatLength(bs, rs);
  }

  lemma OneHeader(b: Block, off: nat)
    ensures Headers([b], off) == HeaderWords(b.h, off)
    ensures Offset([b]) == Units(b)
  {
    hide HeaderWords, Units;
    assert [b][1..] == [];
  }

  lemma OneRegion(r: seq<Word>)
    ensures Concat([r]) == r
  {
    assert [r][1..] == [];
  }

  /** The pieces of a record around block k. */
  lemma Pieces(rec: seq<Word>, prefix: seq<Word>, bs: seq<Block>, rs: seq<seq<Word>>, k: nat)
    requires Represents(rec, prefix, bs, rs) && k < |bs|
    ensures var a, c, ra, rc, off := bs[..k], bs[k + 1..], rs[..k], rs[k + 1..], Offset(bs[..k]);
      && rec == prefix + (Headers(a, 0) + HeaderWords(bs[k].h, off) + Headers(c, off + Units(bs[k])))
        + (Concat(ra) + rs[k] + Concat(rc))
      && |Concat(ra)| == 2 * off && |rs[k]| == 2 * Units(bs[k])
      && AllGood(a, ra) && AllGood(c, rc) && Shaped(bs[k]) && RegionOf(rs[k], bs[k])
      && Offset(bs) == off + Units(bs[k]) + Offset(c)
  {
    hide AllGood, Headers, Concat, Offset, HeaderWords, Units, ListWords, ValueWords, Shaped, Holds;
    Lengths(bs, rs);
    var a, c, ra, rc, off := bs[..k], bs[k + 1..], rs[..k], rs[k + 1..], Offset(bs[..k]);
    Parts(bs, k);
    Parts(rs, k);
    AllGoodSplit(a, bs[k], c, ra, rs[k], rc);
    HeadersSplit(a + [bs[k]], c, 0);
    HeadersSplit(a, [bs[k]], 0);
    OneHeader(bs[k], off);
    OffsetSplit(a, [bs[k]]);
    OffsetSplit(a + [bs[k]], c);
    ConcatSplit(ra + [rs[k]], rc);
    ConcatSplit(ra, [rs[k]]);
    OneRegion(rs[k]);
    ConcatLength(a, ra);
    WholeUnits(bs[k]);
  }

  lemma Matching(rec: seq<Word>, prefix: seq<Word>, bs: seq<Block>, rs: seq<seq<Word>>)
    requires Represents(rec, prefix, bs, rs)
    ensures |bs| == |rs| && |prefix| == DATA_INDEX
  {
  }

  lemma Lengths(bs: seq<Block>, rs: seq<seq<Word>>)
    requires AllGood(bs, rs)
    ensures |bs| == |rs|
  {
  }

  /** Where the header and the region of block k stand in the record. */
  lemma Locate(rec: seq<Word>, prefix: seq<Word>, bs: seq<Block>, rs: seq<seq<Word>>, k: nat)
    requires Represents(rec, prefix, bs, rs) && k < |bs|
    ensures |rs| == |bs| && Shaped(bs[k]) && RegionOf(rs[k], bs[k])
    ensures var off := Offset(bs[..k]); var at := DATA_INDEX + DIMENT * |bs| + 2 * off;
      && at + |rs[k]| <= |rec| && off + Units(bs[k]) <= Offset(bs) && |rs[k]| == 2 * Units(bs[k])
      && rec[DATA_INDEX + DIMENT * k..DATA_INDEX + DIMENT * k + DIMENT] == HeaderWords(bs[k].h, off)
      && rec[at..at + |rs[k]|] == rs[k]
  {
    hide Represents, AllGood, Headers, Concat, Offset, HeaderWords, Units, RegionOf, Shaped;
    Matching(rec, prefix, bs, rs);
    Pieces(rec, prefix, bs, rs, k);
    var off := Offset(bs[..k]);
    var h0, h1, h2 := Headers(bs[..k], 0), HeaderWords(bs[k].h, off), Headers(bs[k + 1..], off + Units(bs[k]));
    var r0, r2 := Concat(rs[..k]), Concat(rs[k + 1..]);
    SlicesOf(rec, prefix, h0, h1, h2, r0, rs[k], r2, DATA_INDEX + DIMENT * k, DATA_INDEX + DIMENT * |bs| + 2 * off);
  }

  lemma SlicesOf<T>(rec: seq<T>, p: seq<T>, h0: seq<T>, h1: seq<T>, h2: seq<T>, r0: seq<T>, r1: seq<T>, r2: seq<T>,
      i: nat, j: nat)
    requires rec == p + (h0 + h1 + h2) + (r0 + r1 + r2)
    requires i == |p| + |h0| && j == |p| + |h0| + |h1| + |h2| + |r0|
    ensures i + |h1| <= |rec| && rec[i..i + |h1|] == h1
    ensures j + |r1| <= |rec| && rec[j..j + |r1|] == r1
  {
    SliceOf(p + h0, h1, h2 + (r0 + r1 + r2));
    SliceOf(p + (h0 + h1 + h2) + r0, r1, r2);
    assert rec == (p + h0) + h1 + (h2 + (r0 + r1 + r2));
    assert rec == (p + (h0 + h1 + h2) + r0) + r1 + r2;
  }

  lemma SliceOf<T>(x: seq<T>, y: seq<T>, z: seq<T>)
    ensures (x + y + z)[|x|..|x| + |y|] == y
  {
  }

  /** The two parts of a region. */
  lemma RegionParts(rec: seq<Word>, at: nat, ws: seq<Word>, b: Block)
    requires RegionOf(ws, b) && at + |ws| <= |rec| && rec[at..at + |ws|] == ws
    ensures at + ListWords(b) + ValueWords(b) <= |rec|
    ensures Holds(rec[at..at + ListWords(b)], b.tail, 16, false)
    ensures Holds(rec[at + ListWords(b)..at + ListWords(b) + ValueWords(b)], b.vals, b.h.nbit + 1, b.h.datyp == 4)
  {
    hide Holds, ListWords, ValueWords;
    var l := ListWords(b);
    assert rec[at..at + l] == ws[..l];
    assert rec[at + l..at + |ws|] == ws[l..];
  }

  lemma HeaderBack(h: Header, off: nat)
    requires InRange(h) && off < 0x10_0000
    ensures FromWords(HeaderWords(h, off)) == h.(bit0 := off) && InRange(h.(bit0 := off))
  {
    hide ToWords, FromWords;
    FromToWords(h.(bit0 := off));
  }

  /** Elements of 16 bits come back from their tokens as they are. */
  lemma SixteenBits(tail: seq<Word>)
    requires forall k :: 0 <= k < |tail| ==> tail[k] < 0x1_0000
    ensures C.Values(C.Tokens(tail, 16, false), 16, false) == tail
  {
    hide C.Token, C.Value, Pow2;
    Pow2Values();
    forall k | 0 <= k < |tail|
      ensures C.Value(C.Token(tail[k], 16, false), 16, false) == tail[k]
    {
      C.ValueOfToken(tail[k], 16, false);
    }
  }

  // ----- adding a block -----

  /** Element words as the list keeps them. */
  function Lows(lst: seq<Word>): (s: seq<Word>)
    ensures |s| == |lst| && forall k :: 0 <= k < |s| ==> s[k] == lst[k] % 0x1_0000
  {
    seq(|lst|, k requires 0 <= k < |lst| => lst[k] % 0x1_0000)
  }

  /** Word p of a list of 16-bit elements, two to a word, the first in the upper half. */
  function ListWord(ts: seq<Word>, p: nat): int
    requires 2 * p < |ts|
  {
    (ts[2 * p] as int) * 0x1_0000 + if 2 * p + 1 < |ts| then ts[2 * p + 1] as int else 0
  }

  lemma {:induction false} ListBits(ws: seq<Word>, ts: seq<Word>)
    requires |ws| >= (|ts| + 1) / 2 && forall k :: 0 <= k < |ts| ==> ts[k] < 0x1_0000
    requires forall p :: 0 <= p < (|ts| + 1) / 2 ==> ws[p] == ListWord(ts, p)
    ensures B.Flat(ts, 16) <= B.WordBits(ws)
    decreases |ts|
  {
    hide Bits, Pow2, Shl;
    if ts != [] {
      var a, b := ts[0], if |ts| > 1 then ts[1] else 0;
      Pow2Values();
      ShlIsMul(a, 16);
      BitsJoin(a, b, 16, 16);
      assert ws[0] == ListWord(ts, 0) == a * 0x1_0000 + b;
      if |ts| > 1 {
        var us, vs := ts[2..], ws[1..];
        forall p | 0 <= p < (|us| + 1) / 2 ensures vs[p] == ListWord(us, p) { assert vs[p] == ws[p + 1]; }
        ListBits(vs, us);
        assert ts[1..][1..] == us;
        assert B.Flat(ts, 16) == Bits(a, 16) + (Bits(b, 16) + B.Flat(us, 16));
      } else {
        assert B.Flat(ts[1..], 16) == [];
      }
    }
  }

  lemma ListHeld(ws: seq<Word>, ts: seq<Word>)
    requires |ws| >= (|ts| + 1) / 2 && forall k :: 0 <= k < |ts| ==> ts[k] < 0x1_0000
    requires forall p :: 0 <= p < (|ts| + 1) / 2 ==> ws[p] == ListWord(ts, p)
    ensures Holds(ws, ts, 16, false)
  {
    hide Bits, Pow2, Low, C.Token, B.Flat, B.WordBits;
    ListBits(ws, ts);
    Pow2Values();
    forall k | 0 <= k < |ts| ensures C.Token(ts[k], 16, false) == ts[k] {
      C.TokenIsLow(ts[k], 16, false);
      LowId(ts[k], 16);
    }
    var us: seq<int>, vs: seq<int> := ts, C.Tokens(ts, 16, false);
    assert us == vs;
  }

  lemma JoinHalves(x: nat, v: nat)
    requires x < 0x1_0000 && v < 0x1_0000
    ensures Or(Wrap(Shl(x, 16)), v) == x * 0x1_0000 + v
    ensures Or(Wrap(Shl(0, 0)), v) == v
  {
    hide Or, Shl, Pow2;
    Pow2Values();
    ShlIsMul(x, 16);
    OrDisjoint(x, v, 16);
    ShlNone(0);
    OrDisjoint(0, v, 16);
    ShlIsMul(0, 16);
  }

  /** The word at pos while the k-th element is due, and the words before it. */
  ghost predicate ListSoFar(data: seq<Word>, indx: nat, tail: seq<Word>, k: nat) {
    && k <= |tail| && indx + k / 2 < |data|
    && data[indx + k / 2] == (if k % 2 == 0 then 0 else tail[k - 1])
    && forall p :: 0 <= p < k / 2 ==> data[indx + p] == ListWord(tail, p)
  }

  /** One element more: it starts a word, or completes one and the next word is cleared. */
  lemma ListStep(data: seq<Word>, indx: nat, tail: seq<Word>, k: nat)
    requires ListSoFar(data, indx, tail, k) && k < |tail| && forall j :: 0 <= j < |tail| ==> tail[j] < 0x1_0000
    ensures var pos, w := indx + k / 2, Or(Wrap(Shl(data[indx + k / 2], if k % 2 == 0 then 0 else 16)), tail[k]);
      && w < WORD
      && (k % 2 == 0 ==> ListSoFar(data[pos := w], indx, tail, k + 1))
      && (k % 2 == 1 && pos + 1 < |data| ==> ListSoFar(data[pos := w][pos + 1 := 0], indx, tail, k + 1))
  {
    hide Or, Shl, Wrap;
    var x := data[indx + k / 2];
    JoinHalves(x, tail[k]);
    if k % 2 == 1 { assert ListWord(tail, k / 2) == x * 0x1_0000 + tail[k]; }
  }

  /** A last word that is only half full is shifted up. */
  lemma ListEnd(data: seq<Word>, indx: nat, tail: seq<Word>)
    requires ListSoFar(data, indx, tail, |tail|) && forall j :: 0 <= j < |tail| ==> tail[j] < 0x1_0000
    requires indx + Words64(|tail|, 16) <= |data|
    ensures var pos := indx + |tail| / 2;
      var d := if |tail| % 2 == 0 then data else data[pos := Wrap(Shl(data[pos], 16))];
      Holds(d[indx..indx + Words64(|tail|, 16)], tail, 16, false)
  {
    hide Or, Shl, Wrap, Holds;
    var pos := indx + |tail| / 2;
    var d := if |tail| % 2 == 0 then data else data[pos := Wrap(Shl(data[pos], 16))];
    if |tail| % 2 == 1 {
      JoinHalves(data[pos], 0);
      OrZero(Wrap(Shl(data[pos], 16)));
    }
    ListHeld(d[indx..indx + Words64(|tail|, 16)], tail);
  }

  /** The elements that go behind the header. */
  function Tail(lstele: seq<Word>, nele: nat, done: nat): (s: seq<Word>)
    requires nele <= |lstele|
    ensures |s| == (if done < nele then nele - done else 0) && forall k :: 0 <= k < |s| ==>
      s[k] == lstele[done + k] % 0x1_0000 < 0x1_0000
  {
    if done < nele then Lows(lstele[done..nele]) else []
  }

  /** Words before lo and from hi on are as before. */
  ghost predicate SameOutside(now: seq<Word>, before: seq<Word>, lo: nat, hi: nat) {
    && |now| == |before| && lo <= |now| && now[..lo] == before[..lo]
    && forall k :: hi <= k < |now| ==> now[k] == before[k]
  }

  lemma SameOutsideSet(now: seq<Word>, before: seq<Word>, lo: nat, hi: nat, k: nat, w: Word)
    requires SameOutside(now, before, lo, hi) && lo <= k < hi && k < |now|
    ensures SameOutside(now[k := w], before, lo, hi)
  {
  }

  lemma SameOutsideStart(now: seq<Word>, lo: nat, hi: nat)
    requires lo <= |now|
    ensures SameOutside(now, now, lo, hi)
  {
  }

  /** One element into the word at pos, and on to the next word, cleared, when it is full. */
  method PutElement(buf: Buffer, pos: nat, left: nat, element: Word) returns (next: nat, space: nat)
    requires left == 32 || left == 16
    requires pos + (if left == 32 then 0 else 1) < buf.data.Length
    requires Or(Wrap(Shl(buf.data[pos], 32 - left)), element % 0x1_0000) < WORD
    modifies buf.data
    ensures next == (if left == 32 then pos else pos + 1) && space == (if left == 32 then 16 else 32)
    ensures var word := Or(Wrap(Shl(old(buf.data[pos]), 32 - left)), element % 0x1_0000);
      buf.data[..] == if left == 32 then old(buf.data[..])[pos := word]
        else old(buf.data[..])[pos := word][pos + 1 := 0]
  {
    hide Or, Shl, Wrap;
    buf.data[pos] := Or(Wrap(Shl(buf.data[pos], 32 - left)), element % 0x1_0000);
    next, space := pos, left - 16;
    if space == 0 {
      next := next + 1;
      buf.data[next] := 0;
      space := 32;
    }
  }

  /** The loop that writes the elements from `done` on behind the record. */
  method WriteElements(buf: Buffer, indx: nat, lstele: seq<Word>, nele: nat, done: nat)
    returns (pos: nat, left: nat, bits_added: nat)
    requires nele <= |lstele| && indx + |Tail(lstele, nele, done)| / 2 < buf.data.Length
    modifies buf.data
    ensures var tail := Tail(lstele, nele, done);
      && pos == indx + |tail| / 2 && left == (if |tail| % 2 == 0 then 32 else 16) && bits_added == 16 * |tail|
      && ListSoFar(buf.data[..], indx, tail, |tail|)
      && SameOutside(buf.data[..], old(buf.data[..]), indx, indx + |tail| / 2 + 1)
  {
    hide Or, Shl, Wrap, Tail, ListSoFar, SameOutside;
    ghost var tail, before := Tail(lstele, nele, done), buf.data[..];
    ghost var end := indx + |tail| / 2 + 1;
    var i := done;
    pos, left, bits_added := indx, 32, 0;
    SameOutsideStart(before, indx, end);
    SameOutsideSet(before, before, indx, end, pos, 0);
    buf.data[pos] := 0;
    ghost var k := 0;
    ListStart(buf.data[..], indx, tail);
    while i < nele
      invariant i == done + k && 0 <= k <= |tail| && pos == indx + k / 2 && left == (if k % 2 == 0 then 32 else 16)
        && bits_added == 16 * k
      invariant ListSoFar(buf.data[..], indx, tail, k) && SameOutside(buf.data[..], before, indx, end)
    {
      ListStep(buf.data[..], indx, tail, k);
      ghost var now, word := buf.data[..], Or(Wrap(Shl(buf.data[pos], 32 - left)), lstele[i] % 0x1_0000);
      SameOutsideSet(now, before, indx, end, pos, word);
      if left == 16 { SameOutsideSet(now[pos := word], before, indx, end, pos + 1, 0); }
      pos, left := PutElement(buf, pos, left, lstele[i]);
      bits_added := bits_added + 16;
      i, k := i + 1, k + 1;
    }
  }

  /** The list of elements, a last half word shifted up. */
  method WriteList(buf: Buffer, indx: nat, lstele: seq<Word>, nele: nat, done: nat) returns (bits_added: nat)
    requires nele <= |lstele| && indx + |Tail(lstele, nele, done)| / 2 < buf.data.Length
    requires indx + Words64(|Tail(lstele, nele, done)|, 16) <= buf.data.Length
    modifies buf.data
    ensures SameOutside(buf.data[..], old(buf.data[..]), indx, indx + |Tail(lstele, nele, done)| / 2 + 1)
    ensures var tail := Tail(lstele, nele, done);
      && (bits_added + 63) / 64 * 64 == 32 * Words64(|tail|, 16)
      && Holds(buf.data[indx..indx + Words64(|tail|, 16)], tail, 16, false)
  {
    hide Shl, Wrap, Holds, Tail, ListSoFar, Words64, SameOutside;
    ghost var tail, before := Tail(lstele, nele, done), buf.data[..];
    var pos, left;
    pos, left, bits_added := WriteElements(buf, indx, lstele, nele, done);
    ListEnd(buf.data[..], indx, tail);
    if left != 32 {
      SameOutsideSet(buf.data[..], before, indx, indx + |tail| / 2 + 1, pos, Wrap(Shl(buf.data[pos], 16)));
      buf.data[pos] := Wrap(Shl(buf.data[pos], 16));
      bits_added := bits_added + 16;
    }
    BitsOfList(|tail|, bits_added);
    assert buf.data[indx..indx + Words64(|tail|, 16)] == buf.data[..][indx..indx + Words64(|tail|, 16)];
  }

  /** The bits counted by the loop, a last half word made whole, are the list rounded up. */
  lemma BitsOfList(n: nat, bits: nat)
    requires bits == 16 * n + (if n % 2 == 0 then 0 else 16)
    ensures (bits + 63) / 64 * 64 == 32 * Words64(n, 16)
  {
    ListSize(n);
  }

  lemma ListSize(n: nat)
    ensures (n + 1) / 2 <= Words64(n, 16) && (32 * ((n + 1) / 2) + 63) / 64 * 64 == 32 * Words64(n, 16)
  {
  }

  lemma ListStart(data: seq<Word>, indx: nat, tail: seq<Word>)
    requires indx < |data| && data[indx] == 0
    ensures ListSoFar(data, indx, tail, 0)
  {
  }

  /** A block behind the last one: its header joins the headers, its words join the regions. */
  lemma Appended(rec: seq<Word>, rec': seq<Word>, prefix: seq<Word>, bs: seq<Block>, rs: seq<seq<Word>>, b: Block,
      lw: seq<Word>, vw: seq<Word>)
    requires Represents(rec, prefix, bs, rs) && Shaped(b) && RegionOf(lw + vw, b)
    requires var i := DATA_INDEX + DIMENT * |bs|;
      i <= |rec| && rec' == rec[..i] + HeaderWords(b.h, Offset(bs)) + (rec[i..] + lw) + vw
    ensures Represents(rec', prefix, bs + [b], rs + [lw + vw])
  {
    hide AllGood, Headers, Concat, Offset, HeaderWords, Units, Shaped, RegionOf;
    Lengths(bs, rs);
    var h, r := Headers(bs, 0), Concat(rs);
    HeadersSplit(bs, [b], 0);
    OneHeader(b, Offset(bs));
    ConcatSplit(rs, [lw + vw]);
    OneRegion(lw + vw);
    AllGoodSplit(bs, b, [], rs, lw + vw, []);
    assert bs + [b] + [] == bs + [b] && rs + [lw + vw] + [] == rs + [lw + vw] && bs + [] == bs && rs + [] == rs;
    assert rec[..DATA_INDEX + DIMENT * |bs|] == prefix + h && rec[DATA_INDEX + DIMENT * |bs|..] == r;
    assert rec' == prefix + (h + HeaderWords(b.h, Offset(bs))) + (r + (lw + vw));
  }

  /** inbit - 1 on the five bits of the field: a width of 0 is stored like one of 32. */
  function StoredNbit(nbit: nat): nat {
    (nbit + 31) % 32
  }

  /** The header c_mrbadd fills in; of a large block, nt and nval keep whatever was there. */
  method FillHeader(q: Request, nbit: nat, bit0: nat, datyp: nat, lstele: seq<Word>)
    returns (entete: Header, done: nat)
    requires q.nele < 0x1_0000 && q.nval < 0x1_0000 && q.nt < 0x1_0000 && q.bfam < 0x1000 && q.btyp < 0x8000
    requires |lstele| >= 3 && |lstele| >= q.nele && bit0 < 0x10_0000 && datyp < 0x10
    ensures HeaderFor(entete, q) && entete.bit0 == bit0 && entete.nbit == StoredNbit(nbit) && entete.datyp == datyp
    ensures |Tail(lstele, q.nele, done)| == NewTailCount(q)
    ensures Elements(Block(entete.(bit0 := 0), Tail(lstele, q.nele, done), [])) == Lows(lstele[..q.nele])
  {
    hide Tail, Lows;
    SwappedTwice(q.bfam);
    assert Swapped(q.bfam) == q.bfam % 0x40 * 0x40 + q.bfam / 0x40;
    if q.nele >= GROSNELE || q.nval >= GROSDIM || q.nt >= GROSDIM {
      var junk1, junk2 :| 0 <= junk1 < 0x100 && 0 <= junk2 < 0x100;
      // GROSNELE does not fit the seven bits of nele
      entete := Header(Swapped(q.bfam), q.btyp, StoredNbit(nbit), junk1, datyp, bit0, 1, GROSNELE % 0x80, junk2,
        q.nele, q.nval, q.nt);
      done := 0;
      LargeTail(lstele, q.nele);
    } else {
      entete := Header(Swapped(q.bfam), q.btyp, StoredNbit(nbit), q.nt, datyp, bit0, 0, q.nele, q.nval,
        lstele[0] % 0x1_0000, lstele[1] % 0x1_0000, lstele[2] % 0x1_0000);
      done := 3;
      SmallTail(lstele, q.nele);
    }
  }

  /** The header and what goes with it are the block of the request. */
  method BuildHeader(q: Request, nbit: nat, bit0: nat, datyp: nat, lstele: seq<Word>, ghost tblval: seq<Word>,
      ghost c: Choice) returns (entete: Header, done: nat)
    requires Acceptable(q, lstele, tblval) && nbit <= 32 && bit0 < 0x10_0000 && (datyp == 2 || datyp == 4)
    requires c == WidthOf(q, tblval) && nbit == c.nbits && datyp == c.datyp && c.err == 0
    requires nbit > 0 ==> Suits(tblval[..Total(q)], nbit, datyp)
    ensures q.nele <= |lstele| && Total(q) <= |tblval| && |Tail(lstele, q.nele, done)| == NewTailCount(q)
    ensures entete.bit0 == bit0 && InRange(entete) && entete.nbit == StoredNbit(nbit) && entete.datyp == datyp
    ensures var b := Block(entete.(bit0 := 0), Tail(lstele, q.nele, done), tblval[..Total(q)]);
      IsBlockFor(b, q, lstele, tblval) && (nbit > 0 || Total(q) == 0 ==> Shaped(b))
  {
    hide WidthOf, Suits, Tail, Lows, Shaped, BestWidth, AllMissing;
    entete, done := FillHeader(q, nbit, bit0, datyp, lstele);
    ghost var b := Block(entete.(bit0 := 0), Tail(lstele, q.nele, done), tblval[..Total(q)]);
    if Total(q) > 0 && !KeepsNothing(q, tblval) { BlockWidth(q, lstele, tblval); }
    if nbit > 0 || Total(q) == 0 { ShapedBlock(b, nbit); }
  }

  lemma ShapedBlock(b: Block, nbit: nat)
    requires InRange(b.h) && b.h.bit0 == 0 && (b.h.datyp == 2 || b.h.datyp == 4) && nbit <= 32
      && b.h.nbit == StoredNbit(nbit)
    requires |b.tail| == TailCount(b.h) && (forall k :: 0 <= k < |b.tail| ==> b.tail[k] < 0x1_0000)
      && |b.vals| == Count(b.h)
    requires if nbit > 0 then Suits(b.vals, nbit, b.h.datyp) else b.vals == []
    ensures Shaped(b)
  {
    hide Suits, Count;
    SuitsNothing(32, b.h.datyp);
  }

  lemma LargeTail(lstele: seq<Word>, nele: nat)
    requires nele <= |lstele|
    ensures Tail(lstele, nele, 0) == Lows(lstele[..nele])
  {
  }

  lemma SmallTail(lstele: seq<Word>, nele: nat)
    requires |lstele| >= 3 && nele <= |lstele|
    ensures [lstele[0] % 0x1_0000, lstele[1] % 0x1_0000, lstele[2] % 0x1_0000][..if nele < 3 then nele else 3]
      + Tail(lstele, nele, 3) == Lows(lstele[..nele])
  {
  }

  /** The description of a block to add. */
  datatype Request = Request(nele: nat, nval: nat, nt: nat, bfam: nat, btyp: nat, nbit: nat, datyp: nat)

  function Total(q: Request): nat {
    q.nele * q.nval * q.nt
  }

  /** What c_mrbadd counts on: dimensions that fit the header, at least three elements and one value to look at. */
  predicate Acceptable(q: Request, lstele: seq<Word>, tblval: seq<Word>) {
    && q.nele < 0x1_0000 && q.nval < 0x1_0000 && q.nt < 0x1_0000 && q.bfam < 0x1000 && q.btyp < 0x8000
    && q.nbit <= 32 && (q.datyp == 2 || q.datyp == 4)
    && |lstele| >= 3 && |lstele| >= q.nele && |tblval| >= 1 && |tblval| >= Total(q)
    && forall k :: 0 <= k < |tblval| ==> tblval[k] != 0x8000_0000
  }

  /** No bits are asked for, and all of the values are missing. */
  predicate KeepsNothing(q: Request, tblval: seq<Word>) {
    q.nbit == 0 && 0 < Total(q) <= |tblval| && AllMissing(tblval[..Total(q)])
  }

  /** The width burp_nbit_datyp chooses for the values. */
  function WidthOf(q: Request, tblval: seq<Word>): Choice {
    if |tblval| >= 1 && |tblval| >= Total(q) then Width(Seen(tblval, Total(q)), q.nbit, q.datyp) else Choice(0, 0, 0)
  }

  /** Elements kept behind the header: all of a large block, else those beyond the third. */
  function NewTailCount(q: Request): nat {
    if q.nele >= GROSNELE || q.nval >= GROSDIM || q.nt >= GROSDIM then q.nele else if q.nele > 3 then q.nele - 3 else 0
  }

  function NewListWords(q: Request): nat { Words64(NewTailCount(q), 16) }
  function NewValueWords(q: Request, tblval: seq<Word>): nat { Words64(Total(q), WidthOf(q, tblval).nbits) }

  /**
    The block has the dimensions, the elements and the values of the request, the least width that suits the values, and
    the large form exactly when a dimension calls for it.
   */
  ghost predicate IsBlockFor(b: Block, q: Request, lstele: seq<Word>, tblval: seq<Word>) {
    && HeaderFor(b.h, q)
    && b.h.nbit == StoredNbit(WidthOf(q, tblval).nbits) && b.h.datyp == WidthOf(q, tblval).datyp
    && q.nele <= |lstele| && Elements(b) == Lows(lstele[..q.nele])
    && Total(q) <= |tblval| && b.vals == tblval[..Total(q)]
    && (b.vals != [] && (q.nbit > 0 || !AllMissing(b.vals)) ==>
      BestWidth(b.vals, q.nbit, q.datyp, Choice(0, b.h.nbit + 1, b.h.datyp)))
  }

  ghost predicate HeaderFor(h: Header, q: Request) {
    && InRange(h) && Nele(h) == q.nele && Nval(h) == q.nval && Nt(h) == q.nt
    && h.bfamdesc == q.bfam % 0x40 * 0x40 + q.bfam / 0x40 && h.btyp == q.btyp
    && (h.flag == 0 <==> q.nele < 0x80 && q.nval < 0x100 && q.nt < 0x100)
  }

  /** Where the header of a request's block has the dimensions: in its small fields, or in those of the elements. */
  lemma HeaderIs(h: Header, q: Request)
    requires HeaderFor(h, q)
    ensures q.nele < 128 && q.nval < 256 && q.nt < 256 ==>
      h.flag == 0 && h.nele == q.nele && h.nval == q.nval && h.nt == q.nt
    ensures q.nele >= 128 || q.nval >= 256 || q.nt >= 256 ==>
      h.flag == 1 && h.elem1 == q.nele && h.elem2 == q.nval && h.elem3 == q.nt
    ensures q.bfam < 0x1000 ==> h.bfamdesc / 64 == q.bfam % 64 && h.bfamdesc % 64 == q.bfam / 64
  {
    if q.bfam < 0x1000 { DivUnique(h.bfamdesc, 0x40, q.bfam % 0x40, q.bfam / 0x40); }
  }

  /** The width of a block that is added is the least that suits its values. */
  lemma BlockWidth(q: Request, lstele: seq<Word>, tblval: seq<Word>)
    requires Acceptable(q, lstele, tblval) && WidthOf(q, tblval).err == 0 && !KeepsNothing(q, tblval) && Total(q) > 0
    ensures var c := WidthOf(q, tblval);
      BestWidth(tblval[..Total(q)], q.nbit, q.datyp, Choice(0, StoredNbit(c.nbits) + 1, c.datyp))
  {
    hide Width, Total, BestWidth, AllMissing;
    WidthIsBest(Seen(tblval, Total(q)), q.nbit, q.datyp);
    WidthSuits(Seen(tblval, Total(q)), q.nbit, q.datyp);
  }

  lemma TailFits(q: Request, lstele: seq<Word>, done: nat)
    requires q.nele <= |lstele| && |Tail(lstele, q.nele, done)| == NewTailCount(q)
    ensures NewTailCount(q) <= q.nele && NewListWords(q) <= Words64(q.nele, 16)
  {
  }

  method ChooseWidth(q: Request, lstele: seq<Word>, tblval: seq<Word>) returns (err: int, inbit: nat, idatyp: nat)
    requires Acceptable(q, lstele, tblval)
    ensures Choice(err, inbit, idatyp) == WidthOf(q, tblval) && (err == 0 || err == BURP_ERR_CMPR)
    ensures err == 0 ==> inbit <= 32 && (idatyp == 2 || idatyp == 4) && Total(q) <= |tblval|
    ensures err == 0 && inbit > 0 ==> Suits(tblval[..Total(q)], inbit, idatyp)
    ensures err == 0 ==> (KeepsNothing(q, tblval) <==> inbit == 0 && Total(q) > 0)
  {
    hide Width, Suits, Total, AllMissing;
    err, inbit, idatyp := BurpNbitDatyp(q.nbit, q.datyp, tblval, Total(q));
    WidthSuits(Seen(tblval, Total(q)), q.nbit, q.datyp);
    SuitsNothing(inbit, idatyp);
    assert Total(q) == 0 ==> tblval[..Total(q)] == [];
  }

  lemma SuitsNothing(nbit: nat, datyp: nat)
    ensures 1 <= nbit <= 32 ==> Suits([], nbit, datyp)
  {
  }

  lemma BlockAdded(rec: seq<Word>, rec': seq<Word>, prefix: seq<Word>, bs: seq<Block>, rs: seq<seq<Word>>, b: Block,
      entete: Header,
      lw: seq<Word>, vw: seq<Word>)
    requires Represents(rec, prefix, bs, rs) && Shaped(b) && InRange(entete) && b.h == entete.(bit0 := 0)
      && entete.bit0 == Offset(bs)
    requires |lw| == ListWords(b) && Holds(lw, b.tail, 16, false) && |vw| == ValueWords(b)
      && Holds(vw, b.vals, b.h.nbit + 1, b.h.datyp == 4)
    requires var i := DATA_INDEX + DIMENT * |bs|;
      i <= |rec| && rec' == (rec + lw)[..i] + ToWords(entete) + (rec + lw)[i..] + vw
    ensures Represents(rec', prefix, bs + [b], rs + [lw + vw])
  {
    hide Represents, Offset, ToWords, Shaped, Holds, ListWords, ValueWords;
    var i := DATA_INDEX + DIMENT * |bs|;
    assert (lw + vw)[..|lw|] == lw && (lw + vw)[|lw|..] == vw;
    assert RegionOf(lw + vw, b);
    assert entete == b.h.(bit0 := Offset(bs));
    assert (rec + lw)[..i] == rec[..i] && (rec + lw)[i..] == rec[i..] + lw;
    Appended(rec, rec', prefix, bs, rs, b, lw, vw);
  }

  /** The elements behind the record. */
  method AppendList(buf: Buffer, lstele: seq<Word>, nele: nat, done: nat) returns (ghost lw: seq<Word>)
    requires buf.Shape() && nele <= |lstele| && buf.Len() + |Tail(lstele, nele, done)| / 2 < buf.data.Length
    requires buf.Len() + Words64(|Tail(lstele, nele, done)|, 16) <= buf.data.Length
    modifies buf`nbits, buf.data
    ensures buf.Shape() && buf.Len() == old(buf.Len()) + |lw| && buf.Rec() == old(buf.Rec()) + lw
    ensures |lw| == Words64(|Tail(lstele, nele, done)|, 16) && Holds(lw, Tail(lstele, nele, done), 16, false)
    ensures forall k :: old(buf.Len()) + |Tail(lstele, nele, done)| / 2 < k < buf.data.Length ==>
      buf.data[k] == old(buf.data[k])
  {
    hide Words64, Holds, Tail;
    ghost var rec, l := buf.Rec(), Words64(|Tail(lstele, nele, done)|, 16);
    Words64Covers(|Tail(lstele, nele, done)|, 16);
    WholeWords(buf.nbits, l);
    var bits_added := WriteList(buf, buf.nbits / 32, lstele, nele, done);
    lw := buf.data[|rec|..|rec| + l];
    assert buf.data[..|rec| + l] == buf.data[..|rec|] + lw;
    buf.nbits := buf.nbits + (bits_added + 63) / 64 * 64;
  }

  function Most(a: nat, b: nat): nat { if a > b then a else b }

  /**
    Where the words end that are written for the header and the values of a block, behind `len` words: the header, with
    the words behind its place and one more moved up, and the words into which the values are packed.
   */
  function InsertReach(len: nat, index: nat, packed: nat, valueWords: nat, nwords: nat): nat {
    var header := len + DIMENT + if len == index then 0 else 1;
    if len + DIMENT - 1 > nwords then 0
    else if len + DIMENT + valueWords - 1 > nwords then header
    else Most(header, len + DIMENT + packed)
  }

  /**
    Where the words end that c_mrbadd writes behind a record of `len` words: those of the list, and the word at which it
    ends, which is cleared even when there is no list; and those for the header and the values.
   */
  function Reach(len: nat, index: nat, elements: nat, n: nat, width: nat, nwords: nat): nat {
    Most(len + elements / 2 + 1,
      InsertReach(len + Words64(elements, 16), index, PackedLength(n, width), Words64(n, width), nwords))
  }

  /** The header into the record, the values behind it; the header is in when only the values do not fit. */
  method InsertBlock(buf: Buffer, entete: Header, tblval: seq<Word>, nombre: nat, width: nat, datyp: nat)
    returns (err: int, ghost vw: seq<Word>)
    requires buf.Shape() && InRange(entete) && buf.buf9 % 64 == 0 && DATA_INDEX + buf.buf9 / 32 <= buf.Len()
    requires nombre <= |tblval| && width <= 32 && (datyp == 2 || datyp == 4)
    requires InsertReach(buf.Len(), DATA_INDEX + buf.buf9 / 32, PackedLength(nombre, width), Words64(nombre, width),
      buf.nwords) <= buf.data.Length
    requires buf.Safe(buf.Len() + DIMENT, Words64(nombre, width), buf.Len() + DIMENT + Words64(nombre, width))
    modifies buf`nbits, buf.data
    ensures err == if old(buf.Len()) + DIMENT + Words64(nombre, width) - 1 <= buf.nwords then 0 else ERR_BAD_DIM
    ensures buf.Shape()
    ensures err != 0 ==> buf.Len() == old(buf.Len()) + (if old(buf.Len()) + DIMENT - 1 <= buf.nwords then DIMENT else 0)
    ensures err != 0 && buf.Len() == old(buf.Len()) ==> buf.data[..] == old(buf.data[..])
    ensures err == 0 ==>
      |vw| == Words64(nombre, width) && (width > 0 ==> Holds(vw, tblval[..nombre], width, datyp == 4))
    ensures err == 0 ==> var rec, i := old(buf.Rec()), DATA_INDEX + buf.buf9 / 32;
      buf.Rec() == rec[..i] + ToWords(entete) + rec[i..] + vw
    ensures var reach := InsertReach(old(buf.Len()), DATA_INDEX + buf.buf9 / 32, PackedLength(nombre, width),
        Words64(nombre, width), buf.nwords);
      forall k :: reach <= k < buf.data.Length ==> buf.data[k] == old(buf.data[k])
  {
    hide Words64, Holds, ToWords, PackedLength;
    vw := [];
    HeaderSize();
    err := buf.Ins(ToWords(entete), buf.buf9, DIMENT);
    if err < 0 { return; }
    assert ToWords(entete)[..DIMENT] == ToWords(entete);
    ghost var spread := buf.Rec();
    err := buf.Add(tblval, nombre, width, datyp);
    if err < 0 { return; }
    vw := buf.Rec()[|spread|..];
    assert buf.Rec() == buf.Rec()[..|spread|] + vw;
  }

  /** The list behind the record, the header into it, the values behind it. */
  method WriteBlock(buf: Buffer, entete: Header, lstele: seq<Word>, nele: nat, done: nat, tblval: seq<Word>,
      nombre: nat,
      width: nat, datyp: nat, ghost tail: seq<Word>) returns (err: int, ghost lw: seq<Word>, ghost vw: seq<Word>)
    requires buf.Shape() && InRange(entete) && buf.buf9 % 64 == 0 && DATA_INDEX + buf.buf9 / 32 <= buf.Len()
    requires nele <= |lstele| && tail == Tail(lstele, nele, done)
    requires nombre <= |tblval| && width <= 32 && (datyp == 2 || datyp == 4)
    requires Reach(buf.Len(), DATA_INDEX + buf.buf9 / 32, |tail|, nombre, width, buf.nwords) <= buf.data.Length
    requires var behind := buf.Len() + Words64(|tail|, 16);
      behind <= buf.data.Length
      && buf.Safe(behind + DIMENT, Words64(nombre, width), behind + DIMENT + Words64(nombre, width))
    modifies buf`nbits, buf.data
    ensures buf.Shape() && |lw| == Words64(|tail|, 16) && Holds(lw, tail, 16, false)
    ensures err == if old(buf.Len()) + |lw| + DIMENT + Words64(nombre, width) - 1 <= buf.nwords then 0 else ERR_BAD_DIM
    ensures err != 0 ==>
      buf.Len() == old(buf.Len()) + |lw| + (if old(buf.Len()) + |lw| + DIMENT - 1 <= buf.nwords then DIMENT else 0)
    ensures err == 0 ==> buf.Len() == old(buf.Len()) + |lw| + DIMENT + |vw|
    ensures err != 0 && buf.Len() == old(buf.Len()) ==> buf.Rec() == old(buf.Rec())
    ensures err == 0 ==>
      |vw| == Words64(nombre, width) && (width > 0 ==> Holds(vw, tblval[..nombre], width, datyp == 4))
    ensures err == 0 ==> var rec, i := old(buf.Rec()) + lw, DATA_INDEX + buf.buf9 / 32;
      i <= |rec| && buf.Rec() == rec[..i] + ToWords(entete) + rec[i..] + vw
    ensures var reach := Reach(old(buf.Len()), DATA_INDEX + buf.buf9 / 32, |tail|, nombre, width, buf.nwords);
      forall k :: reach <= k < buf.data.Length ==> buf.data[k] == old(buf.data[k])
  {
    hide Words64, Holds, ToWords, Tail, InsertReach, PackedLength;
    ghost var rec := buf.Rec();
    lw := AppendList(buf, lstele, nele, done);
    ghost var longer := buf.Rec();
    err, vw := InsertBlock(buf, entete, tblval, nombre, width, datyp);
    if err != 0 && buf.Len() == |rec| { assert longer == rec + lw && lw == []; }
  }

  lemma HeaderPosition(k: nat)
    ensures NBENTB * k / 32 == DIMENT * k && NBENTB * k % 64 == 0
  {
  }

  lemma HeaderSize()
    ensures Words64(DIMENT, 32) == DIMENT
  {
  }

  // ----- changing the offsets of the blocks behind -----

  /** block[i].bit0 += d, on the 20 bits of the field. */
  function WithOffset(w: Word, d: int): int {
    w - w % 0x10_0000 + (w % 0x10_0000 + d) % 0x10_0000
  }

  lemma OffsetWord(h: Header, o1: nat, o2: nat)
    requires InRange(h) && o1 < 0x10_0000 && o2 < 0x10_0000
    ensures var w := HeaderWords(h, o1);
      && 0 <= WithOffset(w[1], o2 - o1) < WORD
      && HeaderWords(h, o2) == w[1 := WithOffset(w[1], o2 - o1)]
  {
    hide WithOffset;
    var high := h.datyp + 0x10 * h.nt;
    OffsetField(o1 + 0x10_0000 * high, high, o1, o2);
    assert HeaderWords(h, o2)[1] == o2 + 0x10_0000 * high;
  }

  lemma OffsetField(w: Word, high: nat, o1: nat, o2: nat)
    requires w == o1 + 0x10_0000 * high && o1 < 0x10_0000 && o2 < 0x10_0000
    ensures WithOffset(w, o2 - o1) == o2 + 0x10_0000 * high
  {
    DivUnique(w, 0x10_0000, high, o1);
    DivUnique(o2, 0x10_0000, 0, o2);
  }

  lemma WithOffsetFits(w: Word, d: int)
    ensures 0 <= WithOffset(w, d) < WORD
  {
  }

  lemma OneOffset(pre: seq<Word>, h: Header, rest: seq<Word>, o1: nat, o2: nat)
    requires InRange(h) && o1 < 0x10_0000 && o2 < 0x10_0000
    ensures var s := pre + HeaderWords(h, o1) + rest;
      && 0 <= WithOffset(s[|pre| + 1], o2 - o1) < WORD
      && s[|pre| + 1 := WithOffset(s[|pre| + 1], o2 - o1)] == pre + HeaderWords(h, o2) + rest
  {
    hide HeaderWords, WithOffset;
    OffsetWord(h, o1, o2);
    WithOffsetFits((pre + HeaderWords(h, o1) + rest)[|pre| + 1], o2 - o1);
  }

  ghost predicate HeadersInRange(c: seq<Block>) {
    forall k :: 0 <= k < |c| ==> InRange(c[k].h)
  }

  lemma OffsetsGrow(c: seq<Block>, j: nat)
    requires j < |c|
    ensures Offset(c[..j]) <= Offset(c) && Offset(c[..j]) + Units(c[j]) == Offset(c[..j + 1]) <= Offset(c)
  {
    hide Units, Offset;
    OffsetSplit(c[..j], c[j..]);
    OffsetSplit(c[..j + 1], c[j + 1..]);
    OffsetSplit(c[..j], [c[j]]);
    OneHeader(c[j], 0);
    Parts(c, j);
    assert c[..j + 1] == c[..j] + [c[j]] && c == c[..j + 1] + c[j + 1..];
  }

  /** The headers of c while the first j have their new offset. */
  ghost function Shifting(c: seq<Block>, j: nat, o1: nat, o2: nat): seq<Word>
    requires j <= |c|
  {
    Headers(c[..j], o2) + Headers(c[j..], o1 + Offset(c[..j]))
  }

  lemma ShiftingEnds(c: seq<Block>, o1: nat, o2: nat)
    ensures Shifting(c, 0, o1, o2) == Headers(c, o1) && Shifting(c, |c|, o1, o2) == Headers(c, o2)
  {
    assert c[..0] == [] && c[0..] == c && c[..|c|] == c && c[|c|..] == [];
  }

  lemma Regrouped<T>(p: seq<T>, a: seq<T>, h: seq<T>, z: seq<T>, q: seq<T>)
    ensures p + (a + (h + z)) + q == (p + a) + h + (z + q)
    ensures p + ((a + h) + z) + q == (p + a) + h + (z + q)
  {
  }

  lemma ShiftingStep(pre: seq<Word>, c: seq<Block>, j: nat, o1: nat, o2: nat, post: seq<Word>)
    requires j < |c| && HeadersInRange(c) && o1 + Offset(c) < 0x10_0000 && o2 + Offset(c) < 0x10_0000
    ensures var s := pre + Shifting(c, j, o1, o2) + post; var at := |pre| + DIMENT * j + 1;
      && at < |s| && 0 <= WithOffset(s[at], o2 - o1) < WORD
      && s[at := WithOffset(s[at], o2 - o1)] == pre + Shifting(c, j + 1, o1, o2) + post
  {
    hide Headers, Offset, HeaderWords, WithOffset, Units;
    OffsetsGrow(c, j);
    var o := Offset(c[..j]);
    Parts(c, j);
    HeadersSplit([c[j]], c[j + 1..], o1 + o);
    OneHeader(c[j], o1 + o);
    OneHeader(c[j], o2 + o);
    assert c[..j + 1] == c[..j] + [c[j]];
    HeadersSplit(c[..j], [c[j]], o2);
    var a, z := Headers(c[..j], o2), Headers(c[j + 1..], o1 + Offset(c[..j + 1]));
    var s := pre + Shifting(c, j, o1, o2) + post;
    Regrouped(pre, a, HeaderWords(c[j].h, o1 + o), z, post);
    assert s == (pre + a) + HeaderWords(c[j].h, o1 + o) + (z + post);
    OneOffset(pre + a, c[j].h, z + post, o1 + o, o2 + o);
    Regrouped(pre, a, HeaderWords(c[j].h, o2 + o), z, post);
  }

  /** The loop over the blocks behind: every bit0 moves by the same number of units. */
  method ShiftOffsets(buf: Buffer, first: nat, last: nat, d: int, ghost c: seq<Block>, ghost o1: nat, ghost o2: nat,
      ghost pre: seq<Word>, ghost post: seq<Word>)
    requires buf.Len() <= buf.data.Length && buf.Rec() == pre + Headers(c, o1) + post
      && |pre| == DATA_INDEX + DIMENT * first
    requires first <= last && last == first + |c| && HeadersInRange(c) && o1 + Offset(c) < 0x10_0000
      && (c != [] ==> o2 == o1 + d)
    modifies buf.data
    ensures o2 + Offset(c) < 0x10_0000 ==> buf.Rec() == pre + Headers(c, o2) + post
  {
    hide Headers, Offset, WithOffset, Shifting, HeadersInRange;
    ShiftingEnds(c, o1, o2);
    var i := first;
    while i < last
      invariant first <= i <= last
      invariant o2 + Offset(c) < 0x10_0000 ==> buf.Rec() == pre + Shifting(c, i - first, o1, o2) + post
    {
      var at := DATA_INDEX + DIMENT * i + 1;
      WithOffsetFits(buf.data[at], d);
      if o2 + Offset(c) < 0x10_0000 { ShiftingStep(pre, c, i - first, o1, o2, post); }
      buf.data[at] := WithOffset(buf.data[at], d);
      i := i + 1;
    }
  }

  /**
    A record in sections around one of its blocks: the keys; the headers of the blocks before, of the block, of those
    behind; the regions of the blocks before, the block's list and values, the regions behind.
   */
  datatype Sections = Sections(p: seq<Word>, ha: seq<Word>, hb: seq<Word>, hc: seq<Word>,
    ra: seq<Word>, lw: seq<Word>, vw: seq<Word>, rc: seq<Word>)

  ghost function Pieced(s: Sections): seq<Word> {
    s.p + (s.ha + s.hb + s.hc) + (s.ra + (s.lw + s.vw) + s.rc)
  }

  lemma PiecedLength(s: Sections)
    ensures |Pieced(s)| == |s.p + (s.ha + s.hb + s.hc)| + |s.ra| + |s.lw| + |s.vw| + |s.rc|
  {
  }

  /** The sections of a report around block k. */
  ghost function SectionsOf(prefix: seq<Word>, bs: seq<Block>, rs: seq<seq<Word>>, k: nat): Sections
    requires k < |bs| == |rs| && ListWords(bs[k]) <= |rs[k]|
  {
    var off, l := Offset(bs[..k]), ListWords(bs[k]);
    Sections(prefix, Headers(bs[..k], 0), HeaderWords(bs[k].h, off), Headers(bs[k + 1..], off + Units(bs[k])),
      Concat(rs[..k]), rs[k][..l], rs[k][l..], Concat(rs[k + 1..]))
  }

  /** The same with another header, the offsets behind it going with it, and the words v where the values go. */
  ghost function NewSections(prefix: seq<Word>, bs: seq<Block>, rs: seq<seq<Word>>, k: nat, b': Block,
      v: seq<Word>): Sections
    requires k < |bs| == |rs| && ListWords(bs[k]) <= |rs[k]|
  {
    var off := Offset(bs[..k]);
    SectionsOf(prefix, bs, rs, k).(hb := HeaderWords(b'.h, off), hc := Headers(bs[k + 1..], off + Units(b')), vw := v)
  }

  /** A record is made of its sections. */
  lemma PiecedOf(rec: seq<Word>, prefix: seq<Word>, bs: seq<Block>, rs: seq<seq<Word>>, k: nat)
    requires Represents(rec, prefix, bs, rs) && k < |bs|
    ensures |rs| == |bs| && |prefix| == DATA_INDEX
    ensures var b, r, off := bs[k], rs[k], Offset(bs[..k]); var l := ListWords(b);
      && Shaped(b) && l <= |r| == l + ValueWords(b) && l % 2 == 0 && 2 * Units(b) == |r|
      && |Concat(rs[..k])| == 2 * off && off + Units(b) + Offset(bs[k + 1..]) == Offset(bs)
      && HeadersInRange(bs[k + 1..])
      && Holds(r[..l], b.tail, 16, false)
      && rec == Pieced(SectionsOf(prefix, bs, rs, k))
  {
    hide Represents, Offset, Headers, HeaderWords, Concat, Shaped, Units, HeadersInRange, AllGood, ListWords,
      ValueWords, Holds;
    Matching(rec, prefix, bs, rs);
    Pieces(rec, prefix, bs, rs, k);
    var b, r := bs[k], rs[k];
    RegionWords(r, b);
    WholeUnits(b);
    GoodInRange(bs[k + 1..], rs[k + 1..]);
    assert r == r[..ListWords(b)] + r[ListWords(b)..];
  }

  // ----- deleting a block -----

  lemma CutPart(x: seq<Word>, y: seq<Word>, z: seq<Word>, i: nat, n: nat)
    requires i == |x| && n == |y|
    ensures CutAt(x + y + z, i, n) == x + z
  {
    assert (x + y + z)[..|x|] == x && (x + y + z)[|x| + |y|..] == z;
  }

  lemma CutNothing(rec: seq<Word>, i: nat)
    ensures CutAt(rec, i, 0) == rec
  {
    if i <= |rec| { assert rec[..i] + rec[i..] == rec; }
  }

  /** A block taken out: its list of elements, its values at the same place, and its header. */
  ghost function BlockCut(rec: seq<Word>, at: nat, l: nat, v: nat, head: nat): seq<Word> {
    CutAt(CutAt(CutAt(rec, at, l), at, v), head, DIMENT)
  }

  /** The three cuts. */
  method CutBlock(buf: Buffer, bit0: nat, nelements: nat, nombre: nat, width: nat, bitpos: nat)
    requires buf.Shape() && buf.Len() < buf.data.Length && bit0 % 64 == 0 && bitpos % 64 == 0
    requires DATA_INDEX + bit0 / 32 + Words64(nelements, 16) + Words64(nombre, width) <= buf.Len()
    requires DATA_INDEX + bitpos / 32 + DIMENT <= DATA_INDEX + bit0 / 32
    modifies buf`nbits, buf.data
    ensures buf.Shape() && buf.Len() <= old(buf.Len())
    ensures buf.Rec() == BlockCut(old(buf.Rec()), DATA_INDEX + bit0 / 32, Words64(nelements, 16),
      Words64(nombre, width), DATA_INDEX + bitpos / 32)
  {
    hide Words64, CutAt;
    ghost var rec, at, l, v := buf.Rec(), DATA_INDEX + bit0 / 32, Words64(nelements, 16), Words64(nombre, width);
    var err;
    NoWords();
    if nelements > 0 {
      err := buf.Cut(bit0, nelements, 16);
    } else {
      CutNothing(rec, at);
    }
    err := buf.Cut(bit0, nombre, width);
    HeaderSize();
    err := buf.Cut(bitpos, DIMENT, 32);
  }

  lemma Regions3<T>(h: seq<T>, ra: seq<T>, lw: seq<T>, vw: seq<T>, rc: seq<T>)
    ensures h + (ra + (lw + vw) + rc) == (h + ra) + lw + (vw + rc)
  {
  }

  lemma ThreeCuts(s: Sections, at: nat, head: nat)
    requires at == |s.p + (s.ha + s.hb + s.hc)| + |s.ra| && head == |s.p| + |s.ha| && |s.hb| == DIMENT
    ensures BlockCut(Pieced(s), at, |s.lw|, |s.vw|, head) == s.p + s.ha + s.hc + (s.ra + s.rc)
  {
    hide CutAt;
    var x := s.p + (s.ha + s.hb + s.hc) + s.ra;
    Regions3(s.p + (s.ha + s.hb + s.hc), s.ra, s.lw, s.vw, s.rc);
    CutPart(x, s.lw, s.vw + s.rc, at, |s.lw|);
    Grouped(x, s.vw, s.rc);
    CutPart(x, s.vw, s.rc, at, |s.vw|);
    Regrouped(s.p, s.ha, s.hb, s.hc, s.ra + s.rc);
    Grouped(s.p + (s.ha + s.hb + s.hc), s.ra, s.rc);
    CutPart(s.p + s.ha, s.hb, s.hc + (s.ra + s.rc), head, DIMENT);
    Grouped(s.p + s.ha, s.hc, s.ra + s.rc);
  }

  /** What the three cuts leave of a report. */
  lemma BlockTaken(rec: seq<Word>, prefix: seq<Word>, bs: seq<Block>, rs: seq<seq<Word>>, k: nat, entete: Header)
    requires Represents(rec, prefix, bs, rs) && k < |bs| && entete == bs[k].h.(bit0 := Offset(bs[..k]))
    ensures var b, at := bs[k], DATA_INDEX + DIMENT * |bs| + 2 * Offset(bs[..k]);
      var l, v, o := Words64(TailCount(entete), 16), Words64(Count(entete), entete.nbit + 1),
        Offset(bs[..k]) + Units(b);
      && o + Offset(bs[k + 1..]) == Offset(bs) && at + l + v <= |rec| && HeadersInRange(bs[k + 1..])
      && Without(BlockCut(rec, at, l, v, DATA_INDEX + DIMENT * k), prefix, bs, rs, k, o)
  {
    hide Offset, Headers, HeaderWords, Concat, Represents, Shaped, Units, HeadersInRange, ListWords, ValueWords,
      BlockCut, Words64, Count, TailCount, Pieced, Holds;
    PiecedOf(rec, prefix, bs, rs, k);
    RecordLength(rec, prefix, bs, rs);
    var b, r, off := bs[k], rs[k], Offset(bs[..k]);
    ShapedCounts(b);
    SizesOf(b);
    ThreeCuts(SectionsOf(prefix, bs, rs, k), DATA_INDEX + DIMENT * |bs| + 2 * off, DATA_INDEX + DIMENT * k);
  }

  lemma SizesOf(b: Block)
    ensures ListWords(b) == Words64(|b.tail|, 16) && ValueWords(b) == Words64(|b.vals|, b.h.nbit + 1)
  {
  }

  /** Bit positions of blocks are multiples of 64 bits, and make whole words. */
  lemma BitPosition(off: nat, n: nat, l: nat)
    requires l % 2 == 0
    ensures (off * 64 + NBENTB * n + 32 * l) % 64 == 0 && (off * 64 + NBENTB * n + 32 * l) / 32
      == DIMENT * n + 2 * off + l
  {
  }

  lemma NoWords()
    ensures Words64(0, 16) == 0
  {
  }

  /** The header that has moved up to place k tells the offset of the block behind the one cut. */
  lemma NextOffset(rec: seq<Word>, prefix: seq<Word>, bs: seq<Block>, rs: seq<seq<Word>>, k: nat, o: nat)
    requires Without(rec, prefix, bs, rs, k, o) && |prefix| == DATA_INDEX && HeadersInRange(bs[k + 1..])
      && o + Offset(bs[k + 1..]) < 0x10_0000
    ensures k + 1 < |bs| ==> DATA_INDEX + DIMENT * k + 1 < |rec| && rec[DATA_INDEX + DIMENT * k + 1] % 0x10_0000 == o
  {
    hide Headers, Concat, Offset, HeadersInRange;
    var c := bs[k + 1..];
    if c != [] {
      FirstOffset(c, o);
      assert rec[|prefix + Headers(bs[..k], 0)| + 1] == Headers(c, o)[1];
    }
  }

  lemma ShapedCounts(b: Block)
    requires Shaped(b)
    ensures InRange(b.h) && |b.tail| == TailCount(b.h) && |b.vals| == Count(b.h) && b.h.bit0 == 0
    ensures forall off :: TailCount(b.h.(bit0 := off)) == TailCount(b.h) && Count(b.h.(bit0 := off)) == Count(b.h)
  {
    hide Suits;
  }

  /** A record without block k, the blocks behind it offset from o on. */
  ghost predicate Without(rec: seq<Word>, prefix: seq<Word>, bs: seq<Block>, rs: seq<seq<Word>>, k: nat, o: nat) {
    && k < |bs| == |rs|
    && rec == prefix + Headers(bs[..k], 0) + Headers(bs[k + 1..], o) + (Concat(rs[..k]) + Concat(rs[k + 1..]))
  }

  /** The record of a report without block k. */
  lemma Deleted(rec: seq<Word>, prefix: seq<Word>, bs: seq<Block>, rs: seq<seq<Word>>, k: nat, rec': seq<Word>)
    requires k < |bs| && Represents(rec, prefix, bs, rs) && Without(rec', prefix, bs, rs, k, Offset(bs[..k]))
    ensures Represents(rec', prefix, bs[..k] + bs[k + 1..], rs[..k] + rs[k + 1..])
  {
    hide AllGood, Headers, Concat, Offset, Shaped, RegionOf, HeaderWords, Units;
    Pieces(rec, prefix, bs, rs, k);
    HeadersSplit(bs[..k], bs[k + 1..], 0);
    ConcatSplit(rs[..k], rs[k + 1..]);
    AllGoodSplit(bs[..k], bs[k], bs[k + 1..], rs[..k], rs[k], rs[k + 1..]);
  }

  lemma {:induction false} GoodInRange(bs: seq<Block>, rs: seq<seq<Word>>)
    requires AllGood(bs, rs)
    ensures HeadersInRange(bs)
  {
    hide RegionOf;
  }

  /** bit0 of the first of some consecutive blocks. */
  lemma FirstOffset(c: seq<Block>, o: nat)
    requires c != [] && HeadersInRange(c) && o < 0x10_0000
    ensures |Headers(c, o)| >= DIMENT && Headers(c, o)[1] % 0x10_0000 == o
  {
    hide Units, WithOffset;
    OffsetWord(c[0].h, o, o);
    DivUnique(HeaderWords(c[0].h, o)[1], 0x10_0000, c[0].h.datyp + 0x10 * c[0].h.nt, o);
  }

  // ----- replacing the values of a block -----

  /** block[k].nbit and block[k].datyp */
  function WithWidth(w: Word, nbit: nat): int {
    w - w % 0x20 + nbit
  }

  function WithDatyp(w: Word, datyp: nat): int {
    w - w / 0x10_0000 % 0x10 * 0x10_0000 + datyp * 0x10_0000
  }

  lemma WidthWords(h: Header, off: nat, nbit: nat, datyp: nat)
    requires InRange(h) && off < 0x10_0000 && nbit < 0x20 && datyp < 0x10
    ensures var w := HeaderWords(h, off);
      && 0 <= WithWidth(w[0], nbit) < WORD && 0 <= WithDatyp(w[1], datyp) < WORD
      && HeaderWords(h.(nbit := nbit, datyp := datyp), off)
        == w[0 := WithWidth(w[0], nbit)][1 := WithDatyp(w[1], datyp)]
  {
    var w := HeaderWords(h, off);
    DivUnique(w[0], 0x20, h.btyp + 0x8000 * h.bfamdesc, h.nbit);
    BitField(w[1], off, 0x10_0000, h.datyp, 0x10, h.nt);
  }

  lemma NewHeader(s: Sections, h: Header, off: nat, nbit: nat, datyp: nat)
    requires InRange(h) && off < 0x10_0000 && nbit < 0x20 && datyp < 0x10 && s.hb == HeaderWords(h, off)
    ensures var ws := Pieced(s); var at := |s.p + s.ha|;
      && at + 1 < |ws| && 0 <= WithWidth(ws[at], nbit) < WORD && 0 <= WithDatyp(ws[at + 1], datyp) < WORD
      && ws[at := WithWidth(ws[at], nbit)][at + 1 := WithDatyp(ws[at + 1], datyp)]
         == Pieced(s.(hb := HeaderWords(h.(nbit := nbit, datyp := datyp), off)))
  {
    hide HeaderWords, WithWidth, WithDatyp;
    WidthWords(h, off, nbit, datyp);
    var w, w' := s.hb, HeaderWords(h.(nbit := nbit, datyp := datyp), off);
    var x, r := s.p + s.ha, s.ra + (s.lw + s.vw) + s.rc;
    Regrouped(s.p, s.ha, w, s.hc, r);
    Regrouped(s.p, s.ha, w', s.hc, r);
    assert (x + w + (s.hc + r))[|x| := w'[0]][|x| + 1 := w'[1]] == x + w' + (s.hc + r);
  }

  lemma MoreWords(s: Sections, f: seq<Word>, i: nat)
    requires i == |s.p + (s.ha + s.hb + s.hc)| + |s.ra| + |s.lw|
    ensures InsertAt(Pieced(s), i, f) == Pieced(s.(vw := f + s.vw))
  {
    var h, z := s.p + (s.ha + s.hb + s.hc), s.vw + s.rc;
    var x := h + s.ra + s.lw;
    Regions3(h, s.ra, s.lw, s.vw, s.rc);
    Regions3(h, s.ra, s.lw, f + s.vw, s.rc);
    assert (x + z)[..i] == x && (x + z)[i..] == z;
    Grouped(f, s.vw, s.rc);
    Grouped(x, f, z);
  }

  lemma HeadersBehind(s: Sections)
    ensures Pieced(s) == (s.p + s.ha + s.hb) + s.hc + (s.ra + (s.lw + s.vw) + s.rc)
  {
    HeadersGrouped(s.p, s.ha, s.hb, s.hc);
  }

  lemma HeadersGrouped(p: seq<Word>, a: seq<Word>, b: seq<Word>, c: seq<Word>)
    ensures p + (a + b + c) == (p + a + b) + c
  {
    Grouped(p, a + b, c);
    Grouped(p, a, b);
  }

  lemma OtherValues(data: seq<Word>, data': seq<Word>, len: nat, s: Sections, i: nat)
    requires |data| == |data'| && len <= |data| && data[..len] == Pieced(s)
    requires i == |s.p + (s.ha + s.hb + s.hc)| + |s.ra| + |s.lw|
    requires data'[..i] == data[..i] && data'[i + |s.vw|..] == data[i + |s.vw|..]
    ensures i + |s.vw| <= len && data'[..len] == Pieced(s.(vw := data'[i..i + |s.vw|]))
  {
    var h, e := s.p + (s.ha + s.hb + s.hc), i + |s.vw|;
    Regions3(h, s.ra, s.lw, s.vw, s.rc);
    OtherMiddle(data, data', len, h + s.ra + s.lw, s.vw, s.rc);
    Regions3(h, s.ra, s.lw, data'[i..e], s.rc);
  }

  /** Only the words in the middle are others. */
  lemma OtherMiddle(data: seq<Word>, data': seq<Word>, len: nat, x: seq<Word>, v: seq<Word>, y: seq<Word>)
    requires |data| == |data'| && len <= |data| && data[..len] == x + v + y
    requires data'[..|x|] == data[..|x|] && data'[|x| + |v|..] == data[|x| + |v|..]
    ensures |x| + |v| <= len && data'[..len] == x + data'[|x|..|x| + |v|] + y
  {
    var i, e := |x|, |x| + |v|;
    assert data[..i] == data[..len][..i] == x;
    assert data[e..len] == data[..len][e..] == y;
    assert data'[e..len] == data'[e..][..len - e] == data[e..][..len - e];
    assert data'[..len] == data'[..i] + data'[i..e] + data'[e..len];
  }

  /** The width and the type of a block, written into its header. */
  method SetWidth(buf: Buffer, k: nat, nbit: nat, datyp: nat, ghost h: Header, ghost off: nat, ghost s: Sections)
    requires buf.Len() <= buf.data.Length && buf.Rec() == Pieced(s) && s.hb == HeaderWords(h, off)
    requires InRange(h) && off < 0x10_0000 && 1 <= nbit <= 32 && datyp < 0x10 && |s.p + s.ha| == DATA_INDEX + DIMENT * k
    modifies buf.data
    ensures buf.Rec() == Pieced(s.(hb := HeaderWords(h.(nbit := nbit - 1, datyp := datyp), off)))
  {
    hide Pieced, HeaderWords, WithWidth, WithDatyp;
    NewHeader(s, h, off, nbit - 1, datyp);
    var at := DATA_INDEX + DIMENT * k;
    ghost var rec := buf.Rec();
    assert buf.data[at] == rec[at] && buf.data[at + 1] == rec[at + 1];
    buf.data[at + 1] := WithDatyp(buf.data[at + 1], datyp);
    buf.data[at] := WithWidth(buf.data[at], nbit - 1);
    assert buf.Rec() == rec[at := WithWidth(rec[at], nbit - 1)][at + 1 := WithDatyp(rec[at + 1], datyp)];
  }

  /** Words spliced in before the values of a block, and the blocks behind moved by as many units. */
  method Widen(buf: Buffer, k: nat, n: nat, valpos: nat, units: nat, tblval: seq<Word>, ghost c: seq<Block>,
      ghost o1: nat, ghost s: Sections)
    returns (err: int)
    requires buf.Shape() && buf.Safe(buf.Len(), 2 * units, buf.Len() + 2 * units + 1) && 2 * units <= |tblval|
      && valpos % 64 == 0
    requires buf.Rec() == Pieced(s) && s.hc == Headers(c, o1)
    requires |s.p| == DATA_INDEX && |s.hb| == DIMENT && |s.ha| == DIMENT * k && n == k + 1 + |c|
    requires DATA_INDEX + valpos / 32 == |s.p + (s.ha + s.hb + s.hc)| + |s.ra| + |s.lw|
    requires HeadersInRange(c) && o1 + Offset(c) < 0x10_0000
    modifies buf`nbits, buf.data
    ensures err == if |old(buf.Rec())| + 2 * units - 1 <= buf.nwords then 0 else ERR_BAD_DIM
    ensures buf.Shape() && buf.Len() == if err == 0 then old(buf.Len()) + 2 * units else old(buf.Len())
    ensures err == 0 && o1 + units + Offset(c) < 0x10_0000 ==>
      buf.Rec() == Pieced(s.(hc := Headers(c, o1 + units), vw := tblval[..2 * units] + s.vw))
  {
    hide Pieced, Headers, Offset, HeadersInRange, Words64, InsertAt;
    ghost var s' := s;
    EvenWords(units);
    PiecedLength(s);
    err := buf.Ins(tblval, valpos, 2 * units);
    if err == 0 {
      MoreWords(s, tblval[..2 * units], DATA_INDEX + valpos / 32);
      s' := s.(vw := tblval[..2 * units] + s.vw);
    }
    HeadersBehind(s');
    ShiftOffsets(buf, k + 1, n, units, c, o1, o1 + units, s.p + s.ha + s.hb, s'.ra + (s'.lw + s'.vw) + s'.rc);
    HeadersBehind(s'.(hc := Headers(c, o1 + units)));
  }

  lemma EvenWords(units: nat)
    ensures Words64(2 * units, 32) == 2 * units
  {
  }

  /** The width c_mrbrep chooses: never less than the one the block has. */
  function NewWidth(b: Block, tblval: seq<Word>): Choice {
    if |tblval| >= 1 && |tblval| >= Count(b.h) then Width(Seen(tblval, Count(b.h)), b.h.nbit + 1, b.h.datyp)
      else Choice(0, 0, 0)
  }

  /** The block with other values, of the width they call for. */
  function WithValues(b: Block, tblval: seq<Word>): Block {
    var c, n := NewWidth(b, tblval), Count(b.h);
    Block(b.h.(nbit := if c.nbits >= 1 then c.nbits - 1 else 0, datyp := c.datyp), b.tail,
      tblval[..if n <= |tblval| then n else 0])
  }

  /** diff_nmots: the units by which the values grow. */
  function ExtraUnits(n: nat, nbit: nat, newNbit: nat): int {
    (newNbit * n + 63) / 64 - (nbit * n + 63) / 64
  }

  lemma ExtraUnitsBound(n: nat, nbit: nat, newNbit: nat)
    requires 1 <= nbit <= newNbit <= 32
    ensures 0 <= 2 * ExtraUnits(n, nbit, newNbit) <= n
    ensures Words64(n, newNbit) == Words64(n, nbit) + 2 * ExtraUnits(n, nbit, newNbit)
  {
    hide Words64;
    TimesOrdered(n, 1, nbit);
    TimesOrdered(n, nbit, newNbit);
    TimesOrdered(n, newNbit, 32);
    Words64Is(n, nbit);
    Words64Is(n, newNbit);
    ExtraUnitsFrom(n, nbit * n, newNbit * n);
  }

  lemma Words64Is(n: nat, width: nat)
    ensures Words64(n, width) == 2 * ((width * n + 63) / 64)
  {
  }

  lemma TimesOrdered(n: nat, a: nat, b: nat)
    requires a <= b
    ensures a * n <= b * n
  {
    assert b * n - a * n == (b - a) * n >= 0;
  }

  lemma ExtraUnitsFrom(n: nat, small: nat, large: nat)
    requires n <= small <= large <= 32 * n
    ensures 0 <= 2 * ((large + 63) / 64 - (small + 63) / 64) <= n
  {
  }

  lemma NewValuesShaped(b: Block, tblval: seq<Word>)
    requires Shaped(b) && |tblval| >= 1 && |tblval| >= Count(b.h)
    requires forall k :: 0 <= k < |tblval| ==> tblval[k] != 0x8000_0000
    ensures var c, b' := NewWidth(b, tblval), WithValues(b, tblval);
      && (c.err == 0 || c.err == BURP_ERR_CMPR)
      && (c.err == 0 ==>
          b.h.nbit + 1 <= c.nbits <= 32 && (c.datyp == 2 || c.datyp == 4) && Shaped(b') && b'.h.nbit + 1 == c.nbits)
      && (c.err == 0 ==> |b'.vals| == |b.vals| && ListWords(b') == ListWords(b))
      && (c.err == 0 ==> var extra := ExtraUnits(Count(b.h), b.h.nbit + 1, c.nbits);
        0 <= 2 * extra <= Count(b.h) <= |tblval| && ValueWords(b') == ValueWords(b) + 2 * extra
          && Units(b') == Units(b) + extra)
  {
    hide Suits, Count, Width, TailCount, ExtraUnits, Words64, Seen;
    var n, c, b' := Count(b.h), NewWidth(b, tblval), WithValues(b, tblval);
    SeenFrom(tblval, n);
    WidthSuits(Seen(tblval, n), b.h.nbit + 1, b.h.datyp);
    SuitsNothing(c.nbits, c.datyp);
    if c.err == 0 {
      ExtraUnitsBound(n, b.h.nbit + 1, c.nbits);
      SameCounts(b, b');
      WholeUnits(b);
      WholeUnits(b');
      assert n == 0 ==> b'.vals == [];
    }
  }

  lemma SeenFrom(tblval: seq<Word>, n: nat)
    requires n <= |tblval| && |tblval| > 0
    ensures n > 0 ==> Seen(tblval, n) == tblval[..n]
    ensures forall k :: 0 <= k < |Seen(tblval, n)| ==> Seen(tblval, n)[k] in tblval
  {
  }

  lemma SameCounts(b: Block, b': Block)
    requires b'.h == b.h.(nbit := b'.h.nbit, datyp := b'.h.datyp)
    ensures Count(b'.h) == Count(b.h) && TailCount(b'.h) == TailCount(b.h)
  {
  }

  /** The record of a report with another block in the place of block k. */
  lemma ReplacedAt(rec: seq<Word>, prefix: seq<Word>, bs: seq<Block>, rs: seq<seq<Word>>, k: nat, b': Block,
      v: seq<Word>, rec': seq<Word>)
    requires Represents(rec, prefix, bs, rs) && k < |bs| == |rs| && ListWords(bs[k]) <= |rs[k]|
    requires Shaped(b') && RegionOf(rs[k][..ListWords(bs[k])] + v, b')
      && rec' == Pieced(NewSections(prefix, bs, rs, k, b', v))
    ensures Represents(rec', prefix, bs[k := b'], rs[k := rs[k][..ListWords(bs[k])] + v])
  {
    hide AllGood, Headers, Concat, Offset, Shaped, RegionOf, HeaderWords, Units, ListWords;
    var lw, vw := rs[k][..ListWords(bs[k])], v;
    var a, c, ra, rc, off := bs[..k], bs[k + 1..], rs[..k], rs[k + 1..], Offset(bs[..k]);
    Pieces(rec, prefix, bs, rs, k);
    assert bs[k := b'] == a + [b'] + c && rs[k := lw + vw] == ra + [lw + vw] + rc;
    AllGoodSplit(a, b', c, ra, lw + vw, rc);
    HeadersSplit(a + [b'], c, 0);
    HeadersSplit(a, [b'], 0);
    OneHeader(b', off);
    OffsetSplit(a, [b']);
    ConcatSplit(ra + [lw + vw], rc);
    ConcatSplit(ra, [lw + vw]);
    OneRegion(lw + vw);
  }

  lemma OffsetReplaced(bs: seq<Block>, k: nat, b': Block)
    requires k < |bs|
    ensures Offset(bs[k := b']) == Offset(bs) - Units(bs[k]) + Units(b')
  {
    hide Offset, Units;
    var a, c := bs[..k], bs[k + 1..];
    Parts(bs, k);
    assert bs[k := b'] == a + [b'] + c;
    OffsetSplit(a + [b'], c);
    OffsetSplit(a, [b']);
    OffsetSplit(a + [bs[k]], c);
    OffsetSplit(a, [bs[k]]);
    OneHeader(b', 0);
    OneHeader(bs[k], 0);
  }

  /** The record is not that of a report of these blocks, whatever their words. */
  ghost predicate NoReport(rec: seq<Word>, prefix: seq<Word>, bs: seq<Block>) {
    forall rs :: !Represents(rec, prefix, bs, rs)
  }

  /** The record of a report whose block k has become b', the words v standing where its values go. */
  ghost predicate Respaced(rec: seq<Word>, prefix: seq<Word>, bs: seq<Block>, rs: seq<seq<Word>>, k: nat, b': Block,
      v: seq<Word>) {
    && k < |bs| == |rs| && ListWords(bs[k]) <= |rs[k]|
    && rec == Pieced(NewSections(prefix, bs, rs, k, b', v))
  }

  lemma NoExtra(n: nat, nbit: nat)
    ensures ExtraUnits(n, nbit, nbit) == 0
  {
  }

  lemma WithValuesIs(b: Block, tblval: seq<Word>, nbit: nat, datyp: nat)
    requires |tblval| >= Count(b.h) && NewWidth(b, tblval) == Choice(0, nbit, datyp) && nbit >= 1
    ensures WithValues(b, tblval) == Block(b.h.(nbit := nbit - 1, datyp := datyp), b.tail, tblval[..Count(b.h)])
  {
    hide Count, NewWidth;
  }

  /** Only values, width and type of the block are others, and the width is the least that suits the values. */
  lemma NewBlockIs(b: Block, tblval: seq<Word>)
    requires Shaped(b) && |tblval| >= 1 && |tblval| >= Count(b.h) && NewWidth(b, tblval).err == 0
    requires forall k :: 0 <= k < |tblval| ==> tblval[k] != 0x8000_0000
    ensures var b' := WithValues(b, tblval);
      && b' == Block(b.h.(nbit := b'.h.nbit, datyp := b'.h.datyp), b.tail, tblval[..Count(b.h)])
      && (b'.vals != [] ==>
        BestWidth(b'.vals, b.h.nbit + 1, b.h.datyp, Choice(0, b'.h.nbit + 1, b'.h.datyp)))
  {
    hide Width, Count, BestWidth, Suits;
    WidthSuits(Seen(tblval, Count(b.h)), b.h.nbit + 1, b.h.datyp);
    WidthIsBest(Seen(tblval, Count(b.h)), b.h.nbit + 1, b.h.datyp);
  }

  lemma RespacedEnd(rec: seq<Word>, rec': seq<Word>, prefix: seq<Word>, bs: seq<Block>, rs: seq<seq<Word>>, k: nat,
      b': Block, v: seq<Word>, i: nat)
    requires Represents(rec, prefix, bs, rs) && Respaced(rec', prefix, bs, rs, k, b', v)
    requires i == DATA_INDEX + DIMENT * |bs| + 2 * Offset(bs[..k]) + ListWords(bs[k])
    ensures i + |v| <= |rec'| && |rs| == |bs| && ListWords(bs[k]) <= |rs[k]|
  {
    hide Represents, Offset, Headers, Concat, HeaderWords, Units, ListWords, Pieced, Holds, HeadersInRange, Shaped;
    PiecedOf(rec, prefix, bs, rs, k);
    PiecedLength(NewSections(prefix, bs, rs, k, b', v));
  }

  /** The new values packed where the report has room for them. */
  lemma ValuesPlaced(rec: seq<Word>, data: seq<Word>, data': seq<Word>, len: nat, prefix: seq<Word>, bs: seq<Block>,
      rs: seq<seq<Word>>, k: nat, b': Block, v: seq<Word>, i: nat)
    requires Represents(rec, prefix, bs, rs) && |data| == |data'| && len <= |data|
      && Respaced(data[..len], prefix, bs, rs, k, b', v)
    requires Shaped(b') && b'.tail == bs[k].tail && |v| == ValueWords(b')
      && i == DATA_INDEX + DIMENT * |bs| + 2 * Offset(bs[..k]) + ListWords(bs[k])
    requires i + |v| <= |data| && data'[..i] == data[..i] && data'[i + |v|..] == data[i + |v|..] && b'.h.nbit < 32
    requires Holds(data'[i..i + |v|], b'.vals, b'.h.nbit + 1, b'.h.datyp == 4)
    ensures Represents(data'[..len], prefix, bs[k := b'], rs[k := rs[k][..ListWords(bs[k])] + data'[i..i + |v|]])
  {
    hide Represents, Offset, Headers, Concat, HeaderWords, Shaped, Units, Holds, ListWords, ValueWords, HeadersInRange,
      Pieced;
    PiecedOf(rec, prefix, bs, rs, k);
    var lw, vw := rs[k][..ListWords(bs[k])], data'[i..i + |v|];
    OtherValues(data, data', len, NewSections(prefix, bs, rs, k, b', v), i);
    SameList(bs[k], b');
    assert (lw + vw)[..|lw|] == lw && (lw + vw)[|lw|..] == vw;
    assert RegionOf(lw + vw, b');
    ReplacedAt(rec, prefix, bs, rs, k, b', vw, data'[..len]);
  }

  lemma SameList(b: Block, b': Block)
    requires b.tail == b'.tail
    ensures ListWords(b) == ListWords(b')
  {
  }

  /** A record that has not grown with its blocks is the record of no such report. */
  lemma TooShort(rec: seq<Word>, prefix: seq<Word>, bs: seq<Block>)
    requires |rec| != DATA_INDEX + DIMENT * |bs| + 2 * Offset(bs)
    ensures NoReport(rec, prefix, bs)
  {
    hide Represents, Offset;
    forall rs | Represents(rec, prefix, bs, rs)
      ensures false
    {
      RecordLength(rec, prefix, bs, rs);
    }
  }

  lemma NoOffset(bs: seq<Block>)
    requires bs == []
    ensures Offset(bs) == 0
  {
  }

  lemma ValuesPlaceIs(bs: seq<Block>, k: nat)
    requires k < |bs|
    ensures ValuesPlace(bs, k) == DATA_INDEX + DIMENT * |bs| + 2 * Offset(bs[..k]) + ListWords(bs[k])
  {
  }

  lemma NewWidthIs(b: Block, entete: Header, tblval: seq<Word>)
    requires Shaped(b) && |tblval| >= 1 && |tblval| >= Count(b.h) && entete == b.h.(bit0 := entete.bit0)
    ensures 1 <= entete.nbit + 1 <= 32 && (entete.datyp == 2 || entete.datyp == 4) && Count(entete) == Count(b.h)
      && TailCount(entete) == TailCount(b.h)
    ensures NewWidth(b, tblval) == Width(Seen(tblval, Count(entete)), entete.nbit + 1, entete.datyp)
  {
    hide Width, Seen, Suits;
  }

  /** The words at a bit position of the buffer hold the values. */
  ghost predicate HoldsAt(rec: seq<Word>, bitpos: nat, vs: seq<Word>, width: nat, signed: bool) {
    && 1 <= width <= 32 && bitpos % 64 == 0
    && var i, n := DATA_INDEX + bitpos / 32, Words64(|vs|, width);
    i + n <= |rec| && Holds(rec[i..i + n], vs, width, signed)
  }

  /** The words at two bit positions of the buffer hold the elements behind the header and the values of a block. */
  ghost predicate AtPositions(rec: seq<Word>, b: Block, bitpos: nat, valpos: nat) {
    && Shaped(b)
    && HoldsAt(rec, bitpos, b.tail, 16, false)
    && HoldsAt(rec, valpos, b.vals, b.h.nbit + 1, b.h.datyp == 4)
  }

  lemma PositionsOf(rec: seq<Word>, at: nat, ws: seq<Word>, b: Block, bitpos: nat, valpos: nat)
    requires Shaped(b) && RegionOf(ws, b) && at + |ws| <= |rec| && rec[at..at + |ws|] == ws
    requires bitpos % 64 == 0 && at == DATA_INDEX + bitpos / 32 && valpos == bitpos + 32 * Words64(TailCount(b.h), 16)
    ensures AtPositions(rec, b, bitpos, valpos)
  {
    hide Holds, Suits, Words64, RegionOf, Count, TailCount, ListWords, ValueWords, HoldsAt, Shaped;
    ShapedCounts(b);
    RegionWords(ws, b);
    RegionParts(rec, at, ws, b);
    Words64Covers(|b.tail|, 16);
    ValuesBehind(at, bitpos, valpos, Words64(|b.tail|, 16));
    HoldsThere(rec, at, bitpos, b.tail, 16, false);
    WidthOfHeader(b);
    HoldsThere(rec, at + ListWords(b), valpos, b.vals, b.h.nbit + 1, b.h.datyp == 4);
  }

  lemma ValuesBehind(at: nat, bitpos: nat, valpos: nat, n: nat)
    requires bitpos % 64 == 0 && at == DATA_INDEX + bitpos / 32 && valpos == bitpos + 32 * n && n % 2 == 0
    ensures valpos % 64 == 0 && at + n == DATA_INDEX + valpos / 32
  {
  }

  lemma WidthOfHeader(b: Block)
    requires Shaped(b)
    ensures 1 <= b.h.nbit + 1 <= 32
  {
  }

  lemma HoldsThere(rec: seq<Word>, at: nat, bitpos: nat, vs: seq<Word>, width: nat, signed: bool)
    requires 1 <= width <= 32 && bitpos % 64 == 0 && at == DATA_INDEX + bitpos / 32
    requires at + Words64(|vs|, width) <= |rec| && Holds(rec[at..at + Words64(|vs|, width)], vs, width, signed)
    ensures HoldsAt(rec, bitpos, vs, width, signed)
  {
    hide Holds, Words64;
  }

  lemma InPrefix<T>(s: seq<T>, len: nat, i: nat, n: nat)
    requires i + n <= len <= |s|
    ensures s[..len][i..i + n] == s[i..i + n]
  {
  }

  /** The word at which the values of block k start. */
  ghost function ValuesPlace(bs: seq<Block>, k: nat): nat
    requires k < |bs|
  {
    DATA_INDEX + DIMENT * |bs| + 2 * Offset(bs[..k]) + ListWords(bs[k])
  }

  /** The words from i on hold the values of a block. */
  ghost predicate OverwrittenAt(data: seq<Word>, i: nat, b: Block) {
    && i + ValueWords(b) <= |data| && b.h.nbit < 32
    && Holds(data[i..i + ValueWords(b)], b.vals, b.h.nbit + 1, b.h.datyp == 4)
  }

  class Report {
    const buf: Buffer
    ghost const prefix: seq<Word>
    ghost var blocks: seq<Block>
    ghost var regions: seq<seq<Word>>

    ghost predicate Valid()
      reads this, buf, buf.data
    {
      && buf.Shape() && buf.data.Length <= LARGEST && buf.Len() <= buf.nwords + 1
      && buf.buf8 == |blocks| && buf.buf9 == NBENTB * |blocks|
      && Represents(buf.Rec(), prefix, blocks, regions)
    }

    /** A report without blocks, as c_mrbini leaves it. */
    constructor (buf: Buffer)
      requires buf.Shape() && buf.nbits == 32 * DATA_INDEX && buf.buf8 == 0 && buf.buf9 == 0
        && buf.data.Length <= LARGEST && DATA_INDEX <= buf.nwords + 1
      ensures Valid() && blocks == [] && this.buf == buf
    {
      this.buf := buf;
      prefix, blocks, regions := buf.data[..DATA_INDEX], [], [];
    }

    /** Where block k is in the buffer; its offset fits the 20 bits of bit0. */
    lemma Place(k: nat)
      requires Valid() && k < |blocks|
      ensures Shaped(blocks[k]) && |regions| == |blocks| && RegionOf(regions[k], blocks[k])
      ensures var off := Offset(blocks[..k]); var at := DATA_INDEX + DIMENT * |blocks| + 2 * off;
        && off < 0x10_0000 && off + Units(blocks[k]) <= Offset(blocks)
        && at + 2 * Units(blocks[k]) <= buf.Len() <= buf.data.Length
        && |regions[k]| == 2 * Units(blocks[k])
        && buf.data[DATA_INDEX + DIMENT * k..DATA_INDEX + DIMENT * k + DIMENT] == HeaderWords(blocks[k].h, off)
        && buf.data[..][at..at + |regions[k]|] == regions[k]
      ensures buf.Len() == DATA_INDEX + DIMENT * |blocks| + 2 * Offset(blocks)
    {
      hide Represents, Offset, RegionOf, Shaped, Units, HeaderWords;
      var rec := buf.Rec();
      RecordLength(rec, prefix, blocks, regions);
      Locate(rec, prefix, blocks, regions, k);
      var at := DATA_INDEX + DIMENT * |blocks| + 2 * Offset(blocks[..k]);
      InPrefix(buf.data[..], buf.Len(), DATA_INDEX + DIMENT * k, DIMENT);
      InPrefix(buf.data[..], buf.Len(), at, |regions[k]|);
      assert rec == buf.data[..][..buf.Len()];
      assert buf.data[..][DATA_INDEX + DIMENT * k..DATA_INDEX + DIMENT * k + DIMENT]
        == buf.data[DATA_INDEX + DIMENT * k..DATA_INDEX + DIMENT * k + DIMENT];
    }

    lemma Counts()
      requires Valid()
      ensures buf.buf8 == |blocks| && buf.buf9 == NBENTB * |blocks|
    {
    }

    /** The length of the record, and the offset of the next block. */
    lemma Extent()
      requires Valid()
      ensures buf.Shape() && buf.Len() == DATA_INDEX + DIMENT * |blocks| + 2 * Offset(blocks)
        && Offset(blocks) < 0x10_0000
      ensures (buf.nbits - 32 * DATA_INDEX - buf.buf9) / 64 == Offset(blocks)
      ensures Represents(buf.Rec(), prefix, blocks, regions) && |buf.Rec()| == buf.Len() && buf.data.Length <= LARGEST
        && buf.Len() <= buf.nwords + 1
    {
      hide Offset, Represents;
      RecordLength(buf.Rec(), prefix, blocks, regions);
    }

    /** Words left behind a record that no block accounts for: it is a report no more, unless there are none. */
    lemma Gap(rec: seq<Word>, extra: nat)
      requires Represents(rec, prefix, blocks, regions) && buf.Shape() && buf.data.Length <= LARGEST
      requires buf.buf8 == |blocks| && buf.buf9 == NBENTB * |blocks| && |rec| <= buf.nwords + 1
      requires buf.Len() == |rec| + extra && (extra == 0 ==> buf.data[..|rec|] == rec)
      ensures Valid() <==> extra == 0
    {
      hide Represents, Offset;
      RecordLength(rec, prefix, blocks, regions);
      if Valid() { RecordLength(buf.Rec(), prefix, blocks, regions); }
    }

    lemma HeaderPlace(k: nat)
      requires Valid() && k < |blocks|
      ensures InRange(blocks[k].h) && Offset(blocks[..k]) < 0x10_0000
      ensures DATA_INDEX + DIMENT * k + DIMENT <= buf.data.Length
      ensures buf.data[DATA_INDEX + DIMENT * k..DATA_INDEX + DIMENT * k + DIMENT]
        == HeaderWords(blocks[k].h, Offset(blocks[..k]))
    {
      hide Valid, Offset, RegionOf, HeaderWords, Units, Suits, ListWords, ValueWords, Count, TailCount;
      Place(k);
    }

    /** The header of block k, as c_xdfxtr reads it. */
    method ReadHeader(k: nat) returns (entete: Header)
      requires Valid() && k < |blocks|
      ensures entete == blocks[k].h.(bit0 := Offset(blocks[..k])) && InRange(entete)
    {
      hide Valid, Offset, FromWords, HeaderWords, InRange, Words64;
      HeaderPlace(k);
      HeaderSize();
      HeaderBack(blocks[k].h, Offset(blocks[..k]));
      HeaderPosition(k);
      var err, words := buf.Xtr(NBENTB * k, DIMENT);
      entete := FromWords(words);
    }

    /** c_mrbprm: the description of a block; bfam with its two halves exchanged. */
    method MrbPrm(bkno: nat) returns (nele: nat, nval: nat, nt: nat, bfam: nat, btyp: nat, nbit: nat, bit0: nat,
        datyp: nat)
      requires Valid() && 1 <= bkno <= |blocks|
      ensures var h := blocks[bkno - 1].h;
        && nele == Nele(h) && nval == Nval(h) && nt == Nt(h) && bfam == Swapped(h.bfamdesc) && btyp == h.btyp
        && nbit == h.nbit + 1 && datyp == h.datyp && bit0 == Offset(blocks[..bkno - 1])
    {
      hide Valid, Offset;
      var header := ReadHeader(bkno - 1);
      nele, nval, nt := header.nele, header.nval, header.nt;
      if header.flag != 0 { nele, nval, nt := header.elem1, header.elem2, header.elem3; }
      bfam, btyp, nbit, bit0, datyp := Swapped(header.bfamdesc), header.btyp, header.nbit + 1, header.bit0,
        header.datyp;
    }

    /** The list of elements and the values of block k, at the bit positions extraction computes. */
    lemma Contents(k: nat, bitpos: nat, valpos: nat)
      requires Valid() && k < |blocks|
      requires bitpos == Offset(blocks[..k]) * 64 + buf.buf9
      requires valpos == bitpos + 32 * Words64(TailCount(blocks[k].h), 16)
      ensures AtPositions(buf.data[..], blocks[k], bitpos, valpos)
    {
      hide Offset, Valid, Words64, Units, RegionOf, AtPositions, Shaped, HeaderWords, TailCount, Count, ListWords,
        ValueWords;
      Counts();
      Place(k);
      BitPosition(Offset(blocks[..k]), buf.buf8, 0);
      PositionsOf(buf.data[..], DATA_INDEX + DIMENT * |blocks| + 2 * Offset(blocks[..k]), regions[k], blocks[k],
        bitpos, valpos);
    }

    /** c_mrbxtr: the elements and the values of a block. */
    method MrbXtr(bkno: int, lstele: array<Word>, tblval: array<Word>) returns (err: int)
      requires Valid() && lstele != buf.data && tblval != buf.data && lstele != tblval
      requires 1 <= bkno <= |blocks| ==>
        lstele.Length >= Nele(blocks[bkno - 1].h) && tblval.Length >= Count(blocks[bkno - 1].h)
      modifies lstele, tblval
      ensures err == if 1 <= bkno <= |blocks| then 0 else BURP_ERR_BNUM
      ensures err != 0 ==> lstele[..] == old(lstele[..]) && tblval[..] == old(tblval[..])
      ensures err == 0 ==> var b := blocks[bkno - 1];
        && InRange(b.h)
        && lstele[..Nele(b.h)] == Elements(b) && lstele[Nele(b.h)..] == old(lstele[Nele(b.h)..])
        && tblval[..Count(b.h)] == b.vals && tblval[Count(b.h)..] == old(tblval[Count(b.h)..])
    {
      hide Offset, Suits, Valid, AtPositions, Elements, ListWords, ValueWords, Words64, InRange;
      Counts();
      if bkno < 1 || bkno > buf.buf8 { return BURP_ERR_BNUM; }
      ghost var b, rec := blocks[bkno - 1], buf.data[..];
      var entete := ReadHeader(bkno - 1);
      var bitpos := entete.bit0 * 64 + buf.buf9;
      var valpos := bitpos + 32 * Words64(TailCount(entete), 16);
      Contents(bkno - 1, bitpos, valpos);
      ghost var before := lstele[..];
      var done := HeadElements(lstele, entete);
      ghost var mid := lstele[..];
      ElementsJoined(b, rec, bitpos, valpos, done);
      ExtractTail(buf, rec, bitpos, lstele, done, TailCount(entete), b, valpos);
      ListRead(lstele[..], mid, before, done, [entete.elem1, entete.elem2, entete.elem3][..done], b.tail);
      ExtractValues(buf, rec, valpos, tblval, Count(entete), entete.nbit + 1, entete.datyp, b, bitpos);
      return 0;
    }

    /** The words a new block takes: its list of elements, its header, its values. */
    ghost predicate FitsBehind(listWords: nat, valueWords: nat)
      reads buf
    {
      buf.Len() + listWords + DIMENT + valueWords - 1 <= buf.nwords
    }

    /**
      Where the words end that are written when a block is added: n values of `width` bits, and elements behind its
      header.
     */
    ghost function AddReach(elements: nat, n: nat, width: nat): nat
      reads buf
    {
      Reach(buf.Len(), DATA_INDEX + buf.buf9 / 32, elements, n, width, buf.nwords)
    }

    /** Adding a block writes no word behind the array, and the record ends in the array. */
    ghost predicate StaysInside(elements: nat, n: nat, width: nat)
      reads buf
    {
      var behind := buf.Len() + Words64(elements, 16);
      && AddReach(elements, n, width) <= buf.data.Length && behind <= buf.data.Length
      && buf.Safe(behind + DIMENT, Words64(n, width), behind + DIMENT + Words64(n, width))
    }

    /** c_mrblen: the bits used and the bits left. */
    method MrbLen() returns (lbits: nat, left: int)
      ensures lbits == buf.nbits && left == 32 * (buf.nwords - HEADER_WORDS) - buf.nbits
    {
      lbits := buf.nbits;
      left := (buf.nwords - HEADER_WORDS) * 32 - lbits;
    }

    /**
      In a buffer of nwords words, nine of them before the data, a block of at most the words that c_mrblen has left is
      added inside the array, unless it has no values and its header alone, with words behind it to be moved, takes all
      that is left. A word behind the array is written exactly when the list takes all that is left; when the words up
      to the header are more than are left, or as many with words to be moved, but the check lets them through; or when
      the words of the values go beyond what is left, and the check lets them through.
     */
    lemma LeftOver(elements: nat, n: nat, width: nat)
      requires buf.Shape() && buf.data.Length + HEADER_WORDS == buf.nwords
      ensures var free, list := buf.data.Length - buf.Len(), Words64(elements, 16);
        var head, all, packed := list + DIMENT, list + DIMENT + Words64(n, width),
          list + DIMENT + PackedLength(n, width);
        var moves := buf.Len() + list != DATA_INDEX + buf.buf9 / 32;
        && 32 * free == 32 * (buf.nwords - HEADER_WORDS) - buf.nbits
        && (all <= free && (head < free || !moves) ==>
          StaysInside(elements, n, width) && FitsBehind(list, Words64(n, width)))
        && (AddReach(elements, n, width) > buf.data.Length <==>
          || elements / 2 >= free
          || (head <= free + 10 && (head > free || (head == free && moves)))
          || (all <= free + 10 && packed > free))
    {
      Words64Covers(n, width);
      ListSize(elements);
    }

    /** The block's list, values and header are cut, and the counts go down; gives its offset. */
    method CutOut(k: nat) returns (prebit: nat)
      requires Valid() && k < |blocks| && buf.Len() < buf.data.Length
      modifies buf, buf.data
      ensures buf.Shape() && buf.Len() <= buf.nwords + 1 && prebit == Offset(blocks[..k]) && Offset(blocks) < 0x10_0000
        && DATA_INDEX + DIMENT * |blocks| <= buf.data.Length
      ensures buf.buf8 == |blocks| - 1 && buf.buf9 == NBENTB * (|blocks| - 1)
      ensures Without(buf.Rec(), prefix, blocks, regions, k, prebit + Units(blocks[k]))
      ensures HeadersInRange(blocks[k + 1..]) && prebit + Units(blocks[k]) + Offset(blocks[k + 1..]) == Offset(blocks)
    {
      hide Valid, Offset, Represents, Units, Words64, HeadersInRange, Count, TailCount, BlockCut, Without, InRange,
        Headers, Concat, HeaderWords, AllGood;
      Counts();
      Extent();
      ghost var rec := buf.Rec();
      var entete := ReadHeader(k);
      prebit := entete.bit0;
      BlockTaken(rec, prefix, blocks, regions, k, entete);
      BitPosition(prebit, buf.buf8, 0);
      BitPosition(0, k, 0);
      CutBlock(buf, prebit * 64 + buf.buf9, TailCount(entete), Count(entete), entete.nbit + 1, NBENTB * k);
      buf.buf8 := buf.buf8 - 1;
      buf.buf9 := buf.buf9 - NBENTB;
    }

    /** c_mrbdel: the report is the one without the block. The word behind the record is written, too. */
    method MrbDel(number: int) returns (err: int)
      requires Valid() && (1 <= number <= |blocks| ==> buf.Len() < buf.data.Length)
      modifies this, buf, buf.data
      ensures err == if 1 <= number <= |old(blocks)| then 0 else BURP_ERR_BNUM
      ensures Valid()
      ensures err != 0 ==> blocks == old(blocks) && buf.data[..] == old(buf.data[..])
      ensures err == 0 ==> blocks == old(blocks)[..number - 1] + old(blocks)[number..]
    {
      hide Valid, Offset, Headers, Concat, Represents, Units, HeadersInRange;
      Counts();
      if number < 1 || number > buf.buf8 { return BURP_ERR_BNUM; }
      var k := number - 1;
      Extent();
      ghost var rec, bs, rs, o := buf.Rec(), blocks, regions, Offset(blocks[..k]) + Units(blocks[k]);
      var prebit := CutOut(k);
      Matching(rec, prefix, bs, rs);
      var difbit := buf.data[DATA_INDEX + DIMENT * k + 1] % 0x10_0000 - prebit;
      NextOffset(buf.Rec(), prefix, bs, rs, k, o);
      ShiftOffsets(buf, k, buf.buf8, -difbit, bs[k + 1..], o, prebit, prefix + Headers(bs[..k], 0),
        Concat(rs[..k]) + Concat(rs[k + 1..]));
      Deleted(rec, prefix, bs, rs, k, buf.Rec());
      blocks, regions := bs[..k] + bs[k + 1..], rs[..k] + rs[k + 1..];
      Restated();
      return 0;
    }

    /** The buffer can take the units by which the values of a block grow. */
    ghost predicate RoomFor(b: Block, tblval: seq<Word>)
      reads buf
    {
      var extra := ExtraUnits(Count(b.h), b.h.nbit + 1, NewWidth(b, tblval).nbits);
      extra == 0 || buf.Len() + 2 * extra - 1 <= buf.nwords
    }

    lemma RoomIs(b: Block, tblval: seq<Word>, rec: seq<Word>, nbit: nat)
      requires NewWidth(b, tblval).nbits == nbit && |rec| == buf.Len()
      ensures var extra := ExtraUnits(Count(b.h), b.h.nbit + 1, nbit);
        RoomFor(b, tblval) <==> extra == 0 || |rec| + 2 * extra - 1 <= buf.nwords
    {
      hide ExtraUnits, NewWidth;
    }

    /** c_xdfrep refuses the words at i, or writes them inside the array. */
    ghost predicate RepSafe(i: nat, nb: nat) {
      buf.Safe(i, nb, i + nb)
    }

    /** Replacing the values of block k does not leave the array, where the checks let words through. */
    ghost predicate RepStaysInside(k: nat, tblval: seq<Word>)
      requires k < |blocks|
      reads this, buf
    {
      var b, b' := blocks[k], WithValues(blocks[k], tblval);
      var extra := ExtraUnits(Count(b.h), b.h.nbit + 1, NewWidth(b, tblval).nbits);
      extra > 0 ==>
        && buf.Safe(buf.Len(), 2 * extra, buf.Len() + 2 * extra + 1)
        && (RoomFor(b, tblval) || RepSafe(ValuesPlace(blocks, k), ValueWords(b')))
    }

    /**
      c_mrbrep: the block has the new values and the others are as they were, unless the buffer cannot take wider
      values. Then the report is broken, and c_xdfrep alone decides on the error: there is none when the wider values
      end inside the buffer, where they overwrite blocks behind.
     */
    method MrbRep(blkno: int, tblval: seq<Word>) returns (err: int)
      requires Valid()
      requires 1 <= blkno <= |blocks| ==> |tblval| >= 1 && |tblval| >= Count(blocks[blkno - 1].h)
      requires 1 <= blkno <= |blocks| && NewWidth(blocks[blkno - 1], tblval).err == 0
        ==> RepStaysInside(blkno - 1, tblval)
      requires forall k :: 0 <= k < |tblval| ==> tblval[k] != 0x8000_0000
      modifies this, buf, buf.data
      ensures !(1 <= blkno <= |old(blocks)|) ==> err == BURP_ERR_BNUM && Valid() && blocks == old(blocks)
      ensures 1 <= blkno <= |old(blocks)| ==> var b := old(blocks)[blkno - 1];
        var c := NewWidth(b, tblval);
        && (c.err != 0 ==> err == c.err && Valid() && blocks == old(blocks))
        && (c.err == 0 && old(RoomFor(blocks[blkno - 1], tblval)) ==>
             err == 0 && Valid() && blocks == old(blocks)[blkno - 1 := WithValues(b, tblval)])
      ensures
        (1 <= blkno <= |old(blocks)| && NewWidth(old(blocks)[blkno - 1], tblval).err == 0
         && !old(RoomFor(blocks[blkno - 1], tblval))) ==>
        && blocks == old(blocks) && buf.Len() <= buf.data.Length
        && NoReport(buf.Rec(), prefix, blocks[blkno - 1 := WithValues(blocks[blkno - 1], tblval)])
        && var i, b' := ValuesPlace(blocks, blkno - 1), WithValues(blocks[blkno - 1], tblval);
        && err == (if i + ValueWords(b') - 1 > buf.nwords then ERR_BAD_DIM else 0)
        && (err == 0 ==> blkno < |blocks| && OverwrittenAt(buf.data[..], i, b'))
    {
      hide Valid, Offset, Represents, Units, Words64, Count, TailCount, InRange, WithValues, NewWidth, ExtraUnits,
        Shaped, Width, Seen, NoReport, Respaced,
        RoomFor, Holds, ListWords, ValueWords, OverwrittenAt, ValuesPlace, RepStaysInside;
      Counts();
      if blkno < 1 || blkno > buf.buf8 { return BURP_ERR_BNUM; }
      var k := blkno - 1;
      Extent();
      BlockIsShaped(k);
      ghost var rec, b := buf.Rec(), blocks[k];
      NewValuesShaped(b, tblval);
      var entete := ReadHeader(k);
      NewWidthIs(b, entete, tblval);
      ShapedCounts(b);
      SizesOf(b);
      var nombre, new_nbit, new_datyp := Count(entete), 0, 0;
      err, new_nbit, new_datyp := BurpNbitDatyp(entete.nbit + 1, entete.datyp, tblval, nombre);
      if err < 0 { return; }
      Words64Covers(TailCount(entete), 16);
      var valpos := entete.bit0 * 64 + buf.buf9 + 32 * Words64(TailCount(entete), 16);
      BitPosition(entete.bit0, buf.buf8, Words64(TailCount(entete), 16));
      ValuesPlaceIs(blocks, k);
      ghost var fits := RoomFor(b, tblval);
      RoomIs(b, tblval, rec, new_nbit);
      if !fits {
        SafeThere(k, tblval);
        LastBlockRefused(rec, k, tblval);
      }
      ghost var v := Respace(k, entete, new_nbit, new_datyp, valpos, tblval);
      err := PutValues(k, valpos, nombre, new_nbit, new_datyp, tblval, rec, v, fits);
    }

    lemma SafeThere(k: nat, tblval: seq<Word>)
      requires k < |blocks| && Shaped(blocks[k]) && |tblval| >= 1 && |tblval| >= Count(blocks[k].h)
      requires forall n :: 0 <= n < |tblval| ==> tblval[n] != 0x8000_0000
      requires RepStaysInside(k, tblval) && NewWidth(blocks[k], tblval).err == 0 && !RoomFor(blocks[k], tblval)
      ensures RepSafe(ValuesPlace(blocks, k), ValueWords(WithValues(blocks[k], tblval)))
    {
      hide Count, WithValues, NewWidth, ExtraUnits, ValueWords, ValuesPlace, Shaped, Units, ListWords;
      NewValuesShaped(blocks[k], tblval);
    }

    /** Values for which there is no room are refused by c_xdfrep too when no block is behind. */
    lemma LastBlockRefused(rec: seq<Word>, k: nat, tblval: seq<Word>)
      requires Represents(rec, prefix, blocks, regions) && k < |blocks| && |rec| == buf.Len()
      requires |tblval| >= 1 && |tblval| >= Count(blocks[k].h)
        && forall n :: 0 <= n < |tblval| ==> tblval[n] != 0x8000_0000
      requires NewWidth(blocks[k], tblval).err == 0 && !RoomFor(blocks[k], tblval)
      ensures ValuesPlace(blocks, k) + ValueWords(WithValues(blocks[k], tblval)) - 1 <= buf.nwords ==> k + 1 < |blocks|
    {
      hide Represents, Offset, Units, Count, NewWidth, ExtraUnits, WithValues, ListWords, ValueWords, Shaped, Pieced,
        Headers, HeaderWords, Concat, HeadersInRange, Holds;
      PiecedOf(rec, prefix, blocks, regions, k);
      RecordLength(rec, prefix, blocks, regions);
      NewValuesShaped(blocks[k], tblval);
      WholeUnits(blocks[k]);
      if k + 1 == |blocks| { NoOffset(blocks[k + 1..]); }
    }

    /** c_xdfrep where the values go: the report has the new block, or is none when the words did not fit. */
    method PutValues(k: nat, valpos: nat, nombre: nat, new_nbit: nat, new_datyp: nat, tblval: seq<Word>,
        ghost rec: seq<Word>, ghost v: seq<Word>, ghost fits: bool)
      returns (err: int)
      requires k < |blocks| && Represents(rec, prefix, blocks, regions) && Shaped(blocks[k]) && buf.buf8 == |blocks|
        && buf.buf9 == NBENTB * |blocks|
      requires buf.data.Length <= LARGEST && |rec| <= buf.Len() <= buf.nwords + 1 && valpos % 64 == 0
      requires |tblval| >= 1 && |tblval| >= Count(blocks[k].h) == nombre
        && forall n :: 0 <= n < |tblval| ==> tblval[n] != 0x8000_0000
      requires NewWidth(blocks[k], tblval) == Choice(0, new_nbit, new_datyp)
      requires DATA_INDEX + valpos / 32 == ValuesPlace(blocks, k) && buf.Shape()
      requires fits ==>
        |v| == ValueWords(WithValues(blocks[k], tblval))
        && Respaced(buf.Rec(), prefix, blocks, regions, k, WithValues(blocks[k], tblval), v)
      requires !fits ==> buf.Len() == |rec| && Units(WithValues(blocks[k], tblval)) != Units(blocks[k])
      requires !fits ==> RepSafe(ValuesPlace(blocks, k), ValueWords(WithValues(blocks[k], tblval)))
      modifies this, buf.data
      ensures fits ==> err == 0 && Valid() && blocks == old(blocks)[k := WithValues(old(blocks)[k], tblval)]
      ensures !fits ==> blocks == old(blocks) && NoReport(buf.Rec(), prefix, blocks[k := WithValues(blocks[k], tblval)])
      ensures !fits ==> var i, b' := ValuesPlace(blocks, k), WithValues(blocks[k], tblval);
        && err == (if i + ValueWords(b') - 1 > buf.nwords then ERR_BAD_DIM else 0)
        && (err == 0 ==> OverwrittenAt(buf.data[..], i, b'))
    {
      hide Valid, Offset, Represents, Units, Words64, Count, TailCount, InRange, WithValues, NewWidth, Shaped,
        NoReport, Respaced, Holds, ListWords, ValueWords;
      ghost var b, b', before, i := blocks[k], WithValues(blocks[k], tblval), buf.data[..], DATA_INDEX + valpos / 32;
      NewValuesShaped(b, tblval);
      WithValuesIs(b, tblval, new_nbit, new_datyp);
      SizesOf(b');
      RecordLength(rec, prefix, blocks, regions);
      if fits { RespacedEnd(rec, buf.Rec(), prefix, blocks, regions, k, b', v, i); }
      err := buf.Rep(tblval, valpos, nombre, new_nbit, new_datyp);
      if fits {
        ghost var vw := buf.data[..][i..i + |v|];
        ValuesPlaced(rec, before, buf.data[..], buf.Len(), prefix, blocks, regions, k, b', v, i);
        blocks, regions := blocks[k := b'], regions[k := regions[k][..ListWords(b)] + vw];
        Restated();
      } else {
        OffsetReplaced(blocks, k, b');
        TooShort(buf.Rec(), prefix, blocks[k := b']);
        assert err == 0 ==> buf.data[..][i..i + ValueWords(b')] == buf.data[i..i + ValueWords(b')];
      }
    }

    lemma BlockIsShaped(k: nat)
      requires Valid() && k < |blocks|
      ensures Shaped(blocks[k]) && |regions| == |blocks|
    {
      hide Offset, HeaderWords, Headers, Concat, Shaped, RegionOf;
    }

    /** The header gets the new width and type; words are spliced in for wider values. */
    method Respace(k: nat, entete: Header, new_nbit: nat, new_datyp: nat, valpos: nat, tblval: seq<Word>)
      returns (ghost v: seq<Word>)
      requires Valid() && k < |blocks| && entete == blocks[k].h.(bit0 := Offset(blocks[..k]))
      requires |tblval| >= 1 && |tblval| >= Count(blocks[k].h)
        && forall n :: 0 <= n < |tblval| ==> tblval[n] != 0x8000_0000
      requires NewWidth(blocks[k], tblval) == Choice(0, new_nbit, new_datyp)
      requires valpos == entete.bit0 * 64 + buf.buf9 + 32 * Words64(TailCount(entete), 16)
      requires RepStaysInside(k, tblval)
      modifies buf`nbits, buf.data
      ensures buf.Shape() && old(buf.Len()) <= buf.Len() <= buf.nwords + 1
      ensures old(RoomFor(blocks[k], tblval)) ==> |v| == ValueWords(WithValues(blocks[k], tblval))
      ensures old(RoomFor(blocks[k], tblval)) ==> Respaced(buf.Rec(), prefix, blocks, regions, k,
        WithValues(blocks[k], tblval), v)
      ensures !old(RoomFor(blocks[k], tblval)) ==>
        buf.Len() == old(buf.Len()) && Units(WithValues(blocks[k], tblval)) != Units(blocks[k])
    {
      hide RoomFor, Valid, Offset, Represents, Units, Words64, Count, TailCount, InRange, WithValues, NewWidth,
        ExtraUnits, Shaped, Width, Seen, Pieced, Headers, HeaderWords,
        Concat, HeadersInRange, Holds, ListWords, ValueWords;
      Counts();
      Extent();
      BlockIsShaped(k);
      ghost var rec, b, b', off, r, l := buf.Rec(), blocks[k], WithValues(blocks[k], tblval), Offset(blocks[..k]),
        regions[k], ListWords(blocks[k]);
      NewValuesShaped(b, tblval);
      PiecedOf(rec, prefix, blocks, regions, k);
      WithValuesIs(b, tblval, new_nbit, new_datyp);
      NewWidthIs(b, entete, tblval);
      HeaderPlace(k);
      SizesOf(b);
      ShapedCounts(b);
      BitPosition(entete.bit0, buf.buf8, l);
      RoomIs(b, tblval, rec, new_nbit);
      v := r[l..];
      ghost var sections := SectionsOf(prefix, blocks, regions, k);
      SetWidth(buf, k, new_nbit, new_datyp, b.h, off, sections);
      if new_nbit != entete.nbit + 1 {
        var diff_nmots := ExtraUnits(Count(entete), entete.nbit + 1, new_nbit);
        if diff_nmots > 0 {
          var err := Widen(buf, k, buf.buf8, valpos, diff_nmots, tblval, blocks[k + 1..], off + Units(b),
            sections.(hb := HeaderWords(b'.h, off)));
          v := tblval[..2 * diff_nmots] + v;
        }
      } else {
        NoExtra(Count(entete), new_nbit);
      }
    }

    lemma Restated()
      requires buf.Shape() && buf.data.Length <= LARGEST && buf.Len() <= buf.nwords + 1
      requires buf.buf8 == |blocks| && buf.buf9 == NBENTB * |blocks|
      requires Represents(buf.Rec(), prefix, blocks, regions)
      ensures Valid()
    {
    }

    /** The list, the header and the values of a new block are put where they belong, if they fit. */
    method PlaceBlock(entete: Header, lstele: seq<Word>, nele: nat, done: nat, tblval: seq<Word>, nombre: nat,
        inbit: nat, idatyp: nat, ghost b: Block)
      returns (err: int)
      requires Valid() && InRange(entete) && b.h == entete.(bit0 := 0) && entete.bit0 == Offset(blocks)
      requires nele <= |lstele| && nombre <= |tblval| && b.tail == Tail(lstele, nele, done)
        && b.vals == tblval[..nombre]
      requires inbit <= 32 && entete.nbit == StoredNbit(inbit) && entete.datyp == idatyp && (idatyp == 2 || idatyp == 4)
      requires inbit > 0 || nombre == 0 ==> Shaped(b)
      requires StaysInside(|b.tail|, nombre, inbit)
      modifies this, buf, buf.data
      ensures err == if old(FitsBehind(ListWords(b), Words64(nombre, inbit))) then 0 else ERR_BAD_DIM
      ensures err == 0 ==> buf.buf8 == old(buf.buf8) + 1
      ensures err == 0 ==> buf.Len() == old(buf.Len()) + ListWords(b) + DIMENT + Words64(nombre, inbit)
      ensures err == 0 && (inbit > 0 || nombre == 0) ==> Valid() && blocks == old(blocks) + [b]
      ensures err == 0 && inbit == 0 && nombre > 0 ==>
        blocks == old(blocks) && buf.Shape()
      ensures err != 0 ==> blocks == old(blocks) && buf.buf8 == old(buf.buf8) && buf.buf9 == old(buf.buf9)
      ensures err != 0 ==> (Valid() <==> ListWords(b) == 0 && old(buf.Len()) + DIMENT - 1 > buf.nwords)
      ensures forall k :: old(AddReach(|b.tail|, nombre, inbit)) <= k < buf.data.Length ==>
        buf.data[k] == old(buf.data[k])
    {
      hide Valid, Offset, Suits, Words64, Holds, ToWords, Tail, Represents, Count, TailCount, Reach, PackedLength;
      Counts();
      Extent();
      ghost var rec := buf.Rec();
      ghost var lw, vw;
      HeaderPosition(|blocks|);
      err, lw, vw := WriteBlock(buf, entete, lstele, nele, done, tblval, nombre, inbit, idatyp, b.tail);
      if err < 0 {
        Gap(rec, buf.Len() - |rec|);
        return;
      }
      buf.buf8 := buf.buf8 + 1;
      buf.buf9 := buf.buf9 + NBENTB;
      ValuesKept(inbit, nombre);
      if inbit > 0 || nombre == 0 {
        if inbit == 0 { NothingHeld(vw, b); }
        BlockAdded(rec, buf.Rec(), prefix, blocks, regions, b, entete, lw, vw);
        blocks, regions := blocks + [b], regions + [lw + vw];
        Restated();
      }
    }

    /** c_mrbadd, for bdesc 0: the block comes last, unless no width suits its values or the buffer is too small. */
    method MrbAdd(q: Request, lstele: seq<Word>, tblval: seq<Word>) returns (err: int, bkno: nat, bit0: nat)
      requires Valid() && Acceptable(q, lstele, tblval)
      requires WidthOf(q, tblval).err == 0 ==> StaysInside(NewTailCount(q), Total(q), WidthOf(q, tblval).nbits)
      modifies this, buf, buf.data
      ensures err == if WidthOf(q, tblval).err != 0 then WidthOf(q, tblval).err
        else if old(FitsBehind(NewListWords(q), NewValueWords(q, tblval))) then 0 else ERR_BAD_DIM
      ensures err == BURP_ERR_CMPR ==>
        Valid() && blocks == old(blocks) && buf.data[..] == old(buf.data[..]) && buf.nbits == old(buf.nbits)
      ensures err == 0 ==> bkno == buf.buf8 == |old(blocks)| + 1 && bit0 == Offset(old(blocks))
      ensures err == 0 ==> buf.Len() == old(buf.Len()) + NewListWords(q) + DIMENT + NewValueWords(q, tblval)
      ensures err == 0 && !KeepsNothing(q, tblval) ==> Valid() && |blocks| == bkno
      ensures err == 0 && !KeepsNothing(q, tblval) ==>
        blocks[..bkno - 1] == old(blocks) && IsBlockFor(blocks[bkno - 1], q, lstele, tblval)
      ensures err == 0 && KeepsNothing(q, tblval) ==> blocks == old(blocks) && buf.Shape()
      ensures err == 0 && KeepsNothing(q, tblval) ==>
        forall b | IsBlockFor(b, q, lstele, tblval) :: NoReport(buf.Rec(), prefix, blocks + [b])
      ensures err == ERR_BAD_DIM ==> blocks == old(blocks) && buf.buf8 == old(buf.buf8) && buf.buf9 == old(buf.buf9)
      ensures err == ERR_BAD_DIM ==> (Valid() <==> NewListWords(q) == 0 && old(buf.Len()) + DIMENT - 1 > buf.nwords)
      ensures forall k :: old(AddReach(NewTailCount(q), Total(q), WidthOf(q, tblval).nbits)) <= k < buf.data.Length ==>
        buf.data[k] == old(buf.data[k])
    {
      hide Valid, Offset, WidthOf, Suits, Words64, Holds, Acceptable, IsBlockFor, Shaped, Total, NewTailCount, Tail,
        KeepsNothing, NoReport;
      Counts();
      Extent();
      bkno, bit0 := 0, 0;
      var inbit, idatyp;
      err, inbit, idatyp := ChooseWidth(q, lstele, tblval);
      if err < 0 { return; }
      var position := (buf.nbits - 32 * DATA_INDEX - buf.buf9) / 64;
      bit0 := NotNegative(position);
      var entete, done := BuildHeader(q, inbit, bit0, idatyp, lstele, tblval, WidthOf(q, tblval));
      TailFits(q, lstele, done);
      ghost var b := Block(entete.(bit0 := 0), Tail(lstele, q.nele, done), tblval[..Total(q)]);
      err := PlaceBlock(entete, lstele, q.nele, done, tblval, Total(q), inbit, idatyp, b);
      bkno := buf.buf8;
      if err == 0 && KeepsNothing(q, tblval) {
        ValuesKept(inbit, Total(q));
        forall b | IsBlockFor(b, q, lstele, tblval) ensures NoReport(buf.Rec(), prefix, blocks + [b]) {
          NoValues(buf.Rec(), prefix, blocks, b, q, lstele, tblval);
        }
      }
    }
  }

  /** No words for no bits, and none for no values. */
  lemma ValuesKept(width: nat, n: nat)
    ensures width == 0 || n == 0 ==> Words64(n, width) == 0
  {
  }

  lemma NothingHeld(ws: seq<Word>, b: Block)
    requires ws == [] && b.vals == [] && b.h.nbit < 32
    ensures ValueWords(b) == 0 && Holds(ws, b.vals, b.h.nbit + 1, b.h.datyp == 4)
  {
  }

  /** A header whose values are not there: its block is in no report with this record. */
  lemma NoValues(rec: seq<Word>, prefix: seq<Word>, bs: seq<Block>, b: Block, q: Request, lstele: seq<Word>,
      tblval: seq<Word>)
    requires IsBlockFor(b, q, lstele, tblval) && WidthOf(q, tblval).nbits == 0 && Total(q) > 0
    requires |rec| == DATA_INDEX + DIMENT * |bs| + 2 * Offset(bs) + NewListWords(q) + DIMENT
    ensures NoReport(rec, prefix, bs + [b])
  {
    hide Represents, Offset, Headers, Concat, AllGood;
    OffsetSplit(bs, [b]);
    OneHeader(b, 0);
    WholeUnits(b);
    if Shaped(b) {
      MoreThanList(b, q, lstele, tblval);
      TooShort(rec, prefix, bs + [b]);
    } else {
      forall rs | Represents(rec, prefix, bs + [b], rs) ensures false { Unshaped(rec, prefix, bs, b, rs); }
    }
  }

  lemma Unshaped(rec: seq<Word>, prefix: seq<Word>, bs: seq<Block>, b: Block, rs: seq<seq<Word>>)
    requires Represents(rec, prefix, bs + [b], rs)
    ensures Shaped(b)
  {
    hide Shaped, Headers, Concat, RegionOf;
    assert (bs + [b])[|bs|] == b;
  }

  /** The block would need words for its values, on 32 bits. */
  lemma MoreThanList(b: Block, q: Request, lstele: seq<Word>, tblval: seq<Word>)
    requires IsBlockFor(b, q, lstele, tblval) && Shaped(b) && WidthOf(q, tblval).nbits == 0 && Total(q) > 0
    ensures ListWords(b) + ValueWords(b) > NewListWords(q)
  {
    hide WidthOf, Suits, Elements, Total, Words64;
    assert |b.tail| >= NewTailCount(q);
    LongerList(NewTailCount(q), |b.tail|);
    assert b.h.nbit == 31 && |b.vals| >= 1;
    Words64Covers(|b.vals|, 32);
  }

  lemma LongerList(n: nat, m: nat)
    requires n <= m
    ensures Words64(n, 16) <= Words64(m, 16)
  {
  }

  lemma RegionWords(ws: seq<Word>, b: Block)
    requires RegionOf(ws, b)
    ensures |ws| == ListWords(b) + ValueWords(b) && ListWords(b) % 2 == 0
    ensures ListWords(b) == Words64(|b.tail|, 16) && ValueWords(b) == Words64(|b.vals|, b.h.nbit + 1)
  {
    hide Holds;
    Words64Covers(|b.tail|, 16);
  }

  /** The elements kept in the header are copied first; gives their number. */
  method HeadElements(lstele: array<Word>, entete: Header) returns (done: nat)
    requires InRange(entete) && lstele.Length >= Nele(entete)
    modifies lstele
    ensures done == if entete.flag != 0 then 0 else if entete.nele < 3 then entete.nele else 3
    ensures lstele[..done] == [entete.elem1, entete.elem2, entete.elem3][..done]
      && lstele[done..] == old(lstele[done..])
  {
    done := 0;
    if entete.flag == 0 {
      done := if entete.nele < 3 then entete.nele else 3;
      if done > 0 { lstele[0] := entete.elem1; }
      if done > 1 { lstele[1] := entete.elem2; }
      if done > 2 { lstele[2] := entete.elem3; }
    }
  }

  lemma ElementsJoined(b: Block, rec: seq<Word>, bitpos: nat, valpos: nat, done: nat)
    requires AtPositions(rec, b, bitpos, valpos) && done == if b.h.flag != 0 then 0 else if b.h.nele < 3 then b.h.nele
      else 3
    ensures InRange(b.h) && |b.tail| == TailCount(b.h) && |b.vals| == Count(b.h)
    ensures Elements(b) == [b.h.elem1, b.h.elem2, b.h.elem3][..done] + b.tail
      && done + |b.tail| == Nele(b.h) == |Elements(b)|
  {
    hide Holds, Suits, Words64, Count;
  }

  lemma ListRead(after: seq<Word>, mid: seq<Word>, before: seq<Word>, done: nat, head: seq<Word>, tail: seq<Word>)
    requires done + |tail| <= |before| == |mid| && |head| == done
    requires mid[..done] == head && mid[done..] == before[done..]
    requires after == mid[..done] + tail + mid[done + |tail|..]
    ensures |after| == |before| && after[..done + |tail|] == head + tail
      && after[done + |tail|..] == before[done + |tail|..]
  {
    var n := done + |tail|;
    assert mid[n..] == mid[done..][|tail|..] && before[n..] == before[done..][|tail|..];
    assert after[..n] == mid[..done] + tail;
  }

  /** The list of elements behind the header, 16 bits each. */
  method ExtractTail(buf: Buffer, ghost rec: seq<Word>, bitpos: nat, lstele: array<Word>, at: nat, nelements: nat,
      ghost b: Block, ghost valpos: nat)
    requires buf.data[..] == rec && AtPositions(rec, b, bitpos, valpos) && nelements == TailCount(b.h)
    requires lstele != buf.data && at + nelements <= lstele.Length
    modifies lstele
    ensures lstele[..] == old(lstele[..at]) + b.tail + old(lstele[at + nelements..])
  {
    hide Words64, Holds, Suits, C.Values, C.Tokens, B.WordBits, B.Fields;
    ghost var before, index := lstele[..], DATA_INDEX + bitpos / 32;
    if nelements > 0 {
      Words64Covers(nelements, 16);
      FieldsOfRegion(rec, index, Words64(nelements, 16), b.tail, 16, false);
      SixteenBits(b.tail);
      var err := buf.XtrIntegers(lstele, at, bitpos, nelements, 16, 2);
    } else {
      assert before == before[..at] + b.tail + before[at..];
    }
  }

  /** The values of a block, the missing ones made all ones again. */
  method ExtractValues(buf: Buffer, ghost rec: seq<Word>, bitpos: nat, tblval: array<Word>, nombre: nat, nbit: nat,
      datyp: nat,
      ghost b: Block, ghost lstpos: nat)
    requires buf.data[..] == rec && AtPositions(rec, b, lstpos, bitpos) && nombre == Count(b.h) && nbit == b.h.nbit + 1
      && datyp == b.h.datyp
    requires tblval != buf.data && nombre <= tblval.Length
    modifies tblval
    ensures tblval[..nombre] == b.vals && tblval[nombre..] == old(tblval[nombre..])
  {
    hide Words64, Holds, Count, C.Value, C.Token, B.WordBits, B.Fields, Restored, Pow2;
    ghost var before, index, nb, vals := tblval[..], DATA_INDEX + bitpos / 32, Words64(nombre, nbit), b.vals;
    Words64Covers(nombre, nbit);
    FieldsOfRegion(rec, index, nb, vals, nbit, datyp == 4);
    var err := buf.XtrIntegers(tblval, 0, bitpos, nombre, nbit, datyp);
    ghost var read := C.Values(C.Tokens(vals, nbit, datyp == 4), nbit, datyp == 4);
    assert tblval[..nombre] == read && tblval[nombre..] == before[nombre..];
    RestoreMissing(tblval, nombre, nbit, read, vals, datyp);
  }

  /** rmask, the pattern of all ones on nbit bits; shifted only when nbit is below 32. */
  method RestoreMissing(tblval: array<Word>, nombre: nat, nbit: nat, ghost read: seq<Word>, ghost vals: seq<Word>,
      ghost datyp: nat)
    requires 1 <= nbit <= 32 && nombre == |vals| == |read| <= tblval.Length && tblval[..nombre] == read
    requires forall k :: 0 <= k < nombre ==> Restored(read[k], nbit) == vals[k]
    modifies tblval
    ensures tblval[..nombre] == vals && tblval[nombre..] == old(tblval[nombre..])
  {
    hide Pow2;
    MaskFits(nbit);
    var rmask: Word := if nbit >= 32 then ALLONES else Pow2(nbit) - 1;
    var i := 0;
    while i < nombre
      invariant 0 <= i <= nombre
      invariant forall k :: 0 <= k < i ==> tblval[k] == vals[k]
      invariant forall k :: i <= k < nombre ==> tblval[k] == read[k]
      invariant tblval[nombre..] == old(tblval[nombre..])
    {
      assert Restored(read[i], nbit) == vals[i];
      if tblval[i] == rmask { tblval[i] := ALLONES; }
      i := i + 1;
    }
  }

  lemma MaskFits(nbit: nat)
    requires nbit <= 32
    ensures Pow2(nbit) - 1 < WORD
  {
    FitsWord(Pow2(nbit) - 1, nbit);
  }

  function NotNegative(x: int): nat {
    if x < 0 then 0 else x
  }

  /** bfamdesc holds bfam with its upper and lower six bits exchanged. */
  function Swapped(bfam: nat): nat {
    bfam % 0x40 * 0x40 + bfam / 0x40 % 0x40
  }

  lemma SwappedTwice(bfam: nat)
    requires bfam < 0x1000
    ensures Swapped(bfam) < 0x1000 && Swapped(Swapped(bfam)) == bfam
    ensures Swapped(bfam) / 0x40 == bfam % 0x40 && Swapped(bfam) % 0x40 == bfam / 0x40
  {
    DivUnique(Swapped(bfam), 0x40, bfam % 0x40, bfam / 0x40);
  }
}
