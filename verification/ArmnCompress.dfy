/**
  armn_compress on a little-endian machine: a field of 16-bit tokens, two to a word and the first in the high half, is
  replaced in place by its compressed form when that is shorter, and brought back by the reverse call.
 */
module ArmnCompress {
  import opened Words
  import opened BitStream
  import opened FstzipHeader
  import opened Tiles
  import M = TileMinimum
  import P = Parallelogram

  // ----- tokens and shorts -----

  /** Token k of a packed field: the high half of a word comes first. */
  function TokenAt(ws: seq<Word>, k: nat): int
    requires k / 2 < |ws|
  {
    if k % 2 == 0 then ws[k / 2] / 0x1_0000 else ws[k / 2] % 0x1_0000
  }

  /** Element k of the field seen as an array of shorts: the low half of a word comes first. */
  function ShortAt(ws: seq<Word>, k: nat): int
    requires k / 2 < |ws|
  {
    if k % 2 == 0 then ws[k / 2] % 0x1_0000 else ws[k / 2] / 0x1_0000
  }

  function Tokens(ws: seq<Word>, n: nat): (ts: seq<int>)
    requires n <= 2 * |ws|
    ensures |ts| == n
  {
    seq(n, k requires 0 <= k < n => TokenAt(ws, k))
  }

  function Shorts(ws: seq<Word>, n: nat): (ts: seq<int>)
    requires n <= 2 * |ws|
    ensures |ts| == n
  {
    seq(n, k requires 0 <= k < n => ShortAt(ws, k))
  }

  /** The tokens of a field are those of a stream of 16 bits each, as the float packer leaves it. */
  lemma TokensOfStream(ws: seq<Word>, n: nat)
    requires n <= 2 * |ws|
    ensures StartsWith(ws, 0, Flat(Tokens(ws, n), 16))
  {
    hide TokenAt, WordBits, Flat;
    AllTokens(ws);
    var ts := Tokens(ws, 2 * |ws|);
    assert ts == ts[..n] + ts[n..] && ts[..n] == Tokens(ws, n) && ws[0..] == ws;
    FlatConcat(ts[..n], ts[n..], 16);
  }

  lemma {:induction false} AllTokens(ws: seq<Word>)
    ensures Flat(Tokens(ws, 2 * |ws|), 16) == WordBits(ws)
  {
    hide Bits, Shl, Pow2;
    var ts := Tokens(ws, 2 * |ws|);
    if ws != [] {
      var rest := Tokens(ws[1..], 2 * |ws[1..]|);
      AllTokens(ws[1..]);
      assert ts[1..][1..] == rest;
      Pow2Values();
      ShlIsMul(ws[0] / 0x1_0000, 16);
      BitsJoin(ws[0] / 0x1_0000, ws[0] % 0x1_0000, 16, 16);
      assert Flat(ts, 16) == Bits(ts[0], 16) + (Bits(ts[1], 16) + Flat(rest, 16));
    }
  }

  /** (w >> 16) | (w << 16) */
  function SwapHalves(w: Word): Word {
    w / 0x1_0000 + w % 0x1_0000 * 0x1_0000
  }

  lemma SwapTwice(w: Word)
    ensures SwapHalves(SwapHalves(w)) == w
    ensures SwapHalves(w) / 0x1_0000 == w % 0x1_0000 && SwapHalves(w) % 0x1_0000 == w / 0x1_0000
  {
  }

  /** The first `limite` words have their halves exchanged, the rest is as before. */
  ghost predicate Swapped(after: seq<Word>, before: seq<Word>, limite: nat) {
    |after| == |before| && forall k :: 0 <= k < |after| ==> after[k] == if k < limite then SwapHalves(before[k])
      else before[k]
  }

  /** The words that hold n shorts. */
  function WordsFor(n: nat): nat {
    (1 + n) / 2
  }

  lemma SwappedTokens(after: seq<Word>, before: seq<Word>, n: nat)
    requires Swapped(after, before, WordsFor(n)) && n <= 2 * |before|
    ensures Shorts(after, n) == Tokens(before, n) && Tokens(after, n) == Shorts(before, n)
  {
    hide SwapHalves;
    forall k | 0 <= k < n
      ensures ShortAt(after, k) == TokenAt(before, k) && TokenAt(after, k) == ShortAt(before, k)
    {
      SwapTwice(before[k / 2]);
      assert after[k / 2] == SwapHalves(before[k / 2]);
    }
  }

  lemma SwappedBack(after: seq<Word>, mid: seq<Word>, before: seq<Word>, limite: nat)
    requires Swapped(mid, before, limite) && Swapped(after, mid, limite)
    ensures after == before
  {
    hide SwapHalves;
    forall k | 0 <= k < |after| ensures after[k] == before[k] {
      SwapTwice(before[k]);
    }
  }

  /** The loop that exchanges the halves of the words of the field. */
  method SwapField(fld: array<Word>, limite: nat)
    requires limite <= fld.Length
    modifies fld
    ensures Swapped(fld[..], old(fld[..]), limite)
  {
    hide SwapHalves;
    for i := 0 to limite
      invariant forall k :: 0 <= k < fld.Length ==> fld[k] == if k < i then SwapHalves(old(fld[..])[k])
        else old(fld[..])[k]
    {
      fld[i] := SwapHalves(fld[i]);
    }
  }

  // ----- the stream -----

  /** Which of the two forms is chosen. */
  predicate UsesMinimum(level: int, ni: nat, nj: nat, nbits: nat) {
    level == 0 || ni < 16 || nj < 16 || nbits <= 4
  }

  function HeaderFor(minimum: bool, nbits: nat): (h: Fstzip)
    requires nbits <= 16
    ensures InRange(h)
  {
    if minimum then Fstzip(MINIMUM, 0, 5, nbits, 1, 0) else Fstzip(PARALLELOGRAM, 1, 3, nbits, 1, 0)
  }

  /** The bits of a compressed field. */
  ghost function Stream(minimum: bool, g: seq<int>, ni: nat, nj: nat, nbits: nat): seq<bool>
    requires 1 <= nbits <= 16
  {
    if minimum then M.FieldCode(g, ni, nj, nbits, 5) else P.FieldCode(P.Short, g, ni, nj, nbits, 3)
  }

  /** The code of a field: prediction errors in tiles of 3 x 3 at the better levels, else minima in tiles of 5 x 5. */
  ghost function CodeAt(level: int, g: seq<int>, ni: nat, nj: nat, nbits: nat): seq<bool> {
    if level != 0 && ni >= 16 && nj >= 16 && nbits > 4 then P.FieldCode(P.Short, g, ni, nj, nbits, 3)
    else M.FieldCode(g, ni, nj, nbits, 5)
  }

  /** Header and stream in whole words. */
  ghost function StreamWords(minimum: bool, g: seq<int>, ni: nat, nj: nat, nbits: nat): nat
    requires 1 <= nbits <= 16
  {
    1 + (|Stream(minimum, g, ni, nj, nbits)| + 31) / 32
  }

  /** The words hold the compressed form of g, and what follows the stream leaves room for a reader to look ahead. */
  ghost predicate Carries(z: seq<Word>, minimum: bool, g: seq<int>, ni: nat, nj: nat, nbits: nat)
    requires 1 <= nbits <= 16
  {
    && StreamWords(minimum, g, ni, nj, nbits) < |z| && z[0] == ToWord(HeaderFor(minimum, nbits))
    && StartsWith(z, 1, Stream(minimum, g, ni, nj, nbits))
  }

  /** Both forms fit the scratch buffer of one word a value. */
  lemma StreamFits(minimum: bool, g: seq<int>, ni: nat, nj: nat, nbits: nat)
    requires ni >= 2 && nj >= 2 && |g| == ni * nj && 1 <= nbits <= 16 && Below(g, Pow2(nbits))
    requires minimum || (ni >= 16 && nj >= 16)
    ensures StreamWords(minimum, g, ni, nj, nbits) <= ni * nj
      && |Stream(minimum, g, ni, nj, nbits)| <= 32 * (ni * nj - 1)
    ensures ni * nj >= 4
  {
    hide M.FieldCode, P.FieldCode, Below, Pow2;
    M.AtLeastFour(ni, nj);
    if minimum {
      M.FieldFits(g, ni, nj, nbits, 5);
    } else {
      P.FieldCost(P.Short, g, ni, nj, nbits, 3);
      Large(ni, nj);
    }
  }

  lemma Large(ni: nat, nj: nat)
    requires ni >= 16 && nj >= 16
    ensures ni * nj >= 256
  {
    MulAtLeast(16, nj);
    assert (ni - 16) * nj >= 0;
  }

  /** c_fstzip: the header is made for the form, the shorts of the field are packed behind it. */
  method CFstZip(zfld: array<Word>, fld: array<Word>, ni: nat, nj: nat, minimum: bool, nbits: nat) returns (zlng: int)
    requires zfld != fld && ni >= 2 && nj >= 2 && 1 <= nbits <= 16 && (minimum || (ni >= 16 && nj >= 16))
    requires ni * nj <= 2 * fld.Length && Below(Shorts(fld[..], ni * nj), Pow2(nbits)) && 4 <= ni * nj <= zfld.Length
    modifies zfld
    ensures var g := Shorts(fld[..], ni * nj);
      && zlng == 1 + 4 * StreamWords(minimum, g, ni, nj, nbits)
      && zfld[0] == ToWord(HeaderFor(minimum, nbits)) && StartsWith(zfld[..], 1, Stream(minimum, g, ni, nj, nbits))
  {
    hide M.FieldCode, P.FieldCode, Below, Pow2, StartsWith, ToWord, Shorts;
    var g := Shorts(fld[..], ni * nj);
    StreamFits(minimum, g, ni, nj, nbits);
    if minimum {
      zlng := M.PackTokensMinimum(zfld, g, ni, nj, nbits, 5, ToWord(HeaderFor(minimum, nbits)));
    } else {
      zlng := P.PackTokensParallelogram(zfld, g, ni, nj, nbits, 3, ToWord(HeaderFor(minimum, nbits)));
    }
  }

  /** c_fstunzip: the header word says which form the field has and how many bits its tokens. */
  method CFstUnzip(fld: array<int>, zfld: array<Word>, ni: nat, nj: nat, ghost minimum: bool, ghost nbits: nat,
      ghost g: seq<int>)
    requires fld.Length == |g| == ni * nj && ni >= 1 && nj >= 1 && 1 <= nbits <= 16 && Below(g, Pow2(nbits))
    requires Carries(zfld[..], minimum, g, ni, nj, nbits)
    modifies fld
    ensures fld[..] == g
  {
    hide M.FieldCode, P.FieldCode, Below, Pow2, StartsWith, ToWord, FromWord;
    var zfstzip := FromWord(zfld[0]);
    FromToWord(HeaderFor(minimum, nbits));
    var header;
    if zfstzip.predictor_type == MINIMUM {
      header := M.UnpackTokensMinimum(fld, zfld, ni, nj, zfstzip.nbits, zfstzip.step, g);
    } else {
      header := P.UnpackTokensParallelogram(fld, zfld, ni, nj, zfstzip.nbits, zfstzip.step, g);
    }
  }

  /** memcpy of 4 * words + 1 bytes: one byte more than the words. */
  method CopyStream(fld: array<Word>, zfld: array<Word>, words: nat)
    requires fld != zfld && words < fld.Length && words < zfld.Length
    modifies fld
    ensures forall k :: 0 <= k < words ==> fld[k] == zfld[k]
    ensures forall k :: words < k < fld.Length ==> fld[k] == old(fld[k])
    ensures fld[words] / 0x100 == old(fld[words]) / 0x100
  {
    for i := 0 to words
      invariant forall k :: 0 <= k < i ==> fld[k] == zfld[k]
      invariant forall k :: i <= k < fld.Length ==> fld[k] == old(fld[k])
    {
      fld[i] := zfld[i];
    }
    OneByte(fld[words], zfld[words]);
    fld[words] := fld[words] / 0x100 * 0x100 + zfld[words] % 0x100;
  }

  lemma OneByte(a: Word, b: Word)
    ensures 0 <= a / 0x100 * 0x100 + b % 0x100 < WORD && (a / 0x100 * 0x100 + b % 0x100) / 0x100 == a / 0x100
  {
  }

  /** The compressed form is not shorter than the field it stands for. */
  ghost predicate TooLong(minimum: bool, g: seq<int>, ni: nat, nj: nat, nk: nat, nbits: nat)
    requires 1 <= nbits <= 16
  {
    1 + 4 * StreamWords(minimum, g, ni, nj, nbits) >= 1 + ni * nj * nk * 2
  }

  /** The form chosen, and the header word that names it. */
  lemma FormIs(level: int, g: seq<int>, ni: nat, nj: nat, nbits: nat)
    requires 1 <= nbits <= 16
    ensures var minimum := UsesMinimum(level, ni, nj, nbits);
      && Stream(minimum, g, ni, nj, nbits) == CodeAt(level, g, ni, nj, nbits)
      && StreamWords(minimum, g, ni, nj, nbits) == 1 + (|CodeAt(level, g, ni, nj, nbits)| + 31) / 32
      && ToWord(HeaderFor(minimum, nbits)) == (if level != 0 && ni >= 16 && nj >= 16 && nbits > 4
        then 4 + 0x10 * 1 + 0x80 * 3 else 3 + 0x80 * 5) + 0x400 * nbits + 0x8000
  {
    hide M.FieldCode, P.FieldCode;
  }

  lemma CarriedWords(z: seq<Word>, minimum: bool, g: seq<int>, ni: nat, nj: nat, nbits: nat)
    requires 1 <= nbits <= 16 && Carries(z, minimum, g, ni, nj, nbits)
    ensures |z| > 0 && z[0] == ToWord(HeaderFor(minimum, nbits)) && StartsWith(z, 1, Stream(minimum, g, ni, nj, nbits))
  {
    hide Stream, StartsWith, ToWord, HeaderFor;
  }

  /**
    armn_compress with COMPRESS: the field is left as it was, and -1 returned, exactly when the shape or the token
    width is not accepted or the compressed form would not be shorter; otherwise the compressed form of the tokens of
    the first level is in its place.
   */
  method Compress(fld: array<Word>, ni: nat, nj: nat, nk: nat, nbits: nat, level: int) returns (zlng: int)
    requires ni >= 1 && nj >= 1 && nk >= 1 && nbits >= 1
    requires fld.Length >= WordsFor(ni * nj) && fld.Length >= WordsFor(ni * nj * nk)
    requires nbits <= 16 ==> Below(Tokens(fld[..], ni * nj), Pow2(nbits))
    modifies fld
    ensures zlng == -1 <==> (nbits > 16 || ni == 1 || nj == 1
      || TooLong(UsesMinimum(level, ni, nj, nbits), Tokens(old(fld[..]), ni * nj), ni, nj, nk, nbits))
    ensures zlng == -1 ==> fld[..] == old(fld[..])
    ensures zlng != -1 ==>
      (var g, minimum := Tokens(old(fld[..]), ni * nj), UsesMinimum(level, ni, nj, nbits);
       && Carries(fld[..], minimum, g, ni, nj, nbits) && zlng == 1 + 4 * StreamWords(minimum, g, ni, nj, nbits)
         <= ni * nj * nk * 2)
    ensures zlng == -1 <==> (nbits > 16 || ni == 1 || nj == 1
      || 4 + 4 * ((|CodeAt(level, Tokens(old(fld[..]), ni * nj), ni, nj, nbits)| + 31) / 32) >= 2 * (ni * nj * nk))
    ensures var code := CodeAt(level, Tokens(old(fld[..]), ni * nj), ni, nj, nbits);
      zlng != -1 ==> zlng == 5 + 4 * ((|code| + 31) / 32) && StartsWith(fld[..], 1, code)
    ensures var header := if level != 0 && ni >= 16 && nj >= 16 && nbits > 4 then 4 + 0x10 * 1 + 0x80 * 3
      else 3 + 0x80 * 5;
      zlng != -1 ==> fld[0] == header + 0x400 * nbits + 0x8000
  {
    hide Stream, StreamWords, Carries, Swapped, Shorts, Tokens, Below, Pow2, StartsWith, ToWord, HeaderFor, WordsFor,
      CodeAt;
    if nbits > 16 || ni == 1 || nj == 1 { return -1; }
    WordsForBounds(ni * nj);
    WordsForBounds(ni * nj * nk);
    ghost var before := fld[..];
    ghost var g := Tokens(before, ni * nj);
    FormIs(level, g, ni, nj, nbits);
    Cells(ni, nj, nk);
    var zfld := new Word[ni * nj * nk];
    var limite := WordsFor(ni * nj);
    var lng_origin := 1 + ni * nj * nk * 2;
    SwapField(fld, limite);
    SwappedTokens(fld[..], before, ni * nj);
    var minimum := UsesMinimum(level, ni, nj, nbits);
    zlng := CFstZip(zfld, fld, ni, nj, minimum, nbits);
    if zlng >= lng_origin {
      ghost var mid := fld[..];
      SwapField(fld, limite);
      SwappedBack(fld[..], mid, before, limite);
      return -1;
    }
    var words := (zlng - 1) / 4;
    CopyStream(fld, zfld, words);
    StreamCopied(zfld[..], fld[..], words, minimum, g, ni, nj, nbits);
    CarriedWords(fld[..], minimum, g, ni, nj, nbits);
  }

  lemma WordsForBounds(n: nat)
    ensures n <= 2 * WordsFor(n) && n / 2 <= WordsFor(n) <= n / 2 + 1
  {
  }

  lemma StreamCopied(z: seq<Word>, z': seq<Word>, words: nat, minimum: bool, g: seq<int>, ni: nat, nj: nat, nbits: nat)
    requires 1 <= nbits <= 16 && words == StreamWords(minimum, g, ni, nj, nbits) < |z'| && words <= |z|
    requires z[0] == ToWord(HeaderFor(minimum, nbits)) && StartsWith(z, 1, Stream(minimum, g, ni, nj, nbits))
    requires forall k :: 0 <= k < words ==> z'[k] == z[k]
    ensures Carries(z', minimum, g, ni, nj, nbits)
  {
    hide StartsWith, Stream, ToWord, HeaderFor;
    StartsWithCopied(z, z', 1, words, Stream(minimum, g, ni, nj, nbits));
  }

  lemma Cells(ni: nat, nj: nat, nk: nat)
    requires nk >= 1 && ni >= 2 && nj >= 2
    ensures ni * nj * nk >= ni * nj >= 4
  {
    M.AtLeastFour(ni, nj);
    assert ni * nj * (nk - 1) >= 0;
  }

  /** Words that hold no short are not swapped. */
  lemma BehindSwapped(after: seq<Word>, before: seq<Word>, n: nat)
    requires Swapped(after, before, WordsFor(n))
    ensures |after| == |before| && forall k :: n / 2 < k < |after| ==> after[k] == before[k]
    ensures n % 2 == 0 && n / 2 < |after| ==> after[n / 2] == before[n / 2]
  {
  }

  /**
    memcpy of 1 + ni * nj / 2 words of shorts, the last of which is partly or wholly what the memory held behind the
    shorts.
   */
  method CopyShorts(fld: array<Word>, unzfld: array<int>, n: nat, behind: Word)
    requires unzfld.Length == n && n / 2 < fld.Length && Below(unzfld[..], 0x1_0000)
    modifies fld
    ensures Shorts(fld[..], n) == unzfld[..]
    ensures n % 2 == 0 ==> fld[n / 2] == behind
    ensures forall k :: n / 2 < k < fld.Length ==> fld[k] == old(fld[k])
  {
    for i := 0 to 1 + n / 2
      invariant n % 2 == 0 && i > n / 2 ==> fld[n / 2] == behind
      invariant forall k :: 0 <= k < 2 * i && k < n ==> ShortAt(fld[..], k) == unzfld[k]
      invariant forall k :: n / 2 < k < fld.Length ==> fld[k] == old(fld[k])
    {
      var low := if 2 * i < n then unzfld[2 * i] else behind % 0x1_0000;
      var high := if 2 * i + 1 < n then unzfld[2 * i + 1] else behind / 0x1_0000;
      fld[i] := low + high * 0x1_0000;
    }
  }

  /**
    armn_compress with UNCOMPRESS: the tokens of the field are back. Behind a field of an even number of tokens one
    word more is overwritten, by what the memory held behind the unpacked shorts; the words behind that are as they
    were.
   */
  method Uncompress(fld: array<Word>, ni: nat, nj: nat, nk: nat, nbits: nat, behind: Word, ghost minimum: bool,
      ghost g: seq<int>)
    returns (length: int)
    requires ni >= 1 && nj >= 1 && nk >= 1 && nbits >= 1 && fld.Length > ni * nj / 2 && |g| == ni * nj
    requires nbits <= 16 && ni > 1 && nj > 1 ==> Below(g, Pow2(nbits)) && Carries(fld[..], minimum, g, ni, nj, nbits)
    modifies fld
    ensures nbits > 16 || ni == 1 || nj == 1 ==> fld[..] == old(fld[..]) && length == 1 + ni * nj * nk * nbits / 8
    ensures nbits <= 16 && ni > 1 && nj > 1 ==> Tokens(fld[..], ni * nj) == g && length == ni * nj * 2
    ensures nbits <= 16 && ni > 1 && nj > 1 && ni * nj % 2 == 0 ==> fld[ni * nj / 2] == behind
    ensures forall k :: ni * nj / 2 < k < fld.Length ==> fld[k] == old(fld[k])
  {
    hide Stream, Swapped, Shorts, Tokens, Carries, Below, Pow2, WordsFor;
    if nbits > 16 || ni == 1 || nj == 1 { return 1 + ni * nj * nk * nbits / 8; }
    var unzfld := new int[ni * nj];
    CFstUnzip(unzfld, fld, ni, nj, minimum, nbits, g);
    M.ShortsBelow(g, nbits);
    CopyShorts(fld, unzfld, ni * nj, behind);
    ghost var shorts := fld[..];
    WordsForBounds(ni * nj);
    SwapField(fld, WordsFor(ni * nj));
    SwappedTokens(fld[..], shorts, ni * nj);
    BehindSwapped(fld[..], shorts, ni * nj);
    length := ni * nj * 2;
  }
}
