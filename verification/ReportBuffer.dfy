/**
  c_xdfins, c_xdfcut, c_xdfadd, c_xdfrep and c_xdfxtr: splicing the words of the record that a buffer contains.
  Bit positions count from the end of the ten words of keys and index that every report starts with.
 */
module ReportBuffer {
  import opened Words
  import opened BitStream
  import C = CompactInteger

  const ERR_BAD_ADDR: int := -18
  const ERR_BAD_DIM: int := -19
  const DATA_INDEX: nat := 10     // words before the first block header

  /** nbwords: the words of n elements of `width` bits, in units of 64 bits. */
  function Words64(n: nat, width: nat): nat {
    2 * ((n * width + 63) / 64)
  }

  /** The words that packing n elements of `width` bits writes, the last one in part. */
  function PackedLength(n: nat, width: nat): nat {
    (n * width + 31) / 32
  }

  lemma Words64Covers(n: nat, width: nat)
    ensures n * width <= 32 * Words64(n, width) && Words64(n, width) % 2 == 0
    ensures PackedLength(n, width) <= Words64(n, width) && n * width <= 32 * PackedLength(n, width)
  {
  }

  /** The words hold the values as tokens of b bits, from their first bit on. */
  ghost predicate Holds(ws: seq<Word>, vs: seq<Word>, b: nat, signed: bool)
    requires 1 <= b <= 32
  {
    Flat(C.Tokens(vs, b, signed), b) <= WordBits(ws)
  }

  lemma {:induction false} WordsFromBits(a: seq<Word>, b: seq<Word>)
    requires |a| == |b| && WordBits(a) == WordBits(b)
    ensures a == b
  {
    hide Bits, Val;
    if a != [] {
      FrontWord(a);
      FrontWord(b);
      WordsFromBits(a[1..], b[1..]);
    }
  }

  lemma FrontWord(a: seq<Word>)
    requires a != []
    ensures Val(WordBits(a)[..32]) == a[0] && WordBits(a)[32..] == WordBits(a[1..])
  {
    hide Bits, Val, Low, Pow2;
    Pow2Values();
    FrontValue(WordBits(a), a[0], 32, WordBits(a[1..]));
  }

  /** What packing at a word boundary does to whole words. */
  lemma PackedWords(before: seq<Word>, after: seq<Word>, vs: seq<Word>, b: nat, index: nat, nb: nat, signed: bool)
    requires 1 <= b <= 32 && |before| == |after| && index + nb <= |before| && |vs| * b <= 32 * nb
    requires WordBits(after) == C.Packed(before, vs, b, 32 * index, signed)
    ensures PackedLength(|vs|, b) <= nb && after[..index] == before[..index]
    ensures after[index + PackedLength(|vs|, b)..] == before[index + PackedLength(|vs|, b)..]
    ensures after[index + nb..] == before[index + nb..] && Holds(after[index..index + nb], vs, b, signed)
  {
    hide WordBits, Flat, C.Tokens, C.Packed, Holds;
    C.PackedElsewhere(before, vs, b, 32 * index, signed);
    WordsBefore(before, after, index);
    WordsBehind(before, after, 32 * index + |vs| * b, index + PackedLength(|vs|, b));
    TailOfTail(before, index + PackedLength(|vs|, b), index + nb);
    TailOfTail(after, index + PackedLength(|vs|, b), index + nb);
    FlatLength(C.Tokens(vs, b, signed), b);
    WordsBetween(after, index, nb, C.Tokens(vs, b, signed), b);
    HoldsTokens(after[index..index + nb], vs, b, signed);
  }

  lemma HoldsTokens(ws: seq<Word>, vs: seq<Word>, b: nat, signed: bool)
    requires 1 <= b <= 32 && Flat(C.Tokens(vs, b, signed), b) <= WordBits(ws)
    ensures Holds(ws, vs, b, signed)
  {
  }

  lemma WordsBefore(before: seq<Word>, after: seq<Word>, index: nat)
    requires |before| == |after| && index <= |before| && WordBits(after)[..32 * index] == WordBits(before)[..32 * index]
    ensures after[..index] == before[..index]
  {
    hide WordBits;
    Cuts(before, index);
    Cuts(after, index);
    WordsFromBits(after[..index], before[..index]);
  }

  lemma WordsBehind(before: seq<Word>, after: seq<Word>, bit: nat, end: nat)
    requires |before| == |after| && end <= |before| && bit <= 32 * end
      && WordBits(after)[bit..] == WordBits(before)[bit..]
    ensures after[end..] == before[end..]
  {
    hide WordBits;
    Cuts(before, end);
    Cuts(after, end);
    TailOfTail(WordBits(before), bit, 32 * end);
    TailOfTail(WordBits(after), bit, 32 * end);
    WordsFromBits(after[end..], before[end..]);
  }

  lemma TailOfTail<T>(s: seq<T>, i: nat, j: nat)
    requires i <= j <= |s|
    ensures s[j..] == s[i..][j - i..]
  {
  }

  lemma WordsBetween(after: seq<Word>, index: nat, nb: nat, ts: seq<int>, b: nat)
    requires index + nb <= |after| && |Flat(ts, b)| <= 32 * nb
    requires WordBits(after)[32 * index..32 * index + |Flat(ts, b)|] == Flat(ts, b)
    ensures Flat(ts, b) <= WordBits(after[index..index + nb])
  {
    hide WordBits, Flat;
    var n := |Flat(ts, b)|;
    Cuts(after, index);
    var ws := after[index..];
    Cuts(ws, nb);
    assert ws[..nb] == after[index..index + nb];
    MiddleOf(WordBits(after), 32 * index, n, 32 * nb);
  }

  lemma MiddleOf<T>(s: seq<T>, i: nat, n: nat, m: nat)
    requires i + m <= |s| && n <= m
    ensures s[i..i + n] <= s[i..][..m]
  {
  }

  lemma Cuts(ws: seq<Word>, at: nat)
    requires at <= |ws|
    ensures WordBits(ws)[..32 * at] == WordBits(ws[..at]) && WordBits(ws)[32 * at..] == WordBits(ws[at..])
  {
    hide WordBits;
    assert ws == ws[..at] + ws[at..];
    WordBitsConcat(ws[..at], ws[at..]);
  }

  /** Unpacking a region gives the values it holds, as its tokens stand for them. */
  lemma FieldsOfRegion(data: seq<Word>, index: nat, nb: nat, vs: seq<Word>, b: nat, signed: bool)
    requires 1 <= b <= 32 && index + nb <= |data| && |vs| * b <= 32 * nb
      && Holds(data[index..index + nb], vs, b, signed)
    ensures 32 * index + |vs| * b <= 32 * |data|
    ensures Fields(WordBits(data)[32 * index..], b, |vs|) == C.Tokens(vs, b, signed)
  {
    hide WordBits, Flat, C.Token, Fields, Pow2;
    var ts := C.Tokens(vs, b, signed);
    Cuts(data, index);
    assert data[index..] == data[index..index + nb] + data[index + nb..];
    WordBitsConcat(data[index..index + nb], data[index + nb..]);
    var u := WordBits(data[index..]);
    FlatLength(ts, b);
    assert u == Flat(ts, b) + u[|Flat(ts, b)|..];
    forall k | 0 <= k < |ts| ensures ts[k] < Pow2(b) { C.TokenIsLow(vs[k], b, signed); }
    FieldsOfFlat(ts, b, u[|Flat(ts, b)|..]);
  }

  /** A record with the n words at i taken out. */
  ghost function CutAt(rec: seq<Word>, i: nat, n: nat): (s: seq<Word>)
    ensures |s| == if i + n <= |rec| then |rec| - n else |rec|
  {
    if i + n <= |rec| then rec[..i] + rec[i + n..] else rec
  }

  /** A record with words put in at i. */
  ghost function InsertAt(rec: seq<Word>, i: nat, ws: seq<Word>): seq<Word> {
    if i <= |rec| then rec[..i] + ws + rec[i..] else rec
  }

  class Buffer {
    const data: array<Word>
    const nwords: nat
    var nbits: nat          // bits of the record
    var buf8: nat           // number of blocks
    var buf9: nat           // bits of the block headers

    /** The record in words. */
    function Len(): nat
      reads this
    {
      nbits / 32
    }

    /** The record. */
    ghost function Rec(): seq<Word>
      requires Len() <= data.Length
      reads this, data
    {
      data[..Len()]
    }

    /** A record in units of 64 bits, all of it in the array. */
    predicate Shape()
      reads this
    {
      nbits % 64 == 0 && Len() <= data.Length
    }

    /**
      The words up to `end` are written inside the array, or a record of `len` words is refused `nb` more for want of
      room.
     */
    predicate Safe(len: nat, nb: nat, end: nat)
    {
      len + nb - 1 > nwords || end <= data.Length
    }

    /** Where the words end that c_xdfins writes: the one behind the record has moved, if any has. */
    function InsEnd(index: nat, nb: nat): nat
      reads this
    {
      Len() + nb + if index == Len() then 0 else 1
    }

    constructor (data: array<Word>, nwords: nat)
      requires data.Length >= DATA_INDEX
      ensures this.data == data && this.nwords == nwords && nbits == 32 * DATA_INDEX && buf8 == 0 && buf9 == 0
        && Shape()
    {
      this.data, this.nwords := data, nwords;
      nbits, buf8, buf9 := 32 * DATA_INDEX, 0, 0;
    }

    /** The loop that makes room for nb words; it also moves the word behind the record. */
    method MoveRight(index_word: nat, nbwords: nat, last_ind: nat)
      requires index_word <= last_ind && last_ind + nbwords < data.Length
      modifies data
      ensures data[last_ind + 1 + nbwords..] == old(data[last_ind + 1 + nbwords..])
      ensures data[..index_word] == old(data[..index_word])
      ensures data[index_word + nbwords..last_ind + nbwords] == old(data[index_word..last_ind])
    {
      ghost var before := data[..];
      var i := last_ind;
      while i >= index_word
        invariant index_word - 1 <= i <= last_ind
        invariant data[..i + 1] == before[..i + 1]
        invariant data[last_ind + 1 + nbwords..] == before[last_ind + 1 + nbwords..]
        invariant data[i + 1 + nbwords..last_ind + 1 + nbwords] == before[i + 1..last_ind + 1]
      {
        ghost var tail := data[i + 1 + nbwords..last_ind + 1 + nbwords];
        data[i + nbwords] := data[i];
        assert data[i + nbwords..last_ind + 1 + nbwords] == [before[i]] + tail;
        i := i - 1;
      }
    }

    /**
      The loop that closes a gap of nb words. It looks at words behind the record, which may even be behind the array,
      and writes the first of them.
     */
    method MoveLeft(index_word: nat, nbwords: nat, last_ind: nat)
      requires index_word + nbwords <= last_ind < data.Length
      modifies data
      ensures data[..index_word] == old(data[..index_word])
      ensures data[index_word..last_ind - nbwords] == old(data[index_word + nbwords..last_ind])
    {
      ghost var before := data[..];
      var i := index_word;
      while i <= last_ind
        invariant index_word <= i <= last_ind + 1
        invariant data[..index_word] == before[..index_word]
        invariant forall k :: index_word <= k < i && k + nbwords < data.Length ==> data[k] == before[k + nbwords]
        invariant forall k :: i <= k < data.Length ==> data[k] == before[k]
      {
        var anything: Word :| 0 <= anything < WORD;
        data[i] := if i + nbwords < data.Length then data[i + nbwords] else anything;
        i := i + 1;
      }
    }

    method CopyIn(index_word: nat, nbwords: nat, donnees: seq<Word>)
      requires index_word + nbwords <= data.Length && nbwords <= |donnees|
      modifies data
      ensures data[..index_word] == old(data[..index_word])
      ensures data[index_word..index_word + nbwords] == donnees[..nbwords]
      ensures data[index_word + nbwords..] == old(data[index_word + nbwords..])
    {
      ghost var before := data[..];
      var i := 0;
      while i < nbwords
        invariant 0 <= i <= nbwords
        invariant data[..index_word] == before[..index_word]
        invariant data[index_word..index_word + i] == donnees[..i]
        invariant data[index_word + i..] == before[index_word + i..]
      {
        data[index_word + i] := donnees[i];
        assert data[index_word + i + 1..] == before[index_word + i..][1..];
        i := i + 1;
      }
    }

    /** c_xdfins in transparent mode: the record opens up and the words come in. */
    method Ins(donnees: seq<Word>, bitpos: nat, nelm: nat) returns (err: int)
      requires Shape() && |donnees| >= Words64(nelm, 32) && DATA_INDEX + bitpos / 32 <= Len()
      requires Safe(Len(), Words64(nelm, 32), InsEnd(DATA_INDEX + bitpos / 32, Words64(nelm, 32)))
      modifies this`nbits, data
      ensures err == if bitpos % 64 != 0 then ERR_BAD_ADDR else if old(Len()) + Words64(nelm, 32) - 1 > nwords
        then ERR_BAD_DIM else 0
      ensures err != 0 ==> nbits == old(nbits) && data[..] == old(data[..])
      ensures err == 0 ==>
        var nb, index := Words64(nelm, 32), DATA_INDEX + bitpos / 32;
        && Shape() && nbits == old(nbits) + 32 * nb && Len() == old(Len()) + nb
        && Rec() == InsertAt(old(Rec()), index, donnees[..nb])
        && forall k :: old(InsEnd(index, nb)) <= k < data.Length ==> data[k] == old(data[k])
    {
      hide Words64;
      if bitpos % 64 != 0 { return ERR_BAD_ADDR; }
      Words64Covers(nelm, 32);
      var nbwords, index_word, last_ind := Words64(nelm, 32), DATA_INDEX + bitpos / 32, nbits / 32;
      if last_ind + nbwords - 1 > nwords { return ERR_BAD_DIM; }
      ghost var before, rec := data[..], Rec();
      if last_ind != index_word { MoveRight(index_word, nbwords, last_ind); }
      CopyIn(index_word, nbwords, donnees);
      Inserted(data[..], before, rec, index_word, nbwords, last_ind, donnees);
      WholeWords(nbits, nbwords);
      nbits := nbits + nbwords * 32;
      return 0;
    }

    /** c_xdfcut: the record closes over the words taken out. */
    method Cut(bitpos: nat, nelm: nat, width: nat) returns (err: int)
      requires Shape() && DATA_INDEX + bitpos / 32 + Words64(nelm, width) <= Len()
      requires DATA_INDEX + bitpos / 32 == Len() || Len() < data.Length
      modifies this`nbits, data
      ensures err == if bitpos % 64 != 0 then ERR_BAD_ADDR else 0
      ensures err != 0 ==> nbits == old(nbits) && data[..] == old(data[..])
      ensures err == 0 ==>
        var nb, index := Words64(nelm, width), DATA_INDEX + bitpos / 32;
        && Shape() && nbits == old(nbits) - 32 * nb && Len() == old(Len()) - nb
        && Rec() == CutAt(old(Rec()), index, nb)
    {
      hide Words64;
      if bitpos % 64 != 0 { return ERR_BAD_ADDR; }
      Words64Covers(nelm, width);
      var nbwords, index_word, last_ind := Words64(nelm, width), DATA_INDEX + bitpos / 32, nbits / 32;
      ghost var before, rec := data[..], Rec();
      if last_ind != index_word { MoveLeft(index_word, nbwords, last_ind); }
      Removed(data[..], before, rec, index_word, nbwords, last_ind);
      WholeWords(nbits - 32 * nbwords, nbwords);
      nbits := nbits - nbwords * 32;
      return 0;
    }

    /**
      c_xdfadd for integers: the record grows by the packed values, of which there are no words when the width is 0.
     */
    method Add(donnees: seq<Word>, nelm: nat, width: nat, datyp: nat) returns (err: int)
      requires Shape() && nelm <= |donnees| && width <= 32 && (datyp == 2 || datyp == 4)
        && Safe(Len(), Words64(nelm, width), Len() + Words64(nelm, width))
      modifies this`nbits, data
      ensures err == if old(Len()) + Words64(nelm, width) - 1 > nwords then ERR_BAD_DIM else 0
      ensures err != 0 ==> nbits == old(nbits) && data[..] == old(data[..])
      ensures err == 0 ==>
        var nb, len := Words64(nelm, width), old(Len());
        && Shape() && nbits == old(nbits) + 32 * nb && Len() == len + nb
        && Rec()[..len] == old(Rec()) && (width > 0 ==> Holds(Rec()[len..], donnees[..nelm], width, datyp == 4))
        && forall k :: len + PackedLength(nelm, width) <= k < data.Length ==> data[k] == old(data[k])
    {
      hide C.Packed, Holds, C.Gather, WordBits, Words64, PackedLength;
      Words64Covers(nelm, width);
      var nbwords, index_word := Words64(nelm, width), nbits / 32;
      if index_word + nbwords - 1 > nwords { return ERR_BAD_DIM; }
      ghost var before := data[..];
      if width > 0 {   // compact_integer returns at once when asked for no bits
        C.GatherDense(donnees, nelm);
        C.Pack(donnees, data, nelm, width, 32 * index_word, 1, datyp == 4);
        PackedWords(before, data[..], donnees[..nelm], width, index_word, nbwords, datyp == 4);
      }
      assert data[..index_word] == data[..][..index_word] == before[..index_word];
      assert data[..index_word + nbwords][index_word..] == data[..][index_word..index_word + nbwords];
      assert data[..index_word + nbwords][..index_word] == data[..index_word];
      WholeWords(nbits, nbwords);
      nbits := nbits + nbwords * 32;
      return 0;
    }

    /** c_xdfrep for integers: the region is cleared and packed anew. */
    method Rep(donnees: seq<Word>, bitpos: nat, nelm: nat, width: nat, datyp: nat) returns (err: int)
      requires nelm <= |donnees| && 1 <= width <= 32 && (datyp == 2 || datyp == 4)
        && Safe(DATA_INDEX + bitpos / 32, Words64(nelm, width), DATA_INDEX + bitpos / 32 + Words64(nelm, width))
      modifies data
      ensures err == if bitpos % 64 != 0 then ERR_BAD_ADDR else if DATA_INDEX + bitpos / 32
        + Words64(nelm, width) - 1 > nwords then ERR_BAD_DIM else 0
      ensures err != 0 ==> data[..] == old(data[..])
      ensures err == 0 ==>
        var nb, index := Words64(nelm, width), DATA_INDEX + bitpos / 32;
        && data[..index] == old(data[..index]) && data[index + nb..] == old(data[index + nb..])
        && Holds(data[index..index + nb], donnees[..nelm], width, datyp == 4)
    {
      hide C.Packed, Holds, C.Gather, WordBits, Words64, PackedLength;
      if bitpos % 64 != 0 { return ERR_BAD_ADDR; }
      var nbwords, index_word := Words64(nelm, width), DATA_INDEX + bitpos / 32;
      if index_word + nbwords - 1 > nwords { return ERR_BAD_DIM; }
      ghost var before := data[..];
      var i := 0;
      while i < nbwords
        invariant 0 <= i <= nbwords
        invariant forall k :: 0 <= k < index_word || index_word + nbwords <= k < data.Length ==> data[k] == before[k]
      {
        data[index_word + i] := 0;
        i := i + 1;
      }
      Words64Covers(nelm, width);
      ghost var cleared := data[..];
      C.GatherDense(donnees, nelm);
      C.Pack(donnees, data, nelm, width, 32 * index_word, 1, datyp == 4);
      PackedWords(cleared, data[..], donnees[..nelm], width, index_word, nbwords, datyp == 4);
      Outside(data[..], cleared, before, index_word, index_word + nbwords);
      assert data[index_word..index_word + nbwords] == data[..][index_word..index_word + nbwords];
      return 0;
    }

    /** c_xdfxtr in transparent mode. */
    method Xtr(bitpos: nat, nelm: nat) returns (err: int, donnees: seq<Word>)
      requires DATA_INDEX + bitpos / 32 + Words64(nelm, 32) <= data.Length
      ensures err == if bitpos % 64 != 0 then ERR_BAD_ADDR else 0
      ensures err == 0 ==> donnees == data[DATA_INDEX + bitpos / 32..DATA_INDEX + bitpos / 32 + Words64(nelm, 32)]
    {
      donnees := [];
      if bitpos % 64 != 0 { return ERR_BAD_ADDR, donnees; }
      var nbwords, index_word := Words64(nelm, 32), DATA_INDEX + bitpos / 32;
      var i := 0;
      while i < nbwords
        invariant 0 <= i <= nbwords && donnees == data[index_word..index_word + i]
      {
        donnees := donnees + [data[index_word + i]];
        i := i + 1;
      }
      err := 0;
    }

    /** c_xdfxtr for integers. */
    method XtrIntegers(dst: array<Word>, at: nat, bitpos: nat, nelm: nat, width: nat, datyp: nat) returns (err: int)
      requires 1 <= width <= 32 && (datyp == 2 || datyp == 4) && dst != data && at + nelm <= dst.Length
      requires DATA_INDEX + bitpos / 32 + Words64(nelm, width) <= data.Length
      modifies dst
      ensures err == if bitpos % 64 != 0 then ERR_BAD_ADDR else 0
      ensures err != 0 ==> dst[..] == old(dst[..])
      ensures err == 0 ==> var index := DATA_INDEX + bitpos / 32;
        32 * index + nelm * width <= 32 * data.Length
        && dst[..] == old(dst[..at]) + C.Values(Fields(WordBits(data[..])[32 * index..], width, nelm), width,
          datyp == 4) + old(dst[at + nelm..])
    {
      hide C.Scatter, C.Values, WordBits, Fields, Words64;
      if bitpos % 64 != 0 { return ERR_BAD_ADDR; }
      var index_word := DATA_INDEX + bitpos / 32;
      Words64Covers(nelm, width);
      ghost var before := dst[..];
      C.Unpack(dst, at, data, nelm, width, 32 * index_word, 1, datyp == 4);
      ghost var vs := C.Values(Fields(WordBits(data[..])[32 * index_word..], width, nelm), width, datyp == 4);
      C.ScatterDense(before, at, vs);
      return 0;
    }
  }

  lemma Inserted(data: seq<Word>, before: seq<Word>, rec: seq<Word>, index: nat, nb: nat, len: nat, donnees: seq<Word>)
    requires |data| == |before| && index <= len && len + nb <= |data| && nb <= |donnees|
    requires data[..index] == before[..index] && data[index..index + nb] == donnees[..nb]
    requires data[index + nb..len + nb] == before[index..len]
    requires rec == before[..len]
    ensures data[..len + nb] == rec[..index] + donnees[..nb] + rec[index..]
  {
    assert rec[..index] == before[..index] && rec[index..] == before[index..len];
    assert data[..len + nb] == data[..index] + data[index..index + nb] + data[index + nb..len + nb];
  }

  lemma Removed(data: seq<Word>, before: seq<Word>, rec: seq<Word>, index: nat, nb: nat, len: nat)
    requires |data| == |before| && index + nb <= len <= |data|
    requires data[..index] == before[..index] && data[index..len - nb] == before[index + nb..len]
    requires rec == before[..len]
    ensures data[..len - nb] == rec[..index] + rec[index + nb..]
  {
    assert rec[..index] == before[..index] && rec[index + nb..] == before[index + nb..len];
    assert data[..len - nb] == data[..index] + data[index..len - nb];
  }

  /** 64-bit units: the record grows and shrinks by an even number of words. */
  lemma WholeWords(nbits: int, nb: nat)
    requires nb % 2 == 0
    ensures (nbits + 32 * nb) % 64 == nbits % 64 && (nbits + 32 * nb) / 32 == nbits / 32 + nb
  {
  }

  lemma Outside(data: seq<Word>, cleared: seq<Word>, before: seq<Word>, lo: nat, hi: nat)
    requires |data| == |cleared| == |before| && lo <= hi <= |data|
    requires data[..lo] == cleared[..lo] && data[hi..] == cleared[hi..]
    requires forall k :: 0 <= k < lo || hi <= k < |data| ==> cleared[k] == before[k]
    ensures data[..lo] == before[..lo] && data[hi..] == before[hi..]
  {
  }
}
