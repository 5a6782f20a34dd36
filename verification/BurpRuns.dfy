/**
  Runs of the operations on a report: a block that fills the buffer, one that does not fit, and values that are put over
  those of another block.
 */
module BurpRuns {
  import opened Words
  import opened ReportBuffer
  import opened Burp
  import M = MinMax

  /** A report without blocks in a buffer of words + 9 words. */
  method NewReport(words: nat) returns (r: Report)
    requires DATA_INDEX <= words <= LARGEST
    ensures fresh(r) && fresh(r.buf) && fresh(r.buf.data) && r.Valid() && r.blocks == []
    ensures r.buf.data.Length == words && r.buf.nwords == words + HEADER_WORDS && r.buf.Len() == DATA_INDEX
  {
    var data := new Word[words];
    var buf := new Buffer(data, words + HEADER_WORDS);
    r := new Report(buf);
  }

  /** n equal values of one element. */
  function Equal(n: nat, v: Word): (s: seq<Word>)
    ensures |s| == n && forall k :: 0 <= k < n ==> s[k] == v
  {
    seq(n, k => v)
  }

  function OneElement(n: nat, nbit: nat): Request {
    Request(1, n, 1, 0, 0, nbit, 2)
  }

  /** The width for n equal values that are not negative. */
  lemma WidthOfEqual(n: nat, v: Word, nbit: nat, need: nat)
    requires n >= 1 && v < 0x8000_0000 && nbit < 32 && NeededBits(v) == need <= 32
    ensures Seen(Equal(n, v), n) == Equal(n, v)
    ensures Width(Equal(n, v), nbit, 2) == Choice(0, if nbit > need then nbit else need, 2)
  {
    hide M.MinOf, M.MaxOf, NeededBits;
    var s := SignedValues(Equal(n, v));
    M.Extremes(s);
    NonNegative(v);
    assert forall k :: 0 <= k < |s| ==> s[k] == v;
  }

  lemma NonNegative(v: Word)
    requires v < 0x8000_0000
    ensures Signed(v) == v
  {
  }

  lemma NeededForZero()
    ensures NeededBits(0) == 1
  {
  }

  lemma NeededForLargest()
    ensures NeededBits(0x7FFF_FFFF) == 32
  {
    hide BitLength, Pow2;
    Pow31();
    BitLengthFits(0x7FFF_FFFF, 31);
    BitLengthFits(0x7FFF_FFFF, 30);
    Pow2Double(31);
  }

  lemma TotalOfOne(n: nat, nbit: nat)
    ensures Total(OneElement(n, nbit)) == n && (n < GROSDIM ==> NewTailCount(OneElement(n, nbit)) == 0)
  {
  }

  /** Twelve values of 16 bits take the ten words that are left in a buffer of twenty: c_mrblen has nothing left. */
  method FillExactly() returns (r: Report, left: int)
    ensures r.Valid() && |r.blocks| == 1 && r.buf.Len() == r.buf.data.Length == 20 && left == 0
  {
    hide Report.Valid, Suits, Width, NeededBits, Seen;
    r := NewReport(20);
    r.Extent();
    NeededForZero();
    WidthOfEqual(12, 0, 16, 1);
    var err, bkno, bit0 := r.MrbAdd(OneElement(12, 16), [0, 0, 0], Equal(12, 0));
    r.Extent();
    var lbits;
    lbits, left := r.MrbLen();
  }

  /**
    36 values of 16 bits do not fit in the ten words that are left, but the header of their block does: it stays, and
    the buffer holds no report any more, though no word behind the array has been written.
   */
  method AddRefused() returns (r: Report, err: int)
    ensures err == ERR_BAD_DIM && r.buf.data.Length == 20 && !r.Valid() && r.blocks == []
  {
    hide Report.Valid, Suits, Width, NeededBits, Seen;
    r := NewReport(20);
    r.Extent();
    NeededForZero();
    WidthOfEqual(36, 0, 16, 1);
    var bkno, bit0;
    err, bkno, bit0 := r.MrbAdd(OneElement(36, 16), [0, 0, 0], Equal(36, 0));
  }

  lemma Zeros(n: nat, nbit: nat)
    requires 1 <= n < GROSDIM && 1 <= nbit < 32
    ensures var q, t := OneElement(n, nbit), Equal(n, 0);
      && Acceptable(q, [0, 0, 0], t) && WidthOf(q, t) == Choice(0, nbit, 2)
      && Total(q) == n && NewTailCount(q) == 0 && !KeepsNothing(q, t)
  {
    hide Width, Seen, NeededBits;
    NeededForZero();
    WidthOfEqual(n, 0, nbit, 1);
  }

  /** A block of n zeros is added where there is room for it. */
  method AddZeros(r: Report, n: nat, nbit: nat)
    requires r.Valid() && 1 <= n < GROSDIM && 1 <= nbit < 32 && r.buf.nwords == r.buf.data.Length + HEADER_WORDS
    requires r.buf.Len() + DIMENT + Words64(n, nbit) < r.buf.data.Length
    modifies r, r.buf, r.buf.data
    ensures r.Valid() && |r.blocks| == |old(r.blocks)| + 1 && r.blocks[..|old(r.blocks)|] == old(r.blocks)
    ensures r.buf.Len() == old(r.buf.Len()) + DIMENT + Words64(n, nbit)
    ensures IsBlockFor(r.blocks[|old(r.blocks)|], OneElement(n, nbit), [0, 0, 0], Equal(n, 0))
  {
    hide Report.Valid, IsBlockFor, Offset, Acceptable, WidthOf, Total, NewTailCount, KeepsNothing, Report.StaysInside,
      Report.AddReach, Words64, PackedLength;
    r.Extent();
    Zeros(n, nbit);
    NoWords();
    r.LeftOver(0, n, nbit);
    var err, bkno, bit0 := r.MrbAdd(OneElement(n, nbit), [0, 0, 0], Equal(n, 0));
  }

  /** Two blocks of 64 values: of one bit, and of 16 bits. */
  method TwoBlocks() returns (r: Report)
    ensures fresh(r) && fresh(r.buf) && fresh(r.buf.data) && r.Valid() && |r.blocks| == 2
    ensures r.buf.data.Length == 100 && r.buf.nwords == 109 && r.buf.Len() == 52
    ensures IsBlockFor(r.blocks[0], OneElement(64, 1), [0, 0, 0], Equal(64, 0))
  {
    hide Report.Valid, IsBlockFor;
    r := NewReport(100);
    AddZeros(r, 64, 1);
    AddZeros(r, 64, 16);
  }

  /** The block of 64 bits, and what it becomes. */
  lemma WidenedBlock(b: Block)
    requires IsBlockFor(b, OneElement(64, 1), [0, 0, 0], Equal(64, 0)) && Shaped(b)
    ensures var t := Equal(64, 0x7FFF_FFFF);
      && Count(b.h) == 64 && NewWidth(b, t) == Choice(0, 32, 2) && ExtraUnits(64, b.h.nbit + 1, 32) == 31
      && ListWords(b) <= 2 && ValueWords(WithValues(b, t)) == 64
  {
    hide Suits, NeededBits, Width, Seen, Elements;
    NeededForZero();
    WidthOfEqual(64, 0, 1, 1);
    NeededForLargest();
    WidthOfEqual(64, 0x7FFF_FFFF, 1, 32);
  }

  /** The words spliced in would go beyond the buffer; the values in the place of the old ones do not. */
  lemma NoRoomButInside(r: Report)
    requires r.Valid() && |r.blocks| == 2 && r.buf.data.Length == 100 && r.buf.nwords == 109 && r.buf.Len() == 52
    requires IsBlockFor(r.blocks[0], OneElement(64, 1), [0, 0, 0], Equal(64, 0))
    ensures var b, t := r.blocks[0], Equal(64, 0x7FFF_FFFF);
      && Count(b.h) == 64 && NewWidth(b, t).err == 0 && !r.RoomFor(b, t) && r.RepStaysInside(0, t)
      && ValuesPlace(r.blocks, 0) + ValueWords(WithValues(b, t)) - 1 <= r.buf.nwords
  {
    hide Report.Valid, IsBlockFor, Shaped, NewWidth, WithValues, ListWords, ValueWords, ExtraUnits, Count;
    r.BlockIsShaped(0);
    WidenedBlock(r.blocks[0]);
    assert r.blocks[..0] == [];
  }

  /**
    The values of the first of two blocks are replaced by values of 32 bits. There is no room for the words to be
    spliced in, but the new values end inside the buffer: no error is reported, and they stand where those of the
    second block were.
   */
  method RepOverwrites() returns (r: Report, err: int)
    ensures r.buf.data.Length == 100 && |r.blocks| == 2 && err == 0 && r.buf.Len() <= r.buf.data.Length
    ensures var b' := WithValues(r.blocks[0], Equal(64, 0x7FFF_FFFF));
      NoReport(r.buf.Rec(), r.prefix, r.blocks[0 := b']) && OverwrittenAt(r.buf.data[..], ValuesPlace(r.blocks, 0), b')
  {
    hide Report.Valid, NoReport, OverwrittenAt, IsBlockFor, NewWidth, WithValues, Report.RoomFor, Report.RepStaysInside,
      Count, ValueWords, ValuesPlace;
    r := TwoBlocks();
    NoRoomButInside(r);
    err := r.MrbRep(1, Equal(64, 0x7FFF_FFFF));
  }
}
