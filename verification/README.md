# Packing, compression and record files of the RPN library: a Dafny model

The RPN standard-file library stores meteorological fields and observation reports. Four layers of it are modelled here,
each on top of the one before, and proved to give back what was put in.

* **Bits.** `Words` has 32-bit words, shifts and masks as the C operators act on them; `BitStream` is the pair of macros
  `stuff` and `extract`, as two cursors over an array of words. A packer owns the queue of bits sent so far, a reader the
  queue of bits still to come; both are tied to the words, garbage above the pending bits included. `PackStream` and
  `CompactInteger` pack tokens of one width on top of it, the latter at any bit offset and stride.
* **Fields.** `Tiles` is the walk over a field in square tiles, `MinMax` the search for extremes. `TileMinimum` and
  `Parallelogram` code 16-bit fields, `ArmnCompress` chooses between them and replaces a field in place; `Rle` codes 0/1
  sequences; `Compress32` splits floats into signs, exponents and mantissas and codes each, and `CompressedSize` says when
  the result can be longer than the field; `FloatPacker` quantizes floats to tokens of at most 16 bits.
* **Reports.** `ReportBuffer` splices words into and out of the record a buffer holds; `Burp` keeps a report of blocks in
  it. The report is proved to refine a plain list of blocks under add, delete, replace, extract and describe. `BurpRuns`
  has runs in which a buffer is filled to its last word, or a block does not fit.
* **Files.** `XdfDirectory` and `XdfFile` are a random file: directory pages, records behind them, counters, rewrites,
  deletions and masked searches. `XdfRuns` has runs of them: searches that go on after a put, records read back after
  other puts. `XdfSequentialFile` is the sequential form, records and postfixes one behind the other with one cursor for
  searches, skips and puts; `XdfSequential` squeezes its addresses into handles.

`CombSort` is the index sort of the base library.

How values are represented: a word is an integer below 2^32, an `INT_32` that may be negative is the word of its two's
complement; a float is its sign, exponent and fraction; a disk is a map from word addresses to words. Codes are described
by ghost sequences of bits, most significant bit first. A reader takes the encoded field as a ghost parameter and promises
to return it whenever the stream starts with its code; the matching writer promises that the stream starts with that code,
so the two contracts together are the round trip. The classes have the fields of the source's structures, and ghost
fields for the list (of bits, blocks or records) that the words stand for. A method with a loop is proved against a
specification function; what that function means is said without it, of bits, words, values or list entries, in the
contracts of the operations and in lemmas, most of them with names in `Is`.

Run `dafny verify dfyconfig.toml` in this directory to check everything.

## Results that are not what one might hope

* Repacking a field with `float_packer` changes nothing more for all fields of a given largest exponent exactly when that
  exponent is 0 or at least 24 (`FloatPacker.StableExponents`); for every exponent from 1 to 23 and every width
  `FloatPacker.DenormalRangeUnstable` names a field that changes, though every token of it fits its 16 bits.
* `c_mrbadd` reports `ERR_BAD_DIM` when a block does not fit, but by then words may have been left in the buffer: the
  report is still one exactly when the block has no list behind its header and not even the header fitted
  (`Burp.Report.MrbAdd`; a buffer that is left without a report: `BurpRuns.AddRefused`).
* `c_mrbrep` does not look at the result of `c_xdfins`: when wider values do not fit, the buffer holds no report with the
  new block at all. The error is then that of `c_xdfrep`: there is none when the wider values would end inside the buffer,
  in which case they stand where blocks behind had their words (`Burp.Report.MrbRep`; such a call:
  `BurpRuns.RepOverwrites`).
* `c_mrbadd` accepts a width of 0, and `burp_nbit_datyp` raises it to what the values need, except when all values are
  missing: then it stays 0, the header says 32 bits, and no words are added. The call succeeds, but the buffer holds no
  report with such a block (`Burp.Report.MrbAdd`, by `Burp.KeepsNothing`: width 0, at least one value, all of them -1).
* A buffer of `nwords` words has nine of them before its data, but `c_xdfins`, `c_xdfadd` and `c_xdfrep` compare a length
  of data with `nwords`, and the list of a new block is written unchecked. `Burp.Report.LeftOver` says for which sizes
  `c_mrbadd` writes a word behind the array, and for which it does not: a block may take all the words that `c_mrblen`
  has left (`BurpRuns.FillExactly`), except that one without values may need a word more.
* `c_xdfcut` writes the word behind the record, and `c_xdfins` too when it moves words, so `c_mrbdel` leaves the array of a
  report that fills it: `Burp.Report.MrbDel` requires a word behind the record when the block exists.
* The mantissa packer looks at the space left only after a tile with errors. All compressed fields that are accepted are
  no longer than the ni * nj * znbits / 32 words of the field if and only if znbits is at least 13 and the last tile has
  errors (`CompressedSize.NeverLonger`): for every smaller znbits, and for every znbits when the last tile has none, the
  module builds a field that is accepted and longer (`CompressedSize.FloatsOverlong`).
* Records of type 126 are accepted and found by searches, but reading, rewriting and deleting treat them as deleted
  (`XdfFile.FoundButDeleted`).
* Decompressing a field of an even number of tokens overwrites the word behind it (`ArmnCompress.Uncompress`).
* The comment on `stuff` speaks of masking the pending word; its mask `-1 >> k` is an arithmetic shift and masks nothing.
  The queue does not depend on it (`BitStream.BitPacker.Stuff`).
* `c_xdfput` moves the current page and entry of a search, and not always its page number. A search continued after a
  put has no position unless the put left the file at the entry the search had come to on its page
  (`XdfRuns.PutAndSearchOn`). Where it goes on, the handles it gives name the entries found if and only if the page number
  is that of the page on its twelve bits (`XdfRuns.HandleIsRight`). After a put the two are the same if and only if the
  record went to the end, to a page that was there already, or was rewritten in place on the page with the current number
  (`XdfRuns.PageNumberAfterPut`). `XdfRuns.SearchPastTheEnd` is a run on a file of two pages that ends with a handle of
  page 2, from which a further search would take a page that is not there.

* In a sequential file the cursor of searches is also where `c_xdfput` writes: a put after a search that found a record
  goes behind that record, and all the records behind it are lost (`XdfSequentialFile.FindAndPut`).
* `c_xdfdel` gives a record of a sequential file the type 255, which `next_match` takes for the end of the file: of the
  records a search found before, those before the deleted one are found and no others
  (`XdfSequentialFile.DeletionHides`). `c_fstskp` passes over it. Types from 112 to 126, which `c_xdfput` accepts, end
  searches and skips alike (`XdfSequentialFile.SequentialFile.NextMatch`, `Skip`).
* In a sequential file that has just been created `c_fstskp` takes the end of the file header for a postfix when it is to
  step back from the first record, and reports `ERR_NO_POSTFIX`; in one opened again it stays where it is. So skipping
  forward and back ends where it began exactly when no mark was met, or at the first record of a file opened again
  (`XdfSequentialFile.SequentialFile.SkipThereAndBack`).

## Model

| member | source | states |
|---|---|---|
| BitStream.BitPacker.Stuff | sources/src/RPN/compiler_includes/rpnmacros.h:252-273 | whatever stands above the pending bits, the queue of sent bits grows by exactly the bits of the token, and the slot and the space move on as the macro says |
| BitStream.BitPacker.Flush | sources/src/rmn/compresseur/armn_compress_32.c:1139-1142 | two zero tokens of 16 bits emit exactly the last pending word, padded with zeros, and no further one |
| BitStream.BitUnpacker.Extract | sources/src/RPN/compiler_includes/rpnmacros.h:175-203 | the token is the value of the first bits of the unread queue, which loses just those bits, also across word boundaries |
| BitStream.QueueIsFifo | sources/src/RPN/compiler_includes/rpnmacros.h:175-273 | first in, first out: tokens of any list of widths come back, in order, to readings of the same widths, whatever bits follow |
| BitStream.FieldsOfFlat | sources/src/RPN/compiler_includes/rpnmacros.h:175-273 | tokens sent with a width and read with the same width are the same tokens in the same order, whatever bits follow |
| PackStream.PackStreamNbits | sources/src/rmn/compresseur/armn_compress_32.c:1123-1145 | the stream starts with the tokens in order, the length is the bytes of their words and one more, other words are left alone |
| PackStream.UnpackStreamNbits | sources/src/rmn/compresseur/armn_compress_32.c:1147-1167 | any stream that starts with the tokens gives them back |
| CompactInteger.PackBit | sources/src/rmn/packers/compact_integer.c:104-135 | one biased token per strided value joins the queue |
| CompactInteger.Squeeze | sources/src/rmn/packers/compact_integer.c:104-135 | the last bits enter the array and every bit behind them stays |
| CompactInteger.Pack32Bit | sources/src/rmn/packers/compact_integer.c:70-103 | whole words stored on a word boundary are the same bits as the general loop would send |
| CompactInteger.Pack | sources/src/rmn/packers/compact_integer.c:137-185 | at any bit offset, stride and width the array becomes its old bits with exactly [offset, offset + n * b) replaced by the tokens |
| CompactInteger.Unpack | sources/src/rmn/packers/compact_integer.c:246-304 | the strided elements of the target become the values of the fields found at the offset, all other elements stay |
| CompactInteger.TokenIs | sources/src/rmn/packers/compact_integer.c:137-185 | a value that its width can carry has itself as token, or, when signed, its distance from the least value of that width |
| CompactInteger.ValueOfToken | sources/src/rmn/packers/compact_integer.c:137-304 | a single value comes back from its token if and only if it is representable in b bits, unsigned or signed |
| CompactInteger.PackedElsewhere | sources/src/rmn/packers/compact_integer.c:137-185 | packing changes no bit outside [offset, offset + n * b) |
| CompactInteger.UnpackInvertsPack | sources/src/rmn/packers/compact_integer.c:137-304 | unpacking what packing left in the array gives back all values if and only if all are representable |
| Tiles.AtDistinct | sources/src/rmn/compresseur/c_zfstlib.c:631-734 | the index macro sends different cells to different places |
| Tiles.AtSurjective | sources/src/rmn/compresseur/c_zfstlib.c:631-734 | every place of a field is that of a cell |
| Tiles.PutTilesCell | sources/src/rmn/compresseur/c_zfstlib.c:758-823 | the tile walk writes every cell from its origin on, and no other |
| Tiles.TilesCount | sources/src/rmn/compresseur/c_zfstlib.c:655-734 | the tiles have together as many cells as the field has from the origin on |
| Tiles.TilesAtStarts | sources/src/rmn/compresseur/c_zfstlib.c:655-734 | the tiles of the walk are those that start at its loop positions, in that order |
| Tiles.TilesPartition | sources/src/rmn/compresseur/c_zfstlib.c:655-734 | no cell is in two tiles of the walk, and a cell is in one if and only if it lies at or beyond the origin |
| Tiles.CellOfTile | sources/src/rmn/compresseur/c_zfstlib.c:655-734 | cell (m, n) of a tile is number n * width + m in its list, for every size of tile |
| Tiles.TileStartAt | sources/src/rmn/compresseur/c_zfstlib.c:655-734 | tile y * cols + x of the walk starts x steps along and y steps down from the origin |
| TileMinimum.WidthCodeFits | sources/src/rmn/compresseur/c_zfstlib.c:655-734 | the width code of a tile fits its 4 bits and every offset fits the width the code stands for |
| TileMinimum.TileCodeIs | sources/src/rmn/compresseur/c_zfstlib.c:655-734 | with w the least number of bits that holds the difference of any two values of the tile: w on four bits, the least value, and the offsets on w bits each; or 15 and the values on 16 bits when w is 15 or 16; and the length of that |
| TileMinimum.PackTokensMinimum | sources/src/rmn/compresseur/c_zfstlib.c:631-734 | the stream holds the header and then the code of the field, tile by tile; the length is that of its words |
| TileMinimum.UnpackTokensMinimum | sources/src/rmn/compresseur/c_zfstlib.c:758-823 | a stream that starts with the code of a field gives back that field, for every shape, tile step and width of 1 to 16 bits |
| TileMinimum.TileCost | sources/src/rmn/compresseur/c_zfstlib.c:655-734 | no tile costs more than 24 bits per cell |
| TileMinimum.FieldFits | sources/src/rmn/compresseur/c_zfstlib.c:85-145 | with at least two rows and columns the packed field and its header fit one word per value, the scratch area given to it |
| Parallelogram.WidthCodeFits | sources/src/rmn/compresseur/c_zfstlib.c:828-1030 | the container chosen holds every width code and every prediction error fits the width its code stands for, for all three copies |
| Parallelogram.TileCodeIs | sources/src/rmn/compresseur/armn_compress_32.c:540-605 | with w the least number of bits that holds the magnitude of any error of the tile: w in the container, and the errors on w + 1 bits each, none when w is 0; for shorts 15 stands for 15 and 16; and the length of that |
| Parallelogram.ContainerIsLeast | sources/src/rmn/compresseur/c_zfstlib.c:896-911 | the codes of shorts take five bits exactly when an error takes 17 |
| Parallelogram.ExactPrediction | sources/src/rmn/compresseur/c_zfstlib.c:879-886 | all errors are zero exactly for the fields in which every cell is the sum of what its row and its column begin with, less the corner |
| Parallelogram.FieldCodeIs | sources/src/rmn/compresseur/c_zfstlib.c:919-945 | a field is sent as the container, the first row and the rest of the first column in order, and the tiles of errors |
| Parallelogram.AffordableIs | sources/src/rmn/compresseur/armn_compress_32.c:590-605 | the packer gives up exactly when, after some tile with errors, the words completed, one more and a reserve for such a tile exceed the space |
| Parallelogram.PackTokensParallelogram | sources/src/rmn/compresseur/c_zfstlib.c:828-1030 | the stream holds the header and then the code of the field: container, borders, and tiles of prediction errors |
| Parallelogram.UnpackTokensParallelogram | sources/src/rmn/compresseur/c_zfstlib.c:1034-1135 | a stream that starts with the code of a field gives back that field, cell by cell rebuilt from its neighbours |
| Parallelogram.PackTokensAt | sources/src/rmn/compresseur/armn_compress_32.c:495-617 | the copies for exponents and mantissas write the same code from a slot on, needing room for just the bits they send; the mantissa packer gives up exactly when its budget of words is exceeded |
| Parallelogram.BudgetKept | sources/src/rmn/compresseur/armn_compress_32.c:590-605 | a mantissa packer that does not give up leaves a word of its budget unused when the last tile has errors |
| Parallelogram.ExtractField | sources/src/rmn/compresseur/armn_compress_32.c:619-704 | the readers for exponents and mantissas give back the field whose code the stream starts with |
| Parallelogram.Rebuild | sources/src/rmn/compresseur/c_zfstlib.c:1110-1135 | adding each error to the prediction from cells already rebuilt restores every interior cell, in 16-bit, 8-bit or 32-bit arithmetic |
| Parallelogram.FieldCost | sources/src/rmn/compresseur/c_zfstlib.c:828-1030 | a packed field costs at most 23, 14 or 30 bits per cell, for shorts, exponents and mantissas, beyond its first token |
| FstzipHeader.FromToWord | sources/src/rmn/compresseur/zfstlib.h:41-48 | the fields of the header word are independent and come back from it |
| ArmnCompress.SwappedTokens | sources/src/rmn/compresseur/c_zfstlib.c:135-145 | exchanging the halves of each word makes the packed tokens and the array of shorts the same sequence |
| ArmnCompress.TokensOfStream | sources/src/rmn/compresseur/c_zfstlib.c:135-145 | the tokens of a field are those of a stream of 16 bits each, in order |
| ArmnCompress.StreamFits | sources/src/rmn/compresseur/c_zfstlib.c:131-190 | whichever form is chosen, header and stream fit the scratch buffer |
| ArmnCompress.CFstZip | sources/src/rmn/compresseur/c_zfstlib.c:250-293 | the scratch buffer gets the header of the form chosen and the code of the shorts of the field |
| ArmnCompress.CFstUnzip | sources/src/rmn/compresseur/c_zfstlib.c:298-330 | the header alone tells the reader form, step and width, and the field comes back |
| ArmnCompress.Compress | sources/src/rmn/compresseur/c_zfstlib.c:120-207 | -1 exactly when shape or width is refused or 4 + 4 * (words of the code) bytes are not less than 2 * ni * nj * nk, and then the field is untouched; otherwise a header word PARALLELOGRAM, degree 1, step 3 exactly when level is not 0, the field has at least 16 rows and columns and the tokens more than 4 bits, else MINIMUM, degree 0, step 5, with the width given; and behind it that code of the tokens |
| ArmnCompress.Uncompress | sources/src/rmn/compresseur/c_zfstlib.c:208-241 | the tokens of the field that was compressed are back in place; for an even number of tokens the word behind them is overwritten, and no word behind that |
| Rle.EncodeDecodes | sources/src/rmn/compresseur/armn_compress_32.c:930-1026 | the tokens chosen by scanning runs lead a reader exactly to the end and stand for the whole sequence, an escape only ever repeating the value of the run before it |
| Rle.EncodeIsChosen | sources/src/rmn/compresseur/armn_compress_32.c:930-1026 | at every position a literal of seven values, or of the rest, where fewer than 8 values are equal; else a run of them, of at most 62; an escape exactly where more than 256 are equal and a run of 62 or an escape for the same values came before |
| Rle.TokenBits | sources/src/rmn/compresseur/armn_compress_32.c:930-1026 | a literal is a zero and its values, a run a byte of a one, its value and six bits of count, an escape a byte of ones |
| Rle.Pack1BitRLE | sources/src/rmn/compresseur/armn_compress_32.c:930-1026 | the stream starts with the code of those tokens, in just the room that code needs, and the length is that of its words |
| Rle.Unpack1BitRLE | sources/src/rmn/compresseur/armn_compress_32.c:1028-1087 | whatever list of tokens covers the sequence, reading its code gives what the tokens stand for and writes nothing behind it |
| Rle.CodeCost | sources/src/rmn/compresseur/armn_compress_32.c:930-1026 | tokens that cover n values cost at most 8 bits for every 7 values |
| Rle.SignStreamIsShort | sources/src/rmn/compresseur/armn_compress_32.c:195-201 | from 256 values on the coded signs take at most a quarter of a byte per value, so the unpacked form is never chosen |
| Compress32.AssembledFromParts | sources/src/rmn/compresseur/armn_compress_32.c:325-468 | sign, exponent and leading mantissa bits put together are the value without its low mantissa bits |
| Compress32.TruncatedKeeps | sources/src/rmn/compresseur/armn_compress_32.c:65-301 | at 32 bits that is the value itself; below, sign, exponent and leading mantissa bits are kept and just the low bits are zero |
| Compress32.PartsAre | sources/src/rmn/compresseur/armn_compress_32.c:65-301 | signs are packed exactly when two of them differ; sign, exponent and mantissa are the top bit, eight bits and the leading bits of the rest |
| Compress32.ExponentsLeast | sources/src/rmn/compresseur/armn_compress_32.c:65-301 | the base is the least exponent, and the width the least that holds every exponent less the base |
| Compress32.Sizes | sources/src/rmn/compresseur/armn_compress_32.c:65-301 | bounds on the three streams for every field and width, and on the buffer that is always enough for them |
| Compress32.NoLongerThanField | sources/src/rmn/compresseur/armn_compress_32.c:590-605 | an accepted field of at least 13 bits whose last tile has errors is no longer than ni * nj * znbits / 32 words; for any accepted field that is so when the mantissas leave a word of their space |
| CompressedSize.NeverLonger | sources/src/rmn/compresseur/armn_compress_32.c:65-301 | for each znbits, and for last tiles with or without errors: all accepted fields are no longer than ni * nj * znbits / 32 words if and only if znbits is at least 13 and the last tile has errors |
| CompressedSize.FloatsOverlong | sources/src/rmn/compresseur/armn_compress_32.c:65-301 | floats with checkered exponents, and mantissas that are checkered in some bands of tiles and plain in the others, are accepted and yet longer when the bits up to the last checkered band keep within the test of the packer and all bits do not |
| CompressedSize.CheckeredCode | sources/src/rmn/compresseur/armn_compress_32.c:495-617 | the exact length of the code of a checkerboard, of exponents and of mantissas |
| CompressedSize.CheckeredAffordable | sources/src/rmn/compresseur/armn_compress_32.c:590-605 | the mantissa packer does not give up on a checkerboard when its test passes for the last tile with errors |
| Compress32.Compress | sources/src/rmn/compresseur/armn_compress_32.c:65-301 | in any buffer that holds the words written: -1 exactly for fewer than 16 rows or columns, exponents that take more than a byte a value, or mantissas over budget; otherwise the header words, field by field, the sign, exponent and mantissa streams and their lengths in words stand at the words counted out from what precedes them, and the length is that of the whole |
| Compress32.LayoutOfCopy | sources/src/rmn/compresseur/armn_compress_32.c:325-468 | any array that has the first zlng bytes is as good to the reader as the buffer written |
| Compress32.Uncompress | sources/src/rmn/compresseur/armn_compress_32.c:325-468 | every value of a field laid out like that, in an array no longer than the length reported, comes back, less the mantissa bits that compression drops |
| Compress32.StoreAndRead | sources/src/rmn/compresseur/armn_compress_32.c:65-468 | compression, a copy of just the reported bytes, and decompression of the copy give back every value less its dropped bits, unless the field is refused |
| FloatPacker.Extremes | sources/src/rmn/packers/float_packer.c:117-124 | the extremes found bound every value of the field |
| FloatPacker.ShiftForIsLeast | sources/src/rmn/packers/float_packer.c:147-156 | the shift is the least that brings the range under the mask |
| FloatPacker.MantissaIs | sources/src/rmn/packers/float_packer.c:127-145 | the mantissa is the fraction with its hidden bit, divided by 2 for each step of exponent up to 31, with its sign; an extreme of exponent 0 counts as 0 |
| FloatPacker.TokenIsNearest | sources/src/rmn/packers/float_packer.c:160-178 | for a value not below the minimum no level from 0 to the mask is nearer than that of its token, and an equally near one is not higher |
| FloatPacker.PackIs | sources/src/rmn/packers/float_packer.c:107-182 | for every finite field: the largest exponent, minimum and shift from the mantissas of two values that bound all others, and a token for each value in order |
| FloatPacker.ValueIs | sources/src/rmn/packers/float_packer.c:71-91 | the value of a token is the minimum and so many quanta, held to 24 bits, times the power of two of the exponent |
| FloatPacker.CFloatPacker | sources/src/rmn/packers/float_packer.c:107-182 | header and stream hold the block of the field, two tokens to a word, or -1 and nothing for a width out of range; where no zero can be taken for a number with a hidden bit, the words say: the largest exponent, the least mantissa, the least shift that brings all mantissas less that under the mask, and for every value a token whose level is nearest to its mantissa, the higher of two |
| FloatPacker.CFloatUnpacker | sources/src/rmn/packers/float_packer.c:200-216 | the block that header and stream hold is unpacked, exactly when the magic number and the count are right |
| FloatPacker.FloatUnpacker1 | sources/src/rmn/packers/float_packer.c:50-105 | every token becomes the float of its mantissa; a wrong count is reported as a difference and nothing is written |
| FloatPacker.HeaderAndStream | sources/src/rmn/packers/float_packer.c:50-182 | for every finite field the words written pass the checks of the unpacker, which finds exponent, shift and minimum of the block and the tokens of its words |
| FloatPacker.HeaderAndStreamCarryTheBlock | sources/src/rmn/packers/float_packer.c:50-182 | header and stream carry the whole block when the largest exponent is at least 24 or no value has exponent 0 |
| FloatPacker.SubtractIsExact | sources/src/rmn/packers/float_packer.c:86-95 | removing a bogus hidden bit by a float subtraction is exact |
| FloatPacker.QuantizationError | sources/src/rmn/packers/float_packer.c:160-178 | no value moves up by more than half a quantum nor down by a whole one, the mask and the clip included |
| FloatPacker.PackIsQuantize | sources/src/rmn/packers/float_packer.c:107-182 | minimum, shift and tokens of a block are those of quantizing the mantissas, whose extremes are those of the values |
| FloatPacker.FloatError | sources/src/rmn/packers/float_packer.c:50-182 | every float comes back within a quantum and one unit of the largest exponent, and upwards within half a quantum and one unit |
| FloatPacker.IntegerStable | sources/src/rmn/packers/float_packer.c:107-182 | quantized mantissas are left alone by quantization, also when the exponent drops by one or the clip has fired |
| FloatPacker.NoZeroWhenDropping | sources/src/rmn/packers/float_packer.c:107-182 | when the largest exponent drops, no quantized value is zero |
| FloatPacker.RepackStable | sources/src/rmn/packers/float_packer.c:50-182 | what comes back from the words written for a field comes back again unchanged from the words written for it, if the largest exponent is 0 or at least 24 |
| FloatPacker.DenormalRangeUnstable | sources/src/rmn/packers/float_packer.c:141-149 | for every exponent from 1 to 23 and every width there is a field that is changed by repacking, although both times all tokens fit |
| FloatPacker.StableExponents | sources/src/rmn/packers/float_packer.c:50-182 | what comes back from the words is stable for all fields of a largest exponent if and only if it is 0 or at least 24 |
| FloatPacker.PackAndUnpack | sources/src/rmn/packers/float_packer.c:107-216 | one call of packer and unpacker on header and stream leaves what the words of the field stand for, all of it finite |
| FloatPacker.RepackingCycles | sources/src/rmn/packers/float_packer.c:326-347 | after a first cycle any number of further ones is that many applications of the cycle, and leaves the values as the first one did when the largest exponent was 0 or at least 24 |
| ReportBuffer.Buffer.Ins | sources/src/rmn/fstd98/xdf98.c:1541-1629 | the record opens at the position and takes the words in, or reports a bad address or a full buffer and is unchanged; no word behind the one after the record changes, and that one only when words are moved |
| ReportBuffer.Buffer.Cut | sources/src/rmn/fstd98/xdf98.c:963-992 | the record closes over the words at the position; words read behind the array are arbitrary and do not stay in it |
| ReportBuffer.Buffer.Add | sources/src/rmn/fstd98/xdf98.c:713-788 | the record grows by words that hold the values, or reports a full buffer and is unchanged; nothing behind the last word of a value changes |
| ReportBuffer.Buffer.Rep | sources/src/rmn/fstd98/xdf98.c:2637-2723 | the words at the position hold the new values and all others stay |
| ReportBuffer.Buffer.Xtr | sources/src/rmn/fstd98/xdf98.c:3156-3225 | the words at the position, as they are |
| ReportBuffer.Buffer.XtrIntegers | sources/src/rmn/fstd98/xdf98.c:3156-3225 | the values of the fields at the position, and nothing else of the target |
| ReportBuffer.PackedWords | sources/src/rmn/fstd98/xdf98.c:2637-2723 | packing at a word boundary touches only the words of the region, which then hold the values |
| ReportBuffer.FieldsOfRegion | sources/src/rmn/fstd98/xdf98.c:3156-3225 | a region that holds values, found anywhere in the record, gives them back |
| Burp.WidthSuits | sources/src/rmn/fstd98/burp98.c:234-304 | the width and type chosen let every value come back from its token, missing values included, and never shrink the width asked for; the width is 0 exactly when 0 was asked for and all values are missing |
| Burp.WidthIsBest | sources/src/rmn/fstd98/burp98.c:234-304 | said of the values alone: signed exactly when asked for or a value is below -1; wide enough for every value that is not missing, all ones excepted; no wider than asked for or needed by some value; refused exactly when signed values would need 32 bits |
| Burp.BurpNbitDatyp | sources/src/rmn/fstd98/burp98.c:234-304 | the loops find that least width and type, or the compression error exactly for signed values that need 32 bits |
| Burp.FromToWords | sources/src/rmn/fstd98/qstdir.h:558-572 | each field of a block header stands at its bit of its word, and comes back from there |
| Burp.HeaderIs | sources/src/rmn/fstd98/burp98.c:485-507 | the dimensions are in the small fields when all of them fit, else the large form is flagged and they are in the fields of the elements; the halves of bfam are exchanged |
| Burp.Locate | sources/src/rmn/fstd98/burp98.c:1014-1087 | in the record of a report, header and region of block k stand where its number and its offset say |
| Burp.Appended | sources/src/rmn/fstd98/burp98.c:428-568 | list, header and values put at their places make the record of the report with one block more |
| Burp.Deleted | sources/src/rmn/fstd98/burp98.c:584-647 | three cuts and the correction of the offsets behind make the record of the report without the block |
| Burp.ShiftOffsets | sources/src/rmn/fstd98/burp98.c:625-640 | the loop moves the offset of every block behind by the same units, and changes no other word |
| Burp.ReplacedAt | sources/src/rmn/fstd98/burp98.c:913-996 | wider values spliced in, with the offsets behind moved, make the record of the report with the block replaced |
| Burp.NewBlockIs | sources/src/rmn/fstd98/burp98.c:913-996 | a block given other values changes in values, width and type only, and the width is the least that suits them and is not below the old one |
| Burp.ExtraUnitsBound | sources/src/rmn/fstd98/burp98.c:940-975 | the units spliced in are exactly what the new width needs beyond the old one |
| Burp.Report.constructor | sources/src/rmn/fstd98/burp98.c:428-568 | a buffer with keys and nothing else is the report of no blocks |
| Burp.Report.MrbAdd | sources/src/rmn/fstd98/burp98.c:428-568 | the exact error; on success the list of blocks has one more at its end, with the elements and values given on the least width that suits them, in the small form exactly when the dimensions fit it, and its number and offset are returned, unless no bits were asked for and all values are missing: then the record is that of no report with such a block; on failure the report is unchanged, or is still one exactly when no word was left behind; no word beyond the reach of the block changes |
| Burp.NoValues | sources/src/rmn/fstd98/burp98.c:485-555 | a record that got the header of a block on 32 bits, its list and no values is the record of no report with that block |
| Burp.Report.MrbLen | sources/src/rmn/fstd98/burp98.c:744-752 | the bits used and the bits left, nine words of the buffer not counted |
| Burp.Report.LeftOver | sources/src/rmn/fstd98/xdf98.c:724-734 | a block of at most the words c_mrblen has left is added inside the array and accepted, save that a header without values must leave a word when words are moved; and the exact sizes for which a word behind the array is written |
| Burp.Report.MrbDel | sources/src/rmn/fstd98/burp98.c:584-647 | the list of blocks without the one named, every other block keeping its elements and values under its new number; an unknown number is an error and changes nothing |
| Burp.Report.MrbRep | sources/src/rmn/fstd98/burp98.c:913-996 | the list with the values of one block replaced, width growth included; when the buffer cannot take them, the buffer holds no such report, the error is that of the last step alone, and without an error there are blocks behind and the values stand where their words were |
| Burp.Report.MrbXtr | sources/src/rmn/fstd98/burp98.c:1014-1087 | elements and values of the block, missing values as all ones, nothing else of the targets |
| Burp.Report.MrbPrm | sources/src/rmn/fstd98/burp98.c:866-895 | the dimensions, type, width and family of the block, and its offset: the sizes of the blocks before it |
| BurpRuns.FillExactly | sources/src/rmn/fstd98/burp98.c:428-568 | twelve values of 16 bits fill a buffer to its last word, and c_mrblen then has nothing left |
| BurpRuns.AddRefused | sources/src/rmn/fstd98/burp98.c:528-555 | a block whose header fits and whose values do not: the error is ERR_BAD_DIM and the buffer holds no report any more |
| BurpRuns.RepOverwrites | sources/src/rmn/fstd98/burp98.c:955-996 | wider values that do not fit are put over those of the second block, and no error is reported |
| XdfDirectory.HandleRoundTrip | sources/src/rmn/fstd98/qstdir.h:197-206 | page, record and file number come back from a handle |
| XdfDirectory.Locate | sources/src/rmn/fstd98/xdf98.c:2386-2616 | entry n of the flattened directory is record n mod 256 of page n / 256 |
| XdfDirectory.EntriesApart | sources/src/rmn/fstd98/xdf98.c:2386-2616 | the extents of two records never overlap |
| XdfDirectory.EveryWordCovered | sources/src/rmn/fstd98/xdf98.c:2386-2616 | every word from the header to nxtadr belongs to a directory page or to a record: there is no gap |
| XdfDirectory.HitsAreTheMatches | sources/src/rmn/fstd98/xdf98.c:3575-3641 | the hits are the live entries that match under the mask, each once, in order |
| XdfDirectory.HitsFromNext | sources/src/rmn/fstd98/xdf98.c:3575-3641 | searching from a place finds the first hit, and going on behind it the rest |
| XdfDirectory.CompareWords | sources/src/rmn/fstd98/xdf98.c:3617-3625 | found exactly when every bit that the mask selects, in every word of the entry, is that of the target |
| XdfDirectory.MatchesBits | sources/src/rmn/fstd98/xdf98.c:3617-3630 | the masked differences are all zero exactly when each bit the mask selects agrees, in each word |
| XdfDirectory.ReplacedKeeps | sources/src/rmn/fstd98/xdf98.c:2386-2616 | an entry replaced by one of the same extent keeps directory and tiling, and changes one entry of the list |
| XdfDirectory.AppendedKeeps | sources/src/rmn/fstd98/xdf98.c:2386-2616 | a record at nxtadr keeps directory and tiling, and adds one entry to the list |
| XdfDirectory.ChainedKeeps | sources/src/rmn/fstd98/xdf98.c:143-197 | a page linked behind the last one keeps directory and tiling, and the list as it is |
| XdfFile.RandomFile.constructor | sources/src/rmn/fstd98/xdf98.c:3246-3318 | a created file is valid, with one page and no entries; its header and its empty page are on the disk |
| XdfFile.RandomFile.AddDirPage | sources/src/rmn/fstd98/xdf98.c:143-197 | the exact error; a new empty page at the end, linked from the one before and on the disk at the old end of the file, with no record disturbed |
| XdfFile.PageImageIs | sources/src/rmn/fstd98/xdf98.c:143-197 | a new page on the disk is its length in units, its address, and zeros |
| XdfFile.RandomFile.XdfDel | sources/src/rmn/fstd98/xdf98.c:1009-1103 | the exact error; the entry is marked in place, nrec falls, neff and the explicit deletions rise, everything else stays |
| XdfFile.RecordErrorIs | sources/src/rmn/fstd98/xdf98.c:1042-1085 | the error of a handle, code by code: no such page, no such record, no record there, or a type of 126, 127, 254 or 255 |
| XdfFile.RandomFile.XdfPut | sources/src/rmn/fstd98/xdf98.c:2386-2616 | the exact error; append, rewrite in place or rewrite to the end as an operation on the list of entries, the words of the new record on the disk, the words of every other record unchanged, and directory, tiling and counters valid: nxtn entries, nrec live, neff less nrwr explicit deletions, nbig the longest; current page, page number and entry are those of the last look-up, rewrite or append, and the place of the search is kept |
| XdfFile.RandomFile.PutErrorIs | sources/src/rmn/fstd98/xdf98.c:2409-2523 | the error of a put, code by code, from length, mode, handle, the entry named and a directory of 1024 full pages |
| XdfFile.RandomFile.StaysIff | sources/src/rmn/fstd98/xdf98.c:2428-2512 | a rewritten record stays in its place exactly when the handle is positive and names an entry of its length |
| XdfFile.PutIs | sources/src/rmn/fstd98/xdf98.c:2537-2609 | after a put the entry of the record, the last or the one rewritten, has its type, length and keys, and its words are on the disk, length and address in the first two; a record rewritten to the end has type 254 where it was; every other entry, and its words, are as before |
| XdfFile.RandomFile.PutCursorIs | sources/src/rmn/fstd98/xdf98.c:2458-2532 | after a put the file stands at the entry of the record: the one rewritten in place, or the one behind all there were |
| XdfFile.RandomFile.XdfGet | sources/src/rmn/fstd98/xdf98.c:1140-1263 | the exact error; else the words that the disk holds for the entry the handle names, all of them or, with a negative count, those behind the keys, followed by zeros; nothing else of the target |
| XdfFile.RandomFile.GetErrorIs | sources/src/rmn/fstd98/xdf98.c:1187-1225 | beyond the errors of the handle, a bad dimension exactly when a negative count comes without -1 for the bits, or the record has more words than the count and one |
| XdfFile.FoundButDeleted | sources/src/rmn/fstd98/xdf98.c:1499-1503 | a stored record of any type accepted is found by the searches it matches, and refused as deleted by reads, rewrites and deletions exactly when its type is 126 |
| XdfFile.EntryIsHeadOfRecord | sources/src/rmn/fstd98/xdf98.c:2572-2584 | the directory entry repeats the first words of the stored record |
| XdfFile.RandomFile.NextMatch | sources/src/rmn/fstd98/xdf98.c:3575-3641 | the first live match at or behind the cursor in the flattened directory, or not found; the cursor stands behind it |
| XdfFile.RandomFile.XdfLoc2 | sources/src/rmn/fstd98/xdf98.c:1737-1857 | the exact error; else the next match behind the record of the handle, from the start, or from the cursor, whatever put or search came before |
| XdfFile.RandomFile.PositionErrorIs | sources/src/rmn/fstd98/xdf98.c:1764-1825 | the error of a search before it starts, code by code |
| XdfFile.RandomFile.SearchedIs | sources/src/rmn/fstd98/xdf98.c:1737-1857 | what a search finds, bit by bit: the first live entry, behind the one the handle names, from the start, or from the cursor on, that has the bits of the target under the mask; or there is none |
| XdfFile.RandomFile.SearchAll | sources/src/rmn/fstd98/xdf98.c:1737-1857 | a search from handle 0, repeated until not found, gives the handles of the hits in page and record order; the handle of an entry is among them exactly when its type is below 127 and every bit of its words that the mask selects is that of the keys |
| XdfFile.HandleNamesEntry | sources/src/rmn/fstd98/qstdir.h:197-206 | the handle of entry m names entry m, for all entries a directory can hold |
| XdfRuns.PutOthersAndGet | sources/src/rmn/fstd98/xdf98.c:1140-1263 | a record put and then read, after any list of other puts, new ones and rewrites, successful or not, is the record put: its type and its length in the first word, its address in the second, its own words behind |
| XdfRuns.PutAndSearchOn | sources/src/rmn/fstd98/xdf98.c:1737-1857 | a search continued after a put has no position if and only if the put left no page number or not the entry the search had come to on that page; else it finds the next match from there, and the handle names it if and only if the page number is that of the page on twelve bits |
| XdfRuns.HandleIsRight | sources/src/rmn/fstd98/xdf98.c:3575-3641 | a handle that a search gives names the entry found if and only if the page number and the page agree on twelve bits; a search from it takes a page that is not there if and only if the page number has come to the number of pages |
| XdfRuns.PageNumberAfterPut | sources/src/rmn/fstd98/xdf98.c:2440-2516 | after a successful put the page number is that of the current page if and only if the record went to the end, to a page that was there already, or was rewritten in place on the page with the current number |
| XdfRuns.SearchPastTheEnd | sources/src/rmn/fstd98/xdf98.c:3575-3641 | a run on a file of two pages: a search, a rewrite on the other page and the search continued give a handle of page 2, which names no record |
| XdfSequential.NextIsAligned | sources/src/rmn/fstd98/xdf98.c:2546-2562 | the address of the next record is aligned to the cluster of its own range, also across a threshold |
| XdfSequential.SeqHandleIs | sources/src/rmn/fstd98/xdf98.c:3525-3560 | the fields of a handle: file number, address in steps of 1, 4, 16 or 64 units, and which of the four ranges it is in |
| XdfSequential.HandleRoundTrip | sources/src/rmn/fstd98/xdf98.c:3525-3560 | below 2^28 units a handle gives back the address if and only if the address is aligned |
| XdfSequentialFile.SequentialFile.constructor | sources/src/rmn/fstd98/xdf98.c:3246-3318 | a created file is its header and no records, with the cursor behind it and searches starting at word 1 |
| XdfSequentialFile.SequentialFile.Reopen | sources/src/rmn/fstd98/xdf98.c:1975-2076 | a file opened again has the records it had; searches start at the first of them, and so does the cursor |
| XdfSequentialFile.SequentialFile.Append | sources/src/rmn/fstd98/xdf98.c:2520-2606 | the exact error; else, with the cursor at record k, the first k records stay as they are on the disk, and behind them come the new one, lengthened so that the next address is aligned, its postfix and the end mark; nrec, nxtn, fsiz and nbig count it |
| XdfSequentialFile.PutIsLaid | sources/src/rmn/fstd98/xdf98.c:2564-2606 | the three writes of a put leave file header, records before it, postfixes and end mark on the disk |
| XdfSequentialFile.PutTraceIs | sources/src/rmn/fstd98/xdf98.c:2564-2606 | word by word behind the record put: 2, all ones, its first two words; then the mark of type 127 and its address in units; what lies before the record is untouched |
| XdfSequentialFile.SequentialFile.NextMatch | sources/src/rmn/fstd98/xdf98.c:3643-3784 | from the file header, a record or a postfix: the first record that matches, with the cursor behind its postfix; or not found, at the end mark or at the first record of type 112 or more |
| XdfSequentialFile.SequentialFile.OverIs | sources/src/rmn/fstd98/xdf98.c:3643-3784 | where a search leaves the file: behind the postfix of the record found, which has the bits of the target under the mask; two words into a record of type 112 to 126; at one of a higher type |
| XdfSequentialFile.SequentialFile.XdfLoc2 | sources/src/rmn/fstd98/xdf98.c:1760-1857 | the exact error; else that search from the start of the file, behind the record of a handle, or from the cursor |
| XdfSequentialFile.SequentialFile.StartsAtIs | sources/src/rmn/fstd98/xdf98.c:1764-1800 | which handles are taken, and that a search starts at the record behind the one at the address of the handle, at the first, or at the next from the cursor |
| XdfSequentialFile.SequentialFile.SearchAll | sources/src/rmn/fstd98/xdf98.c:1760-1857 | a search from handle 0, repeated from the cursor until not found, gives the handles of the hits in order: the records of types 1 to 111 whose bits under the mask are those of the keys and that have no record of a type above 111 before them |
| XdfSequentialFile.HitsAgree | sources/src/rmn/fstd98/xdf98.c:3643-3784 | the hits, said bit by bit of types and words of the records |
| XdfSequentialFile.HitsAreTheMatches | sources/src/rmn/fstd98/xdf98.c:3643-3784 | the hits are the records that match and have no record of type 112 or more before them, each once, in order |
| XdfSequentialFile.SequentialFile.Delete | sources/src/rmn/fstd98/xdf98.c:1009-1103 | the exact error; else the record has type 255, nothing else of it and of the other records changes, neff rises and nrec falls |
| XdfSequentialFile.SequentialFile.DeleteErrorIs | sources/src/rmn/fstd98/xdf98.c:1032-1085 | the error of a deletion, code by code, from mode and type |
| XdfSequentialFile.DeletedIs | sources/src/rmn/fstd98/xdf98.c:1092-1094 | the type is 255 in the high byte of the first word, and no other bit of the record changes |
| XdfSequentialFile.DeletedIsLaid | sources/src/rmn/fstd98/xdf98.c:1075-1093 | changing the first word of one record leaves all others, the postfixes, the file header and the end mark |
| XdfSequentialFile.DeletionHides | sources/src/rmn/fstd98/xdf98.c:3643-3655 | after a deletion a search finds, of the records it found before, those before the deleted one and no others |
| XdfSequentialFile.SequentialFile.Skip | sources/src/rmn/fstd98/fstd98.c:2669-2749 | forward over n records or to the first mark, back over n records by their postfixes; stepping back from the first record is an error exactly in a file just created |
| XdfSequentialFile.SkipToIs | sources/src/rmn/fstd98/fstd98.c:2669-2749 | a skip forward ends after n records, behind the last, or at the first whose type is from 112 to 127 |
| XdfSequentialFile.SequentialFile.SkipThereAndBack | sources/src/rmn/fstd98/fstd98.c:2669-2749 | n records forward and n back end where they began if and only if no mark was met, or at the first record of a file opened again |
| XdfSequentialFile.SequentialFile.Get | sources/src/rmn/fstd98/xdf98.c:1187-1263 | the exact error; else the words of the record that the last search stopped at, and nothing else of the target |
| XdfSequentialFile.SequentialFile.GetErrorIs | sources/src/rmn/fstd98/xdf98.c:1187-1225 | after a search that found something, the error of a read, code by code, from handle, type and length |
| XdfSequentialFile.SequentialFile.HandlesInvert | sources/src/rmn/fstd98/xdf98.c:212-221 | every record of a file has a handle from which its address comes back, below 2^28 units |
| XdfSequentialFile.FindAndPut | sources/src/rmn/fstd98/xdf98.c:2533-2568 | a put after a search from the start that found record m leaves records 0 to m and the new one |
| XdfSequentialFile.StoreAndReadBack | sources/src/rmn/fstd98/xdf98.c:1140-1263 | any list of records of types 1 to 111 put into a new file comes back in order from a search of the whole file: types, keys and data as they were, lengths those on the disk |
| CombSort.GapFalls | sources/src/rmn/base/ipsort.c:217-231 | the gap falls strictly until it is 1: the quotient by 1.3, but 11 for the gaps from 12 to 15 |
| CombSort.XorUndone | sources/src/rmn/base/ipsort.c:241-243 | three exclusive ors exchange two numbers |
| CombSort.SwapNeighbours | sources/src/rmn/base/ipsort.c:236-246 | exchanging neighbours that are out of order removes exactly one inversion |
| CombSort.Pass | sources/src/rmn/base/ipsort.c:233-247 | a pass keeps the permutation; without a switch values a gap apart are in order; with gap 1 and a switch there are fewer inversions |
| CombSort.CSortE | sources/src/rmn/base/ipsort.c:203-257 | the sort ends, and the index is a permutation of what it was, or of 1..size, through which the list is in order |
| CombSort.IpSortI | sources/src/rmn/base/ipsort.c:259-266 | the same from scratch |

## Left out

* Real file access, unit tables, messages and allocation failure: the disk is a map of words and errors are results.
* compact_integer with a header, with automatic width, and widths of 0 or above 32; compact_short, compact_char and compact_rle.
* The form DIFF_SIGNE_STREAM of the signs, which `Rle.SignStreamIsShort` shows is never chosen; the length word in front of the mantissas is modelled as written, and never read.
* SAMPLE compression, entropy and debug code in c_zfstlib.c.
* The big-endian build, and the option that switches off the exchange of halves in armn_compress.
- ArmnCompress.Uncompress: only the first ni * nj tokens; with nk above 1 the source compresses only these, and so does the model.
- Compress32.Compress: ni * nj * znbits below 2^31, where the source's int arithmetic does not overflow, and at least 10 bits a value; whether the buffer of a caller holds the words written is the caller's to see to.
- TileMinimum.UnpackTokensMinimum: like every reader, needs one word behind the stream, because extract reads a word ahead.
- FloatPacker.CFloatPacker: finite floats only, not infinities and NaNs.
- FloatPacker.CFloatUnpacker: for headers with the exponent of a finite float; signed sums that leave 32 bits, which no header of the packer leads to while the tokens fit, wrap around, and a shift count above 31, undefined in C, leaves no bits.
- FloatPacker.FloatUnpacker1: as CFloatUnpacker.
- FloatPacker.PackAndUnpack: as CFloatPacker.
- FloatPacker.RepackingCycles: as CFloatPacker.
- Burp.Report.MrbAdd: bdesc 0, datyp 2 and 4, stride 1, widths from 0 to 32, no value 0x80000000 (whose negation overflows), a data array of at most 2^21 words, so that offsets fit their 20 bits, and calls that write no word behind that array and whose record ends in it.
- Burp.Report.constructor: the same bound on the data array, which holds the record; words behind the array that c_xdfcut and the readers look at are arbitrary here and do not stay in the record or in a value.
- Burp.Report.MrbDel: for a block that exists, a record that does not fill the array, because c_xdfcut writes the word behind the record.
- Burp.Report.MrbRep: stride 1, and as in MrbAdd no value 0x80000000 and no call that leaves the array.
- Burp.BurpNbitDatyp: datyp 2 and 4, the integer types.
- Burp.Report.MrbXtr: datyp 2 and 4; datyp 3 and 5 to 9 need other packers.
* c_mrbloc, c_mrbhdr and the record-level routines of BURP, which only search or copy.
- XdfFile.RandomFile.XdfPut: unlinked files, record types up to 126, addresses below 2^31; the count of entries of the last page rises together with the entry being filled in, a few statements later than in the source.
- XdfFile.RandomFile.XdfLoc2: without file_filter, linked files, and the per-key form of the mask; not for a handle whose page number is the current one and not one of the file, for which the source reads a page address that is not there.
- XdfFile.RandomFile.XdfGet: for the file of the handle, a target that holds the words asked for, and a record no shorter than the keys it is to leave out.
- XdfFile.RandomFile.constructor: the words of the file header are given by the caller; header and directory pages are not rewritten when a file is closed.
- XdfSequentialFile.SequentialFile.Append: handle 0 only, not rewrites; with the cursor at the start of a record or at the end mark, not at the file header or at a postfix, where a rewind of a new file or a search behind its last record can leave it; no marks written by c_fstweo, addresses below 2^31.
- XdfSequentialFile.SequentialFile.NextMatch: not the sequential files of 1989; the cursor is at the file header, at a record, at a postfix or at the end mark.
- XdfSequentialFile.SequentialFile.Delete: for a handle of a record of the file, like XdfLoc2.
- XdfSequentialFile.SequentialFile.Reopen: the file header is taken to say what it said; the header words that are rewritten when a file is closed are not modelled.
- CombSort.CSortE: the gap over 1.3 is computed as the integer quotient of ten times the gap by 13, which is what the float division truncates to for the sizes in use.
