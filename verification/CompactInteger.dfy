/** compact_integer without a header: opCode 1 and 3 pack, opCode 2 and 4 unpack, unsigned and signed. */
module CompactInteger {
  import opened Words
  import opened BitStream

  /** positiveMask, the bias that makes a signed token non-negative. */
  function Bias(b: nat, signed: bool): int
    requires b >= 1
  {
    if signed then Pow2(b - 1) else 0
  }

  /** (v + positiveMask) & cleanupMask */
  function Token(v: Word, b: nat, signed: bool): nat
    requires 1 <= b <= 32
  {
    And(Wrap(v + Bias(b, signed)), Wrap(Shr(WORD - 1, 32 - b)))
  }

  /** packInt - positiveMask */
  function Value(t: int, b: nat, signed: bool): Word
    requires 1 <= b <= 32
  {
    Wrap(t - Bias(b, signed))
  }

  /** The values a token of b bits can carry. */
  predicate Representable(v: Word, b: nat, signed: bool)
    requires 1 <= b <= 32
  {
    if signed then 0 <= Signed(v) + Pow2(b - 1) < 2 * Pow2(b - 1) else v < Pow2(b)
  }

  lemma {:induction false} ShrOnes(b: nat, n: nat)
    ensures Shr(Pow2(b + n) - 1, n) == Pow2(b) - 1
  {
    if n > 0 {
      assert (Pow2(b + n) - 1) / 2 == Pow2(b + (n - 1)) - 1;
      ShrOnes(b, n - 1);
    }
  }

  lemma TokenIsLow(v: Word, b: nat, signed: bool)
    requires 1 <= b <= 32
    ensures Token(v, b, signed) == Low(v + Bias(b, signed), b) < Pow2(b)
  {
    hide Bits, Low, And, Shr;
    var x := v + Bias(b, signed);
    WordMask(b);
    AndOnes(Wrap(x), b);
    LowWrap(x, b);
    LowBound(x, b);
  }

  lemma WordMask(b: nat)
    requires b <= 32
    ensures Wrap(Shr(WORD - 1, 32 - b)) == Pow2(b) - 1
  {
    FitsWord(Pow2(b) - 1, b);
    Pow2Values();
    ShrOnes(b, 32 - b);
  }

  /** The round trip of one value is exact for the representable values, and for no other. */
  lemma ValueOfToken(v: Word, b: nat, signed: bool)
    requires 1 <= b <= 32
    ensures Value(Token(v, b, signed), b, signed) == v <==> Representable(v, b, signed)
  {
    hide Low, Token, Pow2, And;
    TokenIsLow(v, b, signed);
    FitsWord(Token(v, b, signed), b);
    Pow2Double(b);
    if signed {
      SignedToken(v, b);
      Unbiased(v, Token(v, b, true), Pow2(b - 1));
    } else if v < Pow2(b) {
      LowId(v, b);
    }
  }

  /** A token that can carry its value is the value itself, or its distance from the least signed value. */
  lemma TokenIs(v: Word, b: nat)
    requires 1 <= b <= 32
    ensures v < Pow2(b) ==> Token(v, b, false) == v
    ensures var s := if v < 0x8000_0000 then v else v - 0x1_0000_0000;
      0 <= s + Pow2(b - 1) < Pow2(b) ==> Token(v, b, true) == s + Pow2(b - 1)
  {
    hide Low, Token, Pow2, And;
    TokenIsLow(v, b, false);
    TokenIsLow(v, b, true);
    Pow2Double(b);
    if v < Pow2(b) { LowId(v, b); }
    SignedToken(v, b);
  }

  /** Taking the bias off a token gives a value of the signed range, and every token in that range its own value. */
  lemma Unbiased(v: Word, t: nat, h: nat)
    requires 0 < h && 2 * h <= WORD && t < 2 * h
    requires 0 <= Signed(v) + h < 2 * h ==> t == Signed(v) + h
    ensures Wrap(t - h) == v <==> 0 <= Signed(v) + h < 2 * h
  {
    WrapRange(t - h);
  }

  lemma WrapRange(x: int)
    requires -0x8000_0000 <= x < 0x8000_0000
    ensures Signed(Wrap(x)) == x
    ensures Wrap(x) == if x < 0 then x + WORD else x
  {
  }

  /** A biased token is the offset of the value from the least representable one. */
  lemma SignedToken(v: Word, b: nat)
    requires 1 <= b <= 32
    ensures Representable(v, b, true) ==> Low(v + Pow2(b - 1), b) == Signed(v) + Pow2(b - 1)
    ensures 2 * Pow2(b - 1) <= WORD
  {
    hide Low, Pow2, Wrap;
    var s, h := Signed(v), Pow2(b - 1);
    Pow2Double(b);
    Pow2Mono(b, 32);
    Pow2Values();
    if Representable(v, b, true) {
      SameWord(v, h);
      LowWrap(v + h, b);
      LowWrap(s + h, b);
      LowId(s + h, b);
    }
  }

  lemma SameWord(v: Word, h: int)
    ensures Wrap(v + h) == Wrap(Signed(v) + h)
  {
  }

  /** The values at 0, stride, 2 * stride, ... */
  function Gather<T>(a: seq<T>, stride: nat, n: nat): (vs: seq<T>)
    requires n == 0 || (n - 1) * stride < |a|
    ensures |vs| == n && forall k :: 0 <= k < n ==> k * stride < |a| && vs[k] == a[k * stride]
  {
    if n == 0 then [] else
      assert (n - 1) * stride == (n - 2) * stride + stride;
      Gather(a, stride, n - 1) + [a[(n - 1) * stride]]
  }

  function Tokens(vs: seq<Word>, b: nat, signed: bool): (ts: seq<nat>)
    requires 1 <= b <= 32
    ensures |ts| == |vs| && forall k :: 0 <= k < |vs| ==> ts[k] == Token(vs[k], b, signed)
  {
    seq(|vs|, k requires 0 <= k < |vs| => Token(vs[k], b, signed))
  }

  function Values(ts: seq<nat>, b: nat, signed: bool): (vs: seq<Word>)
    requires 1 <= b <= 32
    ensures |vs| == |ts| && forall k :: 0 <= k < |ts| ==> vs[k] == Value(ts[k], b, signed)
  {
    seq(|ts|, k requires 0 <= k < |ts| => Value(ts[k], b, signed))
  }

  /** What packing n values at a bit offset makes of the packed array: those bits and no others change. */
  ghost function Packed(before: seq<Word>, vs: seq<Word>, b: nat, offset: nat, signed: bool): (s: seq<bool>)
    requires 1 <= b <= 32 && offset + |vs| * b <= 32 * |before|
    ensures |s| == 32 * |before|
  {
    FlatLength(Tokens(vs, b, signed), b);
    WordBits(before)[..offset] + Flat(Tokens(vs, b, signed), b) + WordBits(before)[offset + |vs| * b..]
  }

  /** A loop counting by strides has handled k values and stops after n. */
  lemma Stride(k: nat, n: nat, stride: nat)
    requires k <= n && stride >= 1
    ensures k * stride < n * stride <==> k < n
    ensures k < n ==> (k + 1) * stride == k * stride + stride && (k + 1) * stride <= n * stride
  {
    if k < n {
      MulAtLeast(stride, n - k);
      assert n * stride - k * stride == stride * (n - k);
    }
  }

  /** packBit: one stuff per value. */
  method PackBit(unpacked: seq<Word>, w: BitPacker, count: nat, b: nat, stride: nat, signed: bool)
    requires 1 <= b <= 32 && stride >= 1
    requires count == 0 || (count - 1) * stride < |unpacked|
    requires w.Valid() && |w.sent| + count * b <= 32 * (w.z.Length - w.base)
    requires b == 32 ==> 1 <= w.spaceInLastWord <= 31
    modifies w, w.z
    ensures w.Valid()
    ensures w.sent == old(w.sent) + Flat(Tokens(Gather(unpacked, stride, count), b, signed), b)
  {
    hide Bits, WordBits, Flat, And, Shr, Pow2, Low;
    ghost var ts := Tokens(Gather(unpacked, stride, count), b, signed);
    ghost var s := w.sent;
    ghost var k := 0;
    var i := 0;
    FlatNone(ts, b);
    while i < count * stride
      invariant i == k * stride && k <= count
      invariant w.Valid() && w.sent == s + Flat(ts[..k], b)
      invariant b == 32 ==> 1 <= w.spaceInLastWord <= 31
      decreases count * stride - i
    {
      Stride(k, count, stride);
      FlatLength(ts[..k], b);
      Stride(k, count, b);
      TokenIsLow(unpacked[i], b, signed);
      w.Stuff(Token(unpacked[i], b, signed), b);
      FlatNext(ts, k, b);
      i, k := i + stride, k + 1;
    }
    Stride(k, count, stride);
    assert ts[..count] == ts;
  }

  /** The last, partly filled word and the bits of the array that follow it. */
  lemma SqueezedWord(last: Word, next: Word, space: nat)
    requires space < 32
    ensures var full := Or(Wrap(Shl(last, space)), And(next, Wrap(-1 - Shl(-1, space))));
      full < WORD && Bits(full, 32) == Bits(last, 32 - space) + Bits(next, space)
  {
    hide Bits, Or, And, Low;
    ShlIsMul(-1, space);
    FitsWord(Pow2(space) - 1, space);
    AndOnes(next, space);
    LowBound(next, space);
    PushBits(last, Low(next, space), 32 - space, space);
    BitsLow(next, space, space);
  }

  lemma SqueezedArray(before: seq<Word>, base: nat, mid: seq<Word>, last: Word, space: nat, full: Word)
    requires space < 32 && base + |mid| < |before|
    requires Bits(full, 32) == Bits(last, 32 - space) + Bits(before[base + |mid|], space)
    ensures var ptr := base + |mid|;
      WordBits(before[..base] + mid + [full] + before[ptr + 1..])
      == WordBits(before[..base]) + (WordBits(mid) + Bits(last, 32 - space)) + WordBits(before)[32 * ptr + 32 - space..]
  {
    hide *;
    var ptr := base + |mid|;
    var a, z := before[..base], before[ptr + 1..];
    WordBitsConcat(a + mid + [full], z);
    WordBitsAppend(a + mid, full);
    WordBitsConcat(a, mid);
    CutBits(before, ptr, 32 - space);
    var l, n := Bits(last, 32 - space), Bits(before[ptr], space);
    assert WordBits(a) + WordBits(mid) + (l + n) + WordBits(z) == WordBits(a) + (WordBits(mid) + l) + (n + WordBits(z));
  }

  /** Squeezes the pending bits into the array without touching the bits behind them. */
  method Squeeze(w: BitPacker)
    requires w.Valid() && |w.sent| <= 32 * (w.z.Length - w.base)
    modifies w.z
    ensures w.z.Length == |w.before|
    ensures WordBits(w.z[..]) == WordBits(w.before[..w.base]) + w.sent + WordBits(w.before)[32 * w.base + |w.sent|..]
  {
    hide Bits, WordBits, Or, And, Shl, Pow2;
    var z, ptr, last, space := w.z, w.availableWordPtr, w.lastWordShifted, w.spaceInLastWord;
    ghost var mid := z[w.base..ptr];
    if space < 32 {
      SqueezedWord(last, z[ptr], space);
      z[ptr] := Or(Wrap(Shl(last, space)), And(z[ptr], Wrap(-1 - Shl(-1, space))));
      SqueezedArray(w.before, w.base, mid, last, space, z[ptr]);
      assert z[..] == w.before[..w.base] + mid + [z[ptr]] + w.before[ptr + 1..];
    } else {
      assert z[..] == w.before[..w.base] + mid + w.before[ptr..];
      WordBitsConcat(w.before[..w.base] + mid, w.before[ptr..]);
      WordBitsConcat(w.before[..w.base], mid);
      WordBitsConcat(w.before[..ptr], w.before[ptr..]);
      assert w.before == w.before[..ptr] + w.before[ptr..];
      BitsEmpty(last);
    }
  }

  lemma BitsEmpty(v: int)
    ensures Bits(v, 0) == []
  {
  }

  lemma {:induction false} WholeWords(ws: seq<Word>, vs: seq<Word>, signed: bool)
    requires |ws| == |vs| && forall k :: 0 <= k < |vs| ==> ws[k] == Wrap(vs[k] + Bias(32, signed))
    ensures WordBits(ws) == Flat(Tokens(vs, 32, signed), 32)
  {
    hide Bits, Token, Bias, Wrap;
    if vs != [] {
      WholeWords(ws[1..], vs[1..], signed);
      TokenIsLow(vs[0], 32, signed);
      BitsLow(vs[0] + Bias(32, signed), 32, 32);
      BitsWrap(vs[0] + Bias(32, signed), 32);
      assert Tokens(vs, 32, signed)[1..] == Tokens(vs[1..], 32, signed);
    }
  }

  lemma Splice(before: seq<Word>, ws: seq<Word>, slot: nat)
    requires slot + |ws| <= |before|
    ensures WordBits(before[..slot] + ws + before[slot + |ws|..])
         == WordBits(before)[..32 * slot] + WordBits(ws) + WordBits(before)[32 * (slot + |ws|)..]
  {
    hide *;
    var t := slot + |ws|;
    WordBitsConcat(before[..slot] + ws, before[t..]);
    WordBitsConcat(before[..slot], ws);
    WordBitsConcat(before[..slot], before[slot..]);
    WordBitsConcat(before[..t], before[t..]);
    assert before == before[..slot] + before[slot..] == before[..t] + before[t..];
    SplitAt(WordBits(before[..slot]), WordBits(before[slot..]));
    SplitAt(WordBits(before[..t]), WordBits(before[t..]));
  }

  /** pack32Bit: 32-bit tokens on a word boundary are stored whole. */
  method Pack32Bit(unpacked: seq<Word>, packed: array<Word>, count: nat, slot: nat, stride: nat, signed: bool)
    requires stride >= 1 && slot + count <= packed.Length
    requires count == 0 || (count - 1) * stride < |unpacked|
    modifies packed
    ensures WordBits(packed[..]) == Packed(old(packed[..]), Gather(unpacked, stride, count), 32, 32 * slot, signed)
  {
    hide WordBits, Flat, Token, Bias;
    ghost var vs, before := Gather(unpacked, stride, count), packed[..];
    var i, ptr, src := count, slot, 0;
    while i > 0
      invariant 0 <= i <= count && ptr == slot + (count - i) && src == (count - i) * stride
      invariant forall k :: 0 <= k < packed.Length ==>
        packed[k] == if slot <= k < ptr then Wrap(vs[k - slot] + Bias(32, signed)) else before[k]
    {
      Stride(count - i, count, stride);
      packed[ptr] := Wrap(unpacked[src] + Bias(32, signed));
      i, ptr, src := i - 1, ptr + 1, src + stride;
    }
    ghost var ws := packed[slot..ptr];
    WholeWords(ws, vs, signed);
    Splice(before, ws, slot);
    assert packed[..] == before[..slot] + ws + before[ptr..];
  }

  method Pack(unpacked: seq<Word>, packed: array<Word>, count: nat, b: nat, offset: nat, stride: nat, signed: bool)
    requires 1 <= b <= 32 && stride >= 1
    requires count == 0 || (count - 1) * stride < |unpacked|
    requires offset + count * b <= 32 * packed.Length
    modifies packed
    ensures WordBits(packed[..]) == Packed(old(packed[..]), Gather(unpacked, stride, count), b, offset, signed)
  {
    hide Bits, WordBits, Flat, Token, Gather, Tokens, BitPacker.Valid, Packed;
    ghost var before, vs := packed[..], Gather(unpacked, stride, count);
    ghost var ts := Tokens(vs, b, signed);
    FlatLength(ts, b);
    if offset == 32 * packed.Length {   // no value, and no word is looked at
      NothingPacked(before, vs, b, signed);
      return;
    }
    var w := new BitPacker.At(packed, offset);
    if w.spaceInLastWord == 32 && b == 32 {
      Pack32Bit(unpacked, packed, count, offset / 32, stride, signed);
    } else {
      ghost var head, s := WordBits(before[..w.base]), w.sent;
      PackBit(unpacked, w, count, b, stride, signed);
      Squeeze(w);
      FirstWord(offset);
      PackedAt(before, vs, b, offset, signed, w.base, head, s, WordBits(packed[..]));
    }
  }

  /** The words before the first one touched, what was pending, the tokens and the bits behind them. */
  lemma PackedAt(before: seq<Word>, vs: seq<Word>, b: nat, offset: nat, signed: bool, base: nat, head: seq<bool>,
      s: seq<bool>, after: seq<bool>)
    requires 1 <= b <= 32 && offset + |vs| * b <= 32 * |before| && offset == 32 * base + |s|
    requires head + s == WordBits(before)[..offset]
    requires var code := s + Flat(Tokens(vs, b, signed), b);
      32 * base + |code| <= 32 * |before| && after == head + code + WordBits(before)[32 * base + |code|..]
    ensures after == Packed(before, vs, b, offset, signed)
  {
    hide WordBits, Flat, Tokens;
    var n, flat := |vs| * b, Flat(Tokens(vs, b, signed), b);
    FlatLength(Tokens(vs, b, signed), b);
    assert |flat| == n;
    Between(WordBits(before), head, s, flat, offset, offset + n);
  }

  lemma Between(all: seq<bool>, head: seq<bool>, s: seq<bool>, code: seq<bool>, at: nat, end: nat)
    requires at <= end <= |all| && head + s == all[..at]
    ensures head + (s + code) + all[end..] == all[..at] + code + all[end..]
  {
    assert head + (s + code) == (head + s) + code;
  }

  lemma FirstWord(offset: nat)
    ensures offset == 32 * (offset / 32) + offset % 32
  {
  }

  lemma NothingPacked(before: seq<Word>, vs: seq<Word>, b: nat, signed: bool)
    requires 1 <= b <= 32 && |vs| * b == 0
    ensures Packed(before, vs, b, 32 * |before|, signed) == WordBits(before)
  {
    if vs != [] { assert |vs| * b == b + (|vs| - 1) * b; }
  }

  /** vs written at `at`, at + stride, ... */
  ghost function Scatter(before: seq<Word>, at: nat, stride: nat, vs: seq<Word>): (s: seq<Word>)
    ensures |s| == |before|
  {
    if vs == [] then before else
      var k := |vs| - 1;
      var s := Scatter(before, at, stride, vs[..k]);
      if at + k * stride < |s| then s[at + k * stride := vs[k]] else s
  }

  lemma ScatterNext(before: seq<Word>, at: nat, stride: nat, vs: seq<Word>, v: Word)
    requires stride >= 1 && at + |vs| * stride < |before|
    ensures Scatter(before, at, stride, vs + [v]) == Scatter(before, at, stride, vs)[at + |vs| * stride := v]
  {
    assert (vs + [v])[..|vs|] == vs;
  }

  /** The queue u starts with the b-bit fields fs and does not end there. */
  ghost predicate Holds(u: seq<bool>, b: nat, fs: seq<nat>) {
    |u| >= |fs| * b && Fields(u, b, |fs|) == fs
  }

  lemma HoldsNext(u: seq<bool>, b: nat, fs: seq<nat>, k: nat)
    requires k < |fs| && Holds(u, b, fs[k..])
    ensures |u| >= b && fs[k] == Val(u[..b]) && Holds(u[b..], b, fs[k + 1..])
  {
    hide Val;
    OneFieldLess(|fs| - k, b);
    assert fs[k..][1..] == fs[k + 1..] && fs[k..][0] == fs[k];
  }

  lemma OneFieldLess(n: nat, b: nat)
    requires n >= 1
    ensures n * b == b + (n - 1) * b && (n - 1) * b >= 0
  {
  }

  /** What one turn of the unpacking loop adds. */
  lemma UnpackStep(before: seq<Word>, at: nat, stride: nat, fs: seq<nat>, k: nat, b: nat, signed: bool)
    requires k < |fs| && 1 <= b <= 32 && stride >= 1 && at + (|fs| - 1) * stride < |before|
    ensures at + k * stride < |before|
    ensures Scatter(before, at, stride, Values(fs[..k + 1], b, signed))
         == Scatter(before, at, stride, Values(fs[..k], b, signed))[at + k * stride := Value(fs[k], b, signed)]
  {
    hide Value, Scatter;
    assert k * stride <= (|fs| - 1) * stride by { Stride(k, |fs| - 1, stride); }
    assert Values(fs[..k + 1], b, signed) == Values(fs[..k], b, signed) + [Value(fs[k], b, signed)];
    ScatterNext(before, at, stride, Values(fs[..k], b, signed), Value(fs[k], b, signed));
  }

  /** One extract per value, the bias removed. */
  method Unpack(dst: array<Word>, at: nat, packed: array<Word>, count: nat, b: nat, offset: nat, stride: nat,
      signed: bool)
    requires 1 <= b <= 32 && stride >= 1 && dst != packed
    requires count == 0 || at + (count - 1) * stride < dst.Length
    requires offset + count * b <= 32 * packed.Length
    modifies dst
    ensures dst[..] == Scatter(old(dst[..]), at, stride, Values(Fields(WordBits(packed[..])[offset..], b, count), b,
      signed))
  {
    hide Bits, WordBits, Value, Val, Values, Fields, Scatter, Holds, BitUnpacker.Valid;
    Stride(0, count, b);
    ghost var before, fs := dst[..], Fields(WordBits(packed[..])[offset..], b, count);
    var r := new BitUnpacker.At(packed, offset);
    var i := 0;
    ghost var k := 0;
    UnpackStart(before, at, stride, fs, r.unread, b, signed);
    while i < count * stride
      invariant k <= count && i == k * stride
      invariant r.Valid() && Holds(r.unread, b, fs[k..])
      invariant dst[..] == Scatter(before, at, stride, Values(fs[..k], b, signed))
      decreases count - k
    {
      Stride(k, count, stride);
      HoldsNext(r.unread, b, fs, k);
      var packInt := r.Extract(b);
      UnpackStep(before, at, stride, fs, k, b, signed);
      dst[at + i] := Value(packInt, b, signed);
      i, k := i + stride, k + 1;
    }
    Stride(k, count, stride);
    assert fs[..count] == fs;
  }

  lemma UnpackStart(before: seq<Word>, at: nat, stride: nat, fs: seq<nat>, u: seq<bool>, b: nat, signed: bool)
    requires 1 <= b <= 32 && |u| >= |fs| * b && Fields(u, b, |fs|) == fs
    ensures Holds(u, b, fs[0..])
    ensures Values(fs[..0], b, signed) == [] && Scatter(before, at, stride, Values(fs[..0], b, signed)) == before
  {
    assert fs[0..] == fs;
  }

  /** Packing changes no bit outside [offset, offset + n * b). */
  lemma PackedElsewhere(before: seq<Word>, vs: seq<Word>, b: nat, offset: nat, signed: bool)
    requires 1 <= b <= 32 && offset + |vs| * b <= 32 * |before|
    ensures var s := Packed(before, vs, b, offset, signed);
      && s[..offset] == WordBits(before)[..offset]
      && s[offset..offset + |vs| * b] == Flat(Tokens(vs, b, signed), b)
      && s[offset + |vs| * b..] == WordBits(before)[offset + |vs| * b..]
  {
    hide WordBits, Flat, Tokens;
    FlatLength(Tokens(vs, b, signed), b);
  }

  /** Unpacking inverts packing for the representable values, and for no others. */
  lemma UnpackInvertsPack(before: seq<Word>, vs: seq<Word>, b: nat, offset: nat, signed: bool)
    requires 1 <= b <= 32 && offset + |vs| * b <= 32 * |before|
    ensures Values(Fields(Packed(before, vs, b, offset, signed)[offset..], b, |vs|), b, signed) == vs
       <==> forall k :: 0 <= k < |vs| ==> Representable(vs[k], b, signed)
  {
    hide WordBits, Flat, Token, Value, Representable, Fields, Packed;
    var ts := Tokens(vs, b, signed);
    forall k | 0 <= k < |vs|
      ensures ts[k] < Pow2(b) && (Value(ts[k], b, signed) == vs[k] <==> Representable(vs[k], b, signed))
    {
      TokenIsLow(vs[k], b, signed);
      ValueOfToken(vs[k], b, signed);
    }
    PackedElsewhere(before, vs, b, offset, signed);
    var s := Packed(before, vs, b, offset, signed);
    var rest := s[offset + |vs| * b..];
    assert s[offset..] == Flat(ts, b) + rest;
    FieldsOfFlat(ts, b, rest);
    if forall k :: 0 <= k < |vs| ==> Representable(vs[k], b, signed) {
      assert Values(ts, b, signed) == vs;
    } else {
      var k :| 0 <= k < |vs| && !Representable(vs[k], b, signed);
      assert Values(ts, b, signed)[k] != vs[k];
    }
  }

  /** With stride 1, values are written side by side. */
  lemma {:induction false} ScatterDense(before: seq<Word>, at: nat, vs: seq<Word>)
    requires at + |vs| <= |before|
    ensures Scatter(before, at, 1, vs) == before[..at] + vs + before[at + |vs|..]
    decreases |vs|
  {
    if vs == [] {
      assert before == before[..at] + vs + before[at..];
    } else {
      ScatterDense(before, at, vs[..|vs| - 1]);
    }
  }

  lemma {:induction false} GatherDense<T>(a: seq<T>, n: nat)
    requires n <= |a|
    ensures n == 0 || (n - 1) * 1 < |a|
    ensures Gather(a, 1, n) == a[..n]
  {
    if n > 0 { GatherDense(a, n - 1); }
  }
}
