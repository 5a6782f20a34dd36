/**
  The `stuff` and `extract` macros of rpnmacros.h, with word size 32, as two cursors over a word array.
  The ghost fields `sent` and `unread` are the abstract bit queues.
 */
module BitStream {
  import opened Words

  /** The bits of a word sequence, in order. */
  ghost function WordBits(ws: seq<Word>): (s: seq<bool>)
    ensures |s| == 32 * |ws|
  {
    if ws == [] then [] else Bits(ws[0], 32) + WordBits(ws[1..])
  }

  lemma {:induction false} WordBitsAppend(ws: seq<Word>, w: Word)
    ensures WordBits(ws + [w]) == WordBits(ws) + Bits(w, 32)
  {
    var all := ws + [w];
    if ws != [] {
      WordBitsAppend(ws[1..], w);
      assert all[0] == ws[0] && all[1..] == ws[1..] + [w];
    } else {
      assert all[0] == w && all[1..] == [];
    }
  }

  lemma {:induction false} WordBitsConcat(a: seq<Word>, b: seq<Word>)
    ensures WordBits(a + b) == WordBits(a) + WordBits(b)
  {
    if a == [] {
      assert a + b == b;
    } else {
      WordBitsConcat(a[1..], b);
      assert (a + b)[0] == a[0] && (a + b)[1..] == a[1..] + b;
    }
  }

  /** A code followed by anything: what a reader at `slot` will find first. */
  ghost predicate StartsWith(z: seq<Word>, slot: nat, code: seq<bool>) {
    slot <= |z| && code <= WordBits(z[slot..])
  }

  lemma StartsWithFlushed(z: seq<Word>, slot: nat, end: nat, code: seq<bool>, pad: seq<bool>)
    requires slot <= end <= |z| && WordBits(z[slot..end]) == code + pad
    ensures StartsWith(z, slot, code)
  {
    hide WordBits;
    assert z[slot..] == z[slot..end] + z[end..];
    WordBitsConcat(z[slot..end], z[end..]);
  }

  /** A code survives any change behind its last word. */
  lemma StartsWithKept(z: seq<Word>, z': seq<Word>, slot: nat, code: seq<bool>)
    requires StartsWith(z, slot, code) && (|z| == |z'| || slot + (|code| + 31) / 32 <= |z'|)
    requires forall k :: slot <= k < |z| && k < |z'| && k < slot + (|code| + 31) / 32 ==> z'[k] == z[k]
    ensures StartsWith(z', slot, code)
  {
    hide WordBits;
    var end := slot + (|code| + 31) / 32;
    assert end <= |z|;
    StartsWithCopied(z, z', slot, end, code);
  }

  /** A code lies wherever its words were copied. */
  lemma StartsWithCopied(z: seq<Word>, z': seq<Word>, slot: nat, end: nat, code: seq<bool>)
    requires StartsWith(z, slot, code) && slot <= end <= |z| && end <= |z'| && |code| <= 32 * (end - slot)
    requires forall k :: slot <= k < end ==> z'[k] == z[k]
    ensures StartsWith(z', slot, code)
  {
    hide WordBits;
    assert z[slot..] == z[slot..end] + z[end..] && z'[slot..] == z'[slot..end] + z'[end..];
    WordBitsConcat(z[slot..end], z[end..]);
    WordBitsConcat(z'[slot..end], z'[end..]);
    assert z[slot..end] == z'[slot..end];
    assert code <= WordBits(z[slot..end]);
  }

  /** Consecutive w-bit tokens. */
  ghost function Flat(vs: seq<int>, w: nat): (s: seq<bool>)
    decreases |vs|
  {
    if vs == [] then [] else Bits(vs[0], w) + Flat(vs[1..], w)
  }

  lemma {:induction false} FlatConcat(a: seq<int>, b: seq<int>, w: nat)
    ensures Flat(a + b, w) == Flat(a, w) + Flat(b, w)
    decreases |a|
  {
    if a == [] {
      assert a + b == b;
    } else {
      FlatConcat(a[1..], b, w);
      assert (a + b)[0] == a[0] && (a + b)[1..] == a[1..] + b;
    }
  }

  lemma {:induction false} FlatLength(vs: seq<int>, w: nat)
    ensures |Flat(vs, w)| == |vs| * w
    decreases |vs|
  {
    if vs != [] { FlatLength(vs[1..], w); }
  }

  lemma FlatNext(vs: seq<int>, k: nat, w: nat)
    requires k < |vs|
    ensures Flat(vs[..k + 1], w) == Flat(vs[..k], w) + Bits(vs[k], w)
  {
    assert vs[..k + 1] == vs[..k] + [vs[k]];
    FlatConcat(vs[..k], [vs[k]], w);
    assert Flat([vs[k]], w) == Bits(vs[k], w) + [];
  }

  lemma FlatNone(vs: seq<int>, w: nat)
    ensures Flat(vs[..0], w) == []
  {
  }

  lemma FlatStep(sent: seq<bool>, v: int, rest: seq<int>, w: nat)
    ensures sent + Flat([v] + rest, w) == (sent + Bits(v, w)) + Flat(rest, w)
    ensures |sent| + w <= |sent + Flat([v] + rest, w)|
  {
    hide Bits;
    assert ([v] + rest)[1..] == rest;
  }

  lemma FlatEmpty(w: nat)
    ensures Flat([], w) == []
  {
  }

  /** The token at the front of a queue, and the queue behind it. */
  lemma FlatFront(u: seq<bool>, v: int, left: seq<int>, w: nat, rest: seq<bool>)
    requires u == Flat([v] + left, w) + rest
    ensures |u| >= w + |rest| && Val(u[..w]) == Low(v, w) && u[w..] == Flat(left, w) + rest
  {
    hide Bits, Val, Low;
    assert ([v] + left)[1..] == left;
    assert u == Bits(v, w) + (Flat(left, w) + rest);
    ValBits(v, w);
  }

  /** The first n fields of w bits of a queue. */
  ghost function Fields(s: seq<bool>, w: nat, n: nat): (ts: seq<nat>)
    requires |s| >= n * w
    ensures |ts| == n
    decreases n
  {
    if n == 0 then [] else
      assert n * w == w + (n - 1) * w;
      [Val(s[..w])] + Fields(s[w..], w, n - 1)
  }

  /** Reading with the width of writing gives back every token. */
  lemma {:induction false} FieldsOfFlat(vs: seq<nat>, w: nat, rest: seq<bool>)
    requires forall k :: 0 <= k < |vs| ==> vs[k] < Pow2(w)
    ensures |Flat(vs, w) + rest| >= |vs| * w
    ensures Fields(Flat(vs, w) + rest, w, |vs|) == vs
    decreases |vs|
  {
    FlatLength(vs, w);
    if vs != [] {
      var tail := Flat(vs[1..], w) + rest;
      assert Flat(vs, w) + rest == Bits(vs[0], w) + tail;
      FrontValue(Flat(vs, w) + rest, vs[0], w, tail);
      FieldsOfFlat(vs[1..], w, rest);
    }
  }

  datatype Sized = Sized(token: nat, width: nat)

  /** The queue after tokens of any widths have been sent. */
  ghost function Sent(ts: seq<Sized>): (s: seq<bool>)
    decreases |ts|
  {
    if ts == [] then [] else Bits(ts[0].token, ts[0].width) + Sent(ts[1..])
  }

  /** The tokens that readings of these widths take off a queue; 0 when it is too short. */
  ghost function Taken(u: seq<bool>, widths: seq<nat>): (vs: seq<nat>)
    decreases |widths|
  {
    if widths == [] then []
    else if |u| < widths[0] then [0] + Taken([], widths[1..])
    else [Val(u[..widths[0]])] + Taken(u[widths[0]..], widths[1..])
  }

  /** First in, first out: readings with the widths of the writings give the tokens back, whatever follows them. */
  lemma {:induction false} QueueIsFifo(ts: seq<Sized>, widths: seq<nat>, rest: seq<bool>)
    requires |widths| == |ts|
    requires forall k :: 0 <= k < |ts| ==> widths[k] == ts[k].width && ts[k].token < Pow2(ts[k].width)
    ensures var vs := Taken(Sent(ts) + rest, widths);
      |vs| == |ts| && forall k :: 0 <= k < |ts| ==> vs[k] == ts[k].token
    decreases |ts|
  {
    hide Bits, Val, Pow2;
    if ts != [] {
      var tail := Sent(ts[1..]) + rest;
      assert Sent(ts) + rest == Bits(ts[0].token, ts[0].width) + tail;
      FrontValue(Sent(ts) + rest, ts[0].token, ts[0].width, tail);
      QueueIsFifo(ts[1..], widths[1..], rest);
    }
  }

  /** The pending word after a token of w bits has been pushed below the p unsent ones. */
  lemma PushBits(last: Word, token: nat, p: nat, w: nat)
    requires p + w <= 32 && token < Pow2(w)
    ensures Or(Wrap(Shl(last, w)), token) == Shl(Low(last, 32 - w), w) + token
    ensures Or(Wrap(Shl(last, w)), token) < WORD
    ensures Bits(Or(Wrap(Shl(last, w)), token), p + w) == Bits(last, p) + Bits(token, w)
  {
    hide Shl, Shr, Low, Bits, Or, And, Pow2, WordBits;
    var y := Low(last, 32 - w);
    WrapShl(last, w);
    OrDisjoint(y, token, w);
    LowBound(last, 32 - w);
    JoinBound(y, token, 32 - w, w);
    BitsJoin(y, token, p, w);
    BitsLow(last, 32 - w, p);
    Pow2Values();
  }

  lemma {:induction false} JoinBound(y: nat, t: nat, m: nat, w: nat)
    requires y < Pow2(m) && t < Pow2(w)
    ensures 0 <= Shl(y, w) && Shl(y, w) + t < Pow2(m + w)
  {
    if w > 0 { JoinBound(y, t / 2, m, w - 1); }
  }

  /** A token split over the end of a word: the completed word takes its high bits, the rest stays pending. */
  lemma SpillBits(last: Word, token: nat, space: nat, w: nat)
    requires space < w <= 32 && (w == 32 ==> 1 <= space)
    requires token < Pow2(w)
    ensures Shr(token, w - space) >= 0
    ensures var full := Or(Wrap(Shl(last, space)), Shr(token, w - space));
      && full < WORD
      && Bits(full, 32) + Bits(token, w - space) == Bits(last, 32 - space) + Bits(token, w)
    ensures And(token, Wrap(Shr(-1, 32 - (w - space)))) == token < WORD
  {
    hide Shl, Shr, Low, Bits, Or, And, Pow2, WordBits;
    var over := w - space;
    ShrBound(token, over, space);
    PushBits(last, Shr(token, over), 32 - space, space);
    BitsSplit(token, space, over);
    var full := Or(Wrap(Shl(last, space)), Shr(token, over));
    assert Bits(full, 32) + Bits(token, over) == Bits(last, 32 - space) + Bits(token, w);
    // -1 >> n is an arithmetic shift: the mask is all ones and clears nothing
    ShrMinusOne(32 - over);
    FitsWord(token, w);
    AndAllOnes(token);
  }

  lemma {:induction false} ShrMinusOne(n: nat)
    ensures Shr(-1, n) == -1
  {
    if n > 0 { ShrMinusOne(n - 1); }
  }

  /** The queue after a token that fits in the pending word. */
  lemma PushSent(ws: seq<Word>, last: Word, token: nat, space: nat, w: nat)
    requires w <= space <= 32 && token < Pow2(w)
    ensures var last' := Or(Wrap(Shl(last, w)), token);
      && last' < WORD
      && WordBits(ws) + Bits(last', 32 - (space - w)) == WordBits(ws) + Bits(last, 32 - space) + Bits(token, w)
  {
    hide Shl, Shr, Low, Bits, Or, And, Pow2, WordBits;
    PushBits(last, token, 32 - space, w);
    assert WordBits(ws) + (Bits(last, 32 - space) + Bits(token, w))
      == WordBits(ws) + Bits(last, 32 - space) + Bits(token, w);
  }

  /** The queue after a token that completes the pending word. */
  lemma SpillSent(ws: seq<Word>, last: Word, token: nat, space: nat, w: nat)
    requires space < w <= 32 && (w == 32 ==> 1 <= space)
    requires token < Pow2(w)
    ensures Shr(token, w - space) >= 0
    ensures var full := Or(Wrap(Shl(last, space)), Shr(token, w - space));
      && full < WORD
      && WordBits(ws + [full]) + Bits(token, w - space) == WordBits(ws) + Bits(last, 32 - space) + Bits(token, w)
    ensures And(token, Wrap(Shr(-1, 32 - (w - space)))) == token < WORD
  {
    hide Shl, Shr, Low, Bits, Or, And, Pow2, WordBits;
    SpillBits(last, token, space, w);
    var full := Or(Wrap(Shl(last, space)), Shr(token, w - space));
    WordBitsAppend(ws, full);
    var a, b, c := WordBits(ws), Bits(full, 32), Bits(token, w - space);
    assert (a + b) + c == a + (b + c);
    assert a + (Bits(last, 32 - space) + Bits(token, w)) == a + Bits(last, 32 - space) + Bits(token, w);
  }

  /** A word sequence cut `part` bits into the word at `slot`. */
  lemma CutBits(ws: seq<Word>, slot: nat, part: nat)
    requires slot < |ws| && part <= 32
    ensures WordBits(ws)[..32 * slot + part] == WordBits(ws[..slot]) + Bits(Shr(ws[slot], 32 - part), part)
    ensures WordBits(ws)[32 * slot + part..] == Bits(ws[slot], 32 - part) + WordBits(ws[slot + 1..])
  {
    hide *;
    WordBitsConcat(ws[..slot], ws[slot..]);
    assert ws == ws[..slot] + ws[slot..];
    WordBitsNext(ws, slot);
    BitsSplit(ws[slot], part, 32 - part);
    var a, h, t, r := WordBits(ws[..slot]), Bits(Shr(ws[slot], 32 - part), part), Bits(ws[slot], 32 - part),
      WordBits(ws[slot + 1..]);
    assert a + ((h + t) + r) == (a + h) + (t + r);
    SplitAt(a + h, t + r);
  }

  lemma BitsNone(v: int, w: int)
    ensures Bits(v, 0) == Bits(w, 0)
  {
  }

  lemma SplitAt<T>(x: seq<T>, y: seq<T>)
    ensures (x + y)[..|x|] == x && (x + y)[|x|..] == y
  {
  }

  class BitPacker {
    const z: array<Word>             // the packed array
    const base: nat                  // slot of the first word written
    ghost const before: seq<Word>    // contents of z when packing starts
    var availableWordPtr: nat
    var lastWordShifted: Word
    var spaceInLastWord: nat
    ghost var sent: seq<bool>        // every bit pushed so far

    ghost predicate Valid()
      reads this, z
    {
      && base <= availableWordPtr <= z.Length == |before|
      && spaceInLastWord <= 32
      && (forall k :: 0 <= k < base || availableWordPtr <= k < z.Length ==> z[k] == before[k])
      && sent == WordBits(z[base..availableWordPtr]) + Bits(lastWordShifted, 32 - spaceInLastWord)
    }

    constructor (z: array<Word>, base: nat)
      requires base <= z.Length
      ensures Valid()
      ensures this.z == z && this.base == base && sent == [] && before == z[..]
      ensures availableWordPtr == base && spaceInLastWord == 32
    {
      this.z, this.base, before := z, base, z[..];
      availableWordPtr, lastWordShifted, spaceInLastWord := base, 0, 32;
      sent := [];
    }

    /** Continue a packed array at a bit offset: the bits of the first word that lie before it are kept as pending. */
    constructor At(z: array<Word>, bit: nat)
      requires bit < 32 * z.Length
      ensures Valid()
      ensures this.z == z && base == bit / 32 && before == z[..]
      ensures availableWordPtr == base && spaceInLastWord == 32 - bit % 32
      ensures WordBits(z[..base]) + sent == WordBits(z[..])[..bit] && |sent| == bit % 32
    {
      hide Bits, WordBits, Shr, Pow2;
      var slot, space := bit / 32, 32 - bit % 32;
      WordShr(z[slot], space);
      FitsWord(Shr(z[slot], space), 32 - space);
      this.z, base, before := z, slot, z[..];
      availableWordPtr, spaceInLastWord := slot, space;
      lastWordShifted := if space == 32 then 0 else Shr(z[slot], space);
      sent := Bits(Shr(z[slot], space), 32 - space);
      new;
      CutBits(z[..], slot, 32 - space);
      BitsNone(Shr(before[slot], space), 0);
    }

    /** stuff(token, availableWordPtr, 32, width, lastWordShifted, spaceInLastWord) */
    method Stuff(token: nat, width: nat)
      requires Valid()
      requires 1 <= width <= 32 && token < Pow2(width)
      requires width == 32 ==> 1 <= spaceInLastWord <= 31
      requires |sent| + width <= 32 * (z.Length - base) || spaceInLastWord >= width || availableWordPtr < z.Length
      modifies this, z
      ensures Valid()
      ensures sent == old(sent) + Bits(token, width)
      ensures spaceInLastWord < 32
      ensures spaceInLastWord == (old(spaceInLastWord) - width) + (if old(spaceInLastWord) >= width then 0 else 32)
      ensures availableWordPtr == old(availableWordPtr) + (if old(spaceInLastWord) >= width then 0 else 1)
    {
      hide Shl, Shr, Low, Bits, WordBits, Or, And, Pow2;
      var ptr, last, space := availableWordPtr, lastWordShifted, spaceInLastWord;
      ghost var ws := z[base..ptr];
      if space >= width {
        PushSent(ws, last, token, space, width);
        last := Or(Wrap(Shl(last, width)), token);
        space := space - width;
      } else {
        var over := width - space;
        SpillSent(ws, last, token, space, width);
        z[ptr] := Or(Wrap(Shl(last, space)), Shr(token, over));
        assert z[base..ptr + 1] == ws + [z[ptr]];
        last := And(token, Wrap(Shr(-1, 32 - over)));
        space := 32 - over;
        ptr := ptr + 1;
      }
      availableWordPtr, lastWordShifted, spaceInLastWord := ptr, last, space;
      sent := sent + Bits(token, width);
    }

    /** The two 16-bit zero tokens every packer ends with: they push out the pending word, and only that. */
    method Flush()
      requires Valid()
      requires |sent| <= 32 * (z.Length - base)
      modifies this, z
      ensures Valid()
      ensures availableWordPtr == base + (|old(sent)| + 31) / 32
      ensures WordBits(z[base..availableWordPtr]) == old(sent)
        + Bits(0, 32)[..32 * (availableWordPtr - base) - |old(sent)|]
    {
      hide Bits, WordBits, Valid;
      ghost var s := sent;
      Pow2Values();
      HasRoom();
      Stuff(0, 16);
      HasRoom();
      Stuff(0, 16);
      BitsSplit(0, 16, 16);
      ShrZero(16);
      assert sent == s + Bits(0, 32);
      Flushed(s);
    }

    lemma HasRoom()
      requires Valid() && |sent| <= 32 * (z.Length - base) + 16
      ensures spaceInLastWord >= 16 || availableWordPtr < z.Length
    {
      hide Bits, WordBits;
    }

    /** With 32 more zeros sent, every bit of s is in the array. */
    lemma Flushed(s: seq<bool>)
      requires Valid() && spaceInLastWord < 32 && sent == s + Bits(0, 32)
      ensures base <= availableWordPtr == base + (|s| + 31) / 32 <= z.Length
      ensures WordBits(z[base..availableWordPtr]) == s + Bits(0, 32)[..32 * (availableWordPtr - base) - |s|]
    {
      hide Bits, WordBits;
      var n := 32 * (availableWordPtr - base);
      assert WordBits(z[base..availableWordPtr]) == sent[..n];
      assert (s + Bits(0, 32))[..n] == s + Bits(0, 32)[..n - |s|];
    }
  }

  lemma {:induction false} ShrZero(n: nat)
    ensures Shr(0, n) == 0
  {
    if n > 0 { ShrZero(n - 1); }
  }

  /** The token at the front of the queue lies within the current word. */
  lemma TakeInside(hi: nat, avail: nat, w: nat)
    requires 1 <= w <= avail <= 32 && hi < Pow2(avail)
    ensures var word := Shl(hi, 32 - avail);
      var token := Shr(word, 32 - w);
      && 0 <= token < Pow2(w)
      && Bits(hi, avail) == Bits(token, w) + Bits(Low(hi, avail - w), avail - w)
      && Wrap(Shl(word, w)) == Shl(Low(hi, avail - w), 32 - (avail - w))
      && Low(hi, avail - w) < Pow2(avail - w)
  {
    hide Shl, Shr, Low, Bits, Or, And, Pow2, WordBits;
    ShlNone(hi);
    var c := 32 - avail;
    var word := Shl(hi, c);
    ShrShl(hi, 0, c);
    ShrShr(word, c, avail - w);
    assert Shr(word, 32 - w) == Shr(hi, avail - w);
    ShrBound(hi, avail - w, w);
    BitsSplit(hi, w, avail - w);
    BitsLow(hi, avail - w, avail - w);
    WrapShl(word, w);
    LowShl(hi, avail - w, c);
    ShlShl(Low(hi, avail - w), c, w);
    LowBound(hi, avail - w);
  }

  /** The token at the front of the queue ends k bits into the next word. */
  lemma TakeAcross(hi: nat, avail: nat, next: Word, k: nat)
    requires 1 <= avail && 1 <= k && avail + k <= 32 && hi < Pow2(avail)
    ensures var first := Shr(Shl(hi, 32 - avail), 32 - (avail + k));
      && 0 <= first && 0 <= Shr(next, 32 - k)
      && var token := Or(first, Shr(next, 32 - k));
      && token < Pow2(avail + k)
      && Bits(hi, avail) + Bits(next, 32) == Bits(token, avail + k) + Bits(Low(next, 32 - k), 32 - k)
  {
    hide Shl, Shr, Low, Bits, Or, And, Pow2, WordBits;
    ShrShl(hi, k, 32 - avail - k);
    WordShr(next, 32 - k);
    var low := Shr(next, 32 - k);
    OrDisjoint(hi, low, k);
    JoinBound(hi, low, avail, k);
    BitsJoin(hi, low, avail, k);
    BitsSplit(next, k, 32 - k);
    BitsLow(next, 32 - k, 32 - k);
    assert Bits(hi, avail) + (Bits(low, k) + Bits(next, 32 - k)) == Bits(hi, avail) + Bits(low, k) + Bits(next, 32 - k);
  }

  lemma WordShr(w: Word, n: nat)
    requires n <= 32
    ensures 0 <= Shr(w, n) < Pow2(32 - n)
  {
    Pow2Values();
    ShrBound(w, n, 32 - n);
  }

  /** The shape of the current word once its first w bits are gone. */
  ghost predicate Remaining(word: int, hi: int, avail: nat)
    requires avail <= 32
  {
    0 <= hi < Pow2(avail) && word == Shl(hi, 32 - avail) && hi == Shr(word, 32 - avail)
  }

  lemma RemainingInside(hi: nat, avail: nat, w: nat)
    requires 1 <= w <= avail <= 32 && hi < Pow2(avail)
    ensures Remaining(Wrap(Shl(Shl(hi, 32 - avail), w)), Low(hi, avail - w), avail - w)
  {
    hide Shl, Shr, Low, Bits, Or, And, Pow2, WordBits;
    ShlNone(Low(hi, avail - w));
    TakeInside(hi, avail, w);
    ShrShl(Low(hi, avail - w), 0, 32 - (avail - w));
  }

  lemma RemainingAcross(next: Word, k: nat)
    requires k <= 32
    ensures Remaining(Wrap(Shl(next, k)), Low(next, 32 - k), 32 - k)
  {
    hide Wrap, Shl, Shr, Low, Bits, Or, And, Pow2, WordBits;
    ShlNone(Low(next, 32 - k));
    WrapShl(next, k);
    LowBound(next, 32 - k);
    ShrShl(Low(next, 32 - k), 0, k);
  }

  lemma RemainingWhole(w: Word)
    ensures Remaining(w, w, 32)
  {
    Pow2Values();
  }

  lemma WordBitsNext(z: seq<Word>, ptr: nat)
    requires ptr < |z|
    ensures WordBits(z[ptr..]) == Bits(z[ptr], 32) + WordBits(z[ptr + 1..])
  {
    assert z[ptr..][1..] == z[ptr + 1..];
  }

  /** Extraction across a word boundary, on the whole queue. */
  lemma QueueAcross(hi: nat, avail: nat, z: seq<Word>, ptr: nat, k: nat)
    requires 1 <= avail && 1 <= k && avail + k <= 32 && hi < Pow2(avail) && ptr < |z|
    ensures var first := Shr(Shl(hi, 32 - avail), 32 - (avail + k));
      && 0 <= first && 0 <= Shr(z[ptr], 32 - k)
      && var token := Or(first, Shr(z[ptr], 32 - k));
      && token < Pow2(avail + k)
      && Bits(hi, avail) + WordBits(z[ptr..])
         == Bits(token, avail + k) + (Bits(Low(z[ptr], 32 - k), 32 - k) + WordBits(z[ptr + 1..]))
  {
    hide *;
    TakeAcross(hi, avail, z[ptr], k);
    WordBitsNext(z, ptr);
    var token := Or(Shr(Shl(hi, 32 - avail), 32 - (avail + k)), Shr(z[ptr], 32 - k));
    var a, n, t, l, r := Bits(hi, avail), Bits(z[ptr], 32), Bits(token, avail + k), Bits(Low(z[ptr], 32 - k), 32 - k),
      WordBits(z[ptr + 1..]);
    assert a + (n + r) == (a + n) + r;
    assert t + (l + r) == (t + l) + r;
  }

  /** What a token is worth when it starts a bit sequence. */
  lemma FrontValue(u: seq<bool>, token: nat, w: nat, rest: seq<bool>)
    requires token < Pow2(w) && u == Bits(token, w) + rest
    ensures Val(u[..w]) == token && u[w..] == rest
  {
    assert u[..w] == Bits(token, w);
    ValBits(token, w);
    LowId(token, w);
  }

  /** The bits u still to be read: `avail` of them in the current word, the others in the words that follow. */
  ghost predicate Queue(z: seq<Word>, ptr: nat, word: Word, avail: nat, u: seq<bool>) {
    && ptr < |z| && avail <= 32
    && Remaining(word, Shr(word, 32 - avail), avail)
    && u == Bits(Shr(word, 32 - avail), avail) + WordBits(z[ptr + 1..])
  }

  lemma ReadInside(z: seq<Word>, ptr: nat, word: Word, avail: nat, u: seq<bool>, w: nat)
    requires Queue(z, ptr, word, avail, u) && 1 <= w <= avail
    ensures |u| >= w && Shr(word, 32 - w) >= 0 && Val(u[..w]) == Shr(word, 32 - w)
    ensures Queue(z, ptr, Wrap(Shl(word, w)), avail - w, u[w..])
  {
    hide Shl, Shr, Low, Bits, WordBits, Pow2, Val;
    var hi := Shr(word, 32 - avail);
    var token, left := Shr(word, 32 - w), Low(hi, avail - w);
    TakeInside(hi, avail, w);
    RemainingInside(hi, avail, w);
    var rest := WordBits(z[ptr + 1..]);
    assert u == Bits(token, w) + (Bits(left, avail - w) + rest);
    FrontValue(u, token, w, Bits(left, avail - w) + rest);
  }

  lemma ReadAcross(z: seq<Word>, ptr: nat, word: Word, avail: nat, u: seq<bool>, w: nat)
    requires Queue(z, ptr, word, avail, u) && 1 <= avail < w <= 32 && |u| >= w
    ensures var k := w - avail;
      && ptr + 1 < |z| && Shr(word, 32 - w) >= 0 && Shr(z[ptr + 1], 32 - k) >= 0
      && Val(u[..w]) == Or(Shr(word, 32 - w), Shr(z[ptr + 1], 32 - k))
      && Queue(z, ptr + 1, Wrap(Shl(z[ptr + 1], k)), 32 - k, u[w..])
  {
    hide Shl, Shr, Low, Bits, WordBits, Or, Pow2, Val;
    var hi, k := Shr(word, 32 - avail), w - avail;
    NotLast(z, ptr);
    var next := z[ptr + 1];
    QueueAcross(hi, avail, z, ptr + 1, k);
    RemainingAcross(next, k);
    var token := Or(Shr(word, 32 - w), Shr(next, 32 - k));
    FrontValue(u, token, w, Bits(Low(next, 32 - k), 32 - k) + WordBits(z[ptr + 2..]));
  }

  lemma NotLast(z: seq<Word>, ptr: nat)
    requires ptr < |z|
    ensures ptr + 1 == |z| ==> WordBits(z[ptr + 1..]) == []
  {
  }

  /** The current word is used up: the next one takes its place, which is behind the array when no bits are left. */
  lemma NextWord(z: seq<Word>, ptr: nat, word: Word, u: seq<bool>)
    requires Queue(z, ptr, word, 0, u)
    ensures if ptr + 1 < |z| then Queue(z, ptr + 1, z[ptr + 1], 32, u) else ptr + 1 == |z| && u == []
  {
    hide Shl, Low, Bits, WordBits, Pow2;
    NotLast(z, ptr);
    NoBits(Shr(word, 32));
    if ptr + 1 < |z| {
      WordBitsNext(z, ptr + 1);
      RemainingWhole(z[ptr + 1]);
    }
  }

  lemma NoBits(v: int)
    ensures Bits(v, 0) == []
  {
  }

  lemma QueueStart(z: seq<Word>, slot: nat)
    requires slot < |z|
    ensures Queue(z, slot, z[slot], 32, WordBits(z[slot..]))
  {
    hide Shl, Low, Bits, WordBits, Pow2;
    RemainingWhole(z[slot]);
    WordBitsNext(z, slot);
  }

  lemma QueueAt(z: seq<Word>, slot: nat, part: nat)
    requires slot < |z| && part < 32
    ensures Queue(z, slot, Wrap(Shl(z[slot], part)), 32 - part, WordBits(z)[32 * slot + part..])
  {
    hide Bits, WordBits, Shr, Shl, Low, Pow2;
    RemainingAcross(z[slot], part);
    BitsLow(z[slot], 32 - part, 32 - part);
    CutBits(z, slot, part);
  }

  class BitUnpacker {
    const z: array<Word>             // the packed array
    var packedWordPtr: nat
    var packedWord: Word
    var bitPackInWord: nat
    ghost var unread: seq<bool>      // every bit not yet extracted, to the end of z

    ghost predicate Valid()
      reads this, z
    {
      && bitPackInWord >= 1
      && if packedWordPtr < z.Length then Queue(z[..], packedWordPtr, packedWord, bitPackInWord, unread)
         else packedWordPtr == z.Length && unread == []   // a word behind the array has been read ahead
    }

    /** Start at the first bit of slot `slot`. */
    constructor (z: array<Word>, slot: nat)
      requires slot < z.Length
      ensures Valid()
      ensures this.z == z && unread == WordBits(z[slot..])
    {
      hide Queue, WordBits;
      this.z, packedWordPtr, packedWord, bitPackInWord := z, slot, z[slot], 32;
      unread := WordBits(z[slot..]);
      new;
      QueueStart(z[..], slot);
      assert z[..][slot..] == z[slot..];
    }

    /** Start inside a packed array at a bit offset. */
    constructor At(z: array<Word>, bit: nat)
      requires bit <= 32 * z.Length
      ensures Valid()
      ensures this.z == z && unread == WordBits(z[..])[bit..]
    {
      hide Queue, WordBits, Shl;
      var slot, part := bit / 32, bit % 32;
      this.z, packedWordPtr, bitPackInWord := z, slot, 32 - part;
      var first: Word := *;
      if slot < z.Length { first := z[slot]; }
      packedWord := Wrap(Shl(first, part));
      unread := WordBits(z[..])[bit..];
      new;
      if slot < z.Length { QueueAt(z[..], slot, part); }
    }

    /**
      extract(token, packedWordPtr, 32, width, packedWord, bitPackInWord); reads one word ahead when a word is used
      up.
     */
    method Extract(width: nat) returns (token: nat)
      requires Valid()
      requires 1 <= width <= 32 && |unread| >= width
      modifies this
      ensures Valid()
      ensures token == Val(old(unread)[..width])
      ensures unread == old(unread)[width..]
    {
      hide Shl, Shr, Or, Val, Queue, Valid, Wrap;
      QueueShape();
      var ptr, word, avail := packedWordPtr, packedWord, bitPackInWord;
      if avail >= width {
        ReadInside(z[..], ptr, word, avail, unread, width);
        token := Shr(word, 32 - width);
        // a shift by 32 leaves a value that is replaced below
        word := Wrap(Shl(word, width));
        avail := avail - width;
      } else {
        ReadAcross(z[..], ptr, word, avail, unread, width);
        token := Shr(word, 32 - width);
        var k := width - avail;
        ptr := ptr + 1;
        token := Or(token, Shr(z[ptr], 32 - k));
        word := Wrap(Shl(z[ptr], k));
        avail := 32 - k;
      }
      if avail == 0 {
        NextWord(z[..], ptr, word, unread[width..]);
        ptr := ptr + 1;
        if ptr < z.Length { word := z[ptr]; } else { word := *; }
        avail := 32;
      }
      packedWordPtr, packedWord, bitPackInWord := ptr, word, avail;
      unread := unread[width..];
      Restored();
    }

    lemma QueueShape()
      requires Valid() && unread != []
      ensures packedWordPtr < z.Length && 1 <= bitPackInWord <= 32
      ensures Queue(z[..], packedWordPtr, packedWord, bitPackInWord, unread)
    {
    }

    lemma Restored()
      requires bitPackInWord >= 1
      requires if packedWordPtr < z.Length then Queue(z[..], packedWordPtr, packedWord, bitPackInWord, unread)
        else packedWordPtr == z.Length && unread == []
      ensures Valid()
    {
    }
  }
}
