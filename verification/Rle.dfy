/**
  pack1bitRLE and unpack1bitRLE: run-length coding of 0/1 sequences. `Encode` gives the tokens the writer chooses;
  `Decode` says what a list of tokens stands for.
 */
module Rle {
  import opened Words
  import opened BitStream

  const SEQUENCE: nat := 0
  const COUNT: nat := 1

  datatype Token =
    | Literal(vals: seq<int>)       // a 0 bit and up to 7 values
    | Run(val: int, count: nat)     // a 1 bit, the value, the count on 6 bits
    | Repeat                        // eight 1 bits: 255 more of the value of the last run

  /** The values of a token for a reader whose last_val is `last`. */
  function Expand(t: Token, last: int): (s: seq<int>)
  {
    match t
    case Literal(vals) => vals
    case Run(val, count) => seq(count, k => val)
    case Repeat => seq(255, k => last)
  }

  function Last(t: Token, last: int): int {
    if t.Run? then t.val else last
  }

  function Decode(ts: seq<Token>, last: int): (s: seq<int>)
  {
    if ts == [] then [] else Expand(ts[0], last) + Decode(ts[1..], Last(ts[0], last))
  }

  ghost function TokenCode(t: Token): (s: seq<bool>)
  {
    match t
    case Literal(vals) => Bits(SEQUENCE, 1) + Flat(vals, 1)
    case Run(val, count) => Bits(COUNT, 1) + Bits(val, 1) + Bits(count, 6)
    case Repeat => Bits(255, 8)
  }

  ghost function Code(ts: seq<Token>): (s: seq<bool>)
  {
    if ts == [] then [] else TokenCode(ts[0]) + Code(ts[1..])
  }

  function Length(t: Token): nat {
    match t
    case Literal(vals) => |vals|
    case Run(_, count) => count
    case Repeat => 255
  }

  predicate Binary(vs: seq<int>) {
    forall k :: 0 <= k < |vs| ==> vs[k] == 0 || vs[k] == 1
  }

  /** A token the reader takes whole when n values are left. */
  predicate Fits(t: Token, n: int) {
    && n > 0
    && match t
       case Literal(vals) => |vals| == (if n < 7 then n else 7) && Binary(vals)
       case Run(val, count) => 8 <= count <= 62 && count <= n && (val == 0 || val == 1)
       case Repeat => 255 <= n
  }

  /** Tokens that take a reader of n values from position `at` to position `end`. */
  predicate Chain(ts: seq<Token>, at: int, n: int, end: int)
  {
    if ts == [] then at == end else Fits(ts[0], n - at) && Chain(ts[1..], at + Length(ts[0]), n, end)
  }

  /** Every token costs at most 8 bits and, but for a last short literal, covers at least 7 values. */
  lemma {:induction false} CodeCost(ts: seq<Token>, at: int, n: int, end: int)
    requires Chain(ts, at, n, end)
    ensures at <= end
    ensures |Code(ts)| <= 8 * ((end - at + 6) / 7)
    ensures ts != [] ==> end <= n
  {
    hide Fits, TokenCode, Length;
    if ts != [] {
      var t := ts[0];
      CodeCost(ts[1..], at + Length(t), n, end);
      TokenCost(t, n - at);
      if Length(t) < 7 { ChainEnds(ts[1..], n, end); }
      Sevenths(end - at, Length(t));
    }
  }

  lemma ChainEnds(ts: seq<Token>, n: int, end: int)
    requires Chain(ts, n, n, end)
    ensures ts == [] && end == n
  {
  }

  lemma TokenCost(t: Token, n: int)
    requires Fits(t, n)
    ensures 1 <= Length(t) <= n && |TokenCode(t)| <= 8 && (Length(t) < 7 ==> Length(t) == n)
  {
    hide Flat, Bits;
    if t.Literal? { FlatLength(t.vals, 1); }
  }

  lemma Sevenths(n: nat, len: nat)
    requires 1 <= len <= n && (len < 7 ==> len == n)
    ensures 8 + 8 * ((n - len + 6) / 7) <= 8 * ((n + 6) / 7)
  {
  }

  // ----- the tokens the writer chooses -----

  /** The end of the run of equal values that starts at `at` and reaches `i`. */
  function RunEnd(s: seq<int>, at: nat, i: nat): (end: nat)
    requires at < i <= |s|
    ensures i <= end <= |s|
    decreases |s| - i
  {
    if i < |s| && s[i] == s[at] then RunEnd(s, at, i + 1) else i
  }

  /** Where a literal that starts at `at` ends. */
  function LiteralEnd(s: seq<int>, at: nat): nat {
    if at + 7 > |s| then |s| else at + 7
  }

  /** The tokens from `at` on: a literal for a run below 8, and tokens for the run otherwise. */
  function Encode(s: seq<int>, at: nat): (ts: seq<Token>)
    decreases |s| - at, 1
  {
    if at >= |s| then []
    else if RunEnd(s, at, at + 1) - at < 8 then [Literal(s[at..LiteralEnd(s, at)])] + Encode(s, LiteralEnd(s, at))
    else EncodeRun(s, at, RunEnd(s, at, at + 1) - at, false)
  }

  /** The tokens when `left` values of a run are still to come; `repeat` once a run of 62 has been written. */
  function EncodeRun(s: seq<int>, at: nat, left: nat, repeat: bool): (ts: seq<Token>)
    requires 0 < left && at + left <= |s|
    decreases |s| - at, 0
  {
    var count := if left >= 63 then 62 else left;
    if count < 8 then [Literal(s[at..LiteralEnd(s, at)])] + Encode(s, LiteralEnd(s, at))
    else if count == 62 && left > 256 && repeat then [Repeat] + EncodeRun(s, at + 255, left - 255, repeat)
    else [Run(s[at], count)] + (if left > count then EncodeRun(s, at + count, left - count, repeat || count == 62)
      else Encode(s, at + count))
  }

  lemma RunIsEqual(s: seq<int>, at: nat, i: nat)
    requires at < i <= |s| && forall k :: at <= k < i ==> s[k] == s[at]
    ensures forall k :: at <= k < RunEnd(s, at, i) ==> s[k] == s[at]
    decreases |s| - i
  {
    if i < |s| && s[i] == s[at] { RunIsEqual(s, at, i + 1); }
  }

  /** The tokens chosen from `at` on take a reader to the end and stand for what is left of the sequence. */
  lemma {:induction false} EncodeDecodes(s: seq<int>, at: nat, last: int)
    requires Binary(s) && at <= |s|
    ensures Chain(Encode(s, at), at, |s|, |s|) && Decode(Encode(s, at), last) == s[at..]
    decreases |s| - at, 2
  {
    hide Fits, Expand;
    if at < |s| {
      var end := RunEnd(s, at, at + 1);
      if end - at < 8 {
        LiteralDecodes(s, at, last);
      } else {
        RunIsEqual(s, at, at + 1);
        EncodeRunDecodes(s, at, end - at, false, last);
      }
    }
  }

  /** The escape is chosen only where the reader's last value is that of the run. */
  lemma {:induction false} EncodeRunDecodes(s: seq<int>, at: nat, left: nat, repeat: bool, last: int)
    requires Binary(s) && 0 < left && at + left <= |s| && forall k :: at <= k < at + left ==> s[k] == s[at]
    requires repeat ==> last == s[at]
    ensures Chain(EncodeRun(s, at, left, repeat), at, |s|, |s|)
      && Decode(EncodeRun(s, at, left, repeat), last) == s[at..]
    decreases |s| - at, 1
  {
    hide Expand, Chain, Decode, Fits, Last, Encode;
    var count := if left >= 63 then 62 else left;
    if count < 8 {
      LiteralDecodes(s, at, last);
    } else if count == 62 && left > 256 && repeat {
      EncodeRunDecodes(s, at + 255, left - 255, repeat, last);
      SameValues(Repeat, s, at, last);
      OneToken(Repeat, EncodeRun(s, at + 255, left - 255, repeat), s, at, last);
    } else if left > count {
      EncodeRunDecodes(s, at + count, left - count, repeat || count == 62, s[at]);
      SameValues(Run(s[at], count), s, at, last);
      OneToken(Run(s[at], count), EncodeRun(s, at + count, left - count, repeat || count == 62), s, at, last);
    } else {
      EncodeDecodes(s, at + count, s[at]);
      SameValues(Run(s[at], count), s, at, last);
      OneToken(Run(s[at], count), Encode(s, at + count), s, at, last);
    }
  }

  /** Exactly n equal values stand from `at` on. */
  ghost predicate RunOf(s: seq<int>, at: nat, n: nat) {
    && n > 0 && at + n <= |s| && (forall k :: at <= k < at + n ==> s[k] == s[at])
    && (at + n == |s| || s[at + n] != s[at])
  }

  /**
    What the writer is to choose at a position: a literal of seven values, or of what is left, where fewer than 8 values
    are equal; else a run of all of them, or of 62 where there are more, and an escape for 255 where more than 256 are
    equal and a run of 62 or an escape for the same run came just before.
   */
  ghost predicate ChoosesAt(s: seq<int>, at: nat, t: Token, full: bool) {
    && at < |s|
    && forall n: nat :: RunOf(s, at, n) ==>
      && (n < 8 ==> t == Literal(if at + 7 <= |s| then s[at..at + 7] else s[at..]))
      && (n > 256 && full && at > 0 && s[at - 1] == s[at] ==> t == Repeat)
      && (n >= 8 && !(n > 256 && full && at > 0 && s[at - 1] == s[at]) ==> t == Run(s[at], if n > 62 then 62 else n))
  }

  /** The tokens are all chosen like that, up to the end of the sequence. */
  ghost predicate Chosen(s: seq<int>, at: nat, ts: seq<Token>, full: bool)
    decreases |ts|
  {
    if ts == [] then at == |s|
    else
      && ChoosesAt(s, at, ts[0], full)
      && Chosen(s, at + Length(ts[0]), ts[1..], ts[0] == Repeat || (ts[0].Run? && ts[0].count == 62))
  }

  lemma {:induction false} RunEndIsRun(s: seq<int>, at: nat, i: nat)
    requires at < i <= |s| && forall k :: at <= k < i ==> s[k] == s[at]
    ensures RunOf(s, at, RunEnd(s, at, i) - at)
    decreases |s| - i
  {
    if i < |s| && s[i] == s[at] { RunEndIsRun(s, at, i + 1); }
  }

  lemma OneRun(s: seq<int>, at: nat, n: nat, m: nat)
    requires RunOf(s, at, n) && RunOf(s, at, m)
    ensures n == m
  {
  }

  /** The tokens of the writer are those it is to choose. */
  lemma {:induction false} EncodeIsChosen(s: seq<int>, at: nat, full: bool)
    requires at <= |s| && (full && 0 < at < |s| ==> s[at - 1] != s[at])
    ensures Chosen(s, at, Encode(s, at), full)
    decreases |s| - at, 2
  {
    hide ChoosesAt, RunOf;
    if at < |s| {
      var end := RunEnd(s, at, at + 1);
      RunEndIsRun(s, at, at + 1);
      if end - at < 8 {
        LiteralIsChosen(s, at, end - at, full);
      } else {
        RunIsChosen(s, at, end - at, false, full);
      }
    }
  }

  lemma {:induction false} LiteralIsChosen(s: seq<int>, at: nat, n: nat, full: bool)
    requires at < |s| && RunOf(s, at, n) && n < 8
    ensures var end := LiteralEnd(s, at); Chosen(s, at, [Literal(s[at..end])] + Encode(s, end), full)
    decreases |s| - at, 0
  {
    hide RunOf, Encode;
    var end := LiteralEnd(s, at);
    EncodeIsChosen(s, end, false);
    forall m: nat | RunOf(s, at, m) ensures m == n { OneRun(s, at, n, m); }
    assert end == |s| ==> s[at..end] == s[at..];
    ChosenFront(s, at, Literal(s[at..end]), Encode(s, end), full);
  }

  lemma ChosenFront(s: seq<int>, at: nat, t: Token, rest: seq<Token>, full: bool)
    requires ChoosesAt(s, at, t, full)
    requires Chosen(s, at + Length(t), rest, t == Repeat || (t.Run? && t.count == 62))
    ensures Chosen(s, at, [t] + rest, full)
  {
    hide ChoosesAt, Length;
    assert ([t] + rest)[1..] == rest && ([t] + rest)[0] == t;
  }

  /** Within a run the writer repeats exactly when a full run or an escape came just before. */
  lemma {:induction false} RunIsChosen(s: seq<int>, at: nat, left: nat, repeat: bool, full: bool)
    requires RunOf(s, at, left) && (repeat <==> full && at > 0 && s[at - 1] == s[at])
    requires repeat || left >= 8
    ensures Chosen(s, at, EncodeRun(s, at, left, repeat), full)
    decreases |s| - at, 1
  {
    hide Encode, Chosen;
    forall m: nat | RunOf(s, at, m) ensures m == left { OneRun(s, at, left, m); }
    var count := if left >= 63 then 62 else left;
    if count < 8 {
      LiteralIsChosen(s, at, left, full);
    } else if count == 62 && left > 256 && repeat {
      RunIsChosen(s, at + 255, left - 255, repeat, true);
      ChosenFront(s, at, Repeat, EncodeRun(s, at + 255, left - 255, repeat), full);
    } else if left > count {
      RunIsChosen(s, at + count, left - count, repeat || count == 62, true);
      ChosenFront(s, at, Run(s[at], count), EncodeRun(s, at + count, left - count, repeat || count == 62), full);
    } else {
      EncodeIsChosen(s, at + count, count == 62);
      ChosenFront(s, at, Run(s[at], count), Encode(s, at + count), full);
    }
  }

  lemma SameValues(t: Token, s: seq<int>, at: nat, last: int)
    requires Binary(s) && at < |s| && at + Length(t) <= |s| && forall k :: at <= k < at + Length(t) ==> s[k] == s[at]
    requires (t == Repeat && last == s[at]) || (t.Run? && t.val == s[at])
    requires t.Run? ==> 8 <= t.count <= 62
    ensures Expand(t, last) == s[at..at + Length(t)] && Last(t, last) == s[at] && Fits(t, |s| - at)
  {
  }

  lemma {:induction false} LiteralDecodes(s: seq<int>, at: nat, last: int)
    requires Binary(s) && at < |s|
    ensures var end := LiteralEnd(s, at); var ts := [Literal(s[at..end])] + Encode(s, end);
      Chain(ts, at, |s|, |s|) && Decode(ts, last) == s[at..]
    decreases |s| - at, 0
  {
    var end := LiteralEnd(s, at);
    EncodeDecodes(s, end, last);
    OneToken(Literal(s[at..end]), Encode(s, end), s, at, last);
  }

  lemma OneToken(t: Token, rest: seq<Token>, s: seq<int>, at: nat, last: int)
    requires Fits(t, |s| - at) && at + Length(t) <= |s| && Expand(t, last) == s[at..at + Length(t)]
    requires Chain(rest, at + Length(t), |s|, |s|) && Decode(rest, Last(t, last)) == s[at + Length(t)..]
    ensures Chain([t] + rest, at, |s|, |s|) && Decode([t] + rest, last) == s[at..]
  {
    hide Expand, Last, Fits, Length;
    assert ([t] + rest)[1..] == rest;
  }

  lemma BitPow()
    ensures Pow2(1) == 2 && Pow2(6) == 64 && Pow2(8) == 256
  {
    assert Pow2(4) == 16;
  }

  lemma BinarySlice(ufld: seq<int>, npts: nat, at: nat, n: nat)
    requires at + n <= npts <= |ufld| && Binary(ufld[..npts])
    ensures Binary(ufld[at..at + n])
  {
    var head, vals := ufld[..npts], ufld[at..at + n];
    forall k | 0 <= k < n
      ensures vals[k] == 0 || vals[k] == 1
    {
      assert vals[k] == head[at + k];
    }
  }

  lemma CodeStep(sent: seq<bool>, t: Token, rest: seq<Token>)
    ensures sent + Code([t] + rest) == (sent + TokenCode(t)) + Code(rest)
    ensures |sent| + |TokenCode(t)| <= |sent + Code([t] + rest)|
  {
    hide TokenCode;
    assert ([t] + rest)[1..] == rest;
  }

  // ----- the writer -----

  lemma SameLiteral(ufld: seq<int>, npts: nat, at: nat)
    requires at < npts <= |ufld|
    ensures var s := ufld[..npts]; s[at..LiteralEnd(s, at)] == ufld[at..LiteralEnd(s, at)]
  {
  }

  /** The type bit of a literal, its first values, and one more. */
  lemma LiteralStep(sent: seq<bool>, vals: seq<int>, i: nat)
    requires i < |vals|
    ensures sent + Bits(SEQUENCE, 1) + Flat(vals[..i + 1], 1)
      == (sent + Bits(SEQUENCE, 1) + Flat(vals[..i], 1)) + Bits(vals[i], 1)
    ensures |sent + Bits(SEQUENCE, 1) + Flat(vals[..i], 1)| + 1 <= |sent| + |TokenCode(Literal(vals))|
  {
    hide Bits;
    FlatNext(vals, i, 1);
    FlatLength(vals[..i], 1);
    FlatLength(vals, 1);
  }

  lemma LiteralWhole(sent: seq<bool>, vals: seq<int>)
    ensures sent + Bits(SEQUENCE, 1) + Flat(vals[..0], 1) == sent + Bits(SEQUENCE, 1)
    ensures sent + Bits(SEQUENCE, 1) + Flat(vals[..|vals|], 1) == sent + TokenCode(Literal(vals))
    ensures 1 <= |TokenCode(Literal(vals))|
  {
    hide Bits;
    FlatNone(vals, 1);
    assert vals[..|vals|] == vals;
  }

  /** A literal of the values from last_indx on. */
  method StuffLiteral(w: BitPacker, ufld: seq<int>, npts: nat, last_indx: nat)
    requires w.Valid() && last_indx < npts <= |ufld| && Binary(ufld[..npts])
    requires |w.sent| + |TokenCode(Literal(ufld[last_indx..LiteralEnd(ufld[..npts], last_indx)]))|
      <= 32 * (w.z.Length - w.base)
    modifies w, w.z
    ensures w.Valid() && w.sent
      == old(w.sent) + TokenCode(Literal(ufld[last_indx..LiteralEnd(ufld[..npts], last_indx)]))
  {
    hide BitPacker.Valid, Bits, Pow2, Flat, TokenCode;
    var limite := if last_indx + 7 > npts then npts - last_indx else 7;
    ghost var vals := ufld[last_indx..last_indx + limite];
    ghost var sent := w.sent;
    BitPow();
    BinarySlice(ufld, npts, last_indx, limite);
    LiteralWhole(sent, vals);
    w.Stuff(SEQUENCE, 1);
    var i := 0;
    while i < limite
      invariant 0 <= i <= limite
      invariant w.Valid() && w.sent == sent + Bits(SEQUENCE, 1) + Flat(vals[..i], 1)
    {
      LiteralStep(sent, vals, i);
      assert ufld[last_indx + i] == vals[i];
      w.Stuff(ufld[last_indx + i], 1);
      i := i + 1;
    }
  }

  /** A run of lcl_count values. */
  method StuffRun(w: BitPacker, val: int, lcl_count: nat)
    requires w.Valid() && 8 <= lcl_count <= 62 && (val == 0 || val == 1)
    requires |w.sent| + |TokenCode(Run(val, lcl_count))| <= 32 * (w.z.Length - w.base)
    modifies w, w.z
    ensures w.Valid() && w.sent == old(w.sent) + TokenCode(Run(val, lcl_count))
  {
    hide BitPacker.Valid, Bits, Pow2;
    ghost var sent := w.sent;
    BitPow();
    w.Stuff(COUNT, 1);
    w.Stuff(val, 1);
    w.Stuff(lcl_count, 6);
    assert w.sent == sent + (Bits(COUNT, 1) + Bits(val, 1) + Bits(lcl_count, 6));
  }

  /** The escape: 255 more of the value of the last run. */
  method StuffRepeat(w: BitPacker)
    requires w.Valid() && |w.sent| + |TokenCode(Repeat)| <= 32 * (w.z.Length - w.base)
    modifies w, w.z
    ensures w.Valid() && w.sent == old(w.sent) + TokenCode(Repeat)
  {
    hide BitPacker.Valid, Bits, Pow2;
    BitPow();
    w.Stuff(255, 8);
  }

  /** The tokens still to be written in a long run of which `left` values are left, or behind it. */
  function Following(s: seq<int>, at: nat, left: int, repeat: nat): seq<Token> {
    if 0 < left && at + left <= |s| then EncodeRun(s, at, left, repeat == 1) else Encode(s, at)
  }

  lemma NextToken(s: seq<int>, at: nat, left: nat, repeat: nat)
    requires 0 < left && at + left <= |s| && repeat <= 1
    ensures var count := if left >= 63 then 62 else left;
      Following(s, at, left, repeat) ==
      if count < 8 then [Literal(s[at..LiteralEnd(s, at)])] + Encode(s, at + 7)
      else if count == 62 && left > 256 && repeat == 1 then [Repeat] + Following(s, at + 255, left - 255, 1)
      else [Run(s[at], count)] + Following(s, at + count, left - count, if count == 62 then 1 else repeat)
  {
    hide Encode;
    BeyondEnd(s, at);
  }

  lemma NothingLeft(s: seq<int>, at: nat, repeat: nat)
    ensures forall left :: left <= 0 ==> Following(s, at, left, repeat) == Encode(s, at)
  {
    hide Encode;
  }

  /**
    One run of `count` equal values, of at least 8: escapes after a first run of 62, a literal for a short remainder.
   */
  method StuffLongRun(w: BitPacker, ufld: seq<int>, npts: nat, first: nat, count: nat) returns (last_indx: nat)
    requires w.Valid() && count >= 8 && first + count <= npts <= |ufld| && Binary(ufld[..npts])
    requires forall k :: first <= k < first + count ==> ufld[k] == ufld[first]
    requires |w.sent + Code(EncodeRun(ufld[..npts], first, count, false))| <= 32 * (w.z.Length - w.base)
    modifies w, w.z
    ensures w.Valid() && last_indx > first
    ensures w.sent + Code(Encode(ufld[..npts], last_indx)) == old(w.sent)
      + Code(EncodeRun(ufld[..npts], first, count, false))
  {
    hide BitPacker.Valid, Encode, EncodeRun, Following, Code, TokenCode;
    ghost var s, goal := ufld[..npts], w.sent + Code(EncodeRun(ufld[..npts], first, count, false));
    FollowingRun(s, first, count);
    last_indx := first;
    var i, repeat := 0, 0;
    while i < count
      invariant w.Valid() && 0 <= repeat <= 1
      invariant if i < count then last_indx == first + i else last_indx > first
      invariant w.sent + Code(Following(s, last_indx, count - i, repeat)) == goal
      decreases count - i
    {
      var lcl_count := if count - i >= 63 then 62 else count - i;
      assert s[last_indx] == ufld[last_indx];
      NextToken(s, last_indx, count - i, repeat);
      if lcl_count < 8 {
        SameLiteral(ufld, npts, last_indx);
        CodeStep(w.sent, Literal(s[last_indx..LiteralEnd(s, last_indx)]), Encode(s, last_indx + 7));
        StuffLiteral(w, ufld, npts, last_indx);
        last_indx := last_indx + 7;
        NothingLeft(s, last_indx, repeat);
      } else if lcl_count == 62 {
        if count - i > 256 && repeat == 1 {
          lcl_count := 255;
          CodeStep(w.sent, Repeat, Following(s, last_indx + 255, count - i - 255, 1));
          StuffRepeat(w);
          last_indx := last_indx + lcl_count;
        } else {
          CodeStep(w.sent, Run(s[last_indx], 62), Following(s, last_indx + 62, count - i - 62, 1));
          StuffRun(w, ufld[last_indx], lcl_count);
          last_indx := last_indx + lcl_count;
          repeat := 1;
        }
      } else {
        CodeStep(w.sent, Run(s[last_indx], lcl_count), Following(s, last_indx + lcl_count, 0, repeat));
        StuffRun(w, ufld[last_indx], lcl_count);
        last_indx := last_indx + lcl_count;
      }
      i := i + lcl_count;
    }
    NothingLeft(s, last_indx, repeat);
  }

  lemma FollowingRun(s: seq<int>, at: nat, left: nat)
    requires 0 < left && at + left <= |s|
    ensures Following(s, at, left, 0) == EncodeRun(s, at, left, false)
  {
  }

  /** Behind the end there are no more tokens. */
  lemma BeyondEnd(s: seq<int>, at: nat)
    requires at < |s|
    ensures Encode(s, at + 7) == Encode(s, LiteralEnd(s, at))
  {
  }

  lemma RunEndIs(s: seq<int>, at: nat, i: nat, end: nat)
    requires at < i <= end <= |s| && (forall k :: at <= k < end ==> s[k] == s[at]) && (end == |s| || s[end] != s[at])
    ensures RunEnd(s, at, i) == end
    decreases end - i
  {
    if i < end { RunEndIs(s, at, i + 1, end); }
  }

  /** What is chosen for the run from `at` to `end`. */
  lemma NextRun(s: seq<int>, at: nat, end: nat)
    requires at < end <= |s| && (forall k :: at <= k < end ==> s[k] == s[at]) && (end == |s| || s[end] != s[at])
    ensures Encode(s, at) == if end - at < 8 then [Literal(s[at..LiteralEnd(s, at)])] + Encode(s, at + 7)
      else EncodeRun(s, at, end - at, false)
  {
    hide EncodeRun;
    RunEndIs(s, at, at + 1, end);
    BeyondEnd(s, at);
  }

  lemma NoMoreTokens(s: seq<int>, at: nat)
    ensures at >= |s| ==> Code(Encode(s, at)) == []
  {
  }

  /** The stream starts with the code of the tokens chosen for the sequence. */
  method Pack1BitRLE(z: array<Word>, slot: nat, ufld: seq<int>, npts: nat) returns (zlng: nat)
    requires |ufld| > npts && Binary(ufld[..npts])   // the scan looks at ufld[npts] before it tests the index
    requires slot < z.Length && |Code(Encode(ufld[..npts], 0))| <= 32 * (z.Length - slot)
    modifies z
    ensures StartsWith(z[..], slot, Code(Encode(ufld[..npts], 0)))
      && zlng == 1 + 4 * ((|Code(Encode(ufld[..npts], 0))| + 31) / 32)
    ensures forall k :: 0 <= k < slot ==> z[k] == old(z[k])
  {
    hide BitPacker.Valid, WordBits, Bits, Code, Encode, EncodeRun, TokenCode;
    ghost var s := ufld[..npts];
    ghost var code := Code(Encode(s, 0));
    z[slot] := 0;
    var w := new BitPacker(z, slot);
    Kept(w);
    var last_indx, indx := 0, 1;
    while indx <= npts
      invariant w.Valid() && indx == last_indx + 1 && w.sent + Code(Encode(s, last_indx)) == code
      decreases npts - last_indx
    {
      while ufld[indx] == ufld[last_indx] && indx < npts
        invariant last_indx + 1 <= indx <= npts
        invariant forall k :: last_indx <= k < indx ==> ufld[k] == ufld[last_indx]
        decreases npts - indx
      {
        indx := indx + 1;
      }
      var count := indx - last_indx;
      NextRun(s, last_indx, indx);
      if count < 8 {
        SameLiteral(ufld, npts, last_indx);
        CodeStep(w.sent, Literal(s[last_indx..LiteralEnd(s, last_indx)]), Encode(s, last_indx + 7));
        StuffLiteral(w, ufld, npts, last_indx);
        last_indx := last_indx + 7;
      } else {
        last_indx := StuffLongRun(w, ufld, npts, last_indx, count);
      }
      indx := last_indx + 1;
    }
    NoMoreTokens(s, last_indx);
    assert w.sent == code;
    w.Flush();
    Kept(w);
    var end := w.availableWordPtr;
    assert z[..][slot..end] == z[slot..end];
    StartsWithFlushed(z[..], slot, end, code, Bits(0, 32)[..32 * (end - slot) - |code|]);
    zlng := 1 + (end - slot) * 4;
  }

  lemma Kept(w: BitPacker)
    requires w.Valid()
    ensures w.z.Length == |w.before| && w.base <= w.availableWordPtr <= w.z.Length
    ensures forall k :: 0 <= k < w.base ==> w.z[k] == w.before[k]
  {
  }

  /** The token at the front of the queue. */
  lemma CodeFront(u: seq<bool>, t: Token, left: seq<Token>, rest: seq<bool>)
    requires u == Code([t] + left) + rest
    ensures u == TokenCode(t) + (Code(left) + rest)
  {
    hide TokenCode;
    assert ([t] + left)[1..] == left;
  }

  /** The type bit of a token and what follows it. */
  ghost function Body(t: Token): (s: seq<bool>)
  {
    match t
    case Literal(vals) => Flat(vals, 1)
    case Run(val, count) => Bits(val, 1) + Bits(count, 6)
    case Repeat => Bits(1, 1) + Bits(63, 6)
  }

  /**
    The bits of the tokens: a literal is a zero and its values; a run is a byte of a one, its value and six bits of
    count; an escape is a byte of ones.
   */
  lemma TokenBits(val: int, count: nat, vals: seq<int>)
    requires Binary([val]) && count < 64 && Binary(vals)
    ensures TokenCode(Run(val, count)) == Bits(128 + 64 * val + count, 8) && TokenCode(Repeat) == Bits(255, 8)
    ensures var s := TokenCode(Literal(vals));
      |s| == 1 + |vals| && !s[0] && forall k :: 0 <= k < |vals| ==> (s[k + 1] <==> vals[k] == 1)
  {
    hide Bits, Pow2, Shl, Flat;
    assert [val][0] == val;
    SmallPowers();
    ShlIsMul(1, 1);
    BitsJoin(1, val, 1, 1);
    ShlIsMul(2 + val, 6);
    BitsJoin(2 + val, count, 2, 6);
    LiteralBits(vals);
    OneBitEach(0);
    var s := Flat(vals, 1);
    forall k | 0 <= k < |vals| ensures TokenCode(Literal(vals))[k + 1] <==> vals[k] == 1 {
      assert TokenCode(Literal(vals))[k + 1] == s[k];
    }
  }

  lemma SmallPowers()
    ensures Pow2(1) == 2 && Pow2(6) == 64
  {
    assert Pow2(3) == 8;
  }

  lemma OneBitEach(v: int)
    ensures Bits(v, 1) == [v % 2 == 1]
  {
    assert Bits(v / 2, 0) == [];
  }

  lemma {:induction false} LiteralBits(vals: seq<int>)
    requires Binary(vals)
    ensures |Flat(vals, 1)| == |vals| && forall k :: 0 <= k < |vals| ==> (Flat(vals, 1)[k] <==> vals[k] == 1)
    decreases |vals|
  {
    hide Bits;
    if vals != [] {
      LiteralBits(vals[1..]);
      OneBitEach(vals[0]);
      var s := Flat(vals[1..], 1);
      assert Flat(vals, 1) == [vals[0] % 2 == 1] + s;
      forall k | 1 <= k < |vals| ensures Flat(vals, 1)[k] <==> vals[k] == 1 { assert Flat(vals, 1)[k] == s[k - 1]; }
    }
  }

  lemma EightOnes()
    ensures Bits(255, 8) == Bits(COUNT, 1) + (Bits(1, 1) + Bits(63, 6))
  {
    hide Bits, Low;
    BitsSplit(255, 1, 7);
    BitsSplit(255, 1, 6);
    ShrIsDiv(255, 7);
    ShrIsDiv(255, 6);
    BitsLow(255, 6, 6);
    LowIsMod(255, 6);
    BitPow();
    BitsLow(3, 1, 1);
    LowIsMod(3, 1);
    assert Pow2(7) == 2 * Pow2(6);
  }

  lemma TypeFront(u: seq<bool>, t: Token, rest: seq<bool>)
    requires u == TokenCode(t) + rest
    ensures |u| >= 1 + |rest| && Val(u[..1]) == (if t.Literal? then SEQUENCE else COUNT) && u[1..] == Body(t) + rest
  {
    hide Bits, Val, Flat;
    var b := if t.Literal? then SEQUENCE else COUNT;
    EightOnes();
    BitPow();
    assert u == Bits(b, 1) + (Body(t) + rest);
    FrontValue(u, b, 1, Body(t) + rest);
  }

  /** The value and the count of a run or of the escape. */
  lemma RunFront(u: seq<bool>, val: nat, count: nat, rest: seq<bool>)
    requires u == Bits(val, 1) + Bits(count, 6) + rest && val < 2 && count < 64
    ensures |u| == 7 + |rest| && Val(u[..1]) == val && Val(u[1..][..6]) == count && u[1..][6..] == rest
  {
    hide Bits, Val;
    BitPow();
    assert u == Bits(val, 1) + (Bits(count, 6) + rest);
    FrontValue(u, val, 1, Bits(count, 6) + rest);
    FrontValue(u[1..], count, 6, rest);
  }

  lemma BitFront(u: seq<bool>, vals: seq<int>, k: nat, rest: seq<bool>)
    requires k < |vals| && Binary(vals) && u == Flat(vals[k..], 1) + rest
    ensures |u| >= 1 + |rest| && Val(u[..1]) == vals[k] && u[1..] == Flat(vals[k + 1..], 1) + rest
  {
    hide Flat, Val, Low;
    assert vals[k..] == [vals[k]] + vals[k + 1..];
    FlatFront(u, vals[k], vals[k + 1..], 1, rest);
    BitPow();
    LowId(vals[k], 1);
  }

  /** A literal read back into positions i, i + 1, ... */
  method ExtractLiteral(r: BitUnpacker, ufld: array<int>, i: nat, limite: nat, ghost vals: seq<int>,
      ghost rest: seq<bool>)
    requires limite == |vals| && i + limite <= ufld.Length && Binary(vals)
    requires r.Valid() && |rest| > 0 && r.unread == Flat(vals, 1) + rest
    modifies r, ufld
    ensures r.Valid() && r.unread == rest
    ensures ufld[..] == old(ufld[..i]) + vals + old(ufld[i + limite..])
  {
    hide BitUnpacker.Valid, Flat, Val, Binary;
    ghost var before := ufld[..];
    var j := 0;
    while j < limite
      invariant 0 <= j <= limite
      invariant r.Valid() && r.unread == Flat(vals[j..], 1) + rest
      invariant ufld[..] == before[..i] + vals[..j] + before[i + j..]
    {
      BitFront(r.unread, vals, j, rest);
      var token := r.Extract(1);
      ufld[i + j] := token;
      j := j + 1;
    }
    FlatEmpty(1);
    assert vals[limite..] == [];
    assert vals[..limite] == vals;
  }

  /** The loops that repeat a value. */
  method Fill(ufld: array<int>, i: nat, count: nat, val: int)
    requires i + count <= ufld.Length
    modifies ufld
    ensures ufld[..] == old(ufld[..i]) + seq(count, k => val) + old(ufld[i + count..])
  {
    ghost var before := ufld[..];
    var j := 0;
    while j < count
      invariant 0 <= j <= count
      invariant ufld[..] == before[..i] + seq(j, k => val) + before[i + j..]
    {
      ufld[i + j] := val;
      j := j + 1;
    }
  }

  lemma {:induction false} DecodeFront(t: Token, left: seq<Token>, last: int, at: int, n: int, end: int)
    requires Chain([t] + left, at, n, end)
    ensures Fits(t, n - at) && Chain(left, at + Length(t), n, end) && at < at + Length(t) <= end <= n
    ensures Decode([t] + left, last) == Expand(t, last) + Decode(left, Last(t, last))
    ensures |Expand(t, last)| == Length(t)
  {
    assert ([t] + left)[1..] == left;
    CodeCost(left, at + Length(t), n, end);
  }

  lemma ChainOpen(ts: seq<Token>, at: int, n: int)
    requires Chain(ts, at, n, n) && at < n
    ensures ts != [] && ts == [ts[0]] + ts[1..]
  {
  }

  lemma ChainClosed(ts: seq<Token>, n: int, last: int)
    requires Chain(ts, n, n, n)
    ensures ts == [] && Decode(ts, last) == []
  {
  }

  /** One turn of the reading loop: the value or the count decide what is written. */
  method ExtractToken(r: BitUnpacker, ufld: array<int>, i: nat, npts: nat, last_val: int, ghost t: Token,
      ghost rest: seq<bool>)
    returns (i': nat, last_val': int)
    requires i < npts <= ufld.Length && Fits(t, npts - i)
    requires r.Valid() && |rest| > 0 && r.unread == TokenCode(t) + rest
    modifies r, ufld
    ensures r.Valid() && r.unread == rest
    ensures i' == i + Length(t) <= npts && last_val' == Last(t, last_val)
    ensures ufld[..i'] == old(ufld[..i]) + Expand(t, last_val) && ufld[npts..] == old(ufld[npts..])
  {
    hide BitUnpacker.Valid, Bits, TokenCode, Val, Flat;
    TypeFront(r.unread, t, rest);
    i', last_val' := i, last_val;
    var seq_type := r.Extract(1);
    if seq_type == SEQUENCE {
      var limite := if i + 7 > npts then npts - i else 7;
      ExtractLiteral(r, ufld, i, limite, t.vals, rest);
      i' := i + limite;
    } else {
      RunFront(r.unread, if t.Run? then t.val else 1, if t.Run? then t.count else 63, rest);
      var val := r.Extract(1);
      var count := r.Extract(6);
      if count == 63 {
        Fill(ufld, i, 255, last_val);
        i' := i + 255;
      } else {
        Fill(ufld, i, count, val);
        i' := i + count;
        last_val' := val;
      }
    }
  }

  /** Whatever tokens a stream starts with, reading it gives what they stand for. */
  method Unpack1BitRLE(ufld: array<int>, z: array<Word>, slot: nat, npts: nat, ghost ts: seq<Token>)
    requires npts <= ufld.Length && Chain(ts, 0, npts, npts)
    requires slot < z.Length && StartsWith(z[..], slot, Code(ts))
    requires |Code(ts)| < 32 * (z.Length - slot)   // extract reads one word ahead
    modifies ufld
    ensures ufld[..npts] == Decode(ts, 255)
    ensures ufld[npts..] == old(ufld[npts..])
  {
    hide BitUnpacker.Valid, WordBits, Chain, Decode, Code, TokenCode, Expand, Last, Fits, Length;
    var r := new BitUnpacker(z, slot);
    assert z[..][slot..] == z[slot..];
    ghost var goal, rest, left := Decode(ts, 255), r.unread[|Code(ts)|..], ts;
    ghost var tail := ufld[npts..];
    var last_val := 255;   // (unsigned char) 0xFFFFFFFF
    var i := 0;
    while i < npts
      invariant i <= npts && Chain(left, i, npts, npts)
      invariant r.Valid() && r.unread == Code(left) + rest
      invariant ufld[..i] + Decode(left, last_val) == goal && ufld[npts..] == tail
      decreases npts - i
    {
      ChainOpen(left, i, npts);
      ghost var t := left[0];
      left := left[1..];
      CodeFront(r.unread, t, left, rest);
      DecodeFront(t, left, last_val, i, npts, npts);
      ghost var done, out, behind := ufld[..i], Expand(t, last_val), Code(left) + rest;
      i, last_val := ExtractToken(r, ufld, i, npts, last_val, t, behind);
      assert (done + out) + Decode(left, last_val) == done + (out + Decode(left, last_val));
    }
    ChainClosed(left, npts, last_val);
  }

  /** A sign stream of at least 256 values never takes more than a quarter of a byte per value. */
  lemma SignStreamIsShort(ts: seq<Token>, npts: nat)
    requires Chain(ts, 0, npts, npts) && npts >= 256
    ensures |Code(ts)| <= 8 * ((npts + 6) / 7)
    ensures 1 + 4 * ((|Code(ts)| + 31) / 32) <= npts / 4
  {
    hide Chain, Code;
    CodeCost(ts, 0, npts, npts);
  }
}
