/**
  float_packer and float_unpacker: a block of floats is coded by 16-bit tokens relative to the least mantissa.
  A finite float is a sign, an exponent and a fraction; `Key` is its value in units of 2^-149, an integer.
 */
module FloatPacker {
  import opened Words
  import M = MinMax

  const HIDDEN: int := 0x80_0000    // 1 << 23
  const CLIP: int := 0xFF_FFFF

  datatype Float = Float(neg: bool, exp: nat, frac: nat)

  predicate Finite(f: Float) {
    f.exp <= 254 && f.frac < HIDDEN
  }

  predicate AllFinite(v: seq<Float>) {
    forall k :: 0 <= k < |v| ==> Finite(v[k])
  }

  /** The magnitude of a float in units of 2^-149. */
  function Size(f: Float): int {
    if f.exp == 0 then f.frac else Shl(HIDDEN + f.frac, f.exp - 1)
  }

  function Key(f: Float): int {
    if f.neg then -Size(f) else Size(f)
  }

  /** The mantissa, hidden bit restored, normalized to the exponent maxExp. */
  function Magnitude(f: Float, maxExp: nat): int {
    Shr(HIDDEN + f.frac, if maxExp - f.exp > 31 then 31 else if maxExp < f.exp then 0 else maxExp - f.exp)
  }

  function Mantissa(f: Float, maxExp: nat): int {
    if f.neg then -Magnitude(f, maxExp) else Magnitude(f, maxExp)
  }

  /** Minimum or Maximum: the mantissa of an extreme value, 0 when it has no hidden bit. */
  function Bound(f: Float, maxExp: nat): int {
    if f.exp < 1 then 0 else Mantissa(f, maxExp)
  }

  /** fmin and fmax: the first value no other is below, or above. */
  function Fmin(v: seq<Float>): (f: Float)
    requires v != []
    ensures f in v
  {
    if |v| == 1 then v[0]
    else var f := Fmin(v[..|v| - 1]); if Key(f) > Key(v[|v| - 1]) then v[|v| - 1] else f
  }

  function Fmax(v: seq<Float>): (f: Float)
    requires v != []
    ensures f in v
  {
    if |v| == 1 then v[0]
    else var f := Fmax(v[..|v| - 1]); if Key(f) < Key(v[|v| - 1]) then v[|v| - 1] else f
  }

  lemma {:induction false} Extremes(v: seq<Float>)
    requires v != []
    ensures forall k :: 0 <= k < |v| ==> Key(Fmin(v)) <= Key(v[k]) <= Key(Fmax(v))
  {
    hide Key;
    if |v| > 1 {
      var u := v[..|v| - 1];
      Extremes(u);
      forall k | 0 <= k < |v|
        ensures Key(Fmin(v)) <= Key(v[k]) <= Key(Fmax(v))
      {
        if k < |u| { assert v[k] == u[k]; }
      }
    }
  }

  function MaxExp(v: seq<Float>): nat
    requires v != []
  {
    if Fmax(v).exp > Fmin(v).exp then Fmax(v).exp else Fmin(v).exp
  }

  /** Shift2: how often the range must be halved to fit under the mask. */
  function ShiftFor(range: int, mask: nat): nat
    decreases if range < 0 then 0 else range
  {
    if range > mask then 1 + ShiftFor(range / 2, mask) else 0
  }

  /** One value quantized: x is its mantissa, lo the least mantissa, s the shift. */
  function Token(x: int, lo: int, s: nat, mask: nat): int {
    var t := Shr(x - lo + Pow2(s) / 2, s);
    if t > mask then mask else t
  }

  /** The mantissa a token stands for, before and after the clip. */
  function Level(t: int, lo: int, s: nat): int {
    Shl(t, s) + lo
  }

  function Clipped(a: int): int {
    if a > CLIP then CLIP else if a < -CLIP then -CLIP else a
  }

  /**
    The mantissa as the unpacker regenerates it on 32 bits, where sums wrap around and the least integer is its own
    negation.
   */
  function Regenerated(t: int, lo: int, s: nat): int {
    var a := Signed(Level(t, lo, s));
    if a == -0x8000_0000 then 0 else Clipped(a)
  }

  datatype Block = Block(maxExp: nat, shift2: nat, minimum: int, tokens: seq<int>)

  /** What the packer puts in the header and in the stream. */
  function Pack(v: seq<Float>, nbits: nat): (b: Block)
    requires v != []
  {
    var e, mask := MaxExp(v), Pow2(nbits) - 1;
    var lo := Bound(Fmin(v), e);
    var s := ShiftFor(Bound(Fmax(v), e) - lo, mask);
    Block(e, s, lo, seq(|v|, k requires 0 <= k < |v| => Token(Mantissa(v[k], e), lo, s, mask)))
  }

  /** The float of magnitude m * 2^(e - 1): exact, normalized or subnormal. */
  function Normalized(neg: bool, m: nat, e: nat): Float
    decreases e
  {
    if m == 0 then Float(false, 0, 0)
    else if m >= HIDDEN then Float(neg, e, m - HIDDEN)
    else if e <= 1 then Float(neg, 0, m)
    else Normalized(neg, 2 * m, e - 1)
  }

  /** The float for a signed mantissa at an exponent. */
  function FromMantissa(a: int, e: nat): Float {
    Normalized(a < 0, if a < 0 then -a else a, e)
  }

  function Unpack(b: Block): (w: seq<Float>)
    ensures |w| == |b.tokens|
  {
    seq(|b.tokens|, k requires 0 <= k < |b.tokens| =>
      if b.maxExp == 0 then Float(false, 0, 0) else FromMantissa(Regenerated(b.tokens[k], b.minimum, b.shift2),
        b.maxExp))
  }

  // ----- shifts -----

  lemma {:induction false} ShrMono(a: int, b: int, n: nat)
    requires a <= b
    ensures Shr(a, n) <= Shr(b, n)
    decreases n
  {
    if n > 0 { ShrMono(a / 2, b / 2, n - 1); }
  }

  lemma {:induction false} ShlMono(a: int, b: int, n: nat)
    requires a < b
    ensures Shl(a, n) < Shl(b, n)
  {
    if n > 0 { ShlMono(a, b, n - 1); }
  }

  lemma {:induction false} ShrSmall(a: nat, n: nat, k: nat)
    requires a < Pow2(k) && k <= n
    ensures Shr(a, n) == 0
    decreases n
  {
    if n == 0 {
    } else if k == 0 {
      ShrSmall(0, n - 1, 0);
    } else {
      ShrSmall(a / 2, n - 1, k - 1);
    }
  }

  lemma {:induction false} ShlZero(n: nat)
    ensures Shl(0, n) == 0
  {
    if n > 0 { ShlZero(n - 1); }
  }

  lemma {:induction false} ShlNeg(a: int, n: nat)
    ensures Shl(-a, n) == -Shl(a, n)
  {
    if n > 0 { ShlNeg(a, n - 1); }
  }

  lemma HiddenBit()
    ensures Pow2(23) == HIDDEN && Pow2(24) == 2 * HIDDEN && Pow2(22) == HIDDEN / 2
  {
    Pow2Values();
    assert Pow2(20) == 0x10_0000;
  }

  // ----- order -----

  /** The exponent leaves room for a mantissa without a hidden bit to vanish, or there is none. */
  predicate Clear(f: Float, e: nat) {
    Finite(f) && f.exp <= e && (e >= 24 || f.exp >= 1)
  }

  /** Where no bogus hidden bit can be seen, the normalized mantissa is the magnitude at a coarser unit. */
  lemma MagnitudeIsShift(f: Float, e: nat)
    requires Clear(f, e)
    ensures Size(f) >= 0 && Magnitude(f, e) == Shr(Size(f), e - 1) <= CLIP && Magnitude(f, e) >= 0
    ensures f.exp == 0 ==> Magnitude(f, e) == 0
  {
    hide Shr, Shl, Pow2;
    var m := HIDDEN + f.frac;
    HiddenBit();
    if f.exp == 0 {
      ShrSmall(m, if e > 31 then 31 else e, 24);
      ShrSmall(f.frac, e - 1, 23);
    } else {
      var k := e - f.exp;
      ShlZero(f.exp - 1);
      ShlMono(0, m, f.exp - 1);
      ShrShl(m, 0, f.exp - 1);
      ShrShr(Shl(m, f.exp - 1), f.exp - 1, k);
      ShlNone(m);
      if k > 31 {
        ShrSmall(m, 31, 24);
        ShrSmall(m, k, 24);
      }
      ShrAtMost(m, k);
    }
  }

  lemma {:induction false} ShrAtMost(m: nat, n: nat)
    ensures 0 <= Shr(m, n) <= m
    decreases n
  {
    if n > 0 { ShrAtMost(m / 2, n - 1); }
  }

  /** A larger exponent means a larger magnitude. */
  lemma SizeOrdersExponents(f: Float, g: Float)
    requires Finite(f) && Finite(g) && Size(f) <= Size(g)
    ensures f.exp <= g.exp
  {
    hide Shl;
    if f.exp > g.exp {
      var d := f.exp - 1;
      if g.exp == 0 {
        ShlGrows(HIDDEN + f.frac, d);
      } else {
        ShlShl(HIDDEN + f.frac, d - g.exp, 1 + (g.exp - 1));
        ShlShl(Shl(HIDDEN + f.frac, d - g.exp), 1, g.exp - 1);
        ShlGrows(HIDDEN + f.frac, d - g.exp);
        ShlOne(Shl(HIDDEN + f.frac, d - g.exp));
        ShlMono(HIDDEN + g.frac, 2 * Shl(HIDDEN + f.frac, d - g.exp), g.exp - 1);
      }
    }
  }

  lemma {:induction false} ShlGrows(m: nat, n: nat)
    ensures Shl(m, n) >= m
  {
    if n > 0 { ShlGrows(m, n - 1); }
  }

  lemma ShlOne(v: int)
    ensures Shl(v, 1) == 2 * v
  {
    assert Shl(v, 0) == v;
  }

  lemma MantissaOrder(f: Float, g: Float, e: nat)
    requires Clear(f, e) && Clear(g, e) && Key(f) <= Key(g)
    ensures Mantissa(f, e) <= Mantissa(g, e)
  {
    hide Size, Magnitude;
    MagnitudeIsShift(f, e);
    MagnitudeIsShift(g, e);
    if f.neg && g.neg {
      ShrMono(Size(g), Size(f), e - 1);
    } else if !f.neg && !g.neg {
      ShrMono(Size(f), Size(g), e - 1);
    } else if !f.neg {
      ShrMono(Size(f), 0, e - 1);
      ShrMono(Size(g), 0, e - 1);
      ShrSmallZero(e - 1);
    }
  }

  lemma ShrSmallZero(n: nat)
    ensures Shr(0, n) == 0
  {
    ShrSmall(0, n, 0);
  }

  /** MaxExp really is the largest exponent of the field. */
  lemma MaxExpBounds(v: seq<Float>, k: nat)
    requires k < |v| && AllFinite(v)
    ensures v[k].exp <= MaxExp(v) <= 254
  {
    hide Size, Fmin, Fmax;
    Extremes(v);
    ShlSizes(v[k]);
    ShlSizes(Fmin(v));
    ShlSizes(Fmax(v));
    if v[k].neg {
      LargerIfNegative(v[k], Fmin(v));
      SizeOrdersExponents(v[k], Fmin(v));
    } else {
      LargerIfPositive(v[k], Fmax(v));
      SizeOrdersExponents(v[k], Fmax(v));
    }
  }

  lemma ShlSizes(f: Float)
    ensures Size(f) >= 0
  {
    if f.exp > 0 { ShlGrows(HIDDEN + f.frac, f.exp - 1); }
  }

  lemma LargerIfNegative(f: Float, g: Float)
    requires f.neg && Key(g) <= Key(f) && Size(f) >= 0 && Size(g) >= 0
    ensures Size(f) <= Size(g)
  {
    hide Size;
  }

  lemma LargerIfPositive(f: Float, g: Float)
    requires !f.neg && Key(g) >= Key(f) && Size(f) >= 0 && Size(g) >= 0
    ensures Size(f) <= Size(g)
  {
    hide Size;
  }

  // ----- quantization of integers -----

  /** The tokens of mantissas xs. */
  function Quantize(xs: seq<int>, mask: nat): (ts: seq<int>)
    ensures |ts| == |xs|
  {
    var lo, s := M.MinOf(xs), ShiftFor(M.MaxOf(xs) - M.MinOf(xs), mask);
    seq(|xs|, k requires 0 <= k < |xs| => Token(xs[k], lo, s, mask))
  }

  function Levels(ts: seq<int>, lo: int, s: nat): (ys: seq<int>)
    ensures |ys| == |ts|
  {
    seq(|ts|, k requires 0 <= k < |ts| => Clipped(Level(ts[k], lo, s)))
  }

  /** The mantissas that come back. */
  function Requantized(xs: seq<int>, mask: nat): (ys: seq<int>)
    ensures |ys| == |xs|
  {
    Levels(Quantize(xs, mask), M.MinOf(xs), ShiftFor(M.MaxOf(xs) - M.MinOf(xs), mask))
  }

  predicate InClip(xs: seq<int>) {
    forall k :: 0 <= k < |xs| ==> -CLIP <= xs[k] <= CLIP
  }

  /** The shift is the least that makes the range fit under the mask. */
  lemma {:induction false} ShiftForIsLeast(range: int, mask: nat)
    requires range >= 0
    ensures Shr(range, ShiftFor(range, mask)) <= mask
    ensures ShiftFor(range, mask) > 0 ==> Shr(range, ShiftFor(range, mask) - 1) > mask
    decreases range
  {
    if range > mask {
      ShiftForIsLeast(range / 2, mask);
      if ShiftFor(range / 2, mask) == 0 { NoShift(range); }
    } else {
      NoShift(range);
    }
  }

  lemma NoShift(v: int)
    ensures Shr(v, 0) == v
  {
  }

  lemma {:induction false} ShrLater(range: nat, k: nat, n: nat)
    requires k <= n
    ensures 0 <= Shr(range, n) <= Shr(range, k)
    decreases k
  {
    if k == 0 { NoShift(range); ShrAtMost(range, n); } else { ShrLater(range / 2, k - 1, n - 1); }
  }

  /** ... and the only shift with both properties. */
  lemma ShiftForUnique(range: nat, mask: nat, s: nat)
    requires Shr(range, s) <= mask && (s > 0 ==> Shr(range, s - 1) > mask)
    ensures ShiftFor(range, mask) == s
  {
    hide Shr, ShiftFor;
    var s' := ShiftFor(range, mask);
    ShiftForIsLeast(range, mask);
    if s' < s { ShrLater(range, s', s - 1); }
    if s < s' { ShrLater(range, s, s' - 1); }
  }

  lemma ShiftForAtMost(range: nat, mask: nat, s: nat)
    requires Shr(range, s) <= mask
    ensures ShiftFor(range, mask) <= s
  {
    hide Shr, ShiftFor;
    ShiftForIsLeast(range, mask);
    if s < ShiftFor(range, mask) { ShrLater(range, s, ShiftFor(range, mask) - 1); }
  }

  /** A shift as a quotient: t is x >> s exactly when x lies in [t << s, (t + 1) << s). */
  lemma ShrBetween(x: int, t: int, s: nat)
    ensures Shr(x, s) == t <==> Shl(t, s) <= x < Shl(t, s) + Pow2(s)
  {
    hide Shr, Shl, Pow2;
    ShrIsDiv(x, s);
    ShlIsMul(t, s);
    var p := Pow2(s);
    if t * p <= x < t * p + p { DivUnique(x, p, t, x - t * p); }
    assert x == p * (x / p) + x % p;
  }

  /** A multiple of the quantum is coded without error. */
  lemma ExactToken(d: int, s: nat)
    ensures Shr(Shl(d, s) + Pow2(s) / 2, s) == d
  {
    hide Shr, Shl, Pow2;
    HalfBelow(s);
    ShrBetween(Shl(d, s) + Pow2(s) / 2, d, s);
  }

  lemma HalfBelow(s: nat)
    ensures Pow2(s) / 2 < Pow2(s)
    ensures s > 0 ==> Pow2(s) / 2 == Pow2(s - 1) && Pow2(s) == 2 * Pow2(s - 1)
  {
  }

  /** The quantization error of one value that is not above the mask: at most half a quantum. */
  lemma RoundingError(d: int, s: nat)
    ensures var t := Shr(d + Pow2(s) / 2, s); Shl(t, s) - Pow2(s) / 2 <= d < Shl(t, s) + Pow2(s) - Pow2(s) / 2
  {
    hide Shr, Shl, Pow2;
    ShrBetween(d + Pow2(s) / 2, Shr(d + Pow2(s) / 2, s), s);
  }

  /** How far a value is from level u of those that start at lo, a quantum q apart. */
  function Gap(x: int, lo: int, q: nat, u: int): int {
    if x < lo + u * q then lo + u * q - x else x - (lo + u * q)
  }

  /** Of the levels up to the mask none is nearer to the value than level t, and none above it as near. */
  ghost predicate Nearest(x: int, lo: int, q: nat, t: int, mask: nat) {
    && 0 <= t <= mask
    && forall u: nat :: u <= mask ==>
      Gap(x, lo, q, t) <= Gap(x, lo, q, u) && (u > t ==> Gap(x, lo, q, t) < Gap(x, lo, q, u))
  }

  /** The token of a value names a nearest level. */
  lemma TokenIsNearest(x: int, lo: int, s: nat, mask: nat)
    requires lo <= x
    ensures Nearest(x, lo, Pow2(s), Token(x, lo, s, mask), mask)
  {
    hide Token, Gap, Pow2;
    TokenRange(x, lo, s, mask);
    forall u: nat | u <= mask
      ensures Gap(x, lo, Pow2(s), Token(x, lo, s, mask)) <= Gap(x, lo, Pow2(s), u)
      ensures u > Token(x, lo, s, mask) ==> Gap(x, lo, Pow2(s), Token(x, lo, s, mask)) < Gap(x, lo, Pow2(s), u)
    {
      NoLevelNearer(x, lo, s, mask, u);
    }
  }

  lemma NoLevelNearer(x: int, lo: int, s: nat, mask: nat, u: nat)
    requires lo <= x && u <= mask
    ensures Gap(x, lo, Pow2(s), Token(x, lo, s, mask)) <= Gap(x, lo, Pow2(s), u)
    ensures u > Token(x, lo, s, mask) ==> Gap(x, lo, Pow2(s), Token(x, lo, s, mask)) < Gap(x, lo, Pow2(s), u)
  {
    hide Shr, Pow2;
    var t, q := Shr(x - lo + Pow2(s) / 2, s), Pow2(s);
    RoundingError(x - lo, s);
    ShlIsMul(t, s);
    ShrMono(0, x - lo + q / 2, s);
    ShrSmallZero(s);
    HalfOf(s);
    if mask < t {
      Multiples(mask, t, q);
      Multiples(u, mask, q);
    } else if u < t {
      Multiples(u, t, q);
    } else if u > t {
      Multiples(t, u, q);
    }
  }

  lemma HalfOf(s: nat)
    ensures Pow2(s) == 1 || Pow2(s) == 2 * (Pow2(s) / 2)
  {
    if s > 0 { HalfOfTwice(Pow2(s), Pow2(s - 1)); }
  }

  lemma HalfOfTwice(p: int, h: int)
    requires p == 2 * h
    ensures p == 2 * (p / 2)
  {
  }

  lemma Multiples(a: int, b: int, q: nat)
    requires a <= b
    ensures a * q <= b * q && (a < b ==> a * q + q <= b * q)
  {
    assert (b - a) * q >= 0;
    if a < b { assert (b - a - 1) * q >= 0; }
  }

  /** Tokens are between 0 and the mask, for values at least the minimum. */
  lemma TokenRange(x: int, lo: int, s: nat, mask: nat)
    requires lo <= x
    ensures 0 <= Token(x, lo, s, mask) <= mask
    ensures Token(lo, lo, s, mask) == 0
  {
    hide Shr, Pow2;
    ShrMono(0, x - lo + Pow2(s) / 2, s);
    ShrSmallZero(s);
    ExactToken(0, s);
    ShlZero(s);
  }

  lemma TokenOrder(x: int, y: int, lo: int, s: nat, mask: nat)
    requires x <= y
    ensures Token(x, lo, s, mask) <= Token(y, lo, s, mask)
  {
    hide Shr, Pow2;
    ShrMono(x - lo + Pow2(s) / 2, y - lo + Pow2(s) / 2, s);
  }

  // ----- stability of the integer quantizer -----

  lemma MinIs(ys: seq<int>, v: int)
    requires v in ys && forall k :: 0 <= k < |ys| ==> v <= ys[k]
    ensures M.MinOf(ys) == v
  {
    hide M.MinOf, M.MaxOf;
    M.Extremes(ys);
  }

  lemma MaxIs(ys: seq<int>, v: int)
    requires v in ys && forall k :: 0 <= k < |ys| ==> ys[k] <= v
    ensures M.MaxOf(ys) == v
  {
    hide M.MinOf, M.MaxOf;
    M.Extremes(ys);
  }

  /** zs are whole multiples of 1 << n above their minimum, the largest multiple being T. */
  ghost predicate OnGrid(zs: seq<int>, ts: seq<int>, lo: int, n: nat, top: int) {
    && |ts| == |zs| && top >= 0
    && M.MinOf(zs) == lo && M.MaxOf(zs) == lo + Shl(top, n)
    && forall k :: 0 <= k < |zs| ==> 0 <= ts[k] <= top && zs[k] == lo + Shl(ts[k], n)
  }

  lemma {:induction false} ShlMonoWeak(a: int, b: int, n: nat)
    requires a <= b
    ensures Shl(a, n) <= Shl(b, n)
  {
    if a < b { ShlMono(a, b, n); }
  }

  /** A value on a grid no coarser than the mask allows comes back unchanged. */
  lemma GridValue(z: int, t: int, lo: int, n: nat, top: int, s: nat, mask: nat)
    requires 0 <= t <= top && z == lo + Shl(t, n) && -CLIP <= z <= CLIP
    requires s <= n && Shr(Shl(top, n), s) <= mask
    ensures Clipped(Level(Token(z, lo, s, mask), lo, s)) == z
  {
    hide Shr, Shl, Pow2;
    var d := Shl(t, n - s);
    ShlShl(t, n - s, s);
    ShrShl(top, n - s, s);
    ShlMonoWeak(t, top, n - s);
    ExactToken(d, s);
  }

  lemma GridStable(zs: seq<int>, ts: seq<int>, lo: int, n: nat, top: int, mask: nat)
    requires OnGrid(zs, ts, lo, n, top) && top <= mask && InClip(zs)
    ensures Requantized(zs, mask) == zs
  {
    hide Shl, Shr, M.MinOf, M.MaxOf, ShiftFor, Token, Level, Clipped;
    var range := Shl(top, n);
    var s := ShiftFor(range, mask);
    ShlMonoWeak(0, top, n);
    ShlZero(n);
    ShrShl(top, 0, n);
    ShlNone(top);
    ShiftForAtMost(range, mask, n);
    ShiftForIsLeast(range, mask);
    forall k | 0 <= k < |zs|
      ensures Requantized(zs, mask)[k] == zs[k]
    {
      GridValue(zs[k], ts[k], lo, n, top, s, mask);
    }
  }

  /** The facts about the quantizer that the proof uses: tokens, their largest, the levels and their extremes. */
  lemma QuantizeFacts(xs: seq<int>, mask: nat)
    requires xs != [] && InClip(xs)
    ensures var lo, hi := M.MinOf(xs), M.MaxOf(xs);
      var s := ShiftFor(hi - lo, mask);
      var ts, ys, top := Quantize(xs, mask), Requantized(xs, mask), Token(hi, lo, s, mask);
      && -CLIP <= lo <= hi <= CLIP && 0 <= top <= mask
      && (forall k :: 0 <= k < |xs| ==>
          0 <= ts[k] <= top && ys[k] == Clipped(Level(ts[k], lo, s)) && lo <= ys[k] <= Clipped(Level(top, lo, s)))
      && M.MinOf(ys) == lo && M.MaxOf(ys) == Clipped(Level(top, lo, s))
  {
    hide Shl, Shr, M.MinOf, M.MaxOf, ShiftFor, Token, Level, Clipped;
    var lo, hi := M.MinOf(xs), M.MaxOf(xs);
    var s := ShiftFor(hi - lo, mask);
    var ts, ys, top := Quantize(xs, mask), Requantized(xs, mask), Token(hi, lo, s, mask);
    M.Extremes(xs);
    TokenRange(hi, lo, s, mask);
    var i :| 0 <= i < |xs| && xs[i] == lo;
    var j :| 0 <= j < |xs| && xs[j] == hi;
    forall k | 0 <= k < |xs|
      ensures 0 <= ts[k] <= top && lo <= ys[k] <= Clipped(Level(top, lo, s))
    {
      TokenRange(xs[k], lo, s, mask);
      TokenOrder(xs[k], hi, lo, s, mask);
      LevelOrder(0, ts[k], lo, s);
      LevelOrder(ts[k], top, lo, s);
      LevelZero(lo, s);
    }
    TokenRange(lo, lo, s, mask);
    LevelZero(lo, s);
    assert ys[i] == lo && ys[j] == Clipped(Level(top, lo, s));
    MinIs(ys, lo);
    MaxIs(ys, Clipped(Level(top, lo, s)));
  }

  lemma LevelZero(lo: int, s: nat)
    requires -CLIP <= lo <= CLIP
    ensures Level(0, lo, s) == lo == Clipped(Level(0, lo, s))
  {
    hide Shl;
    ShlZero(s);
  }

  lemma LevelOrder(t: int, u: int, lo: int, s: nat)
    requires t <= u
    ensures Level(t, lo, s) <= Level(u, lo, s) && Clipped(Level(t, lo, s)) <= Clipped(Level(u, lo, s))
  {
    hide Shl;
    ShlMonoWeak(t, u, s);
  }

  /** All values times 1 << d. */
  function Scaled(ys: seq<int>, d: nat): (zs: seq<int>)
    ensures |zs| == |ys|
  {
    seq(|ys|, k requires 0 <= k < |ys| => Shl(ys[k], d))
  }

  lemma ScaledExtremes(ys: seq<int>, d: nat)
    requires ys != []
    ensures M.MinOf(Scaled(ys, d)) == Shl(M.MinOf(ys), d) && M.MaxOf(Scaled(ys, d)) == Shl(M.MaxOf(ys), d)
  {
    hide Shl, M.MinOf, M.MaxOf;
    M.Extremes(ys);
    var zs := Scaled(ys, d);
    var i :| 0 <= i < |ys| && ys[i] == M.MinOf(ys);
    var j :| 0 <= j < |ys| && ys[j] == M.MaxOf(ys);
    forall k | 0 <= k < |zs|
      ensures Shl(M.MinOf(ys), d) <= zs[k] <= Shl(M.MaxOf(ys), d)
    {
      ShlMonoWeak(M.MinOf(ys), ys[k], d);
      ShlMonoWeak(ys[k], M.MaxOf(ys), d);
    }
    assert zs[i] == Shl(M.MinOf(ys), d) && zs[j] == Shl(M.MaxOf(ys), d);
    MinIs(zs, Shl(M.MinOf(ys), d));
    MaxIs(zs, Shl(M.MaxOf(ys), d));
  }

  /** Without the clip, the quantized values lie on a grid, also after a change of exponent. */
  lemma UnclippedStable(xs: seq<int>, mask: nat, d: nat)
    requires xs != [] && InClip(xs)
    requires var lo, hi := M.MinOf(xs), M.MaxOf(xs); var s := ShiftFor(hi - lo, mask);
      Level(Token(hi, lo, s, mask), lo, s) <= CLIP
    requires InClip(Scaled(Requantized(xs, mask), d))
    ensures Requantized(Scaled(Requantized(xs, mask), d), mask) == Scaled(Requantized(xs, mask), d)
  {
    hide Shl, Shr, M.MinOf, M.MaxOf, ShiftFor, Token, Quantize, Requantized;
    var lo, hi := M.MinOf(xs), M.MaxOf(xs);
    var s := ShiftFor(hi - lo, mask);
    var ts, ys, top := Quantize(xs, mask), Requantized(xs, mask), Token(hi, lo, s, mask);
    QuantizeFacts(xs, mask);
    ScaledExtremes(ys, d);
    var zs := Scaled(ys, d);
    LevelOrder(0, top, lo, s);
    LevelZero(lo, s);
    ScaledLevel(top, lo, s, d);
    forall k | 0 <= k < |zs|
      ensures 0 <= ts[k] <= top && zs[k] == Shl(lo, d) + Shl(ts[k], s + d)
    {
      LevelOrder(0, ts[k], lo, s);
      LevelOrder(ts[k], top, lo, s);
      ScaledLevel(ts[k], lo, s, d);
    }
    GridStable(zs, ts, Shl(lo, d), s + d, top, mask);
  }

  lemma ScaledLevel(t: int, lo: int, s: nat, d: nat)
    ensures Shl(Level(t, lo, s), d) == Shl(lo, d) + Shl(t, s + d)
  {
    hide Shl;
    ShlAdd(Shl(t, s), lo, d);
    ShlShl(t, s, d);
  }

  /** When the clip fires, it fires for one token, and the range it leaves calls for the same shift. */
  lemma ClippedFacts(xs: seq<int>, mask: nat)
    requires xs != [] && InClip(xs)
    requires var lo, hi := M.MinOf(xs), M.MaxOf(xs); var s := ShiftFor(hi - lo, mask);
      Level(Token(hi, lo, s, mask), lo, s) > CLIP
    ensures var lo, hi := M.MinOf(xs), M.MaxOf(xs);
      var s := ShiftFor(hi - lo, mask);
      var top := Token(hi, lo, s, mask);
      && ShiftFor(CLIP - lo, mask) == s
      && Shr(CLIP - lo + Pow2(s) / 2, s) == top <= mask
  {
    hide Shl, Shr, M.MinOf, M.MaxOf, ShiftFor, Quantize, Requantized, Pow2;
    var lo, hi := M.MinOf(xs), M.MaxOf(xs);
    var s := ShiftFor(hi - lo, mask);
    var top, p := Token(hi, lo, s, mask), Pow2(s);
    QuantizeFacts(xs, mask);
    var t := Shr(hi - lo + p / 2, s);
    RoundingError(hi - lo, s);
    ShlMonoWeak(top, t, s);
    // the level of the top token is above the clip by no more than half a quantum
    var e := Shl(top, s) + lo - CLIP;
    assert 0 < e <= p / 2;
    ShiftForIsLeast(hi - lo, mask);
    HalfBelow(s);
    if s == 0 { NoHalf(); }
    ShlAdd(top - 1, 1, s);
    ShlUnit(s);
    ShrBetween(CLIP - lo, top - 1, s);
    if s > 0 { ShrMono(hi - lo, CLIP - lo, s - 1); }
    ShiftForUnique(CLIP - lo, mask, s);
    ShrBetween(CLIP - lo + p / 2, top, s);
  }

  lemma NoHalf()
    ensures Pow2(0) / 2 == 0
  {
  }

  lemma {:induction false} ShlUnit(s: nat)
    ensures Shl(1, s) == Pow2(s)
  {
    if s > 0 { ShlUnit(s - 1); }
  }

  lemma ClippedStable(xs: seq<int>, mask: nat)
    requires xs != [] && InClip(xs)
    requires var lo, hi := M.MinOf(xs), M.MaxOf(xs); var s := ShiftFor(hi - lo, mask);
      Level(Token(hi, lo, s, mask), lo, s) > CLIP
    ensures Requantized(Requantized(xs, mask), mask) == Requantized(xs, mask)
  {
    hide Shl, Shr, M.MinOf, M.MaxOf, ShiftFor, Pow2, Quantize;
    var lo, hi := M.MinOf(xs), M.MaxOf(xs);
    var s := ShiftFor(hi - lo, mask);
    var ts, ys, top := Quantize(xs, mask), Requantized(xs, mask), Token(hi, lo, s, mask);
    QuantizeFacts(xs, mask);
    ClippedFacts(xs, mask);
    assert M.MaxOf(ys) == CLIP;
    forall k | 0 <= k < |ys|
      ensures Clipped(Level(Token(ys[k], lo, s, mask), lo, s)) == ys[k]
    {
      LevelOrder(0, ts[k], lo, s);
      LevelZero(lo, s);
      ExactToken(ts[k], s);
    }
    RequantizedAt(ys, mask);
  }

  lemma RequantizedAt(ys: seq<int>, mask: nat)
    requires var lo := M.MinOf(ys); var s := ShiftFor(M.MaxOf(ys) - lo, mask);
      forall k :: 0 <= k < |ys| ==> Clipped(Level(Token(ys[k], lo, s, mask), lo, s)) == ys[k]
    ensures Requantized(ys, mask) == ys
  {
    hide Shl, Shr, M.MinOf, M.MaxOf, ShiftFor, Pow2, Token, Level, Clipped;
  }

  /** Quantizing quantized mantissas changes none of them, not even when their exponent drops by one. */
  lemma IntegerStable(xs: seq<int>, mask: nat, d: nat)
    requires xs != [] && InClip(xs) && InClip(Scaled(Requantized(xs, mask), d))
    requires d > 0 ==> M.MaxOf(Requantized(xs, mask)) < CLIP
    ensures Requantized(Scaled(Requantized(xs, mask), d), mask) == Scaled(Requantized(xs, mask), d)
  {
    hide Shl, Shr, M.MinOf, M.MaxOf, ShiftFor, Pow2, Token, Level, Requantized, Quantize;
    var lo, hi := M.MinOf(xs), M.MaxOf(xs);
    var s := ShiftFor(hi - lo, mask);
    QuantizeFacts(xs, mask);
    if Level(Token(hi, lo, s, mask), lo, s) <= CLIP {
      UnclippedStable(xs, mask, d);
    } else {
      ClippedStable(xs, mask);
      ScaledByNone(Requantized(xs, mask));
    }
  }

  lemma ScaledByNone(ys: seq<int>)
    ensures Scaled(ys, 0) == ys
  {
  }

  // ----- from floats to mantissas and back -----

  function Mantissas(v: seq<Float>, e: nat): (xs: seq<int>)
    ensures |xs| == |v|
  {
    seq(|v|, k requires 0 <= k < |v| => Mantissa(v[k], e))
  }

  lemma {:induction false} ShlDouble(m: int, n: nat)
    ensures Shl(2 * m, n) == 2 * Shl(m, n) == Shl(m, n + 1)
  {
    if n > 0 { ShlDouble(m, n - 1); }
  }

  lemma {:induction false} NormalizedFacts(neg: bool, m: nat, e: nat)
    requires m <= CLIP && 1 <= e <= 254
    ensures var f := Normalized(neg, m, e);
      && Finite(f) && Size(f) == Shl(m, e - 1) && (m > 0 ==> f.neg == neg)
      && f.exp <= e && (m >= HIDDEN ==> f.exp == e) && (m < HIDDEN ==> f.exp < e)
      && (HIDDEN / 2 <= m < HIDDEN && e >= 2 ==> f.exp == e - 1)
    decreases e
  {
    hide Shl;
    if m == 0 {
      ShlZero(e - 1);
    } else if m < HIDDEN && e > 1 {
      NormalizedFacts(neg, 2 * m, e - 1);
      ShlDouble(m, e - 2);
    } else if m < HIDDEN {
      ShlNone(m);
    }
  }

  lemma FromMantissaKey(a: int, e: nat)
    requires -CLIP <= a <= CLIP && 1 <= e <= 254
    ensures Key(FromMantissa(a, e)) == Shl(a, e - 1)
  {
    hide Shl, Normalized, Size;
    NormalizedFacts(a < 0, if a < 0 then -a else a, e);
    ShlNeg(a, e - 1);
    ShlZero(e - 1);
    ShlSizes(FromMantissa(a, e));
    ZeroIsPositive(e);
  }

  lemma ZeroIsPositive(e: nat)
    ensures !Normalized(false, 0, e).neg
  {
  }

  /** The largest exponent is out of the range where a zero could get a hidden bit, or there is no zero. */
  ghost predicate AllClear(v: seq<Float>) {
    v != [] && AllFinite(v) && (MaxExp(v) >= 24 || forall k :: 0 <= k < |v| ==> v[k].exp >= 1)
  }

  /** Packing a field is quantizing its mantissas. */
  lemma PackIsQuantize(v: seq<Float>, nbits: nat)
    requires AllClear(v)
    ensures var e, mask, b := MaxExp(v), Pow2(nbits) - 1, Pack(v, nbits);
      var xs := Mantissas(v, e);
      && InClip(xs) && b.maxExp == e && b.minimum == M.MinOf(xs)
      && b.shift2 == ShiftFor(M.MaxOf(xs) - M.MinOf(xs), mask) && b.tokens == Quantize(xs, mask)
  {
    hide Mantissa, Fmin, Fmax, M.MinOf, M.MaxOf, Key, Pow2, Token, ShiftFor, MaxExp;
    var e := MaxExp(v);
    var xs := Mantissas(v, e);
    Extremes(v);
    var i :| 0 <= i < |v| && v[i] == Fmin(v);
    var j :| 0 <= j < |v| && v[j] == Fmax(v);
    MaxExpBounds(v, i);
    MaxExpBounds(v, j);
    forall k | 0 <= k < |v|
      ensures -CLIP <= xs[k] <= CLIP && xs[i] <= xs[k] <= xs[j]
    {
      MaxExpBounds(v, k);
      MantissaRange(v[k], e);
      MantissaOrder(v[i], v[k], e);
      MantissaOrder(v[k], v[j], e);
    }
    assert xs[i] in xs && xs[j] in xs;
    MinIs(xs, xs[i]);
    MaxIs(xs, xs[j]);
    MantissaRange(v[i], e);
    MantissaRange(v[j], e);
  }

  lemma MantissaRange(f: Float, e: nat)
    requires Clear(f, e)
    ensures -CLIP <= Mantissa(f, e) <= CLIP && (f.exp < 1 ==> Mantissa(f, e) == 0)
    ensures f.exp == e ==> Mantissa(f, e) <= -HIDDEN || Mantissa(f, e) >= HIDDEN
  {
    hide Shr, Size;
    MagnitudeIsShift(f, e);
    NoShift(HIDDEN + f.frac);
  }

  /** The extreme that gives the exponent has a full mantissa. */
  lemma ExtremesAreLarge(v: seq<Float>)
    requires v != [] && AllFinite(v) && MaxExp(v) >= 24
    ensures var xs := Mantissas(v, MaxExp(v)); M.MinOf(xs) <= -HIDDEN || M.MaxOf(xs) >= HIDDEN
  {
    hide Mantissa, Fmin, Fmax, M.MinOf, M.MaxOf, Key;
    var e := MaxExp(v);
    var xs := Mantissas(v, e);
    var f := if Fmax(v).exp > Fmin(v).exp then Fmax(v) else Fmin(v);
    var i :| 0 <= i < |v| && v[i] == f;
    MantissaRange(f, e);
    M.Extremes(xs);
    assert xs[i] == Mantissa(f, e);
  }

  /** The highest level is at least half of a full mantissa when the least is not as far below zero. */
  lemma LevelsStayLarge(xs: seq<int>, nbits: nat)
    requires xs != [] && InClip(xs) && nbits >= 1 && (M.MinOf(xs) <= -HIDDEN || M.MaxOf(xs) >= HIDDEN)
    ensures var ys := Requantized(xs, Pow2(nbits) - 1); M.MinOf(ys) <= -HIDDEN / 2 || M.MaxOf(ys) >= HIDDEN / 2
  {
    hide M.MinOf, M.MaxOf, Shl, Shr, Pow2, ShiftFor, Requantized, Quantize, Level, Token;
    var lo, hi, mask := M.MinOf(xs), M.MaxOf(xs), Pow2(nbits) - 1;
    QuantizeFacts(xs, mask);
    if lo > -HIDDEN / 2 {
      TopLevelLarge(lo, hi, nbits);
    }
  }

  lemma TopLevelLarge(lo: int, hi: int, nbits: nat)
    requires -HIDDEN / 2 < lo <= hi && hi >= HIDDEN && nbits >= 1
    ensures var mask := Pow2(nbits) - 1; var s := ShiftFor(hi - lo, mask);
      Level(Token(hi, lo, s, mask), lo, s) >= HIDDEN / 2
  {
    hide Shl, Shr, Pow2, ShiftFor;
    var range, mask := hi - lo, Pow2(nbits) - 1;
    var s := ShiftFor(range, mask);
    var top := Token(hi, lo, s, mask);
    ShiftForIsLeast(range, mask);
    HalfBelow(s);
    if s == 0 {
      NoHalf();
      NoShift(range);
      ShlNone(top);
    } else {
      var q := Shr(range, s);
      ShrMono(range, range + Pow2(s) / 2, s);
      assert top >= q;
      ShlMonoWeak(q, top, s);
      HalvedQuotient(range, s, nbits);
      if lo < 0 {
        HiddenBit();
        if nbits + s <= 23 { Pow2Mono(nbits + s, 23); }
        Pow2Mono(23, nbits + s - 1);
      }
    }
  }

  /** The quotient is at least half the mask, and covers more than half the range. */
  lemma HalvedQuotient(range: nat, s: nat, nbits: nat)
    requires s >= 1 && nbits >= 1 && Shr(range, s) < Pow2(nbits) <= Shr(range, s - 1)
    ensures Shl(Shr(range, s), s) >= Pow2(nbits + s - 1) && 2 * Shl(Shr(range, s), s) > range
    ensures range < Pow2(nbits + s)
  {
    hide Shl, Shr, Pow2;
    var q := Shr(range, s);
    ShrShr(range, s - 1, 1);
    ShrOne(Shr(range, s - 1));
    Pow2Double(nbits);
    assert q >= Pow2(nbits - 1);
    ShlMonoWeak(Pow2(nbits - 1), q, s);
    ShlPow2(nbits - 1, s);
    ShrBetween(range, q, s);
    ShlUnit(s);
    ShlMonoWeak(1, q, s);
    ShlAdd(q, 1, s);
    ShlMonoWeak(q + 1, Pow2(nbits), s);
    ShlPow2(nbits, s);
  }

  lemma ShrOne(v: int)
    ensures Shr(v, 1) == v / 2
  {
    NoShift(v / 2);
  }

  lemma NoWrapAround(t: int, lo: int, s: nat)
    requires -0x8000_0000 < Level(t, lo, s) < 0x8000_0000
    ensures Regenerated(t, lo, s) == Clipped(Level(t, lo, s))
  {
    hide Level;
  }

  /** Unpacking what was packed stays far from the ends of 32 bits. */
  lemma LevelsInRange(xs: seq<int>, mask: nat, k: nat)
    requires InClip(xs) && k < |xs|
    ensures var lo := M.MinOf(xs); var s := ShiftFor(M.MaxOf(xs) - lo, mask);
      Regenerated(Quantize(xs, mask)[k], lo, s) == Requantized(xs, mask)[k]
  {
    hide Shl, Shr, Pow2, M.MinOf, M.MaxOf, ShiftFor, Regenerated, Clipped;
    var lo, hi := M.MinOf(xs), M.MaxOf(xs);
    var s, d, t := ShiftFor(hi - lo, mask), xs[k] - lo, Quantize(xs, mask)[k];
    QuantizeFacts(xs, mask);
    M.Extremes(xs);
    ShiftAtMost25(hi - lo, mask);
    HalfBelow(s);
    Pow2Mono(s, 25);
    HiddenBit();
    Pow2Double(25);
    RoundingError(d, s);
    ShlMonoWeak(0, t, s);
    ShlZero(s);
    ShlMonoWeak(t, Shr(d + Pow2(s) / 2, s), s);
    NoWrapAround(t, lo, s);
  }

  lemma ShiftAtMost25(range: int, mask: nat)
    requires range <= 2 * CLIP
    ensures ShiftFor(range, mask) <= 25
  {
    hide Pow2, ShiftFor;
    if range >= 0 {
      HiddenBit();
      Pow2Double(25);
      ShrSmall(range, 25, 25);
      ShiftForAtMost(range, mask, 25);
    } else {
      NoShiftForNegative(range, mask);
    }
  }

  lemma NoShiftForNegative(range: int, mask: nat)
    requires range < 0
    ensures ShiftFor(range, mask) == 0
  {
  }

  /** What unpacking makes of a packed field, by its mantissas. */
  lemma UnpackIsLevels(v: seq<Float>, nbits: nat)
    requires AllClear(v)
    ensures var e := MaxExp(v); var ys := Requantized(Mantissas(v, e), Pow2(nbits) - 1);
      var w := Unpack(Pack(v, nbits));
      && |w| == |ys| == |v| && forall k :: 0 <= k < |w| ==> w[k] == FromMantissa(ys[k], e)
  {
    hide MaxExp, Mantissas, Pow2, M.MinOf, M.MaxOf, ShiftFor, FromMantissa, Pack, Quantize, Regenerated, Requantized;
    MaxExpBounds(v, 0);
    PackIsQuantize(v, nbits);
    var xs, mask := Mantissas(v, MaxExp(v)), Pow2(nbits) - 1;
    var lo, ts, ys := M.MinOf(xs), Quantize(xs, mask), Requantized(xs, mask);
    forall k | 0 <= k < |v| ensures Regenerated(ts[k], lo, ShiftFor(M.MaxOf(xs) - lo, mask)) == ys[k] {
      LevelsInRange(xs, mask, k);
    }
  }

  /** A field given by mantissas at the exponent e, its extremes being lo and hi. */
  ghost predicate FromLevels(w: seq<Float>, ys: seq<int>, e: nat) {
    && |w| == |ys| > 0 && 24 <= e <= 254 && InClip(ys)
    && forall k :: 0 <= k < |w| ==> w[k] == FromMantissa(ys[k], e)
  }

  lemma LevelFinite(w: seq<Float>, ys: seq<int>, e: nat, k: nat)
    requires FromLevels(w, ys, e) && k < |w|
    ensures Finite(w[k]) && Key(w[k]) == Shl(ys[k], e - 1)
    ensures var m := if ys[k] < 0 then -ys[k] else ys[k];
      && w[k].exp <= e && (m >= HIDDEN ==> w[k].exp == e) && (m < HIDDEN ==> w[k].exp < e)
      && (HIDDEN / 2 <= m < HIDDEN ==> w[k].exp == e - 1)
  {
    hide Normalized, Shl, Key, Size;
    NormalizedFacts(ys[k] < 0, if ys[k] < 0 then -ys[k] else ys[k], e);
    FromMantissaKey(ys[k], e);
  }

  /** The extremes of the floats are the extremes of the mantissas. */
  lemma LevelExtremes(w: seq<Float>, ys: seq<int>, e: nat)
    requires FromLevels(w, ys, e)
    ensures AllFinite(w)
    ensures Fmin(w) == FromMantissa(M.MinOf(ys), e) && Fmax(w) == FromMantissa(M.MaxOf(ys), e)
  {
    hide FromMantissa, Shl, Key, Fmin, Fmax, M.MinOf, M.MaxOf, Finite;
    Extremes(w);
    M.Extremes(ys);
    forall k | 0 <= k < |w| ensures Finite(w[k]) && Key(w[k]) == Shl(ys[k], e - 1) { LevelFinite(w, ys, e, k); }
    var i :| 0 <= i < |w| && w[i] == Fmin(w);
    var j :| 0 <= j < |w| && w[j] == Fmax(w);
    var p :| 0 <= p < |ys| && ys[p] == M.MinOf(ys);
    var q :| 0 <= q < |ys| && ys[q] == M.MaxOf(ys);
    if ys[p] < ys[i] { ShlMono(ys[p], ys[i], e - 1); }
    if ys[j] < ys[q] { ShlMono(ys[j], ys[q], e - 1); }
  }

  /** Repacking finds the same exponent, or one less when no mantissa is full any more. */
  lemma ExponentDrops(w: seq<Float>, ys: seq<int>, e: nat)
    requires FromLevels(w, ys, e) && (M.MinOf(ys) <= -HIDDEN / 2 || M.MaxOf(ys) >= HIDDEN / 2)
    ensures MaxExp(w) == if M.MinOf(ys) <= -HIDDEN || M.MaxOf(ys) >= HIDDEN then e else e - 1
  {
    hide FromMantissa, Fmin, Fmax, M.MinOf, M.MaxOf;
    LevelExtremes(w, ys, e);
    M.Extremes(ys);
    var p :| 0 <= p < |ys| && ys[p] == M.MinOf(ys);
    var q :| 0 <= q < |ys| && ys[q] == M.MaxOf(ys);
    LevelFinite(w, ys, e, p);
    LevelFinite(w, ys, e, q);
  }

  /** At the exponent found, the mantissas are the old ones, or all doubled. */
  lemma MantissasAgain(w: seq<Float>, ys: seq<int>, e: nat, e': nat)
    requires FromLevels(w, ys, e) && (e' == e || e' == e - 1) && forall k :: 0 <= k < |w| ==> Clear(w[k], e')
    ensures Mantissas(w, e') == Scaled(ys, e - e')
  {
    hide FromMantissa, Shl, Shr, Size, Magnitude;
    forall k | 0 <= k < |w|
      ensures Mantissa(w[k], e') == Shl(ys[k], e - e')
    {
      LevelFinite(w, ys, e, k);
      MagnitudeIsShift(w[k], e');
      var m := Size(w[k]);
      if w[k].neg {
        ShlNeg(ys[k], e - 1);
        ShlNeg(ys[k], e - e');
        ShrShl(-ys[k], e - e', e' - 1);
      } else {
        ShrShl(ys[k], e - e', e' - 1);
      }
    }
  }

  /** A mantissa that is not full is the same float, doubled, at the exponent below. */
  lemma OneExponentLess(a: int, e: nat, d: nat)
    requires d <= 1 && e >= 2 && (d == 1 ==> -HIDDEN < a < HIDDEN)
    ensures FromMantissa(Shl(a, d), e - d) == FromMantissa(a, e)
  {
    if d == 1 { ShlOne(a); }
  }

  /** A non-zero mantissa at exponent 24 or above makes a float with a hidden bit. */
  lemma HasHiddenBit(a: int, e: nat)
    requires -CLIP <= a <= CLIP && a != 0 && 24 <= e <= 254
    ensures FromMantissa(a, e).exp >= 1
  {
    hide Normalized, Shl, Pow2;
    var m := if a < 0 then -a else a;
    NormalizedFacts(a < 0, m, e);
    ShlMonoWeak(1, m, e - 1);
    ShlUnit(e - 1);
    HiddenBit();
    Pow2Mono(23, e - 1);
  }

  /** When no quantized mantissa is full any more, the grid they are on does not contain zero. */
  lemma NoZeroWhenDropping(xs: seq<int>, nbits: nat)
    requires xs != [] && InClip(xs) && nbits >= 1 && M.MinOf(xs) > -HIDDEN && M.MaxOf(xs) >= HIDDEN
    requires M.MaxOf(Requantized(xs, Pow2(nbits) - 1)) < HIDDEN
    ensures 0 !in Requantized(xs, Pow2(nbits) - 1)
  {
    hide M.MinOf, M.MaxOf, Shl, Shr, Pow2, ShiftFor, Requantized, Quantize, Token;
    var lo, hi, mask := M.MinOf(xs), M.MaxOf(xs), Pow2(nbits) - 1;
    var s := ShiftFor(hi - lo, mask);
    QuantizeFacts(xs, mask);
    var ts, ys := Quantize(xs, mask), Requantized(xs, mask);
    if 0 in ys {
      var k :| 0 <= k < |ys| && ys[k] == 0;
      ZeroOnGrid(lo, hi, ts[k], s, nbits);
    }
  }

  /** From a least mantissa that is a multiple of the quantum below zero, a full mantissa is coded as a full one. */
  lemma ZeroOnGrid(lo: int, hi: int, t: nat, s: nat, nbits: nat)
    requires -HIDDEN < lo <= hi && HIDDEN <= hi <= CLIP && nbits >= 1 && Level(t, lo, s) == 0
      && s == ShiftFor(hi - lo, Pow2(nbits) - 1)
    ensures Level(Token(hi, lo, s, Pow2(nbits) - 1), lo, s) >= HIDDEN
  {
    hide Shl, Shr, Pow2, ShiftFor;
    var mask := Pow2(nbits) - 1;
    ShiftForIsLeast(hi - lo, mask);
    HiddenBit();
    ShiftIsSmall(lo, hi, t, s, nbits);
    var q, top := Pow2(23 - s), Token(hi, lo, s, mask);
    ShlPow2(23 - s, s);
    ShlAdd(q, t, s);
    ShrBetween(Shl(q + t, s), q + t, s);
    HalfBelow(s);
    ShrMono(Shl(q + t, s), hi - lo, s);
    ShrMono(hi - lo, hi - lo + Pow2(s) / 2, s);
    ShlMonoWeak(q + t, top, s);
  }

  lemma MaskIsPositive(nbits: nat)
    requires nbits >= 1
    ensures Pow2(nbits) - 1 >= 1
  {
    Pow2Mono(1, nbits);
  }

  lemma ShiftIsSmall(lo: int, hi: int, t: nat, s: nat, nbits: nat)
    requires -HIDDEN < lo <= hi <= CLIP && nbits >= 1 && Level(t, lo, s) == 0 && s == ShiftFor(hi - lo, Pow2(nbits) - 1)
    ensures s <= 23
  {
    hide Shl, Shr, Pow2, ShiftFor;
    HiddenBit();
    if s > 23 {
      if t > 0 {
        ShlMonoWeak(1, t, s);
        ShlUnit(s);
        Pow2Mono(23, s);
      } else {
        ShlZero(s);
        ShrBetween(hi - lo, 0, 23);
        ShrBetween(hi - lo, 1, 23);
        ShlZero(23);
        ShlUnit(23);
        MaskIsPositive(nbits);
        ShiftForAtMost(hi - lo, Pow2(nbits) - 1, 23);
      }
    }
  }

  /** No value that comes back can be given a bogus hidden bit when it is packed again. */
  lemma StaysClear(xs: seq<int>, ys: seq<int>, w: seq<Float>, e: nat, nbits: nat)
    requires xs != [] && InClip(xs) && nbits >= 1 && (M.MinOf(xs) <= -HIDDEN || M.MaxOf(xs) >= HIDDEN)
    requires ys == Requantized(xs, Pow2(nbits) - 1) && FromLevels(w, ys, e)
    requires MaxExp(w) == if M.MinOf(ys) <= -HIDDEN || M.MaxOf(ys) >= HIDDEN then e else e - 1
    ensures AllClear(w) && forall k :: 0 <= k < |w| ==> Clear(w[k], MaxExp(w))
  {
    hide MaxExp, FromMantissa, Pow2, M.MinOf, M.MaxOf, Requantized, Shl;
    LevelExtremes(w, ys, e);
    if MaxExp(w) < 24 {
      QuantizeFacts(xs, Pow2(nbits) - 1);
      NoZeroWhenDropping(xs, nbits);
      forall k | 0 <= k < |w| ensures w[k].exp >= 1 {
        assert ys[k] in ys;
        HasHiddenBit(ys[k], e);
      }
    }
    forall k | 0 <= k < |w| ensures Clear(w[k], MaxExp(w)) { MaxExpBounds(w, k); }
  }

  lemma FloatsAgain(v: seq<Float>, nbits: nat)
    requires v != [] && AllFinite(v) && MaxExp(v) >= 24 && nbits >= 1
    ensures var w := Unpack(Pack(v, nbits)); AllClear(w) && Unpack(Pack(w, nbits)) == w
  {
    hide MaxExp, Mantissas, Pow2, M.MinOf, M.MaxOf, FromMantissa, Pack, Unpack, Scaled, Requantized, Shl, ShiftFor,
      Token, Level;
    var e, mask := MaxExp(v), Pow2(nbits) - 1;
    Pow2Mono(1, nbits);
    var xs := Mantissas(v, e);
    var ys, w := Requantized(xs, mask), Unpack(Pack(v, nbits));
    MaxExpBounds(v, 0);
    PackIsQuantize(v, nbits);
    QuantizeFacts(xs, mask);
    UnpackIsLevels(v, nbits);
    ExtremesAreLarge(v);
    LevelsStayLarge(xs, nbits);
    LevelExtremes(w, ys, e);
    ExponentDrops(w, ys, e);
    var e' := MaxExp(w);
    StaysClear(xs, ys, w, e, nbits);
    MantissasAgain(w, ys, e, e');
    DoubledInClip(ys, e - e');
    IntegerStable(xs, mask, e - e');
    UnpackIsLevels(w, nbits);
    var w' := Unpack(Pack(w, nbits));
    forall k | 0 <= k < |w|
      ensures w'[k] == w[k]
    {
      ScaledAt(ys, e - e', k);
      M.Extremes(ys);
      OneExponentLess(ys[k], e, e - e');
    }
  }

  lemma ScaledAt(ys: seq<int>, d: nat, k: nat)
    requires k < |ys|
    ensures Scaled(ys, d)[k] == Shl(ys[k], d)
  {
  }

  lemma DoubledInClip(ys: seq<int>, d: nat)
    requires ys != [] && InClip(ys) && d <= 1 && (d == 1 ==> M.MinOf(ys) > -HIDDEN && M.MaxOf(ys) < HIDDEN)
    ensures InClip(Scaled(ys, d))
  {
    hide M.MinOf, M.MaxOf, Shl;
    M.Extremes(ys);
    forall k | 0 <= k < |ys| ensures -CLIP <= Shl(ys[k], d) <= CLIP { ShlNone(ys[k]); ShlOne(ys[k]); }
  }

  // ----- closed forms, for every field -----

  /** The mantissa with its hidden bit, brought to the exponent; an extreme without a hidden bit counts as 0. */
  lemma MantissaIs(f: Float, e: nat)
    requires f.exp <= e
    ensures var m := (0x80_0000 + f.frac) / Pow2(if e - f.exp > 31 then 31 else e - f.exp);
      && Mantissa(f, e) == (if f.neg then -m else m)
      && Bound(f, e) == (if f.exp == 0 then 0 else if f.neg then -m else m)
  {
    hide Shr, Pow2;
    ShrIsDiv(HIDDEN + f.frac, if e - f.exp > 31 then 31 else e - f.exp);
  }

  /** A token is the distance from the minimum in steps, rounded half up, or the mask. */
  lemma TokenIs(x: int, lo: int, s: nat, mask: nat)
    ensures var t := (x - lo + Pow2(s) / 2) / Pow2(s); Token(x, lo, s, mask) == if t > mask then mask else t
  {
    hide Shr, Pow2;
    ShrIsDiv(x - lo + Pow2(s) / 2, s);
  }

  /** A block has the largest exponent of the field, and its minimum and shift from two values, the extremes. */
  lemma PackIs(v: seq<Float>, nbits: nat) returns (i: nat, j: nat)
    requires v != [] && AllFinite(v)
    ensures i < |v| && j < |v| && forall k :: 0 <= k < |v| ==> Key(v[i]) <= Key(v[k]) <= Key(v[j])
    ensures var b := Pack(v, nbits); var e, mask := b.maxExp, Pow2(nbits) - 1;
      && (forall k :: 0 <= k < |v| ==> v[k].exp <= e) && (exists k :: 0 <= k < |v| && v[k].exp == e)
      && b.minimum == Bound(v[i], e) && b.shift2 == ShiftFor(Bound(v[j], e) - Bound(v[i], e), mask)
      && |b.tokens| == |v|
      && forall k :: 0 <= k < |v| ==> b.tokens[k] == Token(Mantissa(v[k], e), b.minimum, b.shift2, mask)
  {
    hide Key, Fmin, Fmax, ShiftFor, Token, Mantissa, Pow2, MaxExp, Bound, Finite;
    MaxExpReached(v);
    Extremes(v);
    i :| 0 <= i < |v| && v[i] == Fmin(v);
    j :| 0 <= j < |v| && v[j] == Fmax(v);
  }

  /** The value of a token: the minimum and so many steps, held to 24 bits, in units of the exponent. */
  lemma ValueIs(t: int, lo: int, s: nat, e: nat)
    requires -0x8000_0000 < t * Pow2(s) + lo < 0x8000_0000 && 1 <= e <= 254
    ensures var a := t * Pow2(s) + lo; var m := if a > 0xFF_FFFF then 0xFF_FFFF else if a < -0xFF_FFFF then -0xFF_FFFF
        else a;
      Regenerated(t, lo, s) == m && Finite(FromMantissa(m, e)) && Key(FromMantissa(m, e)) == m * Pow2(e - 1)
  {
    hide Shl, Pow2, Normalized, Finite, Key;
    ShlIsMul(t, s);
    var m := Clipped(t * Pow2(s) + lo);
    FromMantissaKey(m, e);
    NormalizedFacts(m < 0, if m < 0 then -m else m, e);
    ShlIsMul(m, e - 1);
  }

  // ----- the words between packer and unpacker -----

  /** Word k of the stream: two tokens, the first in the upper half. */
  function StreamWord(ts: seq<int>, k: nat): Word
    requires 2 * k < |ts|
  {
    var second := if 2 * k + 1 < |ts| then Wrap(ts[2 * k + 1]) else 0;
    OrFits(Wrap(Shl(Wrap(ts[2 * k]), 16)), second);
    Or(Wrap(Shl(Wrap(ts[2 * k]), 16)), second)
  }

  lemma OrFits(a: Word, b: Word)
    ensures Or(a, b) < WORD
  {
    hide Or, Pow2;
    Pow2Values();
    OrBound(a, b, 32);
  }

  /** The words the packer stores for some tokens. */
  function StreamWords(ts: seq<int>): (ws: seq<Word>)
    ensures |ws| == (|ts| + 1) / 2
  {
    seq((|ts| + 1) / 2, k requires 0 <= k < (|ts| + 1) / 2 => StreamWord(ts, k))
  }

  /** Token k as the unpacker sees it. */
  function StreamToken(stream: seq<Word>, k: nat): nat
    requires k / 2 < |stream|
  {
    if k % 2 == 0 then stream[k / 2] / 0x1_0000 else stream[k / 2] % 0x1_0000
  }

  function StreamTokens(stream: seq<Word>, npts: nat): (ts: seq<int>)
    requires (npts + 1) / 2 <= |stream|
    ensures |ts| == npts
  {
    seq(npts, k requires 0 <= k < npts => StreamToken(stream, k))
  }

  /** Tokens that fit in 16 bits come back from the stream. */
  lemma StreamRoundTrip(ts: seq<int>, stream: seq<Word>)
    requires |stream| >= (|ts| + 1) / 2
    requires forall k :: 0 <= k < |ts| ==> 0 <= ts[k] < 0x1_0000
    requires forall k :: 0 <= k < (|ts| + 1) / 2 ==> stream[k] == StreamWord(ts, k)
    ensures StreamTokens(stream, |ts|) == ts
  {
    hide StreamWord;
    forall k | 0 <= k < |ts|
      ensures StreamToken(stream, k) == ts[k]
    {
      TwoTokens(ts, k / 2);
    }
  }

  lemma TwoTokens(ts: seq<int>, p: nat)
    requires 2 * p < |ts| && forall k :: 0 <= k < |ts| ==> 0 <= ts[k] < 0x1_0000
    ensures StreamWord(ts, p) / 0x1_0000 == ts[2 * p] && (2 * p + 1 < |ts|
      ==> StreamWord(ts, p) % 0x1_0000 == ts[2 * p + 1])
  {
    hide Or, Shl, Pow2;
    Pow2Values();
    var a, b := ts[2 * p], if 2 * p + 1 < |ts| then ts[2 * p + 1] else 0;
    ShlIsMul(a, 16);
    OrDisjoint(a, b, 16);
    DivUnique(a * 0x1_0000 + b, 0x1_0000, a, b);
  }

  /** What the unpacker makes of the words that the packer writes for a field. */
  function Back(v: seq<Float>, nbits: nat): (w: seq<Float>)
    requires v != []
    ensures |w| == |v|
  {
    var b := Pack(v, nbits);
    Unpack(b.(tokens := StreamTokens(StreamWords(b.tokens), |v|)))
  }

  lemma PackLength(v: seq<Float>, nbits: nat)
    requires v != []
    ensures |Pack(v, nbits).tokens| == |v|
  {
  }

  /** No token of the field is negative or above the mask. */
  ghost predicate TokensFit(v: seq<Float>, nbits: nat)
    requires v != []
  {
    var ts := Pack(v, nbits).tokens;
    forall k :: 0 <= k < |ts| ==> 0 <= ts[k] < Pow2(nbits)
  }

  /** Tokens that fit are what the unpacker finds. */
  lemma BackOfTokens(v: seq<Float>, nbits: nat)
    requires v != [] && nbits <= 16 && TokensFit(v, nbits)
    ensures Back(v, nbits) == Unpack(Pack(v, nbits))
  {
    hide Pack, Unpack, StreamWord, StreamTokens, Pow2;
    PackLength(v, nbits);
    Pow2Mono(nbits, 16);
    Pow2Values();
    StreamRoundTrip(Pack(v, nbits).tokens, StreamWords(Pack(v, nbits).tokens));
  }

  /** The tokens fit when no zero is taken for a number with a hidden bit. */
  lemma TokensInRange(v: seq<Float>, nbits: nat)
    requires AllClear(v)
    ensures TokensFit(v, nbits)
  {
    hide Pack, Quantize, M.MinOf, M.MaxOf, ShiftFor, MaxExp, Mantissas, Pow2, Level, Token, Requantized;
    PackIsQuantize(v, nbits);
    QuantizeFacts(Mantissas(v, MaxExp(v)), Pow2(nbits) - 1);
  }

  /** When the largest exponent is 0 the tokens do not matter: only zeros come back. */
  lemma NothingLeft(v: seq<Float>, nbits: nat)
    requires v != [] && MaxExp(v) == 0
    ensures var w := Back(v, nbits);
      && (forall k :: 0 <= k < |w| ==> w[k] == Float(false, 0, 0)) && Back(w, nbits) == w
  {
    hide Key, Token, StreamTokens, StreamWords;
    var w := Back(v, nbits);
    assert Fmin(w) in w && Fmax(w) in w;
  }

  /** What packing and unpacking leaves of a field does not change when that is done again. */
  ghost predicate Stable(v: seq<Float>, nbits: nat)
    requires v != []
  {
    var w := Back(v, nbits);
    Back(w, nbits) == w
  }

  /** Packing and unpacking a field that has been packed and unpacked gives exactly the same floats. */
  lemma RepackStable(v: seq<Float>, nbits: nat)
    requires v != [] && AllFinite(v) && 1 <= nbits <= 16
    requires MaxExp(v) == 0 || MaxExp(v) >= 24
    ensures Stable(v, nbits)
  {
    hide MaxExp, Pack, Unpack, Pow2, Back;
    if MaxExp(v) == 0 {
      NothingLeft(v, nbits);
    } else {
      FloatsAgain(v, nbits);
      TokensInRange(v, nbits);
      BackOfTokens(v, nbits);
      TokensInRange(Back(v, nbits), nbits);
      BackOfTokens(Back(v, nbits), nbits);
    }
  }

  // ----- how far a value moves -----

  /**
    No value moves by more than a quantum: rounding costs at most half, the mask and the clip can only lower a value.
   */
  lemma QuantizationError(xs: seq<int>, mask: nat, k: nat)
    requires InClip(xs) && k < |xs|
    ensures var s := ShiftFor(M.MaxOf(xs) - M.MinOf(xs), mask);
      xs[k] - Pow2(s) < Requantized(xs, mask)[k] <= xs[k] + Pow2(s) / 2
  {
    hide Shl, Shr, M.MinOf, M.MaxOf, ShiftFor, Pow2;
    var lo, hi := M.MinOf(xs), M.MaxOf(xs);
    var s, d := ShiftFor(hi - lo, mask), xs[k] - lo;
    M.Extremes(xs);
    HalfBelow(s);
    var t := Shr(d + Pow2(s) / 2, s);
    RoundingError(d, s);
    ShiftForIsLeast(hi - lo, mask);
    ShrMono(d, hi - lo, s);
    ShrBetween(d, Shr(d, s), s);
    ShlMonoWeak(Shr(d, s), mask, s);
    if t > mask { ShlMonoWeak(mask, t, s); }
  }

  lemma TwoExtremes(f: Float, g: Float)
    requires Key(f) < Key(g)
    ensures Fmin([f, g]) == f && Fmax([f, g]) == g
  {
    hide Key;
    assert [f, g][..1] == [f];
    assert Fmin([f]) == f && Fmax([f]) == f;
  }

  /** A mantissa is the value in units of the largest exponent, cut towards zero. */
  lemma MantissaIsValue(f: Float, e: nat)
    requires Clear(f, e)
    ensures var x, u := Mantissa(f, e), Pow2(e - 1); (x - 1) * u < Key(f) < (x + 1) * u
  {
    hide Shr, Size, Pow2, Magnitude;
    MagnitudeIsShift(f, e);
    ShrIsDiv(Size(f), e - 1);
    var u, n := Pow2(e - 1), Size(f);
    assert n == u * (n / u) + n % u;
    Units(n / u, n % u, u);
  }

  lemma Units(q: int, r: int, u: nat)
    requires 0 <= r < u
    ensures (q - 1) * u < u * q + r < (q + 1) * u
    ensures (-q - 1) * u < -(u * q + r) < (-q + 1) * u
  {
  }

  /**
    No float moves by more than a quantum and a unit of the largest exponent, and by little more than half of it
    upwards.
   */
  lemma FloatError(v: seq<Float>, nbits: nat, k: nat)
    requires v != [] && AllFinite(v) && MaxExp(v) >= 24 && k < |v|
    ensures var b := Pack(v, nbits); var w := Unpack(b);
      var u, p := Pow2(b.maxExp - 1), Pow2(b.shift2);
      -((p + 1) * u) < Key(w[k]) - Key(v[k]) < (p / 2 + 1) * u
  {
    hide MaxExp, Mantissa, Pow2, M.MinOf, M.MaxOf, FromMantissa, Pack, Unpack, Requantized, Quantize, Shl, ShiftFor,
      Key;
    var e, mask := MaxExp(v), Pow2(nbits) - 1;
    var xs := Mantissas(v, e);
    var ys := Requantized(xs, mask);
    MaxExpBounds(v, k);
    PackIsQuantize(v, nbits);
    UnpackIsLevels(v, nbits);
    QuantizeFacts(xs, mask);
    QuantizationError(xs, mask, k);
    MantissaIsValue(v[k], e);
    FromMantissaKey(ys[k], e);
    ShlIsMul(ys[k], e - 1);
    Moved(xs[k], ys[k], Pow2(ShiftFor(M.MaxOf(xs) - M.MinOf(xs), mask)), Pow2(e - 1), Key(v[k]));
  }

  lemma Moved(x: int, y: int, p: nat, u: nat, key: int)
    requires x - p < y <= x + p / 2 && (x - 1) * u < key < (x + 1) * u && u >= 1
    ensures -((p + 1) * u) < y * u - key < (p / 2 + 1) * u
  {
    Times(x - p, y, u);
    Times(y, x + p / 2, u);
  }

  lemma Times(a: int, b: int, u: nat)
    requires a <= b
    ensures a * u <= b * u
  {
    assert (b - a) * u >= 0;
  }

  // ----- where repacking is not stable -----

  /** Packing two floats, the second above the first. */
  lemma PackTwo(f: Float, g: Float, nbits: nat)
    requires Key(f) < Key(g) && g.exp <= f.exp && f.exp >= 1
    ensures MaxExp([f, g]) == f.exp
    ensures var lo, mask := Mantissa(f, f.exp), Pow2(nbits) - 1;
      var s := ShiftFor(Bound(g, f.exp) - lo, mask);
      var t, u := Token(lo, lo, s, mask), Token(Mantissa(g, f.exp), lo, s, mask);
      && (0 <= u <= mask ==> TokensFit([f, g], nbits))
      && (nbits <= 16 && 0 <= u <= mask && -CLIP <= lo <= CLIP && -0x8000_0000 < Level(u, lo, s) < 0x8000_0000 ==>
           Back([f, g], nbits) == [FromMantissa(Clipped(Level(t, lo, s)), f.exp),
             FromMantissa(Clipped(Level(u, lo, s)), f.exp)])
  {
    hide Key, Mantissa, Pow2, Token, Level, ShiftFor, FromMantissa, Clipped, Fmin, Fmax, Back, Regenerated;
    TwoExtremes(f, g);
    var ts, w := Pack([f, g], nbits).tokens, Unpack(Pack([f, g], nbits));
    assert w == [w[0], w[1]] && ts == [ts[0], ts[1]];
    var lo, mask := Mantissa(f, f.exp), Pow2(nbits) - 1;
    var sh := ShiftFor(Bound(g, f.exp) - lo, mask);
    Pow2Mono(0, nbits);
    TokenRange(lo, lo, sh, mask);
    if -CLIP <= lo <= CLIP { LevelZero(lo, sh); }
    assert 0 <= ts[1] <= mask ==> TokensFit([f, g], nbits);
    if nbits <= 16 && 0 <= ts[1] <= mask && -CLIP <= lo <= CLIP && -0x8000_0000 < Level(ts[1], lo, sh) < 0x8000_0000 {
      BackOfTokens([f, g], nbits);
      NoWrapAround(ts[0], lo, sh);
      NoWrapAround(ts[1], lo, sh);
    }
  }

  /** The least value of the unstable field: its mantissa is a - 1 short of 1 << 24. */
  function UnstableLeast(a: nat, e: nat): Float
    requires 2 <= a <= HIDDEN
  {
    Float(true, e, HIDDEN + 1 - a)
  }

  /** The first time: the range is just above 1 << 24, and the greater value is coded by 1 << (nbits - 1). */
  lemma FirstTime(nbits: nat)
    requires 1 <= nbits <= 16
    ensures var mask, s := Pow2(nbits) - 1, 25 - nbits;
      && ShiftFor(0x100_0001, mask) == s && Pow2(nbits - 1) <= mask
      && Shr(0x100_0001 + Pow2(s) / 2, s) == Pow2(nbits - 1) && Shl(Pow2(nbits - 1), s) == 0x100_0000
  {
    hide Shr, Shl, Pow2, ShiftFor;
    var s := 25 - nbits;
    HiddenBit();
    HalfBelow(s);
    Pow2Double(nbits);
    Pow2Mono(0, nbits - 1);
    Pow2Mono(8, s - 1);
    Pow2Values();
    ShlPow2(nbits - 1, s);
    ShlPow2(nbits, s - 1);
    ShrBetween(0x100_0001, Pow2(nbits - 1), s);
    ShrBetween(0x100_0001 + Pow2(s) / 2, Pow2(nbits - 1), s);
    ShrBetween(0x100_0001, Pow2(nbits), s - 1);
    ShiftForUnique(0x100_0001, Pow2(nbits) - 1, s);
  }

  /** The second time the range is below 1 << 24, the shift is one less, and the token goes over the mask. */
  lemma SecondTime(nbits: nat, range: nat)
    requires 1 <= nbits <= 16 && HIDDEN < range < 0x100_0000
    ensures var mask, s := Pow2(nbits) - 1, 24 - nbits;
      && ShiftFor(range, mask) == s && Shr(0x100_0000 + Pow2(s) / 2, s) == Pow2(nbits)
      && Shl(mask, s) == 0x100_0000 - Pow2(s) && 1 <= Pow2(s) <= HIDDEN
  {
    hide Shr, Shl, Pow2, ShiftFor;
    var mask, s := Pow2(nbits) - 1, 24 - nbits;
    HiddenBit();
    HalfBelow(s);
    Pow2Double(nbits);
    Pow2Mono(0, nbits - 1);
    Pow2Mono(0, s);
    Pow2Mono(s, 23);
    Pow2Values();
    ShlPow2(nbits, s);
    ShlPow2(nbits, s - 1);
    ShlAdd(mask, 1, s);
    ShlUnit(s);
    ShrBetween(0x100_0000 + Pow2(s) / 2, Pow2(nbits), s);
    ShrBelow(range, Pow2(nbits), s);
    ShrBetween(range, Shr(range, s - 1), s - 1);
    ShrMono(Shl(Pow2(nbits), s - 1), range, s - 1);
    ShrShl(Pow2(nbits), 0, s - 1);
    ShlNone(Pow2(nbits));
    ShiftForUnique(range, mask, s);
  }

  lemma ShrBelow(x: nat, t: nat, s: nat)
    requires x < Shl(t, s)
    ensures Shr(x, s) < t
  {
    hide Shr, Shl, Pow2;
    ShrBetween(x, Shr(x, s), s);
    if Shr(x, s) >= t { ShlMonoWeak(t, Shr(x, s), s); }
  }

  /**
    The greater value as it comes back the first time: a - 1 has no hidden bit, but is taken to have one, to no
    effect.
   */
  lemma Denormal(a: nat, e: nat)
    requires 1 <= e <= 23 && a == Pow2(24 - e)
    ensures 2 <= a <= HIDDEN
    ensures var h := FromMantissa(a - 1, e); !h.neg && h.exp == 0 && Finite(h) && Key(h) > 0 && Mantissa(h, e) == a - 1
    ensures Mantissa(Float(false, 1, 0), e) == a
  {
    hide Shr, Shl, Pow2, Normalized;
    HiddenBit();
    Pow2Mono(24 - e, 23);
    Pow2Mono(1, 24 - e);
    MaskIsPositive(1);
    var h := FromMantissa(a - 1, e);
    NormalizedFacts(false, a - 1, e);
    ShlAdd(a, -1, e - 1);
    ShlNeg(1, e - 1);
    ShlUnit(e - 1);
    ShlPow2(24 - e, e - 1);
    Pow2Mono(0, e - 1);
    Pow2Mono(e - 1, 22);
    DenormalSize(h, HIDDEN - Pow2(e - 1));
    ShlMonoWeak(1, a - 1, e - 1);
    // HIDDEN + h.frac is 2^24 - 2^(e-1)
    ShlAdd(a, -1, e);
    ShlNeg(1, e);
    ShlUnit(e);
    ShlPow2(24 - e, e);
    Pow2Double(e);
    ShrBetween(HIDDEN + h.frac, a - 1, e);
    ShrBetween(HIDDEN, a, e - 1);
  }

  lemma TokenFits(nbits: nat)
    requires nbits >= 1
    ensures 1 <= Pow2(nbits - 1) <= Pow2(nbits) - 1
  {
    hide Pow2;
    Pow2Double(nbits);
    Pow2Mono(0, nbits - 1);
    Pow2Values();
  }

  lemma DenormalSize(h: Float, size: nat)
    requires Finite(h) && Size(h) == size < HIDDEN
    ensures h.exp == 0 && h.frac == size
  {
    if h.exp > 0 { ShlGrows(HIDDEN + h.frac, h.exp - 1); }
  }

  /**
    For every exponent from 1 to 23 and every width there is a field that repacking changes, though all its tokens
    fit.
   */
  lemma DenormalRangeUnstable(e: nat, nbits: nat)
    requires 1 <= e <= 23 && 1 <= nbits <= 16
    ensures var a := Pow2(24 - e);
      && 2 <= a <= HIDDEN
      && var v := [UnstableLeast(a, e), Float(false, 1, 0)];
      && AllFinite(v) && MaxExp(v) == e && !Stable(v, nbits)
      && TokensFit(v, nbits) && AllFinite(Back(v, nbits)) && TokensFit(Back(v, nbits), nbits)
  {
    hide Pow2, Shl, Shr, ShiftFor, FromMantissa, Mantissa, Pack, Unpack, MaxExp, Back, TokensFit;
    var a := Pow2(24 - e);
    Denormal(a, e);
    var f, g, h := UnstableLeast(a, e), Float(false, 1, 0), FromMantissa(a - 1, e);
    var b := a - 1 - Pow2(24 - nbits);
    LeastValue(a, e);
    FirstTime(nbits);
    LevelOfLeast(f, e, 25 - nbits, Pow2(nbits) - 1, a);
    PackTwo(f, g, nbits);
    TokenFits(nbits);
    var w := Back([f, g], nbits);
    assert w == [f, h];
    SecondTime(nbits, 0x100_0001 - a);
    LevelOfLeast(f, e, 24 - nbits, Pow2(nbits) - 1, a);
    PackTwo(f, h, nbits);
    assert Back([f, h], nbits)[1] == FromMantissa(b, e);
    FromMantissaKey(a - 1, e);
    FromMantissaKey(b, e);
    ShlMono(b, a - 1, e - 1);
  }

  lemma LeastValue(a: nat, e: nat)
    requires 2 <= a <= HIDDEN && 1 <= e <= 23
    ensures var f := UnstableLeast(a, e);
      Finite(f) && Key(f) < 0 && Mantissa(f, e) == a - 0x100_0001 && FromMantissa(a - 0x100_0001, e) == f
    ensures Key(Float(false, 1, 0)) > 0
  {
    hide Shl;
    var f := UnstableLeast(a, e);
    NoShift(HIDDEN + f.frac);
    ShlGrows(HIDDEN + f.frac, e - 1);
    ShlGrows(HIDDEN, 0);
  }

  /** The least value comes back as it is. */
  lemma LevelOfLeast(f: Float, e: nat, s: nat, mask: nat, a: nat)
    requires 2 <= a <= HIDDEN
    ensures var lo := a - 0x100_0001; Clipped(Level(Token(lo, lo, s, mask), lo, s)) == lo
  {
    hide Token, Level;
    var lo := a - 0x100_0001;
    TokenRange(lo, lo, s, mask);
    LevelZero(lo, s);
  }

  /** Packing is stable for all fields of a given largest exponent exactly when that is 0 or at least 24. */
  lemma StableExponents(e: nat, nbits: nat)
    requires e <= 254 && 1 <= nbits <= 16
    ensures (forall v :: v != [] && AllFinite(v) && MaxExp(v) == e ==> Stable(v, nbits)) <==> e == 0 || e >= 24
  {
    hide MaxExp, Pack, Unpack, Stable;
    if e == 0 || e >= 24 {
      forall v | v != [] && AllFinite(v) && MaxExp(v) == e ensures Stable(v, nbits) { RepackStable(v, nbits); }
    } else {
      DenormalRangeUnstable(e, nbits);
    }
  }

  // ----- the block packer and unpacker -----

  lemma {:induction false} LowOfOr(a: nat, b: nat, n: nat)
    ensures Low(Or(a, b), n) == Or(Low(a, n), Low(b, n))
    decreases n
  {
    hide Or, Low;
    if n > 0 {
      LowOfOr(a / 2, b / 2, n - 1);
      OrHalves(a, b);
      LowHalves(Or(a, b), n);
      LowHalves(a, n);
      LowHalves(b, n);
      OrHalves(Low(a, n), Low(b, n));
    } else {
      ZeroOr();
      NoneLow(a);
      NoneLow(b);
      NoneLow(Or(a, b));
    }
  }

  lemma LowHalves(v: int, n: nat)
    requires n > 0
    ensures Low(v, n) / 2 == Low(v / 2, n - 1) && Low(v, n) % 2 == v % 2
  {
  }

  lemma NoneLow(v: int)
    ensures Low(v, 0) == 0
  {
  }

  lemma OrHalves(a: nat, b: nat)
    ensures Or(a, b) / 2 == Or(a / 2, b / 2) && Or(a, b) % 2 == (if a % 2 == 1 || b % 2 == 1 then 1 else 0)
  {
    if a == 0 && b == 0 { ZeroOr(); }
  }

  lemma ZeroOr()
    ensures Or(0, 0) == 0
  {
  }

  /** Whatever stood in the accumulator, 16 more bits push it out. */
  lemma JunkFallsOff(junk: Word, t: Word)
    ensures Or(Wrap(Shl(junk, 16)), t) < WORD
    ensures Wrap(Shl(Or(Wrap(Shl(junk, 16)), t), 16)) == Wrap(Shl(t, 16))
  {
    hide Or, Shl, Low, Wrap;
    var a := Or(Wrap(Shl(junk, 16)), t);
    OrFits(Wrap(Shl(junk, 16)), t);
    WrapShl(a, 16);
    WrapShl(t, 16);
    WrapShl(junk, 16);
    LowOfOr(Wrap(Shl(junk, 16)), t, 16);
    LowShl(Low(junk, 16), 0, 16);
    LowNothing(Low(junk, 16));
    OrZeroLeft(Low(t, 16));
  }

  lemma LowNothing(v: int)
    ensures Low(v, 0) == 0 && Shl(0, 16) == 0
  {
    ShlZero(16);
  }

  lemma {:induction false} OrZeroLeft(x: nat)
    ensures Or(0, x) == x
  {
    if x > 0 { OrZeroLeft(x / 2); }
  }

  /** The loop that looks for the extremes. */
  method FindExtremes(source: seq<Float>) returns (fmin: Float, fmax: Float)
    requires source != []
    ensures fmin == Fmin(source) && fmax == Fmax(source)
  {
    hide Key;
    fmin, fmax := source[0], source[0];
    assert source[..1] == [source[0]];
    var n := 0;
    while n < |source|
      invariant 0 <= n <= |source|
      invariant fmin == Fmin(source[..if n == 0 then 1 else n]) && fmax == Fmax(source[..if n == 0 then 1 else n])
    {
      assert n > 0 ==> source[..n + 1][..n] == source[..n];
      fmin := if Key(fmin) > Key(source[n]) then source[n] else fmin;
      fmax := if Key(fmax) < Key(source[n]) then source[n] else fmax;
      n := n + 1;
    }
    assert source[..n] == source;
  }

  /** The loop that finds Shift2 and Round. */
  method FindShift(range: int, mask: nat) returns (shift2: nat, round: int)
    ensures shift2 == ShiftFor(range, mask) && round == Pow2(shift2) / 2
  {
    var maximum := range;
    shift2, round := 0, 1;
    while maximum > mask
      invariant ShiftFor(range, mask) == shift2 + ShiftFor(maximum, mask) && round == Pow2(shift2)
      decreases if maximum < 0 then 0 else maximum
    {
      maximum := maximum / 2;
      round := 2 * round;
      shift2 := shift2 + 1;
    }
    round := round / 2;
  }

  /** The loop that writes the tokens, two to a word; what the accumulator holds at first does not matter. */
  method StoreTokens(source: seq<Float>, maxExp: nat, minimum: int, shift2: nat, round: int, mask: nat,
      stream: array<Word>, ghost ts: seq<int>)
    requires |ts| == |source| && forall k :: 0 <= k < |ts| ==>
      ts[k] == Token(Mantissa(source[k], maxExp), minimum, shift2, mask)
    requires round == Pow2(shift2) / 2 && stream.Length >= (|source| + 1) / 2
    modifies stream
    ensures forall k :: 0 <= k < (|source| + 1) / 2 ==> stream[k] == StreamWord(ts, k)
    ensures forall k :: (|source| + 1) / 2 <= k < stream.Length ==> stream[k] == old(stream[k])
  {
    hide Mantissa, Shr, Or, Shl, Wrap, Pow2;
    var accu: Word := *;
    var store, n, p := false, 0, 0;
    while n < |source|
      invariant 0 <= n <= |source| && p == n / 2 && store == (n % 2 == 1)
      invariant store ==> Wrap(Shl(accu, 16)) == Wrap(Shl(Wrap(ts[n - 1]), 16))
      invariant forall k :: 0 <= k < p ==> stream[k] == StreamWord(ts, k)
      invariant forall k :: p <= k < stream.Length ==> stream[k] == old(stream[k])
    {
      var mantis := Mantissa(source[n], maxExp) - minimum + round;
      mantis := Shr(mantis, shift2);
      if mantis > mask { mantis := mask; }
      JunkFallsOff(accu, Wrap(mantis));
      accu := Or(Wrap(Shl(accu, 16)), Wrap(mantis));
      if store {
        assert accu == StreamWord(ts, p);
        stream[p] := accu;
        p := p + 1;
      }
      store := !store;
      n := n + 1;
    }
    if store {
      OrZero(Wrap(Shl(accu, 16)));
      assert Wrap(Shl(accu, 16)) == StreamWord(ts, p);
      stream[p] := Wrap(Shl(accu, 16));
    }
  }

  /** The magic number and nbits - 1, then the exponent and the shift of the block. */
  function HeaderWord(nbits: nat, b: Block): int {
    0xEFF * 0x10_0000 + (nbits - 1) * 0x1_0000 + b.maxExp * 0x100 + b.shift2
  }

  lemma HeaderParts(nbits: nat, b: Block)
    requires 1 <= nbits <= 16 && b.maxExp <= 254 && b.shift2 <= 25
    ensures 0 <= 0xEFF * 0x10_0000 + (nbits - 1) * 0x1_0000 < WORD && 0 <= HeaderWord(nbits, b) < WORD
    ensures 0xEFF * 0x10_0000 + (nbits - 1) * 0x1_0000 + b.maxExp % 0x100 * 0x100 + b.shift2 % 0x100
      == HeaderWord(nbits, b)
  {
  }

  lemma BlockBounds(v: seq<Float>, nbits: nat)
    requires v != [] && AllFinite(v)
    ensures var b := Pack(v, nbits); b.maxExp <= 254 && b.shift2 <= 25
  {
    hide Fmin, Fmax, Pow2, ShiftFor, Mantissa, Token;
    var e, mask := MaxExp(v), Pow2(nbits) - 1;
    BoundRange(Fmin(v), e);
    BoundRange(Fmax(v), e);
    ShiftAtMost25(Bound(Fmax(v), e) - Bound(Fmin(v), e), mask);
  }

  lemma BoundRange(f: Float, e: nat)
    requires Finite(f)
    ensures -CLIP <= Bound(f, e) <= CLIP
  {
    hide Shr;
    ShrAtMost(HIDDEN + f.frac, if e - f.exp > 31 then 31 else if e < f.exp then 0 else e - f.exp);
  }

  /** c_float_packer and float_packer_1: header[0..2] and the tokens; -1 for a width out of range. */
  method CFloatPacker(source: seq<Float>, nbits: int, header: array<Word>, stream: array<Word>) returns (err: int)
    requires 1 <= |source| < 0x8000_0000 && AllFinite(source)
    requires header.Length >= 3 && stream.Length >= (|source| + 1) / 2 && header != stream
    modifies header, stream
    ensures err == (if 1 <= nbits <= 16 then 0 else -1)
    ensures err != 0 ==> header[..] == old(header[..]) && stream[..] == old(stream[..])
    ensures err == 0 ==> var b := Pack(source, nbits);
      && header[0] == HeaderWord(nbits, b) && header[1] == Wrap(b.minimum) && header[2] == |source|
      && forall k :: 0 <= k < (|source| + 1) / 2 ==> stream[k] == StreamWord(b.tokens, k)
    ensures err == 0 && AllClear(source) ==> BestWords(source, nbits, header[..], stream[..])
  {
    hide Key, Mantissa, Fmin, Fmax, ShiftFor, Token, StreamWord, Bound, Pow2, Wrap, HeaderWord, BestWords, AllClear;
    if nbits > 16 || nbits < 1 { return -1; }
    ghost var b := Pack(source, nbits);
    BlockBounds(source, nbits);
    HeaderParts(nbits, b);
    header[2] := |source|;
    header[0] := 0xEFF * 0x10_0000 + (nbits - 1) * 0x1_0000;
    var fmin, fmax := FindExtremes(source);
    var maxExp := if fmax.exp > fmin.exp then fmax.exp else fmin.exp;
    var maximum, minimum := Bound(fmax, maxExp), Bound(fmin, maxExp);
    var mask := Pow2(nbits) - 1;
    var shift2, round := FindShift(maximum - minimum, mask);
    header[1] := Wrap(minimum);
    header[0] := header[0] + maxExp % 0x100 * 0x100 + shift2 % 0x100;
    StoreTokens(source, maxExp, minimum, shift2, round, mask, stream, b.tokens);
    if AllClear(source) { PackedBest(source, nbits, header[..], stream[..]); }
    return 0;
  }

  /**
    temp.f - temp2.f for two floats of one sign and one exponent, the second without a fraction: the difference is a
    float.
   */
  function Subtract(x: Float, y: Float): Float
  {
    Normalized(x.neg, x.frac, x.exp)
  }

  lemma SubtractIsExact(x: Float, y: Float)
    requires Finite(x) && y == Float(x.neg, x.exp, 0) && x.exp >= 1
    ensures Finite(Subtract(x, y)) && Key(Subtract(x, y)) == Key(x) - Key(y)
  {
    hide Normalized, Shl;
    NormalizedFacts(x.neg, x.frac, x.exp);
    ShlAdd(HIDDEN, x.frac, x.exp - 1);
    ShlZero(x.exp - 1);
    ZeroIsZero(x.neg, x.exp);
  }

  lemma ZeroIsZero(neg: bool, e: nat)
    ensures Normalized(neg, 0, e) == Float(false, 0, 0)
  {
  }

  /** One value from its token. */
  method ValueOf(token: int, maxExp: nat, minimum: int, shift2: nat) returns (f: Float)
    requires 1 <= maxExp <= 254
    ensures f == FromMantissa(Regenerated(token, minimum, shift2), maxExp)
  {
    hide Shl, Signed, Normalized;
    SignedSum(Shl(token, shift2), minimum);
    SignedFits(Level(token, minimum, shift2));
    var mantis := Signed(Shl(token, shift2));
    mantis := Signed(mantis + minimum);
    var sgn := mantis < 0;
    if sgn { mantis := Signed(-mantis); }
    if mantis > 0xFF_FFFF { mantis := 0xFF_FFFF; }
    FullOrZero(sgn, mantis, maxExp);
    if mantis / HIDDEN % 2 == 1 {
      f := Float(sgn, maxExp, mantis % HIDDEN);
    } else {
      var temp, temp2 := Float(sgn, maxExp, mantis % HIDDEN), Float(sgn, maxExp, 0);
      f := Subtract(temp, temp2);
    }
  }

  lemma FullOrZero(neg: bool, m: int, e: nat)
    ensures Normalized(false, 0, e) == Normalized(true, 0, e)
    ensures HIDDEN <= m <= CLIP ==> Normalized(neg, m, e) == Float(neg, e, m - HIDDEN) && m % HIDDEN == m - HIDDEN
    ensures HIDDEN <= m <= CLIP ==> m / HIDDEN % 2 == 1
    ensures 0 <= m < HIDDEN ==> m % HIDDEN == m && m / HIDDEN % 2 == 0
    ensures m == -0x8000_0000 ==> m % HIDDEN == 0 && m / HIDDEN % 2 == 0
  {
  }

  lemma SignedFits(a: int)
    ensures -0x8000_0000 <= Signed(a) < 0x8000_0000
    ensures Signed(-Signed(a)) == if Signed(a) == -0x8000_0000 then Signed(a) else -Signed(a)
  {
  }

  lemma SignedSum(a: int, b: int)
    ensures Signed(Signed(a) + b) == Signed(a + b)
  {
    var k := if Wrap(a) >= 0x8000_0000 then 1 else 0;
    DivUnique(a + b, WORD, (Signed(a) + b) / WORD + k + a / WORD, Wrap(Signed(a) + b));
  }

  /** float_unpacker_1: the tokens of the stream, two to a word, one word read ahead. */
  method FloatUnpacker1(dest: array<Float>, header: array<Word>, stream: array<Word>, npts: nat) returns (err: int)
    requires header.Length >= 3 && dest.Length >= npts && stream.Length >= npts / 2 + 1
    requires header[0] / 0x100 % 0x100 <= 254
    modifies dest
    ensures err == npts - Signed(header[2])
    ensures err != 0 ==> dest[..] == old(dest[..])
    ensures err == 0 ==>
      var ts := StreamTokens(stream[..], npts);
      dest[..npts] == Unpack(Block(header[0] / 0x100 % 0x100, header[0] % 0x100, Signed(header[1]), ts))
  {
    hide FromMantissa, Level, Clipped, Shl;
    var minimum, maxExp, shift2 := Signed(header[1]), header[0] / 0x100 % 0x100, header[0] % 0x100;
    if npts != Signed(header[2]) { return npts - Signed(header[2]); }
    err := 0;
    ghost var w := Unpack(Block(maxExp, shift2, minimum, StreamTokens(stream[..], npts)));
    var n := 0;
    if maxExp == 0 {
      while n < npts
        invariant 0 <= n <= npts
        invariant forall k :: 0 <= k < n ==> dest[k] == Float(false, 0, 0)
      {
        dest[n] := Float(false, 0, 0);
        n := n + 1;
      }
      assert dest[..npts] == w;
      return;
    }
    var accu, fetch, p := stream[0], false, 1;
    while n < npts
      invariant 0 <= n <= npts && fetch == (n % 2 == 1) && p == n / 2 + 1
      invariant n < npts ==> accu == if fetch then Wrap(Shl(stream[n / 2], 16)) else stream[n / 2]
      invariant forall k :: 0 <= k < n ==> dest[k] == w[k]
    {
      UpperHalf(stream[n / 2]);
      var token := accu / 0x1_0000 % 0x1_0000;
      assert token == StreamTokens(stream[..], npts)[n];
      dest[n] := ValueOf(token, maxExp, minimum, shift2);
      accu := Wrap(Shl(accu, 16));
      if fetch {
        accu := stream[p];
        p := p + 1;
      }
      fetch := !fetch;
      n := n + 1;
    }
    assert dest[..npts] == w;
  }

  lemma UpperHalf(w: Word)
    ensures w / 0x1_0000 % 0x1_0000 == w / 0x1_0000
    ensures Wrap(Shl(w, 16)) / 0x1_0000 % 0x1_0000 == w % 0x1_0000
  {
    hide Shl, Pow2;
    Pow2Values();
    ShlIsMul(w, 16);
    var h, l := w / 0x1_0000, w % 0x1_0000;
    DivUnique(w * 0x1_0000, WORD, h, l * 0x1_0000);
    DivUnique(l * 0x1_0000, 0x1_0000, l, 0);
  }

  /** c_float_unpacker: the header is checked, then the block is unpacked. */
  method CFloatUnpacker(dest: array<Float>, header: array<Word>, stream: array<Word>, npts: nat)
    returns (err: int, nbits: int)
    requires header.Length >= 3 && dest.Length >= npts && stream.Length >= npts / 2 + 1
    requires header[0] / 0x100 % 0x100 <= 254
    modifies dest
    ensures nbits == header[0] / 0x1_0000 % 0x10 + 1
    ensures err == 0 <==> header[0] / 0x10_0000 % 0x1000 == 0xEFF && npts == Signed(header[2])
    ensures err != 0 ==> err == -1 && dest[..] == old(dest[..])
    ensures err == 0 ==>
      var ts := StreamTokens(stream[..], npts);
      dest[..npts] == Unpack(Block(header[0] / 0x100 % 0x100, header[0] % 0x100, Signed(header[1]), ts))
  {
    hide FromMantissa, Level, Clipped, Shl;
    nbits := header[0] / 0x1_0000 % 0x10 + 1;
    if header[0] / 0x10_0000 % 0x1000 != 0xEFF { return -1, nbits; }
    if npts != Signed(header[2]) { return -1, nbits; }
    err := FloatUnpacker1(dest, header, stream, npts);
  }

  lemma HeaderFields(nbits: nat, b: Block)
    requires 1 <= nbits <= 16 && b.maxExp <= 254 && b.shift2 <= 25
    ensures var h := HeaderWord(nbits, b);
      h / 0x100 % 0x100 == b.maxExp && h % 0x100 == b.shift2 && h / 0x1_0000 % 0x10 + 1 == nbits
        && h / 0x10_0000 % 0x1000 == 0xEFF
  {
    var h, e, s, n := HeaderWord(nbits, b), b.maxExp, b.shift2, nbits - 1;
    BitField(h, 0, 1, s, 0x100, e + 0x100 * n + 0x1000 * 0xEFF);
    BitField(h, s, 0x100, e, 0x100, n + 0x10 * 0xEFF);
    BitField(h, s + 0x100 * e, 0x1_0000, n, 0x10, 0xEFF);
    BitField(h, s + 0x100 * e + 0x1_0000 * n, 0x10_0000, 0xEFF, 0x1000, 0);
  }

  /** Header and stream are what the packer writes for the field. */
  ghost predicate Packed(v: seq<Float>, nbits: nat, header: seq<Word>, stream: seq<Word>)
    requires v != []
  {
    var b := Pack(v, nbits);
    && |header| >= 3 && header[0] == HeaderWord(nbits, b) && header[1] == Wrap(b.minimum) && header[2] == |v|
    && |stream| >= (|v| + 1) / 2 && forall k :: 0 <= k < (|v| + 1) / 2 ==> stream[k] == StreamWord(b.tokens, k)
  }

  /**
    What the packer writes passes the checks of the unpacker, which finds the exponent, the shift, the minimum, and
    the tokens of the words.
   */
  lemma HeaderAndStream(v: seq<Float>, nbits: nat, header: seq<Word>, stream: seq<Word>)
    requires v != [] && AllFinite(v) && |v| < 0x8000_0000 && 1 <= nbits <= 16 && Packed(v, nbits, header, stream)
    ensures header[0] / 0x10_0000 % 0x1000 == 0xEFF && Signed(header[2]) == |v|
      && header[0] / 0x1_0000 % 0x10 + 1 == nbits
    ensures header[0] / 0x100 % 0x100 <= 254
    ensures var b := Pack(v, nbits);
      Block(header[0] / 0x100 % 0x100, header[0] % 0x100, Signed(header[1]), StreamTokens(stream, |v|))
      == b.(tokens := StreamTokens(StreamWords(b.tokens), |v|))
  {
    hide HeaderWord, StreamWord, Pow2, ShiftFor, Mantissa, Token, Fmin, Fmax;
    var b := Pack(v, nbits);
    BlockBounds(v, nbits);
    HeaderFields(nbits, b);
    BoundRange(Fmin(v), MaxExp(v));
    PackLength(v, nbits);
    SameTokens(stream, StreamWords(b.tokens), |v|);
  }

  lemma SameTokens(s: seq<Word>, t: seq<Word>, n: nat)
    requires |s| >= (n + 1) / 2 && |t| >= (n + 1) / 2 && forall k :: 0 <= k < (n + 1) / 2 ==> s[k] == t[k]
    ensures StreamTokens(s, n) == StreamTokens(t, n)
  {
    forall k | 0 <= k < n ensures StreamToken(s, k) == StreamToken(t, k) { assert s[k / 2] == t[k / 2]; }
  }

  /**
    The words of header and stream, read apart from the packer: the exponent is the largest, the minimum the least
    mantissa, the shift the least that brings the range of the mantissas under the mask, and the token of each value
    names a level that is nearest to its mantissa.
   */
  ghost predicate BestWords(v: seq<Float>, nbits: nat, header: seq<Word>, stream: seq<Word>) {
    && |header| >= 3 && |stream| >= (|v| + 1) / 2
    && var e, lo, s, mask := header[0] / 0x100 % 0x100, Signed(header[1]), header[0] % 0x100, Pow2(nbits) - 1;
    && (forall k :: 0 <= k < |v| ==> v[k].exp <= e) && (exists k :: 0 <= k < |v| && v[k].exp == e)
    && BestShift(Mantissas(v, e), lo, s, mask)
    && forall k :: 0 <= k < |v| ==> Nearest(Mantissa(v[k], e), lo, Pow2(s), StreamToken(stream, k), mask)
  }

  /** lo is the least of the values, and s the least shift that brings all of them, less lo, under the mask. */
  ghost predicate BestShift(xs: seq<int>, lo: int, s: nat, mask: nat) {
    && (forall k :: 0 <= k < |xs| ==> lo <= xs[k] && (xs[k] - lo) / Pow2(s) <= mask)
    && (exists k :: 0 <= k < |xs| && xs[k] == lo)
    && (s > 0 ==> exists k :: 0 <= k < |xs| && (xs[k] - lo) / Pow2(s - 1) > mask)
  }

  lemma PackedBest(v: seq<Float>, nbits: nat, header: seq<Word>, stream: seq<Word>)
    requires AllClear(v) && |v| < 0x8000_0000 && 1 <= nbits <= 16 && Packed(v, nbits, header, stream)
    ensures BestWords(v, nbits, header, stream)
  {
    hide Pack, HeaderWord, StreamWord, Pow2, Mantissa, Token, ShiftFor, M.MinOf, M.MaxOf, MaxExp, Packed, Nearest,
      BestShift;
    var b, e, mask := Pack(v, nbits), MaxExp(v), Pow2(nbits) - 1;
    var xs := Mantissas(v, e);
    HeaderAndStreamCarryTheBlock(v, nbits, header, stream);
    PackedLengths(v, nbits, header, stream);
    PackIsQuantize(v, nbits);
    MaxExpReached(v);
    RangeShifted(xs, b.minimum, b.shift2, mask);
    M.Extremes(xs);
    forall k | 0 <= k < |v|
      ensures Nearest(xs[k], b.minimum, Pow2(b.shift2), StreamToken(stream, k), mask)
    {
      assert StreamTokens(stream, |v|)[k] == b.tokens[k];
      TokenIsNearest(xs[k], b.minimum, b.shift2, mask);
    }
  }

  lemma PackedLengths(v: seq<Float>, nbits: nat, header: seq<Word>, stream: seq<Word>)
    requires v != [] && Packed(v, nbits, header, stream)
    ensures |header| >= 3 && |stream| >= (|v| + 1) / 2
  {
    hide Pack, HeaderWord, StreamWord;
  }

  lemma MaxExpReached(v: seq<Float>)
    requires v != [] && AllFinite(v)
    ensures (forall k :: 0 <= k < |v| ==> v[k].exp <= MaxExp(v)) && exists k :: 0 <= k < |v| && v[k].exp == MaxExp(v)
  {
    hide Fmin, Fmax;
    forall k | 0 <= k < |v| ensures v[k].exp <= MaxExp(v) { MaxExpBounds(v, k); }
    var f := if Fmax(v).exp > Fmin(v).exp then Fmax(v) else Fmin(v);
    var i :| 0 <= i < |v| && v[i] == f;
    assert v[i].exp == MaxExp(v);
  }

  /** The shift brings every mantissa under the mask, and a smaller one does not. */
  lemma RangeShifted(xs: seq<int>, lo: int, s: nat, mask: nat)
    requires xs != [] && lo == M.MinOf(xs) && s == ShiftFor(M.MaxOf(xs) - lo, mask)
    ensures BestShift(xs, lo, s, mask)
  {
    hide Pow2, ShiftFor, M.MinOf, M.MaxOf, Shr;
    var hi := M.MaxOf(xs);
    M.Extremes(xs);
    ShiftForIsLeast(hi - lo, mask);
    forall k | 0 <= k < |xs| ensures (xs[k] - lo) / Pow2(s) <= mask {
      ShrMono(xs[k] - lo, hi - lo, s);
      ShrIsDiv(xs[k] - lo, s);
    }
    var j :| 0 <= j < |xs| && xs[j] == hi;
    if s > 0 { ShrIsDiv(hi - lo, s - 1); }
  }

  /** Header and stream carry the whole block when no zero is taken for a number with a hidden bit. */
  lemma HeaderAndStreamCarryTheBlock(v: seq<Float>, nbits: nat, header: seq<Word>, stream: seq<Word>)
    requires AllClear(v) && |v| < 0x8000_0000 && 1 <= nbits <= 16 && Packed(v, nbits, header, stream)
    ensures Block(header[0] / 0x100 % 0x100, header[0] % 0x100, Signed(header[1]), StreamTokens(stream, |v|))
      == Pack(v, nbits)
    ensures Back(v, nbits) == Unpack(Pack(v, nbits))
  {
    hide Pack, Unpack, HeaderWord, StreamWord, StreamTokens, Pow2, Packed;
    TokensInRange(v, nbits);
    PackLength(v, nbits);
    HeaderAndStream(v, nbits, header, stream);
    BackOfTokens(v, nbits);
    Pow2Mono(nbits, 16);
    Pow2Values();
    StreamRoundTrip(Pack(v, nbits).tokens, StreamWords(Pack(v, nbits).tokens));
  }

  /** One cycle: a field is packed, and unpacked where it stood. */
  method PackAndUnpack(values: array<Float>, npts: nat, nbits: nat, header: array<Word>, stream: array<Word>)
    requires 1 <= npts <= values.Length && npts < 0x8000_0000 && AllFinite(values[..npts]) && 1 <= nbits <= 16
    requires header.Length >= 3 && stream.Length >= npts / 2 + 1 && header != stream
    modifies values, header, stream
    ensures values[..npts] == Back(old(values[..npts]), nbits) && AllFinite(values[..npts])
  {
    hide Pack, Unpack, HeaderWord, StreamWord, StreamTokens, StreamWords, Wrap, Signed;
    ghost var v := values[..npts];
    var err := CFloatPacker(values[..npts], nbits, header, stream);
    HeaderAndStream(v, nbits, header[..], stream[..]);
    BackIsFinite(v, nbits);
    var read;
    err, read := CFloatUnpacker(values, header, stream, npts);
  }

  /** What comes back is finite, whatever the tokens. */
  lemma BackIsFinite(v: seq<Float>, nbits: nat)
    requires v != [] && AllFinite(v)
    ensures AllFinite(Back(v, nbits))
  {
    hide StreamTokens, StreamWords, Normalized, Regenerated, Mantissa, Token, Key;
    var b := Pack(v, nbits);
    forall t: int | 1 <= b.maxExp ensures Finite(FromMantissa(Regenerated(t, b.minimum, b.shift2), b.maxExp)) {
      RegeneratedInClip(t, b.minimum, b.shift2);
      var a := Regenerated(t, b.minimum, b.shift2);
      NormalizedFacts(a < 0, if a < 0 then -a else a, b.maxExp);
    }
  }

  lemma RegeneratedInClip(t: int, lo: int, s: nat)
    ensures -CLIP <= Regenerated(t, lo, s) <= CLIP
  {
    hide Level;
  }

  /** What a number of cycles leaves of a field. */
  function Cycles(v: seq<Float>, nbits: nat, n: nat): (w: seq<Float>)
    requires v != []
    ensures |w| == |v|
  {
    if n == 0 then v else Back(Cycles(v, nbits, n - 1), nbits)
  }

  /** After the first cycle nothing changes any more. */
  lemma {:induction false} CyclesStable(v: seq<Float>, nbits: nat, n: nat)
    requires v != [] && Stable(v, nbits) && n >= 1
    ensures Cycles(v, nbits, n) == Back(v, nbits)
  {
    hide Back;
    if n > 1 { CyclesStable(v, nbits, n - 1); }
  }

  /**
    A field packed and unpacked once, and then as often as one likes: the further cycles change nothing
    when the largest exponent at the start is 0 or at least 24.
   */
  method RepackingCycles(values: array<Float>, npts: nat, nbits: nat, header: array<Word>, stream: array<Word>,
      cycles: nat)
    requires 1 <= npts <= values.Length && npts < 0x8000_0000 && AllFinite(values[..npts]) && 1 <= nbits <= 16
    requires header.Length >= 3 && stream.Length >= npts / 2 + 1 && header != stream
    modifies values, header, stream
    ensures values[..npts] == Cycles(old(values[..npts]), nbits, cycles + 1)
    ensures old(MaxExp(values[..npts])) == 0 || old(MaxExp(values[..npts])) >= 24
      ==> values[..npts] == Back(old(values[..npts]), nbits)
  {
    hide MaxExp, Back;
    ghost var v := values[..npts];
    PackAndUnpack(values, npts, nbits, header, stream);
    for j := 0 to cycles
      invariant values[..npts] == Cycles(v, nbits, j + 1) && AllFinite(values[..npts])
    {
      PackAndUnpack(values, npts, nbits, header, stream);
    }
    if MaxExp(v) == 0 || MaxExp(v) >= 24 {
      RepackStable(v, nbits);
      CyclesStable(v, nbits, cycles + 1);
    }
  }
}
