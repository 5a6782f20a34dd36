/**
  Machine words as integers, and the bits of a number as a sequence, most significant first.
  `Bits(v, n)` is the n-bit two's complement image of `v`, so it depends on the low n bits only.
  Shifts are defined one bit at a time, which keeps the proofs linear; `ShlIsMul`, `ShrIsDiv` and
  `LowIsMod` give the closed forms.
 */
module Words {
  const WORD: int := 0x1_0000_0000

  type Word = w: int | 0 <= w < 0x1_0000_0000

  function Pow2(n: nat): (p: nat)
    ensures p > 0
  {
    if n == 0 then 1 else 2 * Pow2(n - 1)
  }

  function Bits(v: int, n: nat): (s: seq<bool>)
    ensures |s| == n
    decreases n, v  // v is listed so that a literal width is not unfolded
  {
    if n == 0 then [] else Bits(v / 2, n - 1) + [v % 2 == 1]
  }

  /** v << n without truncation. */
  function Shl(v: int, n: nat): int
    decreases n, v
  {
    if n == 0 then v else 2 * Shl(v, n - 1)
  }

  /** v >> n; arithmetic, hence also the logical shift of an unsigned value. */
  function Shr(v: int, n: nat): int
    decreases n, v
  {
    if n == 0 then v else Shr(v / 2, n - 1)
  }

  /** The low n bits of v. */
  function Low(v: int, n: nat): (r: nat)
    decreases n, v
  {
    if n == 0 then 0 else 2 * Low(v / 2, n - 1) + v % 2
  }

  /** The number a bit sequence denotes. */
  function Val(s: seq<bool>): (r: nat)
  {
    if s == [] then 0 else 2 * Val(s[..|s| - 1]) + (if s[|s| - 1] then 1 else 0)
  }

  /** Truncation to an unsigned 32-bit word. */
  function Wrap(v: int): Word {
    v % 0x1_0000_0000
  }

  /** Reading a word as a signed 32-bit integer. */
  function Signed(w: int): int {
    if Wrap(w) >= 0x8000_0000 then Wrap(w) - WORD else Wrap(w)
  }

  function Or(a: nat, b: nat): (r: nat) {
    if a == 0 && b == 0 then 0
    else 2 * Or(a / 2, b / 2) + (if a % 2 == 1 || b % 2 == 1 then 1 else 0)
  }

  function And(a: nat, b: nat): (r: nat) {
    if a == 0 || b == 0 then 0
    else 2 * And(a / 2, b / 2) + (if a % 2 == 1 && b % 2 == 1 then 1 else 0)
  }

  function Xor(a: nat, b: nat): (r: nat) {
    if a == 0 && b == 0 then 0
    else 2 * Xor(a / 2, b / 2) + (if a % 2 != b % 2 then 1 else 0)
  }

  lemma MulAtLeast(p: int, k: int)
    requires p > 0 && k >= 1
    ensures p * k >= p
  {
    assert p * (k - 1) >= 0;
  }

  lemma DivUnique(v: int, p: int, q: int, r: int)
    requires p > 0 && 0 <= r < p && v == p * q + r
    ensures v / p == q && v % p == r
  {
    var q', r' := v / p, v % p;
    assert p * (q - q') == r' - r by { assert v == p * q' + r'; }
    if q > q' {
      MulAtLeast(p, q - q');
    } else if q < q' {
      assert p * (q' - q) == r - r';
      MulAtLeast(p, q' - q);
    }
  }

  /** Dividing a half by p is dividing the whole by 2 * p. */
  lemma HalfDivided(v: int, p: nat)
    requires p > 0
    ensures v / (2 * p) == v / 2 / p && v % (2 * p) == 2 * (v / 2 % p) + v % 2
  {
    var q, r := v / 2 / p, v / 2 % p;
    assert v / 2 == p * q + r;
    Doubled(v, v / 2, v % 2, p, q, r);
    DivUnique(v, 2 * p, q, 2 * r + v % 2);
  }

  lemma Doubled(v: int, half: int, bit: int, p: int, q: int, r: int)
    requires v == 2 * half + bit && half == p * q + r
    ensures v == 2 * p * q + (2 * r + bit)
  {
    assert 2 * (p * q) == 2 * p * q;
  }

  lemma {:induction false} ShlIsMul(v: int, n: nat)
    ensures Shl(v, n) == v * Pow2(n)
  {
    if n > 0 {
      ShlIsMul(v, n - 1);
      assert 2 * (v * Pow2(n - 1)) == v * (2 * Pow2(n - 1));
    }
  }

  lemma {:induction false} ShrIsDiv(v: int, n: nat)
    ensures Shr(v, n) == v / Pow2(n)
    decreases n
  {
    if n > 0 {
      ShrIsDiv(v / 2, n - 1);
      HalfDivided(v, Pow2(n - 1));
    }
  }

  lemma {:induction false} LowIsMod(v: int, n: nat)
    ensures Low(v, n) == v % Pow2(n)
    decreases n
  {
    if n > 0 {
      LowIsMod(v / 2, n - 1);
      HalfDivided(v, Pow2(n - 1));
    }
  }

  lemma Pow2Values()
    ensures Pow2(4) == 16 && Pow2(8) == 256 && Pow2(16) == 0x1_0000 && Pow2(32) == 0x1_0000_0000
  {
    assert Pow2(8) == 256;
    assert Pow2(16) == 0x1_0000;
    assert Pow2(24) == 0x100_0000;
  }

  lemma FitsWord(t: nat, w: nat)
    requires t < Pow2(w) && w <= 32
    ensures t < WORD
  {
    Pow2Mono(w, 32);
    Pow2Values();
  }

  lemma AndAllOnes(t: nat)
    requires t < WORD
    ensures And(t, WORD - 1) == t
  {
    Pow2Values();
    AndOnes(t, 32);
    LowId(t, 32);
  }

  lemma {:induction false} Pow2Mono(a: nat, b: nat)
    requires a <= b
    ensures Pow2(a) <= Pow2(b)
  {
    if a < b { Pow2Mono(a, b - 1); }
  }

  lemma {:induction false} LowBound(v: int, n: nat)
    ensures Low(v, n) < Pow2(n)
    decreases n
  {
    if n > 0 { LowBound(v / 2, n - 1); }
  }

  lemma {:induction false} LowId(v: int, n: nat)
    requires 0 <= v < Pow2(n)
    ensures Low(v, n) == v
    decreases n
  {
    if n > 0 { LowId(v / 2, n - 1); }
  }

  /** A prefix of the bits and the rest: the core of every packing argument. */
  lemma {:induction false} BitsSplit(v: int, a: nat, b: nat)
    ensures Bits(v, a + b) == Bits(Shr(v, b), a) + Bits(v, b)
    decreases b
  {
    if b > 0 {
      BitsSplit(v / 2, a, b - 1);
      assert Bits(v / 2, a + (b - 1)) + [v % 2 == 1]
          == Bits(Shr(v, b), a) + (Bits(v / 2, b - 1) + [v % 2 == 1]);
    }
  }

  lemma {:induction false} BitsLow(v: int, m: nat, n: nat)
    requires n <= m
    ensures Bits(Low(v, m), n) == Bits(v, n)
    decreases n
  {
    if n > 0 {
      assert Low(v, m) / 2 == Low(v / 2, m - 1) && Low(v, m) % 2 == v % 2;
      BitsLow(v / 2, m - 1, n - 1);
    }
  }

  lemma BitsWrap(v: int, n: nat)
    requires n <= 32
    ensures Bits(Wrap(v), n) == Bits(v, n)
  {
    LowIsMod(v, 32);
    Pow2Values();
    BitsLow(v, 32, n);
  }

  /** Bits of a number built from a shifted part and a low part. */
  lemma {:induction false} BitsJoin(x: int, t: int, p: nat, w: nat)
    requires 0 <= t < Pow2(w)
    ensures Bits(Shl(x, w) + t, p + w) == Bits(x, p) + Bits(t, w)
    decreases w
  {
    if w > 0 {
      var y := Shl(x, w) + t;
      assert y / 2 == Shl(x, w - 1) + t / 2 && y % 2 == t % 2;
      BitsJoin(x, t / 2, p, w - 1);
      assert Bits(y / 2, p + (w - 1)) + [y % 2 == 1] == Bits(x, p) + (Bits(t / 2, w - 1) + [t % 2 == 1]);
    }
  }

  lemma {:induction false} ValBits(v: int, n: nat)
    ensures Val(Bits(v, n)) == Low(v, n)
    decreases n
  {
    if n > 0 {
      var s := Bits(v, n);
      assert s[..n - 1] == Bits(v / 2, n - 1);
      ValBits(v / 2, n - 1);
    }
  }

  lemma {:induction false} BitsVal(s: seq<bool>)
    ensures Bits(Val(s), |s|) == s
    ensures Val(s) < Pow2(|s|)
  {
    if s != [] {
      var t := s[..|s| - 1];
      BitsVal(t);
      assert Val(s) / 2 == Val(t);
    }
  }

  lemma {:induction false} ShlBound(v: int, n: nat, k: nat)
    requires 0 <= v < Pow2(k)
    ensures 0 <= Shl(v, n) < Pow2(n + k)
  {
    if n > 0 { ShlBound(v, n - 1, k); }
  }

  lemma {:induction false} ShrBound(v: int, n: nat, k: nat)
    requires 0 <= v < Pow2(n + k)
    ensures 0 <= Shr(v, n) < Pow2(k)
    decreases n
  {
    if n > 0 { ShrBound(v / 2, n - 1, k); }
  }

  lemma {:induction false} OrBound(a: nat, b: nat, n: nat)
    requires a < Pow2(n) && b < Pow2(n)
    ensures Or(a, b) < Pow2(n)
    decreases n
  {
    if n > 0 { OrBound(a / 2, b / 2, n - 1); }
  }

  lemma {:induction false} OrDisjoint(x: nat, t: nat, w: nat)
    requires t < Pow2(w)
    ensures Shl(x, w) >= 0 && Or(Shl(x, w), t) == Shl(x, w) + t
    decreases w
  {
    if w == 0 {
      OrZero(x);
    } else {
      OrDisjoint(x, t / 2, w - 1);
      assert Shl(x, w) / 2 == Shl(x, w - 1) && Shl(x, w) % 2 == 0;
    }
  }

  lemma {:induction false} OrZero(x: nat)
    ensures Or(x, 0) == x
  {
    if x > 0 { OrZero(x / 2); }
  }

  lemma {:induction false} AndOnes(x: nat, n: nat)
    ensures And(x, Pow2(n) - 1) == Low(x, n)
    decreases n
  {
    if n > 0 {
      assert (Pow2(n) - 1) / 2 == Pow2(n - 1) - 1;
      AndOnes(x / 2, n - 1);
      if x == 0 { LowId(0, n); }
    }
  }

  lemma {:induction false} ShrShr(v: int, a: nat, b: nat)
    ensures Shr(Shr(v, a), b) == Shr(v, a + b)
    decreases a
  {
    if a > 0 { ShrShr(v / 2, a - 1, b); }
  }

  lemma {:induction false} ShlShl(v: int, a: nat, b: nat)
    ensures Shl(Shl(v, a), b) == Shl(v, a + b)
    decreases b
  {
    if b > 0 { ShlShl(v, a, b - 1); }
  }

  lemma {:induction false} ShrShl(v: int, a: nat, b: nat)
    ensures Shr(Shl(v, a + b), b) == Shl(v, a)
    decreases b
  {
    if b > 0 {
      assert Shl(v, a + b) / 2 == Shl(v, a + (b - 1));
      ShrShl(v, a, b - 1);
    }
  }

  lemma {:induction false} LowShl(x: int, m: nat, w: nat)
    ensures Low(Shl(x, w), m + w) == Shl(Low(x, m), w)
    decreases w
  {
    if w > 0 {
      assert Shl(x, w) / 2 == Shl(x, w - 1) && Shl(x, w) % 2 == 0;
      LowShl(x, m, w - 1);
    }
  }

  /** What is left of x << w in a 32-bit word. */
  lemma WrapShl(x: int, w: nat)
    requires w <= 32
    ensures Wrap(Shl(x, w)) == Shl(Low(x, 32 - w), w)
  {
    LowShl(x, 32 - w, w);
    LowIsMod(Shl(x, w), 32);
    Pow2Values();
  }

  lemma {:induction false} LowLow(v: int, m: nat, n: nat)
    requires n <= m
    ensures Low(Low(v, m), n) == Low(v, n)
    decreases n
  {
    if n > 0 {
      assert Low(v, m) / 2 == Low(v / 2, m - 1) && Low(v, m) % 2 == v % 2;
      LowLow(v / 2, m - 1, n - 1);
    }
  }

  lemma LowWrap(v: int, n: nat)
    requires n <= 32
    ensures Low(Wrap(v), n) == Low(v, n)
  {
    LowIsMod(v, 32);
    Pow2Values();
    LowLow(v, 32, n);
  }

  /** The number of bits of n. */
  function BitLength(n: nat): (b: nat)
  {
    if n == 0 then 0 else 1 + BitLength(n / 2)
  }

  lemma {:induction false} BitLengthFits(n: nat, b: nat)
    ensures n < Pow2(b) <==> BitLength(n) <= b
    decreases b
  {
    if b > 0 && n > 0 { BitLengthFits(n / 2, b - 1); }
  }

  lemma {:induction false} BitLengthShr(n: nat, k: nat)
    requires n >= Pow2(k)
    ensures Shr(n, k) >= 0 && BitLength(n) == k + BitLength(Shr(n, k))
    decreases k
  {
    if k > 0 { BitLengthShr(n / 2, k - 1); }
  }

  /** The fastlog table, (int)(1 + log2(i + 0.5)) for i < 256, holds the bit lengths of one byte. */
  function Fastlog(i: nat): nat {
    BitLength(i)
  }

  /** The two-level lookup for 16-bit numbers. */
  function NbitsNeeded(v: int): nat {
    if v <= 0 then 0 else if v < 256 then Fastlog(v) else 8 + Fastlog(v / 256)
  }

  lemma NbitsNeededIsLength(v: nat)
    ensures NbitsNeeded(v) == BitLength(v)
  {
    Pow2Values();
    if v >= 256 {
      BitLengthShr(v, 8);
      ShrIsDiv(v, 8);
    }
  }

  lemma {:induction false} ShlAdd(a: int, b: int, n: nat)
    ensures Shl(a + b, n) == Shl(a, n) + Shl(b, n)
  {
    if n > 0 { ShlAdd(a, b, n - 1); }
  }

  lemma {:induction false} ShlPow2(w: nat, n: nat)
    ensures Shl(Pow2(w), n) == Pow2(w + n)
  {
    if n > 0 { ShlPow2(w, n - 1); }
  }

  lemma {:induction false} LowNegative(v: int, n: nat)
    requires 0 <= v + Pow2(n) < Pow2(n)
    ensures Low(v, n) == v + Pow2(n)
    decreases n
  {
    if n > 0 { LowNegative(v / 2, n - 1); }
  }

  /** (x << (32 - w)) >> (32 - w) on a signed 32-bit integer. */
  function SignExtend(token: int, w: nat): int
    requires 1 <= w <= 32
  {
    Shr(Signed(Shl(token, 32 - w)), 32 - w)
  }

  lemma SignedWrapped(s: int, t: int)
    requires -0x8000_0000 <= s < 0x8000_0000 && (t == s || t == s + WORD)
    ensures Signed(t) == s
  {
  }

  lemma ShiftedToken(d: int, w: nat)
    requires 1 <= w <= 32 && 0 <= d + Pow2(w - 1) < 2 * Pow2(w - 1)
    ensures Shl(Low(d, w), 32 - w) == Shl(d, 32 - w) + if d < 0 then WORD else 0
  {
    hide Low, Shl, Pow2;
    Pow2Double(w);
    if d >= 0 {
      LowId(d, w);
    } else {
      LowNegative(d, w);
      ShlAdd(d, Pow2(w), 32 - w);
      ShlPow2(w, 32 - w);
      Pow2Values();
    }
  }

  lemma ShiftedRange(d: int, w: nat)
    requires 1 <= w <= 32 && 0 <= d + Pow2(w - 1) < 2 * Pow2(w - 1)
    ensures -0x8000_0000 <= Shl(d, 32 - w) < 0x8000_0000
  {
    hide Shl, Pow2;
    var h := Pow2(w - 1);
    Pow2Double(w);
    ShlAdd(d, h, 32 - w);
    ShlPow2(w - 1, 32 - w);
    ShlBound(d + h, 32 - w, w);
    Pow2Values();
    Pow2Double(32);
  }

  /** A w-bit two's complement field is widened exactly. */
  lemma SignExtendExact(d: int, w: nat)
    requires 1 <= w <= 32 && 0 <= d + Pow2(w - 1) < 2 * Pow2(w - 1)
    ensures SignExtend(Low(d, w), w) == d
  {
    hide Low, Shl, Shr, Pow2, Signed;
    ShiftedToken(d, w);
    ShiftedRange(d, w);
    SignedWrapped(Shl(d, 32 - w), Shl(Low(d, w), 32 - w));
    ShrShl(d, 0, 32 - w);
    ShlNone(d);
  }

  lemma ShlNone(v: int)
    ensures Shl(v, 0) == v
  {
  }

  lemma Pow2Double(n: nat)
    requires n > 0
    ensures Pow2(n) == 2 * Pow2(n - 1)
  {
  }

  /** The field f of modulus m that stands p above the low part of w. */
  lemma BitField(w: nat, low: nat, p: nat, f: nat, m: nat, high: nat)
    requires low < p && f < m && w == low + p * (f + m * high)
    ensures w / p % m == f
  {
    DivUnique(w, p, f + m * high, low);
    DivUnique(f + m * high, m, high, f);
  }

  // ----- single bits -----

  lemma {:induction false} AndBit(a: nat, b: nat, n: nat)
    ensures Shr(And(a, b), n) % 2 == 1 <==> Shr(a, n) % 2 == 1 && Shr(b, n) % 2 == 1
    decreases n
  {
    if n > 0 { AndBit(a / 2, b / 2, n - 1); }
    if a == 0 || b == 0 { ShrOfZero(n); }
  }

  lemma {:induction false} OrBit(a: nat, b: nat, n: nat)
    ensures Shr(Or(a, b), n) % 2 == 1 <==> Shr(a, n) % 2 == 1 || Shr(b, n) % 2 == 1
    decreases n
  {
    if n > 0 { OrBit(a / 2, b / 2, n - 1); }
    if a == 0 && b == 0 { ShrOfZero(n); }
  }

  lemma {:induction false} XorBit(a: nat, b: nat, n: nat)
    ensures Shr(Xor(a, b), n) % 2 == 1 <==> Shr(a, n) % 2 != Shr(b, n) % 2
    decreases n
  {
    if n > 0 { XorBit(a / 2, b / 2, n - 1); }
    if a == 0 && b == 0 { ShrOfZero(n); }
  }

  lemma {:induction false} ShrOfZero(n: nat)
    ensures Shr(0, n) == 0
    decreases n
  {
    if n > 0 { ShrOfZero(n - 1); }
  }

  /** A number has a bit unless it is zero. */
  lemma {:induction false} SomeBit(a: nat, n: nat) returns (b: nat)
    requires 0 < a < Pow2(n)
    ensures b < n && Shr(a, b) % 2 == 1
    decreases n
  {
    if a % 2 == 1 {
      b := 0;
    } else {
      b := SomeBit(a / 2, n - 1);
      b := b + 1;
    }
  }

  /** The bits under the mask are the same in both words exactly when the masked difference is zero. */
  lemma MaskedBits(a: Word, t: Word, m: Word)
    ensures And(Xor(a, t), m) == 0
      <==> forall b: nat :: b < 32 && Shr(m, b) % 2 == 1 ==> Shr(a, b) % 2 == Shr(t, b) % 2
  {
    hide And, Xor, Shr, Pow2;
    var x := And(Xor(a, t), m);
    forall b: nat
      ensures Shr(x, b) % 2 == 1 <==> Shr(a, b) % 2 != Shr(t, b) % 2 && Shr(m, b) % 2 == 1
    {
      XorBit(a, t, b);
      AndBit(Xor(a, t), m, b);
    }
    if x == 0 {
      forall b: nat | b < 32 && Shr(m, b) % 2 == 1 ensures Shr(a, b) % 2 == Shr(t, b) % 2 {
        ShrOfZero(b);
        assert Shr(x, b) % 2 == 0;
      }
    } else {
      AndAtMost(Xor(a, t), m);
      Pow2Values();
      var b := SomeBit(x, 32);
      assert Shr(m, b) % 2 == 1 && Shr(a, b) % 2 != Shr(t, b) % 2;
    }
  }

  lemma {:induction false} AndAtMost(a: nat, b: nat)
    ensures And(a, b) <= b
  {
    if a > 0 && b > 0 { AndAtMost(a / 2, b / 2); }
  }
}
