/** `__div64_const32`: division of a 64-bit number by a 32-bit constant
    through multiplication by a scaled reciprocal. */
module Div64 {
  import opened Words
  import opened Xprod

  // ----- nonlinear steps

  lemma {:induction false} Cancel(a: int, b: int, k: int)
    requires k > 0
    ensures a * k < b * k <==> a < b
  {
    assert a < b ==> a * k < b * k;
    assert a >= b ==> a * k >= b * k;
  }

  lemma {:induction false} EqualRatios(a: nat, b: nat, c: nat, d: nat)
    requires b > 0 && d > 0 && a * d == c * b
    ensures a / b == c / d
  {
    var q := c / d;
    QuotientBracket(c, d);
    assert (q * b) * d == (q * d) * b;
    assert ((q + 1) * b) * d == ((q + 1) * d) * b;
    Cancel(c, (q + 1) * d, b);
    Cancel(c, q * d, b);
    Cancel(a, (q + 1) * b, d);
    Cancel(a, q * b, d);
    QuotientUnique(a, b, q);
  }

  // ----- the error term of the reciprocal

  /** `m` is the scaled reciprocal of `b` rounded up, with error `e`. */
  ghost predicate RoundedUp(m: nat, b: nat, scale: nat, e: nat) {
    m * b == scale + e && e < b
  }

  /** `m` is the scaled reciprocal of `b` rounded down, with error `d`. */
  ghost predicate RoundedDown(m: nat, b: nat, scale: nat, d: nat) {
    m * b + d == scale && d < b
  }

  /** At `n = q*b + s` the rounded-up reciprocal is right exactly when the error it has
      accumulated does not reach the next multiple of `b`. */
  lemma {:induction false} UpRightWhen(m: nat, b: nat, scale: nat, e: nat, n: nat)
    requires b > 0 && scale > 0 && RoundedUp(m, b, scale, e)
    ensures (m * n) / scale == n / b <==> n * e < (b - n % b) * scale
  {
    UpIdentity(m, b, scale, e, n);
    NextMultiple(n, b, scale);
    var q := n / b;
    Cancel(m * n, q * scale, b);
    Cancel(m * n, (q + 1) * scale, b);
    QuotientIff(m * n, scale, q);
  }

  lemma {:induction false} UpIdentity(m: nat, b: nat, scale: nat, e: nat, n: nat)
    requires RoundedUp(m, b, scale, e)
    ensures (m * n) * b == n * scale + n * e && n * e >= 0
  {
    Rearrange(m, n, b);
    Distribute(scale, e, n);
  }

  lemma {:induction false} NextMultiple(n: nat, b: nat, scale: nat)
    requires b > 0
    ensures ((n / b) * scale) * b <= n * scale
    ensures n * scale + (b - n % b) * scale == ((n / b + 1) * scale) * b
  {
    var q, s := n / b, n % b;
    QuotientBracket(n, b);
    Rearrange(q, b, scale);
    MulMono(q * b, n, scale);
    Distribute(q, 1, b);
    Distribute(n, b - s, scale);
    Rearrange(q + 1, b, scale);
  }

  /** With bias: `(m*n + m) / scale` is right when `(n + 1) * d` stays within one unit
      for every remainder already passed. */
  lemma {:induction false} DownRight(m: nat, b: nat, scale: nat, d: nat, n: nat)
    requires b > 0 && scale > 0 && RoundedDown(m, b, scale, d) && 0 < d
    requires (n + 1) * d <= scale
    ensures (m * n + m) / scale == n / b
  {
    var q, s := n / b, n % b;
    var v := m * n + m;
    assert v == m * (n + 1);
    Rearrange(m, n + 1, b);
    Distribute(scale, d, n + 1);
    assert v * b == scale * (n + 1) - d * (n + 1);
    QuotientBracket(n, b);
    Distribute(q * b, s + 1, scale);
    Rearrange(q, b, scale);
    MulMono(1, s + 1, scale);
    assert (q * scale) * b <= v * b;
    Cancel(v, q * scale, b);
    MulMono(n + 1, (q + 1) * b, scale);
    Rearrange(q + 1, b, scale);
    MulMono(1, n + 1, d);
    Cancel(v, (q + 1) * scale, b);
    QuotientUnique(v, scale, q);
  }

  /** The dividend the code tests: one less than the largest multiple of `b`. */
  function Probe(b: nat): (x: nat)
    requires 0 < b < H
    ensures x < W
  {
    assert (W - 1) / b * b >= 1 by { QuotientBracket(W - 1, b); }
    (W - 1) / b * b - 1
  }

  lemma {:induction false} ProbeIsLastOfItsBlock(b: nat)
    requires 0 < b < H
    ensures Probe(b) % b == b - 1 && Probe(b) / b == (W - 1) / b - 1
    ensures Probe(b) + 1 + (W - 1) % b == W - 1
  {
    var k := (W - 1) / b;
    QuotientBracket(W - 1, b);
    assert k >= 1;
    assert k * b == (k - 1) * b + b;
    MultipleMod(k - 1, b, b - 1);
  }

  lemma {:induction false} AfterProbe(b: nat, n: nat)
    requires 0 < b < H && Probe(b) < n < W
    ensures n == Probe(b) + (n % b + 1) && n % b <= (W - 1) % b
  {
    ProbeIsLastOfItsBlock(b);
    var k := (W - 1) / b;
    QuotientBracket(W - 1, b);
    MultipleMod(k, b, n - Probe(b) - 1);
  }

  /** The single test decides: if the rounded-up reciprocal is right at the probe it is
      right for every 64-bit dividend. */
  lemma {:induction false} ProbeDecidesUp(m: nat, b: nat, p: nat, e: nat, n: nat)
    requires 0 < b < H && 0 < p && RoundedUp(m, b, p * W, e)
    requires (W - 1) % b != b - 1
    requires (m * Probe(b)) / (p * W) == Probe(b) / b
    requires n < W
    ensures (m * n) / (p * W) == n / b
  {
    var scale, x, s := p * W, Probe(b), n % b;
    assert scale >= W;
    ProbeIsLastOfItsBlock(b);
    UpRightWhen(m, b, scale, e, x);
    assert x * e < scale;
    if n <= x {
      MulMono(n, x, e);
      MulMono(1, b - s, scale);
    } else {
      AfterProbe(b, n);
      Distribute(x, s + 1, e);
      HalfProductBound(s + 1, e, b, b);
      HalfProductBound(b, b, H, H);
      MulMono(2, b - s, scale);
    }
    UpRightWhen(m, b, scale, e, n);
  }

  /** ... and if it is wrong there, the rounded-down reciprocal with bias is right for
      every 64-bit dividend. */
  lemma {:induction false} ProbeDecidesDown(m: nat, down: nat, b: nat, p: nat, e: nat, n: nat)
    requires 0 < b < H && p < b < 2 * p && RoundedUp(m, b, p * W, e)
    requires RoundedDown(down, b, p * W, b - e) || (e == 0 && RoundedDown(down, b, p * W, 0))
    requires (m * Probe(b)) / (p * W) != Probe(b) / b
    requires n < W
    ensures (down * n + down) / (p * W) == n / b
  {
    var scale, x := p * W, Probe(b);
    ProbeIsLastOfItsBlock(b);
    UpRightWhen(m, b, scale, e, x);
    assert x * e >= p * W;
    assert e > p by {
      if e <= p { HalfProductBound(x, e, W - 1, p); }
    }
    var d := b - e;
    HalfProductBound(n + 1, d, W, p);
    DownRight(down, b, scale, d, n);
  }

  // ----- computing the reciprocal without a 128-bit division

  /** The reciprocal of lines 82-84, `((p << 64) + b - 1) / b`, and that of lines 115-117,
      `(p << 64) / b`, before truncation to 64 bits. */
  function UpReciprocal(b: nat, p: nat): nat
    requires b > 0
  {
    Quot(W - 1, b) * p + Quot(((W - 1) % b + 1) * p + b - 1, b)
  }

  function DownReciprocal(b: nat, p: nat): nat
    requires b > 0
  {
    Quot(W - 1, b) * p + Quot(((W - 1) % b + 1) * p, b)
  }

  lemma {:induction false} RegroupReciprocal(q: int, p: int, u: int, b: int, r: int)
    ensures (q * p + u) * b == p * (q * b + r) + (u * b - r * p)
  {
    Distribute(q * p, u, b);
    Rearrange(q, p, b);
    Distribute(q * b, r, p);
  }

  lemma {:induction false} UpFormula(b: nat, p: nat) returns (e: nat)
    requires 0 < b
    ensures RoundedUp(UpReciprocal(b, p), b, p * W, e)
  {
    var q, r := (W - 1) / b, (W - 1) % b + 1;
    QuotientBracket(W - 1, b);
    var u := (r * p + b - 1) / b;
    QuotientBracket(r * p + b - 1, b);
    Distribute(u, 1, b);
    e := u * b - r * p;
    RegroupReciprocal(q, p, u, b, r);
  }

  lemma {:induction false} DownFormula(b: nat, p: nat) returns (d: nat)
    requires 0 < b
    ensures RoundedDown(DownReciprocal(b, p), b, p * W, d)
  {
    var q, r := (W - 1) / b, (W - 1) % b + 1;
    QuotientBracket(W - 1, b);
    var u := (r * p) / b;
    QuotientBracket(r * p, b);
    d := (r * p) % b;
    RegroupReciprocal(q, p, u, b, r);
  }

  /** The two errors add up to `b` unless both vanish. */
  lemma {:induction false} ErrorsComplement(m: nat, down: nat, b: nat, scale: nat, e: nat, d: nat)
    requires RoundedUp(m, b, scale, e) && RoundedDown(down, b, scale, d)
    ensures d + e == b || (d == 0 && e == 0)
  {
    var k := m - down;
    Distribute(m, down, b);
    assert k * b == d + e;
    if k >= 2 { MulMono(2, k, b); }
    if k <= -1 { MulMono(k, -1, b); }
  }

  // ----- divisors of powers of two

  lemma {:induction false} FactorOfPow2(b: nat, m: nat, k: nat)
    requires b * m == Pow2(k)
    ensures b > 0 && b == Pow2(Ilog2(b))
    decreases k, b
  {
    if b >= 2 {
      HalvedFactor(b, m, k);
      if b % 2 == 0 { FactorOfPow2(b / 2, m, k - 1); } else { FactorOfPow2(b, m / 2, k - 1); }
    }
  }

  lemma {:induction false} HalvedFactor(b: nat, m: nat, k: nat)
    requires b >= 2 && b * m == Pow2(k)
    ensures k > 0
    ensures b % 2 == 0 ==> (b / 2) * m == Pow2(k - 1)
    ensures b % 2 == 1 ==> b * (m / 2) == Pow2(k - 1)
  {
    TwiceAtLeast(b, m);
    assert k > 0;
    if b % 2 == 0 {
      HalfTimes(b, m);
    } else {
      OddTimesOdd(b, m);
      HalfTimes(m, b);
      Commute(b, m);
      Commute(b, m / 2);
    }
  }

  lemma {:induction false} TwiceAtLeast(b: nat, m: nat)
    requires b >= 2 && b * m >= 1
    ensures b * m >= 2
  {
    Commute(b, m);
    if m > 0 { MulMono(1, m, b); }
  }

  lemma {:induction false} Commute(x: int, y: int)
    ensures x * y == y * x
  {
  }

  lemma {:induction false} HalfTimes(x: nat, y: nat)
    requires x % 2 == 0
    ensures 2 * ((x / 2) * y) == x * y
  {
    Rearrange(2, x / 2, y);
  }

  lemma {:induction false} OddTimesOdd(b: nat, m: nat)
    requires b % 2 == 1
    ensures (b * m) % 2 == m % 2
  {
    assert b * m == 2 * ((b / 2) * m) + m;
  }

  lemma {:induction false} FfsPow2(k: nat)
    ensures Ffs(Pow2(k)) == k
  {
    if k > 0 { FfsPow2(k - 1); }
  }

  lemma {:induction false} MultipleOfPow2(m: nat, j: nat) returns (c: nat)
    requires m > 0 && j <= Ffs(m)
    ensures m == c * Pow2(j) && m / Pow2(j) == c
  {
    var o := LowBitDivides(m);
    var u, v := Pow2(Ffs(m) - j), Pow2(j);
    Pow2Add(Ffs(m) - j, j);
    c := o * u;
    Rearrange(o, u, v);
    assert m == c * v;
    MultipleMod(c, v, 0);
  }

  /** Trailing zeros of the reciprocal never exceed the exponent of the scale. */
  lemma {:induction false} TrailingZerosBounded(m: nat, b: nat, l: nat, e: nat)
    requires m > 0 && Pow2(l) < b < 2 * Pow2(l) && RoundedUp(m, b, Pow2(l) * W, e)
    ensures Ffs(m) <= l
  {
    if Ffs(m) > l {
      var c := MultipleOfPow2(m, l + 1);
      var t := Pow2(l + 1);
      Pow2Values();
      Rearrange(c, t, b);
      Distribute(c * b, Pow2(63), t);
      var z := c * b - Pow2(63);
      assert z * t == e;
      if z >= 1 { MulMono(1, z, t); }
      if z <= -1 { MulMono(z, -1, t); }
      assert e == 0;
      Pow2Add(l, 64);
      FactorOfPow2(b, m, l + 64);
      Ilog2Unique(b, l);
    }
  }

  lemma {:induction false} Ilog2Unique(b: nat, l: nat)
    requires Pow2(l) <= b < 2 * Pow2(l)
    ensures Ilog2(b) == l
  {
    Ilog2Brackets(b);
    if Ilog2(b) < l { Pow2Mono(Ilog2(b), l); }
    if l < Ilog2(b) { Pow2Mono(l, Ilog2(b)); }
  }

  // ----- the special case: the odd part of `b` divides 2^64 - 1

  lemma {:induction false} OddPartCase(n: nat, low: nat, c: nat, m: nat)
    requires low > 0 && c > 0 && m * c == W - 1 && n < W
    ensures c * low > 0 && (m * (n / low) + m) / W == n / (c * low)
  {
    var u := n / low;
    var q, s := u / c, u % c;
    var v := m * u + m;
    QuotientBracket(u, c);
    assert u <= n by { QuotientBracket(n, low); MulMono(1, low, u); }
    assert v == m * (u + 1);
    Rearrange(m, u + 1, c);
    assert v * c == (W - 1) * (u + 1);
    Rearrange(q, W, c);
    Rearrange(q + 1, W, c);
    Cancel(v, q * W, c);
    Cancel(v, (q + 1) * W, c);
    QuotientUnique(v, W, q);
    NestedDivision(n, low, c);
  }

  // ----- reducing m / p

  /** Lines 124-126, for `m` of width `w` and `___bits` of width `h` (64 and 32). */
  function ReductionBits(w: nat, h: nat, m: nat): (bits: nat)
    requires 0 < m < Pow2(w)
  {
    AndNeg(w, m);
    Pow2Mono(Ffs(m), w);
    var bits0 := Low(Neg(w, And(m, Neg(w, m))), h);
    var bits1 := Low(Or(bits0, Shr(m, h)), h);
    Low(2 * Not(h, bits1), h)
  }

  /** Bit `j` of `___bits` says that shifting `m` right by `j` loses nothing and leaves
      the top bit of the low half clear. */
  lemma {:induction false} ReductionBitsMeaning(w: nat, h: nat, m: nat, j: nat)
    requires 0 < m < Pow2(w) && 0 < h <= w
    ensures Bit(ReductionBits(w, h, m), j) <==> 1 <= j < h && j <= Ffs(m) && !Bit(m, h - 1 + j)
  {
    AndNeg(w, m);
    Pow2Mono(Ffs(m), w);
    var neg := Neg(w, Pow2(Ffs(m)));
    var bits0 := Low(neg, h);
    var bits1 := Low(Or(bits0, Shr(m, h)), h);
    BitMod(2 * Not(h, bits1), h, j);
    BitShl(Not(h, bits1), 1, j);
    if j >= 1 {
      var i := j - 1;
      BitNot(h, bits1, i);
      BitMod(Or(bits0, Shr(m, h)), h, i);
      BitOr(bits0, Shr(m, h), i);
      BitMod(neg, h, i);
      NegPow2Bit(w, Ffs(m), i);
      BitShr(m, h, i);
    }
  }

  /** Whether bit 31 is set once `m` is shifted right by `k`. */
  predicate Bit31After(m: nat, k: nat) {
    Bit(m, 31 + k)
  }

  /** `k` is the largest exact right shift of `m` that leaves bit 31 clear. */
  ghost predicate LargestQuietShift(m: nat, k: nat)
    requires m > 0
  {
    && 1 <= k <= Ffs(m) && !Bit31After(m, k)
    && forall j: nat :: k < j <= Ffs(m) ==> Bit31After(m, j)
  }

  lemma {:induction false} NoQuietShift(m: nat)
    requires 0 < m < Pow2(64) && Ffs(m) < 32 && ReductionBits(64, 32, m) == 0
    ensures forall j: nat :: 1 <= j <= Ffs(m) ==> Bit31After(m, j)
  {
    forall j: nat | 1 <= j <= Ffs(m) ensures Bit31After(m, j) {
      ReductionBitsMeaning(64, 32, m, j);
      BitZero(j);
    }
  }

  lemma {:induction false} QuietShift(m: nat)
    requires 0 < m < Pow2(64) && Ffs(m) < 32 && ReductionBits(64, 32, m) != 0
    ensures LargestQuietShift(m, Ilog2(ReductionBits(64, 32, m)))
  {
    var bits := ReductionBits(64, 32, m);
    var k := Ilog2(bits);
    Ilog2Highest(bits, k);
    ReductionBitsMeaning(64, 32, m, k);
    forall j: nat | k < j <= Ffs(m) ensures Bit31After(m, j) {
      ReductionBitsMeaning(64, 32, m, j);
      Ilog2Highest(bits, j);
    }
  }

  /** Lines 124-139. The ratio `m/p` is kept exactly and `p` stays positive; when some
      exact shift leaves bit 31 clear, the largest such shift is applied and the product
      needs no overflow handling; otherwise every exact shift sets bit 31. */
  method Reduce(m: nat, p: nat, ghost l: nat) returns (rm: nat, rp: nat, quiet: bool)
    requires 0 < m < Pow2(64) && l < 32 && p == Pow2(l) && Ffs(m) <= l
    ensures 0 < rp <= p && rm <= m && rm * p == m * rp
    ensures quiet ==> exists k: nat :: LargestQuietShift(m, k) && m == rm * Pow2(k) && p == rp * Pow2(k)
    ensures quiet ==> And(rm, OVERFLOW_BITS) == 0
    ensures !quiet ==> forall j: nat :: 1 <= j <= Ffs(m) ==> Bit31After(m, j)
    ensures !quiet ==> rm % 2 == 1
  {
    var bits := ReductionBits(64, 32, m);
    AndNeg(64, m);
    if bits == 0 {
      var low := And(m, Neg(64, m));
      rp, rm, quiet := Quot(p, low), Quot(m, low), false;
      NoQuietShift(m);
      var o := LowBitDivides(m);
      ExactShift(m, p, l, Ffs(m));
    } else {
      rp, rm, quiet := Shr(p, Ilog2(bits)), Shr(m, Ilog2(bits)), true;
      QuietShift(m);
      ShiftClears(m, Ilog2(bits));
      ExactShift(m, p, l, Ilog2(bits));
    }
  }

  lemma {:induction false} ExactShift(m: nat, p: nat, l: nat, k: nat)
    requires m > 0 && p == Pow2(l) && k <= Ffs(m) <= l
    ensures var rm, rp := Shr(m, k), Shr(p, k);
            m == rm * Pow2(k) && p == rp * Pow2(k) && rm * p == m * rp && 0 < rp <= p && rm <= m
  {
    var c := MultipleOfPow2(m, k);
    Pow2Add(l - k, k);
    var u, v := Pow2(l - k), Pow2(k);
    MultipleMod(u, v, 0);
    Rearrange(c, u, v);
    MulMono(1, v, u);
    MulMono(1, v, c);
  }

  lemma {:induction false} ShiftClears(m: nat, k: nat)
    requires 0 < m < Pow2(64) && k >= 1 && !Bit31After(m, k)
    ensures And(Shr(m, k), OVERFLOW_BITS) == 0
  {
    BitShr(m, k, 31);
    BitShr(m, k, 63);
    BitBeyond(m, 64, 63 + k);
    OverflowBitsTested(Shr(m, k));
  }

  // ----- the division

  /** Lines 89-95: `m * x / 2^64` computed with 64-bit arithmetic. */
  method ProbeProduct(m: nat, x: nat) returns (res: nat)
    requires m < W && x < W
    ensures res == (m * x) / W
  {
    var ll, lh, hl, hh := Products(m, x, 0);
    res := AddParts(ll, lh, hl, hh);
  }

  /** Comparing the whole words detects the wrap. */
  lemma {:induction false} FullCarry(a: nat, q: nat)
    requires a < W && q < W
    ensures var s := (a + q) % W;
            s / H + (if s < a then H else 0) == (a + q) / H
  {
  }

  method AddParts(ll: nat, lh: nat, hl: nat, hh: nat) returns (res: nat)
    requires ll <= (H - 1) * (H - 1) && lh <= (H - 1) * (H - 1) && hl <= (H - 1) * (H - 1)
    requires (ll / H + lh + hl) / H + hh < W
    ensures res == (ll / H + lh + hl) / H + hh
  {
    res := ll / H;
    assert res + lh < W;
    res := (res + lh) % W;
    var t := res;
    FullCarry(t, hl);
    res := (res + hl) % W;
    t := if res < t then H else 0;
    assert res / H + t == (ll / H + lh + hl) / H;
    res := (res / H + t) % W;
    res := (res + hh) % W;
  }

  lemma {:induction false} ReciprocalFits(m: nat, b: nat, p: nat, e: nat)
    requires 0 < p < b < H && RoundedUp(m, b, p * W, e)
    ensures 0 < m < W
  {
    if m >= W {
      MulMono(W, m, b);
      MulMono(p, b - 1, W);
    }
  }

  lemma {:induction false} NotPowerOfTwo(b: nat, l: nat)
    requires 0 < b < H && Pow2(l) < b < 2 * Pow2(l)
    ensures (W - 1) % b != b - 1
  {
    if (W - 1) % b == b - 1 {
      var k := Quot(W - 1, b) + 1;
      QuotientBracket(W - 1, b);
      Distribute(k, 1, b);
      assert b * k == W;
      assert W == Pow2(64) by { Pow2Values(); }
      FactorOfPow2(b, k, 64);
      Ilog2Unique(b, l);
    }
  }

  /** Outside the special case the divisor is not a power of two. */
  lemma {:induction false} UnevenDivisor(b: nat, l: nat, odd: nat)
    requires 0 < b < H && Pow2(l) <= b < 2 * Pow2(l)
    requires odd > 0 && odd == b / Pow2(Ffs(b)) && (W - 1) % odd != 0
    ensures Pow2(l) < b
  {
    if b == Pow2(l) { FfsPow2(l); }
  }

  lemma {:induction false} SpecialCase(n: nat, b: nat, low: nat, odd: nat)
    requires n < W && 0 < b < H && low == Pow2(Ffs(b)) && odd == b / low
    ensures odd > 0
    ensures (W - 1) % odd == 0 ==>
              var m, n' := Quot(W - 1, odd), Quot(n, low);
              m < W && n' < W && (m * n' + m) / W == n / b
  {
    var c := LowBitDivides(b);
    if (W - 1) % odd == 0 {
      var m, n' := Quot(W - 1, odd), Quot(n, low);
      QuotientBracket(W - 1, c);
      MulMono(1, c, m);
      QuotientBracket(n, low);
      MulMono(1, low, n');
      OddPartCase(n, low, c, m);
    }
  }

  lemma {:induction false} ReciprocalsFit(b: nat, p: nat, l: nat)
    requires 0 < p < b < 2 * p && b < H && p == Pow2(l)
    ensures 0 < UpReciprocal(b, p) < W && DownReciprocal(b, p) < W
    ensures Ffs(UpReciprocal(b, p)) <= l
  {
    var e := UpFormula(b, p);
    var d := DownFormula(b, p);
    var m, down := UpReciprocal(b, p), DownReciprocal(b, p);
    ReciprocalFits(m, b, p, e);
    TrailingZerosBounded(m, b, l, e);
    Cancel(m, down, b);
  }

  lemma {:induction false} NestedByScale(m: nat, n: nat, c: nat, p: nat)
    requires p > 0
    ensures p * W > 0 && (m * n + c) / W / p == (m * n + c) / (p * W)
  {
    NestedDivision(m * n + c, W, p);
  }

  /** The single test decides the whole table of quotients: if the rounded-up reciprocal
      is right at the probe it is right everywhere, and if it is wrong there the
      rounded-down one with bias is right everywhere. */
  lemma {:induction false} ProbeDecides(b: nat, l: nat, n: nat)
    requires var p := Pow2(l); p < b < 2 * p && b < H
    requires n < W
    ensures var p, m, down, x := Pow2(l), UpReciprocal(b, Pow2(l)), DownReciprocal(b, Pow2(l)), Probe(b);
            && ((m * x) / W / p == x / b ==> (m * n) / W / p == n / b)
            && ((m * x) / W / p != x / b ==> (down * n + down) / W / p == n / b)
  {
    var p := Pow2(l);
    var m, down, x := UpReciprocal(b, p), DownReciprocal(b, p), Probe(b);
    NotPowerOfTwo(b, l);
    var e := UpFormula(b, p);
    var d := DownFormula(b, p);
    ErrorsComplement(m, down, b, p * W, e, d);
    NestedByScale(m, x, 0, p);
    if (m * x) / W / p == x / b {
      ProbeDecidesUp(m, b, p, e, n);
      NestedByScale(m, n, 0, p);
    } else {
      ProbeDecidesDown(m, down, b, p, e, n);
      NestedByScale(down, n, down, p);
    }
  }

  lemma {:induction false} ReducedQuotient(m: nat, p: nat, rm: nat, rp: nat, n: nat)
    requires p > 0 && rp > 0 && rm * p == m * rp
    ensures (rm * n) / W / rp == (m * n) / W / p
  {
    NestedDivision(rm * n, W, rp);
    NestedDivision(m * n, W, p);
    assert (rm * n) * (W * p) == (m * n) * (W * rp) by {
      Rearrange(rm, n, p);
      Rearrange(m, n, rp);
      Rearrange(rm * n, W, p);
      Rearrange(m * n, W, rp);
    }
    EqualRatios(rm * n, W * rp, m * n, W * p);
  }

  /** Lines 82-84 with the 64-bit truncations the code performs. */
  function UpWord(b: nat, p: nat): (m: nat)
    requires b > 0
    ensures m < W
  {
    (Quot(W - 1, b) * p % W + Quot(((W - 1) % b + 1) * p + b - 1, b)) % W
  }

  /** Lines 115-117 with the 64-bit truncations. */
  function DownWord(b: nat, p: nat): (m: nat)
    requires b > 0
    ensures m < W
  {
    (Quot(W - 1, b) * p % W + Quot(((W - 1) % b + 1) * p, b)) % W
  }

  lemma {:induction false} NoTruncation(x: nat, y: nat)
    requires x + y < W
    ensures (x % W + y) % W == x + y
  {
  }

  /** Off the special case neither reciprocal is truncated. */
  lemma {:induction false} WordsExact(b: nat, p: nat, l: nat)
    requires 0 < p < b < 2 * p && b < H && p == Pow2(l)
    ensures UpWord(b, p) == UpReciprocal(b, p) && DownWord(b, p) == DownReciprocal(b, p)
  {
    ReciprocalsFit(b, p, l);
    NoTruncation(Quot(W - 1, b) * p, Quot(((W - 1) % b + 1) * p + b - 1, b));
    NoTruncation(Quot(W - 1, b) * p, Quot(((W - 1) % b + 1) * p, b));
  }

  lemma {:induction false} ScaleOf(b: nat)
    requires 0 < b < H
    ensures var l := Ilog2(b); l < 32 && 0 < Pow2(l) < H && Pow2(l) <= b < 2 * Pow2(l)
  {
    Ilog2Brackets(b);
    var l := Ilog2(b);
    assert Pow2(32) == H by { Pow2Values(); }
    if l >= 32 { if l > 32 { Pow2Mono(32, l); } }
  }

  /** Lines 86-96 and the comparison of line 105: is `m` right at the probe? */
  method TestAtProbe(b: nat, m: nat, p: nat) returns (right: bool)
    requires 0 < b < H && m < W && p > 0
    ensures right <==> (m * Probe(b)) / W / p == Probe(b) / b
  {
    var x := Probe(b);
    var res := ProbeProduct(m, x);
    right := Quot(res, p) == Quot(x, b);
  }

  /** `b & -b` on a 32-bit word, and what is left of `b` without it. */
  method OddPart(b: nat) returns (low: nat, odd: nat)
    requires 0 < b < H
    ensures low == Pow2(Ffs(b)) && odd == b / low
  {
    assert b < Pow2(32) by { Pow2Values(); }
    AndNeg(32, b);
    low := And(b, Neg(32, b));
    odd := Quot(b, low);
  }

  /** Lines 105-142: the two branches for divisors whose odd part does not divide 2^64 - 1;
      `right` tells whether the rounded-up reciprocal passed its test. */
  method ChooseUneven(n: nat, b: nat, ghost l: nat, up: nat, scale: nat, right: bool)
    returns (m: nat, p: nat, bias: bool)
    requires n < W && b < H && l < 32 && scale == Pow2(l) && scale < b < 2 * scale && up == UpWord(b, scale)
    requires right <==> (up * Probe(b)) / W / scale == Probe(b) / b
    ensures m < W && p > 0
    ensures (m * n + (if bias then m else 0)) / W / p == n / b
  {
    WordsExact(b, scale, l);
    ReciprocalsFit(b, scale, l);
    ProbeDecides(b, l, n);
    p := scale;
    if !right {
      bias := true;
      m := DownWord(b, p);
    } else {
      assert W == Pow2(64) by { Pow2Values(); }
      var quiet: bool;
      m, p, quiet := Reduce(up, p, l);
      bias := false;
      ReducedQuotient(up, scale, m, p, n);
    }
  }

  /** Lines 79-142: pick the dividend, the multiplier, the scale and the bias. */
  method ChooseReciprocal(n: nat, b: nat) returns (n': nat, m: nat, p: nat, bias: bool)
    requires n < W && 0 < b < H
    ensures n' < W && m < W && p > 0
    ensures (m * n' + (if bias then m else 0)) / W / p == n / b
  {
    ghost var l := Ilog2(b);
    ScaleOf(b);
    n', p := n, Pow2(Ilog2(b)) % H;
    assert p == Pow2(l);
    m := UpWord(b, p);
    var right := TestAtProbe(b, m, p);
    var low, odd := OddPart(b);
    SpecialCase(n, b, low, odd);
    if (W - 1) % odd == 0 {
      n' := Quot(n, low);
      m := Quot(W - 1, odd);
      p := 1;
      bias := true;
    } else {
      UnevenDivisor(b, l, odd);
      m, p, bias := ChooseUneven(n, b, l, m, p, right);
    }
  }

  /** `__div64_const32` is division, whichever of its three branches is taken. */
  method Div64Const32(n: nat, b: nat) returns (res: nat)
    requires n < W && 0 < b < H
    ensures res == n / b
  {
    var n', m, p, bias := ChooseReciprocal(n, b);
    res := ArchXprod64(m, n', bias);
    res := Quot(res, p);
  }
}
