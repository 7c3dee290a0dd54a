/** `__arch_xprod_64`: the high half of a 64 by 64 bit product, built from 32-bit halves
    with hand-made carry detection. */
module Xprod {
  import opened Words

  const H: nat := 0x1_0000_0000            // 2^32
  const W: nat := 0x1_0000_0000_0000_0000  // 2^64

  /** `(1ULL << 63) | (1ULL << 31)` */
  const OVERFLOW_BITS: nat := 0x8000_0000_8000_0000

  lemma {:induction false} HalfProductBound(x: nat, y: nat, mx: nat, my: nat)
    requires x <= mx && y <= my
    ensures 0 <= x * y <= mx * my
  {
    assert x * y <= mx * y;
    assert mx * y <= mx * my;
  }

  /** The mask test sees exactly bits 31 and 63. */
  lemma {:induction false} OverflowBitsTested(m: nat)
    ensures And(m, OVERFLOW_BITS) == 0 <==> !Bit(m, 31) && !Bit(m, 63)
  {
    forall i: nat
      ensures Bit(And(m, OVERFLOW_BITS), i) <==> Bit(m, i) && (i == 63 || i == 31)
    {
      Pow2Values();
      BitAnd(m, OVERFLOW_BITS, i);
      OrDisjoint(Pow2(31), Pow2(31), 32);
      BitOr(Pow2(31), Pow2(63), i);
      BitPow2(31, i);
      BitPow2(63, i);
    }
    BitZero(31);
    BitZero(63);
    if !Bit(m, 31) && !Bit(m, 63) {
      forall i: nat ensures Bit(And(m, OVERFLOW_BITS), i) <==> Bit(0, i) { BitZero(i); }
      BitsDetermine(And(m, OVERFLOW_BITS), 0);
    }
  }

  /** ... that is, it asks whether both halves of `m` are below 2^31. */
  lemma {:induction false} OverflowBitsClear(m: nat)
    requires m < W
    ensures And(m, OVERFLOW_BITS) == 0 <==> m / H < 0x8000_0000 && m % H < 0x8000_0000
  {
    OverflowBitsTested(m);
    TopBitOfHalf(m / H);
    TopBitOfHalf(m % H);
    Pow2Values();
    BitShr(m, 32, 31);
    BitMod(m, 32, 31);
  }

  lemma {:induction false} TopBitOfHalf(x: nat)
    requires x < H
    ensures Bit(x, 31) <==> x >= 0x8000_0000
  {
    Pow2Values();
    BitShr(x, 31, 0);
  }

  /** Comparing only the high halves detects the wrap exactly, because the summand
      `q` is a product of two 32-bit numbers and so stays 2^33 below 2^64. */
  lemma {:induction false} HighHalfCarry(a: nat, q: nat)
    requires a < W && q <= (H - 1) * (H - 1)
    ensures var s := (a + q) % W;
            s / H + (if s / H < a / H then H else 0) == (a + q) / H
  {
  }

  /** Schoolbook multiplication in base 2^32, with an added constant. */
  lemma {:induction false} HalvesMakeProduct(mh: nat, ml: nat, nh: nat, nl: nat, c: nat)
    ensures ((ml * nl + c) / H + ml * nh + mh * nl) / H + mh * nh
         == ((mh * H + ml) * (nh * H + nl) + c) / W
  {
    var low := ml * nl + c;
    var cross := ml * nh + mh * nl;
    var top := mh * nh;
    assert (mh * H + ml) * (nh * H + nl) == top * W + cross * H + ml * nl by {
      assert (mh * H + ml) * (nh * H + nl) == (mh * H) * (nh * H) + (mh * H) * nl + ml * (nh * H) + ml * nl;
      assert (mh * H) * (nh * H) == (mh * nh) * (H * H);
      assert (mh * H) * nl == (mh * nl) * H;
      assert ml * (nh * H) == (ml * nh) * H;
    }
    assert (top * W + cross * H + low) / W == top + (cross * H + low) / W;
    assert (cross * H + low) / W == (low / H + cross) / H;
  }

  lemma {:induction false} HighProductFits(m: nat, n: nat, c: nat)
    requires m < W && n < W && c <= m
    ensures (m * n + c) / W < W
  {
    HalfProductBound(m, n, m, W - 1);
    assert m * (W - 1) + m == m * W;
    assert (m * W) / W == m;
  }

  /** `!(m & ((1ULL << 63) | (1ULL << 31)))` */
  method NoOverflowBits(m: nat) returns (quiet: bool)
    requires m < W
    ensures quiet <==> m / H < 0x8000_0000 && m % H < 0x8000_0000
  {
    OverflowBitsClear(m);
    quiet := And(m, OVERFLOW_BITS) == 0;
  }

  /** `lo | ((uint64_t)hi << 32)` */
  method JoinHalves(lo: nat, hi: nat) returns (r: nat)
    requires lo < H
    ensures r == lo + hi * H
  {
    assert H == Pow2(32) by { Pow2Values(); }
    OrDisjoint(lo, hi, 32);
    r := Or(lo, hi * H);
  }

  /** Lines 180-190: the low product plus the bias, shifted down by 32. */
  method LowPart(m: nat, ll: nat, bias: bool) returns (res: nat)
    requires m < W && ll <= (H - 1) * (H - 1)
    requires m % H < 0x8000_0000 ==> ll <= 0x7fff_ffff * (H - 1)
    ensures res == (ll + (if bias then m else 0)) / H
  {
    var quiet := NoOverflowBits(m);
    if !bias {
      res := (ll % W) / H;
    } else if quiet {
      // both halves of m are below 2^31, so the sum fits
      assert m + ll < W;
      res := ((m + ll) % W) / H;
    } else {
      HighHalfCarry(m, ll);
      res := (m + ll) % W;
      var resLo := res / H;
      var resHi := if resLo < m / H then 1 else 0;
      res := JoinHalves(resLo, resHi);
    }
  }

  /** Lines 192-204: add the two cross products and shift down by 32. The first sum
      can be exactly 2^64 - 1; the second wraps and its carry is recovered. */
  method CrossPart(m: nat, low: nat, lh: nat, hl: nat) returns (res: nat)
    requires m < W && low <= 2 * H - 2 && lh <= (H - 1) * (H - 1) && hl <= (H - 1) * (H - 1)
    requires m % H < 0x8000_0000 ==> lh <= 0x7fff_ffff * (H - 1)
    requires m / H < 0x8000_0000 ==> hl <= 0x7fff_ffff * (H - 1)
    ensures res == (low + lh + hl) / H
  {
    var quiet := NoOverflowBits(m);
    assert low + lh <= W - 1;
    res := low;
    if quiet {
      // three summands, two of them below 2^63
      assert low + lh + hl < W;
      res := (res + lh) % W;
      res := (res + hl) % W;
      res := res / H;
    } else {
      res := (res + lh) % W;
      var tmp := res / H;
      HighHalfCarry(res, hl);
      res := (res + hl) % W;
      var resLo := res / H;
      var resHi := if resLo < tmp then 1 else 0;
      res := JoinHalves(resLo, resHi);
    }
  }

  /** `(uint64_t)x * y` of two 32-bit numbers. */
  method HalfProduct(x: nat, y: nat) returns (p: nat)
    requires x < H && y < H
    ensures p == x * y && p <= (H - 1) * (H - 1)
    ensures x < 0x8000_0000 ==> p <= 0x7fff_ffff * (H - 1)
  {
    HalfProducts(x, y);
    p := x * y;
  }

  lemma {:induction false} HalfProducts(x: nat, y: nat)
    requires x < H && y < H
    ensures 0 <= x * y <= (H - 1) * (H - 1)
    ensures x < 0x8000_0000 ==> x * y <= 0x7fff_ffff * (H - 1)
  {
    HalfProductBound(x, y, H - 1, H - 1);
    if x < 0x8000_0000 { HalfProductBound(x, y, 0x7fff_ffff, H - 1); }
  }

  lemma {:induction false} PartsAssemble(m: nat, n: nat, c: nat, ll: nat, lh: nat, hl: nat, hh: nat)
    requires m < W && n < W && c <= m
    requires ll == (m % H) * (n % H) && lh == (m % H) * (n / H)
    requires hl == (m / H) * (n % H) && hh == (m / H) * (n / H)
    ensures ((ll + c) / H + lh + hl) / H + hh == (m * n + c) / W < W
  {
    HalvesMakeProduct(m / H, m % H, n / H, n % H, c);
    assert m == (m / H) * H + m % H && n == (n / H) * H + n % H;
    HighProductFits(m, n, c);
  }

  /** The four products of the halves of `m` and `n`; `c` is the bias to be added. */
  method Products(m: nat, n: nat, ghost c: nat) returns (ll: nat, lh: nat, hl: nat, hh: nat)
    requires m < W && n < W && c <= m
    ensures ll <= (H - 1) * (H - 1) && lh <= (H - 1) * (H - 1) && hl <= (H - 1) * (H - 1)
    ensures m % H < 0x8000_0000 ==> ll <= 0x7fff_ffff * (H - 1) && lh <= 0x7fff_ffff * (H - 1)
    ensures m / H < 0x8000_0000 ==> hl <= 0x7fff_ffff * (H - 1)
    ensures ((ll + c) / H + lh + hl) / H + hh == (m * n + c) / W < W
  {
    ll := HalfProduct(m % H, n % H);
    lh := HalfProduct(m % H, n / H);
    hl := HalfProduct(m / H, n % H);
    hh := HalfProduct(m / H, n / H);
    PartsAssemble(m, n, c, ll, lh, hl, hh);
  }

  /** The semantics promised in the comment, for every `m`, `n` and bias. */
  method ArchXprod64(m: nat, n: nat, bias: bool) returns (res: nat)
    requires m < W && n < W
    ensures res == (m * n + (if bias then m else 0)) / W
    ensures res < W
  {
    ghost var c := if bias then m else 0;
    var ll, lh, hl, hh := Products(m, n, c);
    res := LowPart(m, ll, bias);
    assert res <= 2 * H - 2;
    res := CrossPart(m, res, lh, hl);
    res := (res + hh) % W;
  }
}
