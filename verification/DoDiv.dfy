/** `do_div`: in-place division of a 64-bit number by a 32-bit base, in the form for
    64-bit machines and in the form for 32-bit machines. */
module DoDiv {
  import opened Words
  import opened Xprod
  import Div64

  /** The lvalue `n` that the macro overwrites. */
  class U64Cell {
    var value: nat
  }

  lemma {:induction false} OffByWords(r: nat, k: int)
    requires r < H
    ensures (r + H * k) % H == r
  {
  }

  lemma {:induction false} TruncatedFactor(q: nat, b: nat) returns (k: int)
    ensures (q % H) * b == q * b + H * k
  {
    k := -((q / H) * b);
    Distribute(q / H * H, -(q % H), b);
    Rearrange(q / H, H, b);
    assert q == q / H * H + q % H;
  }

  /** The remainder recomputed from the low halves alone, with 32-bit wrap-around. */
  lemma {:induction false} WrappingRemainder(n: nat, b: nat)
    requires 0 < b < H
    ensures (n % H - (n / b) % H * b % H) % H == n % b
  {
    var q := Quot(n, b);
    QuotientBracket(n, b);
    var k := TruncatedFactor(q, b);
    var prod := (q % H) * b;
    assert n % H == n - H * (n / H) && prod % H == prod - H * (prod / H);
    var i := -(n / H) - k + prod / H;
    assert n % H - prod % H == n % b + H * i;
    OffByWords(n % b, i);
  }

  /** `do_div` on a 64-bit machine. */
  method DoDivWide(n: U64Cell, base: nat) returns (rem: nat)
    requires n.value < W && 0 < base < H
    modifies n
    ensures rem == old(n.value) % base && n.value == old(n.value) / base
  {
    rem := n.value % base;
    n.value := Quot(n.value, base);
  }

  // ----- the out-of-line division

  /** What every round of `__div64_32` keeps: quotient so far and remainder make up `n`, and
      the remainder is below twice the shifted base `b`, which is `base * 2^j`. */
  ghost predicate Dividing(n: nat, base: nat, res: nat, rem: nat, b: nat, d: nat, j: nat) {
    n == res * base + rem && d == Pow2(j) && b == base * d && rem < 2 * b
  }

  lemma {:induction false} FactorBelow(a: nat, b: nat)
    requires b > 0
    ensures a <= a * b && a <= b * a
  {
    MulMono(1, b, a);
  }

  lemma {:induction false} HighPart(high: nat, base: nat, n: nat)
    requires base > 0 && high == n / H
    ensures var k := Quot(high, base);
            k <= k * base <= high && (k * base) * H <= n
  {
    var k := Quot(high, base);
    QuotientBracket(n, H);
    QuotientBracket(high, base);
    FactorBelow(k, base);
    MulMono(k * base, high, H);
  }

  /** `high / base` whole multiples of `base * 2^32` are taken off; neither the 32-bit product
      nor the shifts lose anything. */
  lemma {:induction false} ReduceHigh(n: nat, base: nat, k: nat)
    requires n < W && base > 0 && k == Quot(n / H, base)
    ensures k * H % W == k * H && k * base % H * H <= n
    ensures n == (k * H) * base + (n - k * base % H * H)
  {
    HighPart(n / H, base, n);
    ModSmall(k * base, H);
    ModSmall(k * H, W);
    Rearrange(k, H, base);
  }

  lemma {:induction false} DoubleStep(base: nat, b: nat, d: nat)
    requires b == base * d && base > 0 && 0 < b < W / 2
    ensures (b + b) % W == base * (2 * d) == 2 * b && (d + d) % W == 2 * d
  {
    FactorBelow(d, base);
    Rearrange(2, base, d);
  }

  /** Taking the shifted base off keeps the account and brings the remainder below it. */
  lemma {:induction false} SubtractStep(n: nat, base: nat, res: nat, rem: nat, b: nat, d: nat, j: nat)
    requires Dividing(n, base, res, rem, b, d, j) && n < W && base > 0 && rem >= b
    ensures (res + d) % W == res + d && n == (res + d) * base + (rem - b)
  {
    Distribute(res, d, base);
    FactorBelow(res + d, base);
  }

  lemma {:induction false} HalveStep(base: nat, b: nat, d: nat, j: nat)
    requires d == Pow2(j) && b == base * d
    ensures j > 0 ==> d / 2 == Pow2(j - 1) && b / 2 == base * (d / 2) && b == 2 * (b / 2)
    ensures j == 0 ==> d / 2 == 0 && b == base
  {
    if j > 0 {
      Rearrange(2, base, Pow2(j - 1));
      Rearrange(base, 2, Pow2(j - 1));
      assert b == 2 * (base * Pow2(j - 1));
    }
  }

  /** The body of the second loop. */
  method ShiftSubtract(ghost n: nat, ghost base: nat, res: nat, rem: nat, b: nat, d: nat, ghost j: nat)
    returns (res': nat, rem': nat, b': nat, d': nat)
    requires Dividing(n, base, res, rem, b, d, j) && n < W && base > 0
    ensures j > 0 ==> Dividing(n, base, res', rem', b', d', j - 1) && d' != 0
    ensures j == 0 ==> n == res' * base + rem' && rem' < base && d' == 0
  {
    res', rem' := res, rem;
    if rem >= b {
      SubtractStep(n, base, res, rem, b, d, j);
      rem' := rem - b;
      res' := (res + d) % W;
    }
    HalveStep(base, b, d, j);
    b' := b / 2;
    d' := d / 2;
  }

  /** The reduction by the high word. */
  method ReduceFirst(n: nat, base: nat) returns (res: nat, rem: nat)
    requires n < W && 0 < base < H
    ensures n == res * base + rem && rem <= n
  {
    var high := Quot(n, H);
    if high < base {
      return 0, n;
    }
    high := Quot(high, base);
    ReduceHigh(n, base, high);
    ModSmall(n - high * base % H * H, W);
    res := high * H % W;
    rem := (n - high * base % H * H) % W;
  }

  /** The first loop: doubles the base until it passes the remainder or the top bit is set. */
  method DoubleBase(base: nat, rem: nat) returns (b: nat, d: nat, ghost j: nat)
    requires 0 < base < H && rem < W
    ensures d == Pow2(j) && b == base * d && rem < 2 * b
  {
    b, d, j := base, 1, 0;
    while 0 < b < W / 2 && b < rem
      invariant d == Pow2(j) && b == base * d && b > 0
      decreases rem - b
    {
      DoubleStep(base, b, d);
      b, d, j := (b + b) % W, (d + d) % W, j + 1;
    }
  }

  /** `__div64_32`: reduce by the high word, double the base until it passes the remainder,
      then shift and subtract. No product, sum or doubling wraps. */
  method Div64_32(n: nat, base: nat) returns (res: nat, rem: nat)
    requires n < W && 0 < base < H
    ensures n == res * base + rem && rem < base
  {
    res, rem := ReduceFirst(n, base);
    var b, d, j := DoubleBase(base, rem);
    var more := true;
    while more
      invariant more ==> Dividing(n, base, res, rem, b, d, j)
      invariant !more ==> n == res * base + rem && rem < base
      decreases more, j
    {
      res, rem, b, d := ShiftSubtract(n, base, res, rem, b, d, j);
      more := d != 0;
      if j > 0 { j := j - 1; }
    }
  }

  /** `do_div` on a 32-bit machine. `constant` is `__builtin_constant_p(base)`. */
  method DoDivNarrow(n: U64Cell, base: nat, constant: bool) returns (rem: nat)
    requires n.value < W && 0 < base < H
    modifies n
    ensures rem == old(n.value) % base && n.value == old(n.value) / base
  {
    if constant && And(base, base - 1) == 0 {
      PowerOfTwoTest(base);
      AndMask(n.value, Ilog2(base));
      rem := And(n.value, base - 1);
      n.value := Shr(n.value, Ilog2(base));
    } else if constant && base != 0 {
      var nLo := n.value % H;
      WrappingRemainder(n.value, base);
      var quotient := Div64.Div64Const32(n.value, base);
      n.value := quotient;
      var resLo := n.value % H;
      rem := (nLo - resLo * base % H) % H;
    } else if n.value / H == 0 {
      rem := n.value % H % base;
      n.value := Quot(n.value % H, base);
    } else {
      var q, r := Div64_32(n.value, base);
      MultipleMod(q, base, r);
      n.value, rem := q, r;
    }
  }
}
