/** Unsigned machine words as natural numbers: powers of two, single bits, the bitwise
    operators of C and the scans (`ilog2`, `__ffs`) built on them. A word of width `w` is
    a number below `Pow2(w)`; wrap-around is always written out as `% Pow2(w)`. */
module Words {

  function Pow2(k: nat): (r: nat)
    ensures r >= 1
  {
    if k == 0 then 1 else 2 * Pow2(k - 1)
  }

  /** Bit `i` of `x`, counting from the least significant. */
  predicate Bit(x: nat, i: nat)
    decreases i
  {
    if i == 0 then x % 2 == 1 else Bit(x / 2, i - 1)
  }

  function And(x: nat, y: nat): nat
    decreases x
  {
    if x == 0 || y == 0 then 0
    else 2 * And(x / 2, y / 2) + (if x % 2 == 1 && y % 2 == 1 then 1 else 0)
  }

  function Or(x: nat, y: nat): nat
    decreases x
  {
    if x == 0 then y else if y == 0 then x
    else 2 * Or(x / 2, y / 2) + (if x % 2 == 1 || y % 2 == 1 then 1 else 0)
  }

  /** `x & ~y`, the same at every width that holds both. */
  function AndNot(x: nat, y: nat): nat
    decreases x
  {
    if x == 0 then 0 else if y == 0 then x
    else 2 * AndNot(x / 2, y / 2) + (if x % 2 == 1 && y % 2 == 0 then 1 else 0)
  }

  function Xor(x: nat, y: nat): nat
    decreases x
  {
    if x == 0 then y else if y == 0 then x
    else 2 * Xor(x / 2, y / 2) + (if x % 2 != y % 2 then 1 else 0)
  }

  /** `~x` on a word of width `w`. */
  function Not(w: nat, x: nat): nat
    requires x < Pow2(w)
  {
    Pow2(w) - 1 - x
  }

  /** `-x` on a word of width `w`. */
  function Neg(w: nat, x: nat): nat
    requires x < Pow2(w)
  {
    if x == 0 then 0 else Pow2(w) - x
  }

  /** `ilog2`: the position of the highest set bit; 0 for arguments below 2. */
  function Ilog2(n: nat): nat
  {
    if n < 2 then 0 else 1 + Ilog2(n / 2)
  }

  /** `__ffs`: the position of the lowest set bit. */
  function Ffs(x: nat): nat
    requires x > 0
  {
    if x % 2 == 1 then 0 else 1 + Ffs(x / 2)
  }

  function Min(a: nat, b: nat): nat { if a < b then a else b }

  /** C's unsigned division; a quotient of naturals is a natural. */
  function Quot(a: nat, d: nat): nat
    requires d > 0
  {
    a / d
  }

  /** `x >> k` */
  function Shr(x: nat, k: nat): nat {
    Quot(x, Pow2(k))
  }

  /** The low `k` bits of `x`, as truncation to a `k`-bit type leaves them. */
  function Low(x: nat, k: nat): (r: nat)
    ensures r < Pow2(k)
  {
    x % Pow2(k)
  }

  // ----- powers of two

  lemma {:induction false} Pow2Add(a: nat, b: nat)
    ensures Pow2(a + b) == Pow2(a) * Pow2(b)
  {
    if a == 0 {
    } else {
      Pow2Add(a - 1, b);
      assert 2 * (Pow2(a - 1) * Pow2(b)) == (2 * Pow2(a - 1)) * Pow2(b);
    }
  }

  lemma {:induction false} Pow2Mono(a: nat, b: nat)
    requires a < b
    ensures 2 * Pow2(a) <= Pow2(b)
    decreases b
  {
    if a + 1 < b { Pow2Mono(a, b - 1); }
  }

  lemma {:induction false} Pow2Small()
    ensures Pow2(8) == 0x100 && Pow2(16) == 0x1_0000
  {
    assert Pow2(4) == 16;
    Pow2Add(4, 4);
    Pow2Add(8, 8);
  }

  lemma {:induction false} Pow2Values()
    ensures Pow2(31) == 0x8000_0000
    ensures Pow2(32) == 0x1_0000_0000
    ensures Pow2(63) == 0x8000_0000_0000_0000
    ensures Pow2(64) == 0x1_0000_0000_0000_0000
  {
    Pow2Small();
    Pow2Add(16, 16);
    Pow2Add(32, 32);
    Pow2Add(1, 31);
    Pow2Add(1, 63);
  }

  // ----- multiplication and division facts used throughout

  lemma {:induction false} Rearrange(a: int, b: int, c: int)
    ensures (a * b) * c == a * (b * c) == (a * c) * b
  {
  }

  lemma {:induction false} Distribute(a: int, b: int, c: int)
    ensures (a + b) * c == a * c + b * c && (a - b) * c == a * c - b * c
  {
  }

  lemma {:induction false} MulMono(a: int, b: int, k: int)
    requires a <= b && 0 <= k
    ensures a * k <= b * k
  {
  }

  /** The quotient is the only `q` whose multiple brackets `a`. */
  lemma {:induction false} QuotientUnique(a: int, d: int, q: int)
    requires d > 0 && q * d <= a < (q + 1) * d
    ensures a / d == q
  {
    var k := a / d;
    assert k * d <= a < (k + 1) * d;
    assert k < q ==> (k + 1) * d <= q * d;
    assert k > q ==> (q + 1) * d <= k * d;
  }

  lemma {:induction false} QuotientBracket(a: int, d: int)
    requires d > 0
    ensures (a / d) * d <= a < (a / d + 1) * d
    ensures a == (a / d) * d + a % d
  {
  }

  lemma {:induction false} QuotientIff(a: int, d: int, q: int)
    requires d > 0 && q * d <= a
    ensures a / d == q <==> a < (q + 1) * d
  {
    QuotientBracket(a, d);
    if a < (q + 1) * d { QuotientUnique(a, d, q); }
  }

  lemma {:induction false} NestedDivision(a: nat, c: nat, d: nat)
    requires c > 0 && d > 0
    ensures c * d > 0 && a / c / d == a / (c * d)
  {
    var q := a / c / d;
    QuotientBracket(a / c, d);
    QuotientBracket(a, c);
    var u := a / c;
    assert q * d <= u < (q + 1) * d;
    assert u + 1 <= (q + 1) * d;
    assert (q * d) * c <= u * c;
    assert (u + 1) * c <= ((q + 1) * d) * c;
    assert (q * d) * c == q * (c * d);
    assert ((q + 1) * d) * c == (q + 1) * (c * d);
    assert c * d > 0;
    QuotientUnique(a, c * d, q);
  }

  lemma {:induction false} MultipleMod(k: nat, d: nat, r: nat)
    requires r < d
    ensures (k * d + r) % d == r && (k * d + r) / d == k
  {
    assert (k + 1) * d == k * d + d;
    QuotientUnique(k * d + r, d, k);
    QuotientBracket(k * d + r, d);
  }

  /** A number below the modulus is not changed. */
  lemma {:induction false} ModSmall(x: int, m: nat)
    requires 0 <= x < m
    ensures x % m == x
  {
    MultipleMod(0, m, x);
  }

  // ----- bits of the operators

  lemma {:induction false} BitZero(i: nat)
    ensures !Bit(0, i)
  {
    if i > 0 { BitZero(i - 1); }
  }

  lemma {:induction false} BitAnd(x: nat, y: nat, i: nat)
    ensures Bit(And(x, y), i) <==> Bit(x, i) && Bit(y, i)
    decreases i
  {
    BitZero(i);
    if x != 0 && y != 0 && i > 0 {
      BitAnd(x / 2, y / 2, i - 1);
      assert And(x, y) / 2 == And(x / 2, y / 2);
    }
  }

  lemma {:induction false} BitOr(x: nat, y: nat, i: nat)
    ensures Bit(Or(x, y), i) <==> Bit(x, i) || Bit(y, i)
    decreases i
  {
    BitZero(i);
    if x != 0 && y != 0 && i > 0 {
      BitOr(x / 2, y / 2, i - 1);
      assert Or(x, y) / 2 == Or(x / 2, y / 2);
    }
  }

  lemma {:induction false} BitXor(x: nat, y: nat, i: nat)
    ensures Bit(Xor(x, y), i) <==> Bit(x, i) != Bit(y, i)
    decreases i
  {
    BitZero(i);
    if x != 0 && y != 0 && i > 0 {
      BitXor(x / 2, y / 2, i - 1);
      assert Xor(x, y) / 2 == Xor(x / 2, y / 2);
    }
  }

  lemma {:induction false} BitAndNot(x: nat, y: nat, i: nat)
    ensures Bit(AndNot(x, y), i) <==> Bit(x, i) && !Bit(y, i)
    decreases i
  {
    BitZero(i);
    if x != 0 && y != 0 && i > 0 {
      BitAndNot(x / 2, y / 2, i - 1);
      assert AndNot(x, y) / 2 == AndNot(x / 2, y / 2);
    }
  }

  lemma {:induction false} AndNotIsAndOfNot(w: nat, x: nat, y: nat)
    requires x < Pow2(w) && y < Pow2(w)
    ensures AndNot(x, y) == And(x, Not(w, y))
  {
    forall i: nat ensures Bit(AndNot(x, y), i) <==> Bit(And(x, Not(w, y)), i) {
      BitAndNot(x, y, i);
      BitAnd(x, Not(w, y), i);
      BitNot(w, y, i);
      if i >= w { BitBeyond(x, w, i); }
    }
    BitsDetermine(AndNot(x, y), And(x, Not(w, y)));
  }

  lemma {:induction false} BitNot(w: nat, x: nat, i: nat)
    requires x < Pow2(w)
    ensures Bit(Not(w, x), i) <==> i < w && !Bit(x, i)
    decreases w
  {
    if w == 0 {
      BitZero(i);
    } else {
      assert Not(w, x) / 2 == Not(w - 1, x / 2);
      if i > 0 { BitNot(w - 1, x / 2, i - 1); }
    }
  }

  lemma {:induction false} BitBeyond(x: nat, w: nat, i: nat)
    requires x < Pow2(w) && w <= i
    ensures !Bit(x, i)
    decreases i
  {
    if w == 0 { BitZero(i); } else { BitBeyond(x / 2, w - 1, i - 1); }
  }

  lemma {:induction false} BitShr(x: nat, k: nat, i: nat)
    ensures Bit(Shr(x, k), i) <==> Bit(x, i + k)
    decreases k
  {
    if k > 0 {
      NestedDivision(x, 2, Pow2(k - 1));
      BitShr(x / 2, k - 1, i);
    }
  }

  lemma {:induction false} BitShl(x: nat, k: nat, i: nat)
    ensures Bit(x * Pow2(k), i) <==> k <= i && Bit(x, i - k)
    decreases k
  {
    if k > 0 {
      var y := x * Pow2(k - 1);
      assert x * Pow2(k) == 2 * y;
      assert 2 * y / 2 == y && 2 * y % 2 == 0;
      if i > 0 { BitShl(x, k - 1, i - 1); }
    }
  }

  lemma {:induction false} HalveMod(x: nat, k: nat)
    requires k > 0
    ensures (x % Pow2(k)) / 2 == (x / 2) % Pow2(k - 1)
    ensures (x % Pow2(k)) % 2 == x % 2
  {
    var p := Pow2(k - 1);
    var q, r := Quot(x, 2 * p), x % (2 * p);
    QuotientBracket(x, 2 * p);
    Rearrange(2, q, p);
    assert x == 2 * (q * p) + r;
    HalfOfSum(q * p, r);
    MultipleMod(q, p, r / 2);
  }

  lemma {:induction false} HalfOfSum(a: nat, r: nat)
    ensures (2 * a + r) / 2 == a + r / 2 && (2 * a + r) % 2 == r % 2
  {
  }

  lemma {:induction false} BitMod(x: nat, k: nat, i: nat)
    ensures Bit(Low(x, k), i) <==> i < k && Bit(x, i)
    decreases k
  {
    if k == 0 {
      BitZero(i);
    } else {
      HalveMod(x, k);
      if i > 0 { BitMod(x / 2, k - 1, i - 1); }
    }
  }

  /** Two numbers with the same bits are equal. */
  lemma {:induction false} BitsDetermine(x: nat, y: nat)
    requires forall i: nat :: Bit(x, i) <==> Bit(y, i)
    ensures x == y
    decreases x + y
  {
    assert Bit(x, 0) <==> Bit(y, 0);
    if x + y > 0 {
      forall i: nat ensures Bit(x / 2, i) <==> Bit(y / 2, i) {
        assert Bit(x, i + 1) <==> Bit(y, i + 1);
      }
      BitsDetermine(x / 2, y / 2);
    }
  }

  lemma {:induction false} BitsBound(x: nat, w: nat)
    requires forall i: nat :: Bit(x, i) ==> i < w
    ensures x < Pow2(w)
    decreases w
  {
    if w == 0 {
      forall i: nat ensures Bit(x, i) <==> Bit(0, i) { BitZero(i); }
      BitsDetermine(x, 0);
    } else {
      forall i: nat | Bit(x / 2, i) ensures i < w - 1 { assert Bit(x, i + 1); }
      BitsBound(x / 2, w - 1);
    }
  }

  lemma {:induction false} BitPow2(k: nat, i: nat)
    ensures Bit(Pow2(k), i) <==> i == k
  {
    BitShl(1, k, i);
    if i > k { BitBeyond(1, 1, i - k); }
  }

  // ----- the idioms `x & (2^k - 1)`, `x | (y << k)`, `x & -x`

  lemma {:induction false} AndMask(x: nat, k: nat)
    ensures And(x, Pow2(k) - 1) == x % Pow2(k)
    decreases k
  {
    if k > 0 {
      HalveMod(x, k);
      assert (Pow2(k) - 1) / 2 == Pow2(k - 1) - 1;
      AndMask(x / 2, k - 1);
    }
  }

  lemma {:induction false} AndAndNot(x: nat, y: nat)
    ensures And(x, y) + AndNot(x, y) == x
  {
    if x > 0 && y > 0 { AndAndNot(x / 2, y / 2); }
  }

  /** `round_down` to a power of two. */
  lemma {:induction false} AndNotMask(x: nat, k: nat)
    ensures AndNot(x, Pow2(k) - 1) == x - x % Pow2(k)
  {
    AndMask(x, k);
    AndAndNot(x, Pow2(k) - 1);
  }

  lemma {:induction false} OrDisjoint(x: nat, y: nat, k: nat)
    requires x < Pow2(k)
    ensures Or(x, y * Pow2(k)) == x + y * Pow2(k)
    decreases k
  {
    if k > 0 {
      var z := y * Pow2(k - 1);
      Rearrange(2, y, Pow2(k - 1));
      assert y * Pow2(k) == 2 * z;
      OrDisjoint(x / 2, y, k - 1);
      HalfOfSum(z, 0);
    }
  }

  lemma {:induction false} AndNotSelf(w: nat, x: nat)
    requires x < Pow2(w)
    ensures And(x, Not(w, x)) == 0
  {
    if x != 0 && Not(w, x) != 0 {
      assert Not(w, x) / 2 == Not(w - 1, x / 2);
      AndNotSelf(w - 1, x / 2);
    }
  }

  /** `x & -x` isolates the lowest set bit. */
  lemma {:induction false} AndNeg(w: nat, x: nat)
    requires 0 < x < Pow2(w)
    ensures And(x, Neg(w, x)) == Pow2(Ffs(x)) && Ffs(x) < w
    decreases w
  {
    var p := Pow2(w - 1);
    assert Neg(w, x) == 2 * p - x;
    if x % 2 == 1 {
      assert (2 * p - x) / 2 == Not(w - 1, x / 2);
      AndNotSelf(w - 1, x / 2);
    } else {
      AndNeg(w - 1, x / 2);
      assert (2 * p - x) / 2 == p - x / 2;
    }
  }

  /** A positive number is its lowest set bit times an odd number. */
  lemma {:induction false} LowBitDivides(x: nat) returns (c: nat)
    requires x > 0
    ensures x == c * Pow2(Ffs(x)) && c % 2 == 1
    ensures x / Pow2(Ffs(x)) == c
  {
    if x % 2 == 1 {
      c := x;
    } else {
      c := LowBitDivides(x / 2);
      DoubledFactor(x / 2, c, Pow2(Ffs(x / 2)));
      MultipleMod(c, Pow2(Ffs(x)), 0);
    }
  }

  lemma {:induction false} DoubledFactor(y: nat, c: nat, p: nat)
    requires y == c * p
    ensures 2 * y == c * (2 * p)
  {
    Rearrange(c, 2, p);
  }

  lemma {:induction false} FfsLowest(x: nat, i: nat)
    requires x > 0
    ensures Bit(x, Ffs(x)) && (i < Ffs(x) ==> !Bit(x, i))
  {
    if x % 2 == 0 {
      if i == 0 { FfsLowest(x / 2, 0); } else { FfsLowest(x / 2, i - 1); }
    }
  }

  lemma {:induction false} Ilog2Brackets(n: nat)
    requires n > 0
    ensures Pow2(Ilog2(n)) <= n < 2 * Pow2(Ilog2(n))
  {
    if n >= 2 { Ilog2Brackets(n / 2); }
  }

  lemma {:induction false} Ilog2Highest(n: nat, i: nat)
    requires n > 0
    ensures Bit(n, Ilog2(n)) && (Bit(n, i) ==> i <= Ilog2(n))
    decreases n
  {
    if n >= 2 {
      if i == 0 { Ilog2Highest(n / 2, 0); } else { Ilog2Highest(n / 2, i - 1); }
    } else {
      assert n == 1;
      if i > 0 { BitBeyond(1, 1, i); }
    }
  }

  lemma {:induction false} PowerOfTwoTest(n: nat)
    requires n > 0
    ensures And(n, n - 1) == 0 <==> n == Pow2(Ilog2(n))
  {
    if n >= 2 {
      assert Pow2(Ilog2(n)) == 2 * Pow2(Ilog2(n / 2));
      if n % 2 == 0 {
        assert (n - 1) / 2 == n / 2 - 1;
        PowerOfTwoTest(n / 2);
        assert And(n, n - 1) == 2 * And(n / 2, n / 2 - 1);
      } else {
        assert (n - 1) / 2 == n / 2;
        AndSelf(n / 2);
        assert And(n, n - 1) == 2 * (n / 2);
      }
    }
  }

  /** `is_power_of_2` */
  predicate IsPowerOf2(n: nat) {
    n != 0 && And(n, n - 1) == 0
  }

  lemma {:induction false} Ilog2OfPow2(k: nat)
    ensures Ilog2(Pow2(k)) == k
  {
    if k > 0 { Ilog2OfPow2(k - 1); }
  }

  lemma {:induction false} IsPowerOf2Iff(n: nat)
    ensures IsPowerOf2(n) <==> exists k: nat :: n == Pow2(k)
  {
    if n > 0 { PowerOfTwoTest(n); }
    forall k: nat | n == Pow2(k) ensures IsPowerOf2(n) { Ilog2OfPow2(k); }
  }

  lemma {:induction false} AndSelf(x: nat)
    ensures And(x, x) == x
  {
    if x > 0 { AndSelf(x / 2); }
  }

  lemma {:induction false} NegPow2Bit(w: nat, t: nat, i: nat)
    requires t < w
    ensures Pow2(t) < Pow2(w) && (Bit(Neg(w, Pow2(t)), i) <==> t <= i < w)
  {
    Pow2Mono(t, w);
    Pow2Add(w - t, t);
    Distribute(Pow2(w - t), 1, Pow2(t));
    assert Neg(w, Pow2(t)) == Not(w - t, 0) * Pow2(t);
    BitShl(Not(w - t, 0), t, i);
    if i >= t {
      BitNot(w - t, 0, i - t);
      BitZero(i - t);
    }
  }
}
