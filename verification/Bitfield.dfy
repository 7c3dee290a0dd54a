/** `bitfield.h`: packing values into fields of a register by multiplication and division,
    and the same by shifts. A field is given by its mask; `w` is the width of the words. */
module Bitfield {
  import opened Words

  // ----- the expressions of the source

  /** `field | (field - 1)`: the mask with the zeros below it filled. */
  function Filled(field: nat): nat
    requires field > 0
  {
    Or(field, field - 1)
  }

  /** The check of `field_multiplier`; a mask that fails it does not compile. */
  predicate GoodMask(w: nat, field: nat)
    requires field > 0
  {
    And(Filled(field), Low(Filled(field) + 1, w)) == 0
  }

  /** The check of the shift forms, `__BUILD_BUG_ON_NOT_POWER_OF_2(mask + (1 << shift))`. */
  predicate PowerOfTwoAbove(w: nat, field: nat)
    requires field > 0
  {
    var n := Low(field + Pow2(Ffs(field)), w);
    And(n, Low(n + (Pow2(w) - 1), w)) == 0
  }

  /** `field_multiplier` */
  function Multiplier(w: nat, field: nat): (m: nat)
    requires 0 < field < Pow2(w)
    ensures m == Pow2(Ffs(field))
  {
    AndNeg(w, field);
    And(field, Neg(w, field))
  }

  /** `field_mask` */
  function FieldMask(w: nat, field: nat): nat
    requires 0 < field < Pow2(w)
  {
    Quot(field, Multiplier(w, field))
  }

  /** `*_encode_bits` */
  function EncodeBits(w: nat, v: nat, field: nat): nat
    requires 0 < field < Pow2(w)
  {
    And(v, FieldMask(w, field)) * Multiplier(w, field)
  }

  /** `*_replace_bits` */
  function ReplaceBits(w: nat, orig: nat, v: nat, field: nat): nat
    requires 0 < field < Pow2(w)
  {
    Or(AndNot(orig, field), EncodeBits(w, v, field))
  }

  /** `*_get_bits` */
  function GetBits(w: nat, v: nat, field: nat): nat
    requires 0 < field < Pow2(w)
  {
    Quot(And(v, field), Multiplier(w, field))
  }

  /** `FIELD_PREP`: shift up, drop what leaves the word, mask. */
  function FieldPrep(w: nat, mask: nat, v: nat): nat
    requires mask > 0
  {
    And(Low(v * Pow2(Ffs(mask)), w), mask)
  }

  /** `FIELD_GET`: mask, shift down. */
  function FieldGet(mask: nat, reg: nat): nat
    requires mask > 0
  {
    Shr(And(reg, mask), Ffs(mask))
  }

  // ----- which masks are accepted

  /** `n` ones starting at bit `a`. */
  ghost predicate Contiguous(field: nat, a: nat, n: nat) {
    n > 0 && field == (Pow2(n) - 1) * Pow2(a)
  }

  lemma {:induction false} ContiguousBits(field: nat, a: nat, n: nat, i: nat)
    requires Contiguous(field, a, n)
    ensures Bit(field, i) <==> a <= i < a + n
  {
    BitShl(Pow2(n) - 1, a, i);
    if i >= a {
      BitNot(n, 0, i - a);
      BitZero(i - a);
    }
  }

  lemma {:induction false} FilledIsSum(field: nat)
    requires field > 0
    ensures Filled(field) + 1 == field + Pow2(Ffs(field))
  {
    if field % 2 == 1 {
      OrPredecessor(field);
    } else {
      FilledIsSum(field / 2);
      assert (field - 1) / 2 == field / 2 - 1;
    }
  }

  lemma {:induction false} OrPredecessor(x: nat)
    requires x % 2 == 1
    ensures Or(x, x - 1) == x
  {
    if x > 1 { OrSelf(x / 2); }
  }

  lemma {:induction false} OrSelf(x: nat)
    ensures Or(x, x) == x
  {
    if x > 0 { OrSelf(x / 2); }
  }

  /** One past the filled mask: at most the first power of two that does not fit the word. */
  lemma {:induction false} AboveFits(w: nat, field: nat) returns (c: nat)
    requires 0 < field < Pow2(w)
    ensures var a := Ffs(field); a < w && field == c * Pow2(a) && field + Pow2(a) == (c + 1) * Pow2(a) <= Pow2(w)
  {
    AndNeg(w, field);
    var a := Ffs(field);
    c := LowBitDivides(field);
    Distribute(c, 1, Pow2(a));
    Pow2Add(w - a, a);
    if c >= Pow2(w - a) { MulMono(Pow2(w - a), c, Pow2(a)); }
    MulMono(c + 1, Pow2(w - a), Pow2(a));
  }

  lemma {:induction false} AboveAtMost(w: nat, field: nat)
    requires 0 < field < Pow2(w)
    ensures field + Pow2(Ffs(field)) <= Pow2(w)
  {
    var c := AboveFits(w, field);
  }

  /** Both checks ask whether one past the filled mask is a power of two, counting the one
      that no longer fits the word. */
  lemma {:induction false} ChecksTestPower(w: nat, field: nat)
    requires 0 < field < Pow2(w)
    ensures var g := field + Pow2(Ffs(field));
            && (GoodMask(w, field) <==> g == Pow2(Ilog2(g)))
            && (PowerOfTwoAbove(w, field) <==> GoodMask(w, field))
  {
    var g := field + Pow2(Ffs(field));
    AboveAtMost(w, field);
    FilledIsSum(field);
    if g < Pow2(w) {
      TestBelowTop(w, g);
    } else {
      TestAtTop(w);
    }
  }

  /** Both expressions on `g` and its predecessor, when `g` fits the word. */
  lemma {:induction false} TestBelowTop(w: nat, g: nat)
    requires 0 < g < Pow2(w)
    ensures Low(g, w) == g && Low(g + (Pow2(w) - 1), w) == g - 1
    ensures And(g - 1, g) == 0 <==> g == Pow2(Ilog2(g))
    ensures And(g, g - 1) == 0 <==> g == Pow2(Ilog2(g))
  {
    MultipleMod(0, Pow2(w), g);
    MultipleMod(1, Pow2(w), g - 1);
    PowerOfTwoTest(g);
    AndCommutes(g - 1, g);
  }

  /** ... and when `g` is the first power of two that does not fit. */
  lemma {:induction false} TestAtTop(w: nat)
    ensures Low(Pow2(w), w) == 0 && Pow2(w) == Pow2(Ilog2(Pow2(w)))
    ensures And(Pow2(w) - 1, 0) == 0 && And(0, Low(0 + (Pow2(w) - 1), w)) == 0
  {
    MultipleMod(1, Pow2(w), 0);
    Ilog2OfPow2(w);
  }

  lemma {:induction false} AndCommutes(x: nat, y: nat)
    ensures And(x, y) == And(y, x)
  {
    if x != 0 && y != 0 { AndCommutes(x / 2, y / 2); }
  }

  /** The mask check accepts exactly the contiguous runs of ones. */
  lemma {:induction false} GoodMaskIffContiguous(w: nat, field: nat)
    requires 0 < field < Pow2(w)
    ensures GoodMask(w, field) <==> exists n: nat :: Contiguous(field, Ffs(field), n)
    ensures PowerOfTwoAbove(w, field) <==> GoodMask(w, field)
  {
    ChecksTestPower(w, field);
    if GoodMask(w, field) { var n := Shape(w, field); }
    if exists n: nat :: Contiguous(field, Ffs(field), n) {
      var n: nat :| Contiguous(field, Ffs(field), n);
      var a := Ffs(field);
      Distribute(Pow2(n), 1, Pow2(a));
      Pow2Add(n, a);
      Ilog2OfPow2(n + a);
    }
  }

  lemma {:induction false} Shape(w: nat, field: nat) returns (n: nat)
    requires 0 < field < Pow2(w) && GoodMask(w, field)
    ensures Contiguous(field, Ffs(field), n) && FieldMask(w, field) == Pow2(n) - 1
    ensures Ffs(field) + n <= w
  {
    ChecksTestPower(w, field);
    var a := Ffs(field);
    AboveAtMost(w, field);
    var g := field + Pow2(a);
    var k := Ilog2(g);
    if k <= a { if k < a { Pow2Mono(k, a); } }
    n := k - a;
    Pow2Add(n, a);
    Distribute(Pow2(n), 1, Pow2(a));
    MultipleMod(Pow2(n) - 1, Pow2(a), 0);
    if k > w { Pow2Mono(w, k); }
  }

  // ----- the operations, bit by bit

  lemma {:induction false} EncodedBit(w: nat, v: nat, field: nat, n: nat, i: nat)
    requires 0 < field < Pow2(w) && Contiguous(field, Ffs(field), n) && FieldMask(w, field) == Pow2(n) - 1
    ensures var a := Ffs(field); Bit(EncodeBits(w, v, field), i) <==> a <= i < a + n && Bit(v, i - a)
  {
    var a := Ffs(field);
    BitShl(And(v, Pow2(n) - 1), a, i);
    if i >= a {
      BitAnd(v, Pow2(n) - 1, i - a);
      BitNot(n, 0, i - a);
      BitZero(i - a);
    }
  }

  lemma {:induction false} GotBit(w: nat, v: nat, field: nat, n: nat, i: nat)
    requires 0 < field < Pow2(w) && Contiguous(field, Ffs(field), n)
    ensures Bit(GetBits(w, v, field), i) <==> i < n && Bit(v, i + Ffs(field))
  {
    var a := Ffs(field);
    BitShr(And(v, field), a, i);
    BitAnd(v, field, i + a);
    ContiguousBits(field, a, n, i + a);
  }

  /** Inside the field the value, outside the old register. */
  lemma {:induction false} ReplacedBit(w: nat, orig: nat, v: nat, field: nat, i: nat)
    requires 0 < field < Pow2(w) && GoodMask(w, field)
    ensures Bit(ReplaceBits(w, orig, v, field), i) <==>
            if Bit(field, i) then i >= Ffs(field) && Bit(v, i - Ffs(field)) else Bit(orig, i)
  {
    var n := Shape(w, field);
    BitOr(AndNot(orig, field), EncodeBits(w, v, field), i);
    BitAndNot(orig, field, i);
    EncodedBit(w, v, field, n, i);
    ContiguousBits(field, Ffs(field), n, i);
  }

  // ----- the laws

  /** Reading a field back gives the value cut to the field. */
  lemma {:induction false} GetAfterReplace(w: nat, orig: nat, v: nat, field: nat)
    requires 0 < field < Pow2(w) && GoodMask(w, field)
    ensures GetBits(w, ReplaceBits(w, orig, v, field), field) == And(v, FieldMask(w, field))
  {
    var n := Shape(w, field);
    var a, r := Ffs(field), ReplaceBits(w, orig, v, field);
    forall i: nat ensures Bit(GetBits(w, r, field), i) <==> Bit(And(v, Pow2(n) - 1), i) {
      GotBit(w, r, field, n, i);
      ReplacedBit(w, orig, v, field, i + a);
      ContiguousBits(field, a, n, i + a);
      BitAnd(v, Pow2(n) - 1, i);
      BitNot(n, 0, i);
      BitZero(i);
    }
    BitsDetermine(GetBits(w, r, field), And(v, Pow2(n) - 1));
  }

  /** Writing back what was read changes nothing. */
  lemma {:induction false} ReplaceWithGot(w: nat, orig: nat, field: nat)
    requires 0 < field < Pow2(w) && GoodMask(w, field)
    ensures ReplaceBits(w, orig, GetBits(w, orig, field), field) == orig
  {
    var n := Shape(w, field);
    var a, v := Ffs(field), GetBits(w, orig, field);
    forall i: nat ensures Bit(ReplaceBits(w, orig, v, field), i) <==> Bit(orig, i) {
      ReplacedBit(w, orig, v, field, i);
      ContiguousBits(field, a, n, i);
      if i >= a { GotBit(w, orig, field, n, i - a); }
    }
    BitsDetermine(ReplaceBits(w, orig, v, field), orig);
  }

  /** The last write to a field wins. */
  lemma {:induction false} ReplaceTwice(w: nat, orig: nat, u: nat, v: nat, field: nat)
    requires 0 < field < Pow2(w) && GoodMask(w, field)
    ensures ReplaceBits(w, ReplaceBits(w, orig, u, field), v, field) == ReplaceBits(w, orig, v, field)
  {
    var once := ReplaceBits(w, orig, u, field);
    forall i: nat ensures Bit(ReplaceBits(w, once, v, field), i) <==> Bit(ReplaceBits(w, orig, v, field), i) {
      ReplacedBit(w, once, v, field, i);
      ReplacedBit(w, orig, v, field, i);
      ReplacedBit(w, orig, u, field, i);
    }
    BitsDetermine(ReplaceBits(w, once, v, field), ReplaceBits(w, orig, v, field));
  }

  lemma {:induction false} DisjointAt(f: nat, g: nat, i: nat)
    requires And(f, g) == 0
    ensures !(Bit(f, i) && Bit(g, i))
  {
    BitAnd(f, g, i);
    BitZero(i);
  }

  /** Writes to disjoint fields commute, and each leaves the other field's value alone. */
  lemma {:induction false} DisjointReplacesCommute(w: nat, orig: nat, u: nat, f: nat, v: nat, g: nat)
    requires 0 < f < Pow2(w) && GoodMask(w, f) && 0 < g < Pow2(w) && GoodMask(w, g) && And(f, g) == 0
    ensures ReplaceBits(w, ReplaceBits(w, orig, u, f), v, g) == ReplaceBits(w, ReplaceBits(w, orig, v, g), u, f)
    ensures GetBits(w, ReplaceBits(w, orig, u, f), g) == GetBits(w, orig, g)
  {
    var p, q := ReplaceBits(w, orig, u, f), ReplaceBits(w, orig, v, g);
    forall i: nat ensures Bit(ReplaceBits(w, p, v, g), i) <==> Bit(ReplaceBits(w, q, u, f), i) {
      ReplacedBit(w, p, v, g, i);
      ReplacedBit(w, q, u, f, i);
      ReplacedBit(w, orig, u, f, i);
      ReplacedBit(w, orig, v, g, i);
      DisjointAt(f, g, i);
    }
    BitsDetermine(ReplaceBits(w, p, v, g), ReplaceBits(w, q, u, f));
    var n := Shape(w, g);
    forall i: nat ensures Bit(GetBits(w, p, g), i) <==> Bit(GetBits(w, orig, g), i) {
      GotBit(w, p, g, n, i);
      GotBit(w, orig, g, n, i);
      ContiguousBits(g, Ffs(g), n, i + Ffs(g));
      ReplacedBit(w, orig, u, f, i + Ffs(g));
      DisjointAt(f, g, i + Ffs(g));
    }
    BitsDetermine(GetBits(w, p, g), GetBits(w, orig, g));
  }

  /** The multiply and divide forms are the shift forms. */
  lemma {:induction false} FormsAgree(w: nat, field: nat, v: nat)
    requires 0 < field < Pow2(w) && GoodMask(w, field)
    ensures FieldPrep(w, field, v) == EncodeBits(w, v, field)
    ensures FieldGet(field, v) == GetBits(w, v, field)
  {
    var n := Shape(w, field);
    var a := Ffs(field);
    forall i: nat ensures Bit(FieldPrep(w, field, v), i) <==> Bit(EncodeBits(w, v, field), i) {
      BitAnd(Low(v * Pow2(a), w), field, i);
      BitMod(v * Pow2(a), w, i);
      BitShl(v, a, i);
      ContiguousBits(field, a, n, i);
      EncodedBit(w, v, field, n, i);
    }
    BitsDetermine(FieldPrep(w, field, v), EncodeBits(w, v, field));
  }

  class Register {
    var value: nat

    /** `*p_replace_bits` */
    method ReplaceField(w: nat, v: nat, field: nat)
      requires 0 < field < Pow2(w) && GoodMask(w, field)
      modifies this
      ensures value == ReplaceBits(w, old(value), v, field)
      ensures GetBits(w, value, field) == And(v, FieldMask(w, field))
    {
      GetAfterReplace(w, value, v, field);
      value := Or(AndNot(value, field), EncodeBits(w, v, field));
    }
  }
}
