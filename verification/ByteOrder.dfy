/** The byte-swapped variants that `bitfield.h` generates (`be16_*`, `be32_*`, `be64_*` on a
    little-endian machine): the register is stored swapped, the field is given unswapped. */
module ByteOrder {
  import opened Words
  import opened Bitfield

  /** Byte swap of a word of `k` bytes. */
  function Swab(k: nat, x: nat): nat
  {
    if k == 0 then 0 else Low(x, 8) * Pow2(8 * (k - 1)) + Swab(k - 1, Shr(x, 8))
  }

  /** Where bit `i` comes from. */
  function Mirror(k: nat, i: nat): (j: nat)
    requires i < 8 * k
    ensures j < 8 * k
  {
    8 * (k - 1 - i / 8) + i % 8
  }

  lemma {:induction false} MirrorTwice(k: nat, i: nat)
    requires i < 8 * k
    ensures Mirror(k, Mirror(k, i)) == i
  {
  }

  lemma {:induction false} SwabFits(k: nat, x: nat)
    ensures Swab(k, x) < Pow2(8 * k)
  {
    if k > 0 {
      SwabFits(k - 1, Shr(x, 8));
      var p := Pow2(8 * (k - 1));
      Pow2Add(8, 8 * (k - 1));
      MulMono(Low(x, 8), Pow2(8) - 1, p);
      Distribute(Pow2(8), 1, p);
    }
  }

  lemma {:induction false} JoinedBit(hi: nat, lo: nat, s: nat, i: nat)
    requires lo < Pow2(s)
    ensures hi * Pow2(s) >= 0 && (Bit(hi * Pow2(s) + lo, i) <==> if i < s then Bit(lo, i) else Bit(hi, i - s))
  {
    var x := hi * Pow2(s) + lo;
    MultipleMod(hi, Pow2(s), lo);
    if i < s { BitMod(x, s, i); } else { BitShr(x, s, i - s); }
  }

  lemma {:induction false} SwabBit(k: nat, x: nat, i: nat)
    requires i < 8 * k
    ensures Bit(Swab(k, x), i) <==> Bit(x, Mirror(k, i))
  {
    var s, lo, up := 8 * (k - 1), Low(x, 8), Shr(x, 8);
    var r := Swab(k - 1, up);
    SwabFits(k - 1, up);
    JoinedBit(lo, r, s, i);
    MirrorStep(k, i);
    if i < s {
      SwabBit(k - 1, up, i);
      BitShr(x, 8, Mirror(k - 1, i));
    } else {
      BitMod(x, 8, i - s);
    }
  }

  lemma {:induction false} MirrorStep(k: nat, i: nat)
    requires i < 8 * k
    ensures Mirror(k, i) == if i < 8 * (k - 1) then Mirror(k - 1, i) + 8 else i - 8 * (k - 1)
  {
  }

  lemma {:induction false} ByteBit(x: nat, s: nat, i: nat)
    ensures Bit(Low(Shr(x, s), 8), i) <==> i < 8 && Bit(x, i + s)
  {
    BitMod(Shr(x, s), 8, i);
    BitShr(x, s, i);
  }

  lemma {:induction false} MirrorInByte(k: nat, b: nat, i: nat)
    requires b < k && i < 8
    ensures i + 8 * b < 8 * k && Mirror(k, i + 8 * b) == i + 8 * (k - 1 - b)
  {
    assert (i + 8 * b) / 8 == b && (i + 8 * b) % 8 == i;
  }

  /** Byte `b` of the result is byte `k - 1 - b` of the word. */
  lemma {:induction false} SwabBytes(k: nat, x: nat, b: nat)
    requires b < k
    ensures Low(Shr(Swab(k, x), 8 * b), 8) == Low(Shr(x, 8 * (k - 1 - b)), 8)
  {
    var y, s, t := Swab(k, x), 8 * b, 8 * (k - 1 - b);
    forall i: nat ensures Bit(Low(Shr(y, s), 8), i) <==> Bit(Low(Shr(x, t), 8), i) {
      ByteBit(y, s, i);
      ByteBit(x, t, i);
      if i < 8 {
        MirrorInByte(k, b, i);
        SwabBit(k, x, i + s);
      }
    }
    BitsDetermine(Low(Shr(y, s), 8), Low(Shr(x, t), 8));
  }

  /** Swapping twice is the identity on words of `k` bytes. */
  lemma {:induction false} SwabTwice(k: nat, x: nat)
    requires x < Pow2(8 * k)
    ensures Swab(k, Swab(k, x)) == x
  {
    forall i: nat ensures Bit(Swab(k, Swab(k, x)), i) <==> Bit(x, i) {
      if i < 8 * k {
        SwabBit(k, Swab(k, x), i);
        SwabBit(k, x, Mirror(k, i));
        MirrorTwice(k, i);
      } else {
        SwabFits(k, Swab(k, x));
        BitBeyond(x, 8 * k, i);
        BitBeyond(Swab(k, Swab(k, x)), 8 * k, i);
      }
    }
    BitsDetermine(Swab(k, Swab(k, x)), x);
  }

  /** `be*_replace_bits`: both the mask and the encoded value are swapped. */
  function BeReplaceBits(k: nat, orig: nat, v: nat, field: nat): nat
    requires 0 < field < Pow2(8 * k)
  {
    Or(AndNot(orig, Swab(k, field)), Swab(k, EncodeBits(8 * k, v, field)))
  }

  /** `be*_get_bits` */
  function BeGetBits(k: nat, v: nat, field: nat): nat
    requires 0 < field < Pow2(8 * k)
  {
    GetBits(8 * k, Swab(k, v), field)
  }

  lemma {:induction false} ReplaceFits(w: nat, orig: nat, v: nat, field: nat, i: nat)
    requires 0 < field < Pow2(w) && GoodMask(w, field) && orig < Pow2(w) && i >= w
    ensures !Bit(ReplaceBits(w, orig, v, field), i)
  {
    ReplacedBit(w, orig, v, field, i);
    BitBeyond(field, w, i);
    BitBeyond(orig, w, i);
  }

  /** The swapped operation is the plain one on the register as the CPU reads it. */
  lemma {:induction false} BeReplaceIsReplace(k: nat, orig: nat, v: nat, field: nat)
    requires 0 < field < Pow2(8 * k) && GoodMask(8 * k, field) && orig < Pow2(8 * k)
    ensures Swab(k, BeReplaceBits(k, orig, v, field)) == ReplaceBits(8 * k, Swab(k, orig), v, field)
  {
    var enc, r := EncodeBits(8 * k, v, field), BeReplaceBits(k, orig, v, field);
    var plain := ReplaceBits(8 * k, Swab(k, orig), v, field);
    forall i: nat ensures Bit(Swab(k, r), i) <==> Bit(plain, i) {
      if i < 8 * k {
        var j := Mirror(k, i);
        MirrorTwice(k, i);
        SwabBit(k, r, i);
        BitOr(AndNot(orig, Swab(k, field)), Swab(k, enc), j);
        BitAndNot(orig, Swab(k, field), j);
        SwabBit(k, field, j);
        SwabBit(k, enc, j);
        SwabBit(k, orig, i);
        BitOr(AndNot(Swab(k, orig), field), enc, i);
        BitAndNot(Swab(k, orig), field, i);
      } else {
        SwabFits(k, r);
        BitBeyond(Swab(k, r), 8 * k, i);
        SwabFits(k, orig);
        ReplaceFits(8 * k, Swab(k, orig), v, field, i);
      }
    }
    BitsDetermine(Swab(k, r), plain);
  }

  /** Reading back through the swap gives the value cut to the field. */
  lemma {:induction false} BeGetAfterReplace(k: nat, orig: nat, v: nat, field: nat)
    requires 0 < field < Pow2(8 * k) && GoodMask(8 * k, field) && orig < Pow2(8 * k)
    ensures BeGetBits(k, BeReplaceBits(k, orig, v, field), field) == And(v, FieldMask(8 * k, field))
  {
    BeReplaceIsReplace(k, orig, v, field);
    GetAfterReplace(8 * k, Swab(k, orig), v, field);
  }
}
