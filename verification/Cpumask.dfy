/** `get_cpu_mask` of `cpumask.h`: every single-CPU mask is a window into one constant table
    whose rows overlap. */
module Cpumask {
  import opened Words

  /** `BITS_TO_LONGS` for words of `b` bits. */
  function BitsToLongs(nr: nat, b: nat): nat
    requires b > 0
  {
    Quot(nr + b - 1, b)
  }

  /** The flattened `cpu_bit_bitmap[b + 1][l]`: row 0 is empty, row `r` has bit `r - 1` in its
      first word and nothing else. */
  function Entry(l: nat, i: nat): nat
    requires l > 0
  {
    if i >= l && i % l == 0 then Pow2(Quot(i - l, l)) else 0
  }

  ghost predicate CpuBitBitmap(table: seq<nat>, b: nat, l: nat) {
    l > 0 && |table| == (b + 1) * l && forall i :: 0 <= i < |table| ==> table[i] == Entry(l, i)
  }

  /** Bit `k` of a bitmap stored in words of `b` bits. */
  predicate BitmapBit(words: seq<nat>, b: nat, k: nat)
    requires b > 0
  {
    var j := Quot(k, b);
    j < |words| && Bit(words[j], k % b)
  }

  /** The index the pointer arithmetic of `get_cpu_mask` arrives at. */
  function Window(b: nat, l: nat, cpu: nat): int
    requires b > 0
  {
    (1 + cpu % b) * l - Quot(cpu, b)
  }

  lemma {:induction false} WordOfCpu(nr: nat, b: nat, cpu: nat)
    requires b > 0 && cpu < nr
    ensures Quot(cpu, b) < BitsToLongs(nr, b)
  {
    QuotientBracket(cpu, b);
    QuotientBracket(nr + b - 1, b);
    var q, l := Quot(cpu, b), BitsToLongs(nr, b);
    if l <= q {
      MulMono(l + 1, q + 1, b);
      Distribute(q, -1, b);
    }
  }

  /** Around the start of row `c + 1`, the only entry in reach is the row's first word. */
  lemma {:induction false} EntryNearRow(l: nat, c: nat, q: nat, j: nat)
    requires q < l && j < l
    ensures var i := (1 + c) * l - q + j; i >= 0 && Entry(l, i) == if j == q then Pow2(c) else 0
  {
    Distribute(1, c, l);
    var i := (1 + c) * l - q + j;
    MulMono(0, c, l);
    if j >= q {
      MultipleMod(1 + c, l, j - q);
      if j == q { MultipleMod(c, l, 0); }
    } else {
      MultipleMod(c, l, l - (q - j));
    }
  }

  /** The window stays inside the table, although it starts in the row below. */
  lemma {:induction false} WindowInside(b: nat, l: nat, cpu: nat)
    requires b > 0 && Quot(cpu, b) < l
    ensures 0 <= Window(b, l, cpu) && Window(b, l, cpu) + l <= (b + 1) * l
  {
    MulMono(1, 1 + cpu % b, l);
    MulMono(1 + cpu % b, b, l);
    Distribute(b, -1, l);
  }

  /** `get_cpu_mask(cpu)` is the mask with exactly bit `cpu`. */
  lemma {:induction false} GetCpuMask(table: seq<nat>, nr: nat, b: nat, cpu: nat, k: nat)
    requires b > 0 && cpu < nr && CpuBitBitmap(table, b, BitsToLongs(nr, b))
    requires k < b * BitsToLongs(nr, b)
    ensures var l, p := BitsToLongs(nr, b), Window(b, BitsToLongs(nr, b), cpu);
            0 <= p && p + l <= |table| && (BitmapBit(table[p..p + l], b, k) <==> k == cpu)
  {
    var l := BitsToLongs(nr, b);
    var p, q, c := Window(b, l, cpu), Quot(cpu, b), cpu % b;
    WordOfCpu(nr, b, cpu);
    WindowInside(b, l, cpu);
    var j := Quot(k, b);
    QuotientBracket(k, b);
    QuotientBracket(cpu, b);
    if j < l {
      EntryNearRow(l, c, q, j);
      assert table[p..p + l][j] == table[p + j] == Entry(l, p + j);
      BitPow2(c, k % b);
      BitZero(k % b);
    } else {
      MulMono(l, j, b);
    }
  }

  /** `cpu_none_mask` is row 0: no bit is set. */
  lemma {:induction false} CpuNoneMask(table: seq<nat>, b: nat, l: nat, k: nat)
    requires b > 0 && CpuBitBitmap(table, b, l)
    ensures l <= |table| && !BitmapBit(table[..l], b, k)
  {
    MulMono(1, b + 1, l);
    BitZero(k % b);
  }
}
