/** `kfifo.c`: fifos with an external buffer of bytes, and the bulk calls that copy many
    elements at once, in two pieces where they cross the end of the buffer. */
module KfifoBulk {
  import opened Words
  import opened Kfifo

  type Byte = x: nat | x < 256

  // ----- bytes and elements

  /** `d` with `s` written over it from `at` on. */
  function Splice<T>(d: seq<T>, at: nat, s: seq<T>): (r: seq<T>)
    requires at + |s| <= |d|
    ensures |r| == |d|
  {
    d[..at] + s + d[at + |s|..]
  }

  /** The number of bytes of `k` elements; a sum, so that reasoning about it stays linear. */
  function Bytes(k: nat, esize: nat): nat {
    if k == 0 then 0 else esize + Bytes(k - 1, esize)
  }

  lemma {:induction false} BytesIsProduct(k: nat, esize: nat)
    ensures Bytes(k, esize) == k * esize
  {
    if k > 0 {
      BytesIsProduct(k - 1, esize);
      Distribute(k, 1, esize);
    }
  }

  lemma {:induction false} BytesAdd(k: nat, m: nat, esize: nat)
    ensures Bytes(k + m, esize) == Bytes(k, esize) + Bytes(m, esize)
  {
    if k > 0 { BytesAdd(k - 1, m, esize); }
  }

  lemma {:induction false} BytesBelow(k: nat, count: nat, esize: nat)
    requires k < count
    ensures Bytes(k, esize) + esize <= Bytes(count, esize)
  {
    BytesAdd(k + 1, count - k - 1, esize);
  }

  /** Element `k` of `esize` bytes. */
  function Cell(d: seq<Byte>, k: nat, esize: nat): seq<Byte> {
    var i := Bytes(k, esize);
    if i + esize <= |d| then d[i..i + esize] else []
  }

  /** Byte `j` of element `k` is byte `k * esize + j` of the buffer. */
  lemma {:induction false} CellBytes(d: seq<Byte>, count: nat, esize: nat, k: nat)
    requires k < count && Bytes(count, esize) <= |d|
    ensures |Cell(d, k, esize)| == esize && 0 <= k * esize && k * esize + esize <= |d|
    ensures forall j :: 0 <= j < esize ==> Cell(d, k, esize)[j] == d[k * esize + j]
    ensures Cells(d, count, esize)[k] == Cell(d, k, esize)
  {
    BytesBelow(k, count, esize);
    BytesIsProduct(k, esize);
  }

  /** The first `count` elements. */
  function Cells(d: seq<Byte>, count: nat, esize: nat): (c: seq<seq<Byte>>)
    ensures |c| == count
  {
    seq(count, k requires 0 <= k => Cell(d, k, esize))
  }

  lemma {:induction false} SliceOfSum<T>(s: seq<T>, t: seq<T>, i: nat, n: nat)
    requires i + n <= |s| + |t|
    ensures i + n <= |s| ==> (s + t)[i..i + n] == s[i..i + n]
    ensures |s| <= i ==> (s + t)[i..i + n] == t[i - |s|..i - |s| + n]
  {
  }

  lemma {:induction false} CellInFirst(s: seq<Byte>, m: nat, t: seq<Byte>, esize: nat, k: nat)
    requires |s| == Bytes(m, esize) && k < m
    ensures Cell(s + t, k, esize) == Cell(s, k, esize)
  {
    BytesBelow(k, m, esize);
    SliceOfSum(s, t, Bytes(k, esize), esize);
  }

  lemma {:induction false} CellInSecond(s: seq<Byte>, m: nat, t: seq<Byte>, esize: nat, k: nat)
    requires |s| == Bytes(m, esize)
    ensures Cell(s + t, m + k, esize) == Cell(t, k, esize)
  {
    BytesAdd(m, k, esize);
    var i := Bytes(k, esize);
    if i + esize <= |t| { SliceOfSum(s, t, |s| + i, esize); }
  }

  lemma {:induction false} CellsConcat(s: seq<Byte>, m: nat, t: seq<Byte>, n: nat, esize: nat)
    requires |s| == Bytes(m, esize)
    ensures Cells(s + t, m + n, esize) == Cells(s, m, esize) + Cells(t, n, esize)
  {
    var left, right := Cells(s + t, m + n, esize), Cells(s, m, esize) + Cells(t, n, esize);
    forall k | 0 <= k < m + n ensures left[k] == right[k] {
      if k < m { CellInFirst(s, m, t, esize, k); } else { CellInSecond(s, m, t, esize, k - m); }
    }
  }

  lemma {:induction false} BytesInThree(count: nat, esize: nat, x: nat, y: nat)
    requires x <= y <= count
    ensures Bytes(x, esize) <= Bytes(y, esize) <= Bytes(count, esize)
    ensures Bytes(y - x, esize) == Bytes(y, esize) - Bytes(x, esize)
    ensures Bytes(count - y, esize) == Bytes(count, esize) - Bytes(y, esize)
  {
    BytesAdd(x, y - x, esize);
    BytesAdd(y, count - y, esize);
  }

  /** A buffer cut at two element boundaries. */
  lemma {:induction false} CellsInThree(a: seq<Byte>, x: nat, b: seq<Byte>, y: nat, c: seq<Byte>, z: nat, esize: nat)
    requires |a| == Bytes(x, esize) && |b| == Bytes(y, esize)
    ensures Cells(a + b + c, x + y + z, esize) == Cells(a, x, esize) + Cells(b, y, esize) + Cells(c, z, esize)
  {
    BytesAdd(x, y, esize);
    CellsConcat(a, x, b, y, esize);
    CellsConcat(a + b, x + y, c, z, esize);
  }

  lemma {:induction false} SpliceMiddle<T>(a: seq<T>, b: seq<T>, c: seq<T>, s: seq<T>)
    requires |s| == |b|
    ensures Splice(a + b + c, |a|, s) == a + s + c
  {
  }

  /** Whole elements written over whole elements. */
  lemma {:induction false} SpliceCells(d: seq<Byte>, count: nat, esize: nat, o: nat, s: seq<Byte>, m: nat)
    requires Bytes(count, esize) <= |d| && |s| == Bytes(m, esize) && o + m <= count
    ensures Bytes(o, esize) + |s| <= |d|
    ensures Cells(Splice(d, Bytes(o, esize), s), count, esize) == Splice(Cells(d, count, esize), o, Cells(s, m, esize))
  {
    BytesInThree(count, esize, o, o + m);
    var i, j, z := Bytes(o, esize), Bytes(o + m, esize), count - o - m;
    var a, b, c := d[..i], d[i..j], d[j..];
    assert d == a + b + c;
    CellsInThree(a, o, b, m, c, z, esize);
    CellsInThree(a, o, s, m, c, z, esize);
    SpliceMiddle(a, b, c, s);
    SpliceMiddle(Cells(a, o, esize), Cells(b, m, esize), Cells(c, z, esize), Cells(s, m, esize));
  }

  /** Cutting at element boundaries. */
  lemma {:induction false} CellsOfSlice(d: seq<Byte>, count: nat, esize: nat, x: nat, y: nat)
    requires Bytes(count, esize) <= |d| && x <= y <= count
    ensures Bytes(x, esize) <= Bytes(y, esize) <= |d| && Bytes(y - x, esize) == Bytes(y, esize) - Bytes(x, esize)
    ensures Cells(d[Bytes(x, esize)..Bytes(y, esize)], y - x, esize) == Cells(d, count, esize)[x..y]
  {
    BytesInThree(count, esize, x, y);
    var i, j, z := Bytes(x, esize), Bytes(y, esize), count - y;
    var a, b, c := d[..i], d[i..j], d[j..];
    assert d == a + b + c;
    CellsInThree(a, x, b, y - x, c, z, esize);
    MiddleOfThree(Cells(a, x, esize), Cells(b, y - x, esize), Cells(c, z, esize));
  }

  lemma {:induction false} MiddleOfThree<T>(a: seq<T>, b: seq<T>, c: seq<T>)
    ensures (a + b + c)[|a|..|a| + |b|] == b
  {
  }

  // ----- where the two pieces go

  /** Byte offset and the lengths of the two copies. */
  datatype Plan = Plan(off: nat, first: nat, second: nat)

  /** The arithmetic of `kfifo_copy_in` and `kfifo_copy_out`, on 32-bit unsigned numbers. */
  function CopyPlan(mask: nat, esize: nat, len: nat, off: nat): Plan {
    var size := (mask + 1) % U32;
    var o := And(off, mask);
    var (o', size', len') :=
      if esize != 1 then (o * esize % U32, size * esize % U32, len * esize % U32) else (o, size, len);
    var l := Min(len', Minus32(size', o'));
    Plan(o', l, len' - l)
  }

  /** The same without wrap-around: up to the end of the buffer, then from its start. */
  function TruePlan(size: nat, esize: nat, len: nat, off: nat): Plan
    requires size > 0 && len <= size
  {
    var o := Slot(off, size);
    var first := Min(len, size - o);
    Plan(Bytes(o, esize), Bytes(first, esize), Bytes(len - first, esize))
  }

  lemma {:induction false} MinScaled(a: nat, b: nat, k: nat)
    ensures Min(a, b) * k == Min(a * k, b * k)
  {
    if a < b { MulMono(a, b, k); } else { MulMono(b, a, k); }
  }

  lemma {:induction false} MaskedOffset(order: nat, off: nat)
    requires 1 <= order <= 31 && off < U32
    ensures And(off, Pow2(order) - 1) == Slot(off, Pow2(order))
  {
    ModSmall(off, U32);
    SlotOfCounter(off, order);
  }

  /** The plan when none of the products wraps. */
  lemma {:induction false} PlanValue(mask: nat, esize: nat, len: nat, off: nat, o: nat, size: nat, n: nat)
    requires mask + 1 < U32 && And(off, mask) * esize == o <= size && (mask + 1) * esize == size < U32
    requires len * esize == n < U32
    ensures CopyPlan(mask, esize, len, off) == Plan(o, Min(n, size - o), n - Min(n, size - o))
  {
    ModSmall(mask + 1, U32);
    ModSmall(o, U32);
    ModSmall(size, U32);
    ModSmall(n, U32);
    ModSmall(size - o, U32);
  }

  lemma {:induction false} ScaledProducts(size: nat, esize: nat, len: nat, o: nat)
    requires len <= size && o < size && esize > 0
    ensures size <= size * esize && len * esize <= size * esize && 0 <= o * esize <= size * esize
    ensures Min(len, size - o) * esize == Min(len * esize, size * esize - o * esize)
    ensures (len - Min(len, size - o)) * esize == len * esize - Min(len, size - o) * esize
  {
    MulMono(len, size, esize);
    MulMono(o, size, esize);
    MulMono(0, o, esize);
    MulMono(0, len, esize);
    MulMono(1, esize, size);
    Distribute(size, o, esize);
    MinScaled(len, size - o, esize);
    Distribute(len, Min(len, size - o), esize);
  }

  lemma {:induction false} PlanRight(order: nat, esize: nat, len: nat, off: nat)
    requires 1 <= order <= 31 && esize > 0 && off < U32 && len <= Pow2(order) && Pow2(order) * esize < U32
    ensures CopyPlan(Pow2(order) - 1, esize, len, off) == TruePlan(Pow2(order), esize, len, off)
  {
    var size := Pow2(order);
    var o := Slot(off, size);
    var first := Min(len, size - o);
    MaskedOffset(order, off);
    ScaledProducts(size, esize, len, o);
    PlanValue(size - 1, esize, len, off, o * esize, size * esize, len * esize);
    BytesIsProduct(o, esize);
    BytesIsProduct(first, esize);
    BytesIsProduct(len - first, esize);
  }

  ghost predicate PlansRight(order: nat, esize: nat) {
    forall len: nat, off: nat :: len <= Pow2(order) && off < U32 ==>
      CopyPlan(Pow2(order) - 1, esize, len, off) == TruePlan(Pow2(order), esize, len, off)
  }

  /** The bulk copies go where they should, for every offset and length, if and only if the
      buffer is shorter than 2^32 bytes. */
  lemma {:induction false} PlansRightIff(order: nat, esize: nat)
    requires 1 <= order <= 31 && 0 < esize < U32
    ensures PlansRight(order, esize) <==> Pow2(order) * esize < U32
  {
    var size := Pow2(order);
    if size * esize < U32 {
      forall len: nat, off: nat | len <= size && off < U32
        ensures CopyPlan(size - 1, esize, len, off) == TruePlan(size, esize, len, off)
      {
        PlanRight(order, esize, len, off);
      }
    } else {
      WholeBufferWraps(order, esize);
    }
  }

  /** Filling a longer buffer completely copies too few bytes. */
  lemma {:induction false} WholeBufferWraps(order: nat, esize: nat)
    requires 1 <= order <= 31 && 0 < esize && Pow2(order) * esize >= U32
    ensures CopyPlan(Pow2(order) - 1, esize, Pow2(order), 0) != TruePlan(Pow2(order), esize, Pow2(order), 0)
  {
    var size := Pow2(order);
    SizeFits(order);
    var plan := CopyPlan(size - 1, esize, size, 0);
    assert plan.first + plan.second == size * esize % U32;
    assert Slot(0, size) == 0;
    BytesIsProduct(size, esize);
    assert TruePlan(size, esize, size, 0) == Plan(0, size * esize, 0);
  }

  // ----- what the two pieces do to the ring

  /** `vs` written round the end of `d` from `o` on. */
  function Stored<T>(d: seq<T>, o: nat, vs: seq<T>): (r: seq<T>)
    requires o < |d| && |vs| <= |d|
  {
    var first := Min(|vs|, |d| - o);
    Splice(Splice(d, o, vs[..first]), 0, vs[first..])
  }

  /** `n` elements read round the end of `d` from `o` on. */
  function Loaded<T>(d: seq<T>, o: nat, n: nat): (r: seq<T>)
    requires o < |d| && n <= |d|
  {
    var first := Min(n, |d| - o);
    d[o..o + first] + d[..n - first]
  }

  function Around(i: nat, size: nat): nat {
    if i < size then i else i - size
  }

  lemma {:induction false} SlotPlus(c: nat, k: nat, size: nat)
    requires k < size
    ensures Slot(c + k, size) == Around(Slot(c, size) + k, size)
  {
    if c >= size { SlotPlus(c - size, k, size); }
  }

  lemma {:induction false} StoredAt<T>(d: seq<T>, o: nat, vs: seq<T>, k: nat)
    requires o < |d| && |vs| <= |d| && k < |d|
    ensures Around(o + k, |d|) < |d| && Stored(d, o, vs)[Around(o + k, |d|)]
         == if k < |vs| then vs[k] else d[Around(o + k, |d|)]
  {
  }

  /** How many slots after that of number `n` the one of number `i` comes, round the ring. */
  function Behind(n: nat, i: nat, size: nat): nat
    requires n <= size + i
  {
    if i >= n then i - n else size - n + i
  }

  lemma {:induction false} SlotBehind(out: nat, n: nat, i: nat, size: nat)
    requires n <= size && i < size
    ensures Slot(out + i, size) == Around(Slot(out + n, size) + Behind(n, i, size), size)
  {
    SlotPlus(out + n, Behind(n, i, size), size);
    if i < n { SlotOnce(out + i, size); }
  }

  lemma {:induction false} SlotOnce(c: nat, size: nat)
    requires size > 0
    ensures Slot(c + size, size) == Slot(c, size)
  {
  }

  lemma {:induction false} StoredBehind<T>(d: seq<T>, o: nat, vs: seq<T>, n: nat, i: nat, a: nat)
    requires o < |d| && n + |vs| <= |d| && i < n + |vs| && a < |d| && a == Around(o + Behind(n, i, |d|), |d|)
    ensures Stored(d, o, vs)[a] == if i < n then d[a] else vs[i - n]
  {
    StoredAt(d, o, vs, Behind(n, i, |d|));
  }

  /** The element under number `out + i` after storing behind number `out + n`. */
  lemma {:induction false} StoredElement<T>(d: seq<T>, out: nat, n: nat, vs: seq<T>, i: nat)
    requires n + |vs| <= |d| && i < n + |vs|
    ensures Stored(d, Slot(out + n, |d|), vs)[Slot(out + i, |d|)]
         == if i < n then d[Slot(out + i, |d|)] else vs[i - n]
  {
    SlotBehind(out, n, i, |d|);
    StoredBehind(d, Slot(out + n, |d|), vs, n, i, Slot(out + i, |d|));
  }

  /** Storing behind the last element appends all of `vs`, through the end of the buffer. */
  lemma {:induction false} ViewStored<T>(d: seq<T>, out: nat, n: nat, vs: seq<T>)
    requires |d| > 0 && n + |vs| <= |d|
    ensures View(Stored(d, Slot(out + n, |d|), vs), out, n + |vs|) == View(d, out, n) + vs
  {
    var r := Stored(d, Slot(out + n, |d|), vs);
    var left, right := View(r, out, n + |vs|), View(d, out, n) + vs;
    forall i | 0 <= i < n + |vs| ensures left[i] == right[i] {
      StoredElement(d, out, n, vs, i);
    }
  }

  lemma {:induction false} ViewStoredAt<T>(d: seq<T>, out: nat, n: nat, vs: seq<T>, o: nat)
    requires |d| > 0 && n + |vs| <= |d| && o == Slot(out + n, |d|)
    ensures View(Stored(d, o, vs), out, n + |vs|) == View(d, out, n) + vs
  {
    ViewStored(d, out, n, vs);
  }

  lemma {:induction false} ViewLoaded<T>(d: seq<T>, out: nat, n: nat)
    requires |d| > 0 && n <= |d|
    ensures Loaded(d, Slot(out, |d|), n) == View(d, out, n)
  {
    forall i | 0 <= i < n ensures Loaded(d, Slot(out, |d|), n)[i] == View(d, out, n)[i] {
      SlotPlus(out, i, |d|);
    }
  }

  lemma {:induction false} OldestLoaded<T>(d: seq<T>, out: nat, n: nat, k: nat)
    requires |d| > 0 && k <= n <= |d|
    ensures Loaded(d, Slot(out, |d|), k) == View(d, out, n)[..k]
  {
    ViewLoaded(d, out, k);
    assert View(d, out, k) == View(d, out, n)[..k];
  }

  lemma {:induction false} ViewSkips<T>(d: seq<T>, out: nat, n: nat, k: nat, order: nat)
    requires |d| == Pow2(order) && order <= 32 && k <= n
    ensures View(d, (out + k) % U32, n - k) == View(d, out, n)[k..]
  {
    forall i | 0 <= i < n - k ensures View(d, (out + k) % U32, n - k)[i] == View(d, out, n)[k..][i] {
      SlotAfterWrap(out + k, i, order);
    }
  }

  /** Both counters may move by many. */
  lemma {:induction false} CounterJump(inn: nat, out: nat, k: nat)
    requires inn < U32 && out < U32
    ensures k + Minus32(inn, out) < U32 ==> Minus32((inn + k) % U32, out) == Minus32(inn, out) + k
    ensures k <= Minus32(inn, out) ==> Minus32(inn, (out + k) % U32) == Minus32(inn, out) - k
  {
    Minus32Cases(inn, out);
    if k < U32 {
      Minus32Cases((inn + k) % U32, out);
      Minus32Cases(inn, (out + k) % U32);
    }
  }

  // ----- the fifo

  /** `memcpy` */
  method CopyBytes(dst: array<Byte>, at: nat, src: array<Byte>, from: nat, n: nat)
    requires dst != src && at + n <= dst.Length && from + n <= src.Length
    modifies dst
    ensures dst[..] == Splice(old(dst[..]), at, src[from..from + n])
  {
    for i := 0 to n
      invariant dst[..] == Splice(old(dst[..]), at, src[from..from + i])
    {
      dst[at + i] := src[from + i];
    }
  }

  const EINVAL: int := 22
  const ENOMEM: int := 12

  /** `rounddown_pow_of_two` */
  function RoundDown(n: nat): nat { Pow2(Ilog2(n)) }

  /** `roundup_pow_of_two` */
  function RoundUp(n: nat): nat { if n <= 1 then 1 else Pow2(Ilog2(n - 1) + 1) }

  /** The element sizes and buffers a working fifo can have. */
  ghost predicate Shaped(mask: nat, esize: nat, bytes: nat) {
    && 1 <= Ilog2(mask + 1) <= 31 && mask + 1 == Pow2(Ilog2(mask + 1))
    && 0 < esize < U32 && Bytes(mask + 1, esize) <= bytes
  }

  // ----- setting up

  /** Either way the count is the power of two below `size / esize`. */
  lemma {:induction false} CountDown(q: nat)
    requires q > 0
    ensures var n := if IsPowerOf2(q) then q else RoundDown(q);
            n == RoundDown(q) && n == Pow2(Ilog2(n)) && n <= q < 2 * n
  {
    Ilog2Brackets(q);
    PowerOfTwoTest(q);
    Ilog2OfPow2(Ilog2(q));
  }

  lemma {:induction false} RoundedDown(size: nat, esize: nat, n: nat)
    requires 0 < esize <= size < U32
    requires n == if IsPowerOf2(size / esize) then size / esize else RoundDown(size / esize)
    ensures n == Pow2(Ilog2(n)) && n <= size / esize < 2 * n && n * esize <= size
    ensures n >= 2 ==> Shaped(n - 1, esize, size)
  {
    var q := Quot(size, esize);
    QuotientBracket(size, esize);
    assert q > 0 by { if q == 0 { QuotientUnique(size, esize, 0); } }
    CountDown(q);
    assert n * esize <= size by { MulMono(n, q, esize); }
    assert n <= n * esize by { MulMono(1, esize, n); }
    BytesIsProduct(n, esize);
    if n >= 2 { OrderFits(n); }
  }

  lemma {:induction false} OrderFits(n: nat)
    requires 2 <= n < U32 && n == Pow2(Ilog2(n))
    ensures 1 <= Ilog2(n) <= 31
  {
    PowerOfTwoTest(n);
    PowerOfTwoOrder(n);
  }

  lemma {:induction false} RoundedUp(size: nat, esize: nat)
    requires 0 < size < U32 && 0 < esize < U32
    ensures var n := RoundUp(size) % U32;
            && (n < 2 <==> size == 1 || size > 0x8000_0000)
            && (n >= 2 ==> size <= n < 2 * size && Shaped(n - 1, esize, Bytes(n, esize)))
  {
    if size > 1 {
      var k := Ilog2(size - 1);
      Ilog2Brackets(size - 1);
      Ilog2OfPow2(k + 1);
      RoundedOrder(size, k);
      if k + 1 <= 31 {
        SizeFits(k + 1);
        ModSmall(Pow2(k + 1), U32);
      }
    }
  }

  lemma {:induction false} RoundedOrder(size: nat, k: nat)
    requires 1 < size < U32 && Pow2(k) <= size - 1 < 2 * Pow2(k)
    ensures k <= 31 && (k == 31 <==> size > 0x8000_0000) && (k == 31 ==> Pow2(k + 1) % U32 == 0)
  {
    Pow2Values();
    if k > 31 { Pow2Mono(31, k); }
    if k < 31 { Pow2Mono(k, 31); }
  }

  // ----- the copies, on elements

  /** `m` elements from `o` on and `n` from the start lie inside a buffer of `size`. */
  lemma {:induction false} PieceBounds(size: nat, esize: nat, o: nat, m: nat, n: nat)
    requires o + m <= size && n <= size
    ensures Bytes(o, esize) + Bytes(m, esize) <= Bytes(size, esize) && Bytes(n, esize) <= Bytes(size, esize)
    ensures Bytes(o + m, esize) == Bytes(o, esize) + Bytes(m, esize)
    ensures Bytes(m + n, esize) == Bytes(m, esize) + Bytes(n, esize)
  {
    BytesAdd(o, m, esize);
    BytesAdd(o + m, size - o - m, esize);
    BytesAdd(n, size - n, esize);
    BytesAdd(m, n, esize);
  }

  lemma {:induction false} CutInTwo(b: seq<Byte>, m: nat, len: nat, esize: nat, x: nat, y: nat)
    requires m <= len && x == Bytes(m, esize) && y == Bytes(len - m, esize) && x + y <= |b|
    ensures Cells(b[0..x], m, esize) == Cells(b, len, esize)[..m]
    ensures Cells(b[x..x + y], len - m, esize) == Cells(b, len, esize)[m..]
  {
    var p, q, rest := b[0..x], b[x..x + y], b[x + y..];
    assert b == p + q + rest;
    CellsInThree(p, m, q, len - m, rest, 0, esize);
  }

  /** The bytes of two pieces written into a buffer. */
  lemma {:induction false} StoredBytes(d: seq<Byte>, size: nat, esize: nat, o: nat, m: nat, len: nat,
                                       b: seq<Byte>, i: nat, x: nat, y: nat)
    requires m <= len <= size && o + m <= size && Bytes(size, esize) <= |d| && x + y <= |b|
    requires i == Bytes(o, esize) && x == Bytes(m, esize) && y == Bytes(len - m, esize) && i + x <= |d| && y <= |d|
    ensures Cells(Splice(Splice(d, i, b[0..x]), 0, b[x..x + y]), size, esize)
      == Splice(Splice(Cells(d, size, esize), o, Cells(b, len, esize)[..m]), 0, Cells(b, len, esize)[m..])
  {
    CutInTwo(b, m, len, esize, x, y);
    var d1 := Splice(d, i, b[0..x]);
    SpliceCells(d, size, esize, o, b[0..x], m);
    SpliceCells(d1, size, esize, 0, b[x..x + y], len - m);
  }

  lemma {:induction false} TwoHalves<T>(b: seq<T>, s: seq<T>, t: seq<T>)
    requires |b| >= |s| + |t|
    ensures Splice(Splice(b, 0, s), |s|, t) == s + t + b[|s| + |t|..]
  {
  }

  /** The bytes of two pieces read from a buffer. */
  lemma {:induction false} LoadedBytes(d: seq<Byte>, size: nat, esize: nat, o: nat, m: nat, len: nat,
                                       b: seq<Byte>, i: nat, x: nat, y: nat)
    requires m <= len <= size && o + m <= size && Bytes(size, esize) <= |d| && x + y <= |b|
    requires i == Bytes(o, esize) && x == Bytes(m, esize) && y == Bytes(len - m, esize) && i + x <= |d| && y <= |d|
    ensures var r, c := Splice(Splice(b, 0, d[i..i + x]), x, d[0..y]), Cells(d, size, esize);
            Cells(r, len, esize) == c[o..o + m] + c[..len - m] && r[x + y..] == b[x + y..]
  {
    var s, t, rest := d[i..i + x], d[0..y], b[x + y..];
    TwoHalves(b, s, t);
    CellsInThree(s, m, t, len - m, rest, 0, esize);
    assert Cells(s, m, esize) == Cells(d, size, esize)[o..o + m] by {
      BytesAdd(o, m, esize);
      CellsOfSlice(d, size, esize, o, o + m);
    }
    assert Cells(t, len - m, esize) == Cells(d, size, esize)[..len - m] by {
      BytesAdd(len - m, size - (len - m), esize);
      CutInTwo(d, len - m, size, esize, y, Bytes(size - (len - m), esize));
    }
  }

  lemma {:induction false} SlotOfIn(inn: nat, out: nat, order: nat)
    requires 1 <= order <= 31 && inn < U32 && out < U32
    ensures Slot(inn, Pow2(order)) == Slot(out + Minus32(inn, out), Pow2(order))
  {
    CounterStep(inn, out);
    SlotAfterWrap(out + Minus32(inn, out), 0, order);
  }

  /** The write counter names the slot behind the last element and can move by `k`. */
  lemma {:induction false} InCounter(mask: nat, esize: nat, bytes: nat, inn: nat, out: nat, k: nat)
    requires Shaped(mask, esize, bytes) && inn < U32 && out < U32 && Minus32(inn, out) + k <= mask + 1
    ensures Slot(inn, mask + 1) == Slot(out + Minus32(inn, out), mask + 1)
    ensures Minus32((inn + k) % U32, out) == Minus32(inn, out) + k
  {
    SizeFits(Ilog2(mask + 1));
    SlotOfIn(inn, out, Ilog2(mask + 1));
    CounterJump(inn, out, k);
  }

  /** Storing at the masked write counter and advancing it, seen on the elements. */
  lemma {:induction false} InStep<T>(d: seq<T>, mask: nat, esize: nat, bytes: nat, inn: nat, out: nat,
        vs: seq<T>, d': seq<T>)
    requires Shaped(mask, esize, bytes) && inn < U32 && out < U32 && Minus32(inn, out) + |vs| <= mask + 1 == |d|
    requires d' == Stored(d, Slot(inn, mask + 1), vs)
    ensures var n := Minus32(inn, out);
            && |d'| == |d| && Minus32((inn + |vs|) % U32, out) == n + |vs|
            && View(d', out, n + |vs|) == View(d, out, n) + vs
  {
    InCounter(mask, esize, bytes, inn, out, |vs|);
    ViewStoredAt(d, out, Minus32(inn, out), vs, Slot(inn, mask + 1));
  }

  lemma {:induction false} Room(mask: nat, esize: nat, bytes: nat, inn: nat, out: nat)
    requires Shaped(mask, esize, bytes) && Minus32(inn, out) <= mask + 1
    ensures Minus32(mask + 1, Minus32(inn, out)) == mask + 1 - Minus32(inn, out)
  {
    SizeFits(Ilog2(mask + 1));
  }

  lemma {:induction false} OutStep<T>(d: seq<T>, mask: nat, esize: nat, bytes: nat, inn: nat, out: nat, k: nat)
    requires Shaped(mask, esize, bytes) && |d| == mask + 1 && inn < U32 && out < U32 && k <= Minus32(inn, out)
    ensures Minus32(inn, (out + k) % U32) == Minus32(inn, out) - k
    ensures View(d, (out + k) % U32, Minus32(inn, out) - k) == View(d, out, Minus32(inn, out))[k..]
  {
    CounterJump(inn, out, k);
    ViewSkips(d, out, Minus32(inn, out), k, Ilog2(mask + 1));
  }

  /** The plan that copies `m` elements at `o` and `n` at the start. */
  ghost predicate Copies(plan: Plan, esize: nat, o: nat, m: nat, n: nat) {
    plan == Plan(Bytes(o, esize), Bytes(m, esize), Bytes(n, esize))
  }

  /** The offsets and lengths of the two copies. */
  method MakePlan(mask: nat, esize: nat, len: nat, off: nat, ghost bytes: nat) returns (plan: Plan)
    requires Shaped(mask, esize, bytes) && Bytes(mask + 1, esize) < U32 && len <= mask + 1 && off < U32
    ensures var o := Slot(off, mask + 1);
            var first := Min(len, mask + 1 - o);
            Copies(plan, esize, o, first, len - first)
  {
    BytesIsProduct(mask + 1, esize);
    PlanRight(Ilog2(mask + 1), esize, len, off);
    plan := CopyPlan(mask, esize, len, off);
  }

  /** Two calls of `memcpy`. */
  method CopyTwice(dst: array<Byte>, src: array<Byte>, at: nat, from: nat, n: nat, at': nat, from': nat, n': nat)
    requires dst != src && at + n <= dst.Length && from + n <= src.Length && at' + n' <= dst.Length && from' + n' <= src.Length
    modifies dst
    ensures dst[..] == Splice(Splice(old(dst[..]), at, src[..][from..from + n]), at', src[..][from'..from' + n'])
  {
    CopyBytes(dst, at, src, from, n);
    assert src[from..from + n] == src[..][from..from + n];
    CopyBytes(dst, at', src, from', n');
    assert src[from'..from' + n'] == src[..][from'..from' + n'];
  }

  lemma {:induction false} StoredIs<T>(c: seq<T>, o: nat, vs: seq<T>, m: nat)
    requires o < |c| && |vs| <= |c| && m == Min(|vs|, |c| - o)
    ensures Splice(Splice(c, o, vs[..m]), 0, vs[m..]) == Stored(c, o, vs)
  {
  }

  /** What the two copies of `kfifo_copy_in` do to the elements. */
  lemma {:induction false} StoredPlan(d: seq<Byte>, b: seq<Byte>, plan: Plan, size: nat, esize: nat, o: nat, len: nat)
    returns (d2: seq<Byte>)
    requires o < size && len <= size && Copies(plan, esize, o, Min(len, size - o), len - Min(len, size - o))
    requires Bytes(size, esize) <= |d| && Bytes(len, esize) <= |b|
    ensures plan.off + plan.first <= |d| && plan.second <= |d| && plan.first + plan.second <= |b|
    ensures d2 == Splice(Splice(d, plan.off, b[0..plan.first]), 0, b[plan.first..plan.first + plan.second])
    ensures Cells(d2, size, esize) == Stored(Cells(d, size, esize), o, Cells(b, len, esize))
  {
    var m := Min(len, size - o);
    PieceBounds(size, esize, o, m, len - m);
    StoredBytes(d, size, esize, o, m, len, b, plan.off, plan.first, plan.second);
    StoredIs(Cells(d, size, esize), o, Cells(b, len, esize), m);
    d2 := Splice(Splice(d, plan.off, b[0..plan.first]), 0, b[plan.first..plan.first + plan.second]);
  }

  /** What the two copies of `kfifo_copy_out` leave in the target. */
  lemma {:induction false} LoadedPlan(d: seq<Byte>, b: seq<Byte>, plan: Plan, size: nat, esize: nat, o: nat, len: nat)
    returns (b2: seq<Byte>)
    requires o < size && len <= size && Copies(plan, esize, o, Min(len, size - o), len - Min(len, size - o))
    requires Bytes(size, esize) <= |d| && Bytes(len, esize) <= |b|
    ensures plan.off + plan.first <= |d| && plan.second <= |d| && plan.first + plan.second <= |b|
    ensures b2 == Splice(Splice(b, 0, d[plan.off..plan.off + plan.first]), plan.first, d[0..plan.second])
    ensures Cells(b2, len, esize) == Loaded(Cells(d, size, esize), o, len)
    ensures b2[Bytes(len, esize)..] == b[Bytes(len, esize)..]
  {
    var m := Min(len, size - o);
    PieceBounds(size, esize, o, m, len - m);
    LoadedBytes(d, size, esize, o, m, len, b, plan.off, plan.first, plan.second);
    b2 := Splice(Splice(b, 0, d[plan.off..plan.off + plan.first]), plan.first, d[0..plan.second]);
  }

  /** The two copies of `kfifo_copy_in`. */
  method StoreTwo(data: array<Byte>, src: array<Byte>, plan: Plan, ghost size: nat, ghost esize: nat,
        ghost o: nat, ghost len: nat)
    requires data != src && o < size && len <= size
    requires Copies(plan, esize, o, Min(len, size - o), len - Min(len, size - o))
    requires Bytes(size, esize) <= data.Length && Bytes(len, esize) <= src.Length
    modifies data
    ensures Cells(data[..], size, esize) == Stored(Cells(old(data[..]), size, esize), o, Cells(src[..], len, esize))
  {
    ghost var d2 := StoredPlan(data[..], src[..], plan, size, esize, o, len);
    CopyTwice(data, src, plan.off, 0, plan.first, 0, plan.first, plan.second);
    assert data[..] == d2;
  }

  /** The two copies of `kfifo_copy_out`. */
  method LoadTwo(data: array<Byte>, dst: array<Byte>, plan: Plan, ghost size: nat, ghost esize: nat,
        ghost o: nat, ghost len: nat)
    requires data != dst && o < size && len <= size
    requires Copies(plan, esize, o, Min(len, size - o), len - Min(len, size - o))
    requires Bytes(size, esize) <= data.Length && Bytes(len, esize) <= dst.Length
    modifies dst
    ensures Cells(dst[..], len, esize) == Loaded(Cells(data[..], size, esize), o, len)
    ensures dst[..][Bytes(len, esize)..] == old(dst[..])[Bytes(len, esize)..]
  {
    ghost var b2 := LoadedPlan(data[..], dst[..], plan, size, esize, o, len);
    CopyTwice(dst, data, 0, plan.off, plan.first, plan.first, 0, plan.second);
    assert dst[..] == b2;
  }

  class ByteFifo {
    var inn: nat
    var out: nat
    var mask: nat
    var esize: nat
    var data: array?<Byte>

    ghost predicate Valid()
      reads this
    {
      && data != null && Shaped(mask, esize, data.Length)
      && inn < U32 && out < U32 && Minus32(inn, out) <= mask + 1
    }

    /** The buffer is shorter than 2^32 bytes. */
    ghost predicate Fits()
      reads this
    {
      Bytes(mask + 1, esize) < U32
    }

    ghost function Buffer(): (c: seq<seq<Byte>>)
      requires Valid()
      reads this, data
      ensures |c| == mask + 1
    {
      Cells(data[..], mask + 1, esize)
    }

    /** The elements, oldest first, each as its bytes. */
    ghost function Contents(): (s: seq<seq<Byte>>)
      requires Valid()
      reads this, data
      ensures |s| == Minus32(inn, out)
    {
      View(Buffer(), out, Minus32(inn, out))
    }

    /** `INIT_KFIFO` on a fifo without a buffer of its own. */
    constructor (esize: nat)
      ensures mask == 0 && data == null && inn == out == 0 && this.esize == esize && !Valid()
    {
      inn, out, mask, this.esize, data := 0, 0, 0, esize, null;
    }

    /** `__kfifo_init`: the buffer is cut down to a power-of-two number of elements. */
    method Init(buffer: array<Byte>, size: nat, esize: nat) returns (ret: int)
      requires 0 < esize < U32 && esize <= size < U32 && size <= buffer.Length
      modifies this
      ensures ret == (if size / esize < 2 then -EINVAL else 0)
      ensures ret == 0 ==> Valid() && Fits() && Contents() == [] && data == buffer && this.esize == esize
      ensures ret == 0 ==> mask + 1 <= size / esize < 2 * (mask + 1)
      ensures ret != 0 ==> mask == 0
    {
      var n := Quot(size, esize);
      if !IsPowerOf2(n) {
        n := RoundDown(n);
      }
      RoundedDown(size, esize, n);
      inn, out, this.esize, data := 0, 0, esize, buffer;
      if n < 2 {
        mask := 0;
        return -EINVAL;
      }
      mask := n - 1;
      return 0;
    }

    /** `__kfifo_alloc`; `memory` says whether the allocation succeeds. The number of elements
        is rounded up on 64 bits and stored in 32. */
    method Alloc(size: nat, esize: nat, memory: bool) returns (ret: int)
      requires 0 < size < U32 && 0 < esize < U32
      modifies this
      ensures ret == (if size == 1 || size > 0x8000_0000 then -EINVAL else if !memory then -ENOMEM else 0)
      ensures ret == 0 ==> Valid() && Contents() == [] && fresh(data) && this.esize == esize
      ensures ret == 0 ==> size <= mask + 1 < 2 * size
      ensures ret != 0 ==> mask == 0 && data == null
    {
      RoundedUp(size, esize);
      var n := RoundUp(size) % U32;
      inn, out, this.esize := 0, 0, esize;
      if n < 2 {
        data, mask := null, 0;
        return -EINVAL;
      }
      if !memory {
        data, mask := null, 0;
        return -ENOMEM;
      }
      BytesIsProduct(n, esize);
      data := new Byte[n * esize];
      mask := n - 1;
      return 0;
    }

    /** `kfifo_copy_in` */
    method CopyIn(src: array<Byte>, len: nat, off: nat)
      requires Valid() && Fits() && src != data && len <= mask + 1 && off < U32 && Bytes(len, esize) <= src.Length
      modifies data
      ensures Valid() && Buffer() == Stored(old(Buffer()), Slot(off, mask + 1), Cells(src[..], len, esize))
    {
      var plan := MakePlan(mask, esize, len, off, data.Length);
      StoreTwo(data, src, plan, mask + 1, esize, Slot(off, mask + 1), len);
    }

    /** `kfifo_copy_out` */
    method CopyOut(dst: array<Byte>, len: nat, off: nat)
      requires Valid() && Fits() && dst != data && len <= mask + 1 && off < U32 && Bytes(len, esize) <= dst.Length
      modifies dst
      ensures Valid() && Cells(dst[..], len, esize) == Loaded(Buffer(), Slot(off, mask + 1), len)
      ensures dst[..][Bytes(len, esize)..] == old(dst[..])[Bytes(len, esize)..]
    {
      var plan := MakePlan(mask, esize, len, off, data.Length);
      LoadTwo(data, dst, plan, mask + 1, esize, Slot(off, mask + 1), len);
    }

    /** The copy and the increment of `__kfifo_in`. */
    method Append(buf: array<Byte>, len: nat)
      requires Valid() && Fits() && buf != data && Minus32(inn, out) + len <= mask + 1 && Bytes(len, esize) <= buf.Length
      modifies this`inn, data
      ensures Valid() && Contents() == old(Contents()) + Cells(buf[..], len, esize)
    {
      ghost var d, vs := Buffer(), Cells(buf[..], len, esize);
      CopyIn(buf, len, inn);
      InStep(d, mask, esize, data.Length, inn, out, vs, Buffer());
      AdvanceIn(len);
    }

    /** `fifo->in += len` makes the next `len` slots part of the contents. */
    method AdvanceIn(len: nat)
      requires Valid() && Minus32(inn, out) + len <= mask + 1
      modifies this`inn
      ensures Valid() && Contents() == View(old(Buffer()), out, Minus32(old(inn), out) + len)
    {
      InCounter(mask, esize, data.Length, inn, out, len);
      inn := (inn + len) % U32;
    }

    /** `__kfifo_in`: appends as many elements of `buf` as there is room for. */
    method In(buf: array<Byte>, len: nat) returns (ret: nat)
      requires Valid() && Fits() && buf != data && len < U32 && Bytes(len, esize) <= buf.Length
      modifies this`inn, data
      ensures Valid() && Fits() && ret == Min(len, mask + 1 - |old(Contents())|) && Bytes(ret, esize) <= buf.Length
      ensures Contents() == old(Contents()) + Cells(buf[..], ret, esize)
    {
      Room(mask, esize, data.Length, inn, out);
      var l := Minus32(mask + 1, Minus32(inn, out));
      ret := if len > l then l else len;
      BytesAdd(ret, len - ret, esize);
      Append(buf, ret);
    }

    /** `__kfifo_out_peek`: copies out the oldest elements. */
    method OutPeek(buf: array<Byte>, len: nat) returns (ret: nat)
      requires Valid() && Fits() && buf != data && len < U32 && Bytes(len, esize) <= buf.Length
      modifies buf
      ensures Valid() && ret == Min(len, |Contents()|) && Bytes(ret, esize) <= buf.Length
      ensures Cells(buf[..], ret, esize) == Contents()[..ret]
      ensures buf[..][Bytes(ret, esize)..] == old(buf[..])[Bytes(ret, esize)..]
    {
      var l := Minus32(inn, out);
      ret := if len > l then l else len;
      BytesAdd(ret, len - ret, esize);
      CopyOut(buf, ret, out);
      OldestLoaded(Buffer(), out, l, ret);
    }

    /** `__kfifo_out`: as `OutPeek`, and the elements are removed. */
    method Out(buf: array<Byte>, len: nat) returns (ret: nat)
      requires Valid() && Fits() && buf != data && len < U32 && Bytes(len, esize) <= buf.Length
      modifies this`out, buf
      ensures Valid() && Fits() && ret == Min(len, |old(Contents())|) && Bytes(ret, esize) <= buf.Length
      ensures Cells(buf[..], ret, esize) == old(Contents())[..ret] && Contents() == old(Contents())[ret..]
      ensures buf[..][Bytes(ret, esize)..] == old(buf[..])[Bytes(ret, esize)..]
    {
      ret := OutPeek(buf, len);
      AdvanceOut(ret);
    }

    /** `fifo->out += len` drops the oldest `len` elements. */
    method AdvanceOut(len: nat)
      requires Valid() && len <= Minus32(inn, out)
      modifies this`out
      ensures Valid() && Contents() == old(Contents())[len..]
    {
      OutStep(Buffer(), mask, esize, data.Length, inn, out, len);
      out := (out + len) % U32;
    }
  }
}
