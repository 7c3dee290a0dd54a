/** `struct __kfifo`: a power-of-two ring buffer addressed by free-running 32-bit counters
    (the non-record branches of the macros, for a fifo whose buffer is part of the object). */
module Kfifo {
  import opened Words

  const U32: nat := 0x1_0000_0000

  /** `a - b` on unsigned int. */
  function Minus32(a: nat, b: nat): (d: nat)
    ensures d < U32
  {
    (a - b) % U32
  }

  /** The slot of the element with sequence number `c` in a buffer of `size` slots. */
  function Slot(c: nat, size: nat): (k: nat)
    requires size > 0
    ensures k < size
  {
    if c < size then c else Slot(c - size, size)
  }

  // ----- counters and slots

  lemma {:induction false} SlotIsMod(c: nat, size: nat)
    requires size > 0
    ensures Slot(c, size) == c % size
  {
    if c < size {
      MultipleMod(0, size, c);
    } else {
      SlotIsMod(c - size, size);
      QuotientBracket(c - size, size);
      Distribute((c - size) / size, -1, size);
      MultipleMod(Quot(c - size, size) + 1, size, (c - size) % size);
    }
  }

  lemma {:induction false} SlotPeriodic(k: nat, c: nat, size: nat)
    requires size > 0
    ensures k * size >= 0 && Slot(k * size + c, size) == Slot(c, size)
  {
    if k > 0 {
      Distribute(k, 1, size);
      SlotPeriodic(k - 1, c, size);
    }
  }

  lemma {:induction false} WordOfSlots(order: nat)
    requires order <= 32
    ensures U32 == Pow2(32 - order) * Pow2(order)
  {
    Pow2Values();
    Pow2Add(32 - order, order);
  }

  /** A buffer slot does not notice that its counter wrapped at 2^32. */
  lemma {:induction false} SlotAfterWrap(c: nat, i: nat, order: nat)
    requires order <= 32
    ensures Slot(c % U32 + i, Pow2(order)) == Slot(c + i, Pow2(order))
  {
    WordOfSlots(order);
    var q := Quot(c, U32);
    Rearrange(q, Pow2(32 - order), Pow2(order));
    SlotPeriodic(q * Pow2(32 - order), c % U32 + i, Pow2(order));
  }

  /** Masking the wrapped 32-bit counter finds the slot of the unbounded one. */
  lemma {:induction false} SlotOfCounter(c: nat, order: nat)
    requires order <= 32
    ensures And(c % U32, Pow2(order) - 1) == Slot(c, Pow2(order))
  {
    AndMask(c % U32, order);
    SlotIsMod(c % U32, Pow2(order));
    SlotAfterWrap(c, 0, order);
  }

  /** Fewer than `size` consecutive sequence numbers occupy different slots. */
  lemma {:induction false} SlotsDiffer(c: nat, d: nat, size: nat)
    requires c < d < c + size
    ensures Slot(c, size) != Slot(d, size)
  {
    if c >= size { SlotsDiffer(c - size, d - size, size); }
  }

  lemma {:induction false} Minus32Cases(a: nat, b: nat)
    requires a < U32 && b < U32
    ensures Minus32(a, b) == if a >= b then a - b else a + U32 - b
  {
  }

  /** One step of either counter moves the distance by one, through the wrap. */
  lemma {:induction false} CounterStep(inn: nat, out: nat)
    requires inn < U32 && out < U32
    ensures Minus32(inn, out) < U32 - 1 ==> Minus32((inn + 1) % U32, out) == Minus32(inn, out) + 1
    ensures inn != out ==> Minus32(inn, (out + 1) % U32) == Minus32(inn, out) - 1
    ensures inn == out ==> Minus32(inn, (out + 1) % U32) == U32 - 1
    ensures inn == (out + Minus32(inn, out)) % U32
    ensures inn == out <==> Minus32(inn, out) == 0
  {
    Minus32Cases(inn, out);
    Minus32Cases((inn + 1) % U32, out);
    Minus32Cases(inn, (out + 1) % U32);
  }

  predicate FullTestAt(len: nat, order: nat) {
    len % U32 > Pow2(order) - 1
  }

  /** The test `len > mask` recognises the full fifo at every permitted length exactly
      when the size is at most 2^31: at 2^32 the length of a full fifo wraps to 0. */
  lemma {:induction false} FullTestExact(order: nat)
    requires order <= 32
    ensures (forall len: nat :: len <= Pow2(order) ==> (FullTestAt(len, order) <==> len == Pow2(order)))
       <==> order <= 31
  {
    Pow2Values();
    if order <= 31 {
      Pow2Mono(order, 32);
    } else {
      assert !FullTestAt(Pow2(32), order);
    }
  }

  lemma {:induction false} SizeFits(order: nat)
    requires 1 <= order <= 31
    ensures 2 <= Pow2(order) < U32
  {
    Pow2Values();
    Pow2Mono(0, order);
    Pow2Mono(order, 32);
  }

  lemma {:induction false} PowerOfTwoOrder(size: nat)
    requires 2 <= size < U32 && And(size, size - 1) == 0
    ensures 1 <= Ilog2(size) <= 31 && size == Pow2(Ilog2(size))
  {
    PowerOfTwoTest(size);
    Pow2Values();
    Ilog2Brackets(size);
    var l := Ilog2(size);
    if l >= 32 { if l > 32 { Pow2Mono(32, l); } }
  }

  // ----- the elements in a buffer

  /** `n` elements from sequence number `out` on, oldest first. */
  function View<T>(d: seq<T>, out: nat, n: nat): (s: seq<T>)
    requires |d| > 0
    ensures |s| == n && forall i :: 0 <= i < n ==> s[i] == d[Slot(out + i, |d|)]
  {
    seq(n, i requires 0 <= i < n => d[Slot(out + i, |d|)])
  }

  /** Storing behind the last element appends it and leaves the others alone. */
  lemma {:induction false} ViewAppend<T>(d: seq<T>, out: nat, n: nat, v: T)
    requires n < |d|
    ensures View(d[Slot(out + n, |d|) := v], out, n + 1) == View(d, out, n) + [v]
  {
    var s, t := View(d[Slot(out + n, |d|) := v], out, n + 1), View(d, out, n) + [v];
    forall i | 0 <= i < |s| ensures s[i] == t[i] {
      if i < n { SlotsDiffer(out + i, out + n, |d|); }
    }
  }

  /** Advancing the counter, with 32-bit wrap, drops the oldest element. */
  lemma {:induction false} ViewDrop<T>(d: seq<T>, out: nat, n: nat, order: nat)
    requires |d| == Pow2(order) && order <= 32 && n > 0
    ensures View(d, (out + 1) % U32, n - 1) == View(d, out, n)[1..]
  {
    var s, t := View(d, (out + 1) % U32, n - 1), View(d, out, n)[1..];
    forall i | 0 <= i < |s| ensures s[i] == t[i] {
      SlotAfterWrap(out + 1, i, order);
    }
  }

  /** A store through the masked counter and an increment, seen on the elements. */
  lemma {:induction false} PutStep<T>(d: seq<T>, inn: nat, out: nat, order: nat, v: T)
    requires 1 <= order <= 31 && |d| == Pow2(order) && inn < U32 && out < U32 && Minus32(inn, out) < |d|
    ensures var k := And(inn, |d| - 1);
            && k < |d| && Minus32((inn + 1) % U32, out) == Minus32(inn, out) + 1
            && View(d[k := v], out, Minus32(inn, out) + 1) == View(d, out, Minus32(inn, out)) + [v]
  {
    var n := Minus32(inn, out);
    SizeFits(order);
    CounterStep(inn, out);
    assert And(inn, |d| - 1) == Slot(out + n, |d|) by { SlotOfCounter(out + n, order); }
    ViewAppend(d, out, n, v);
  }

  class Fifo<T(0)> {
    var inn: nat
    var out: nat
    const mask: nat
    const data: array<T>
    ghost const order: nat

    ghost predicate Valid()
      reads this
    {
      && 1 <= order <= 31 && mask + 1 == Pow2(order) == data.Length
      && inn < U32 && out < U32 && Minus32(inn, out) <= mask + 1
    }

    ghost function Contents(): (s: seq<T>)
      requires Valid()
      reads this, data
      ensures |s| == Minus32(inn, out)
    {
      View(data[..], out, Minus32(inn, out))
    }

    /** `INIT_KFIFO`; the declaration refuses sizes that are not a power of two. */
    constructor (size: nat)
      requires 2 <= size < U32 && And(size, size - 1) == 0
      ensures Valid() && mask + 1 == size && fresh(data)
      ensures Contents() == []
    {
      inn, out, mask := 0, 0, size - 1;
      data := new T[size];
      order := Ilog2(size);
      PowerOfTwoOrder(size);
    }

    /** `kfifo_len`, `kfifo_is_empty`, `kfifo_is_full`, `kfifo_avail` */
    method Observe() returns (len: nat, isEmpty: bool, isFull: bool, avail: nat)
      requires Valid()
      ensures len == |Contents()| && avail == mask + 1 - |Contents()|
      ensures isEmpty <==> Contents() == []
      ensures isFull <==> |Contents()| == mask + 1
    {
      SizeFits(order);
      len := Minus32(inn, out);
      isEmpty := inn == out;
      isFull := Minus32(inn, out) > mask;
      avail := Minus32(mask + 1, Minus32(inn, out));
    }

    /** `kfifo_put` appends unless the fifo is full. */
    method Put(val: T) returns (ret: bool)
      requires Valid()
      modifies this`inn, data
      ensures Valid()
      ensures ret <==> |old(Contents())| < mask + 1
      ensures Contents() == if ret then old(Contents()) + [val] else old(Contents())
    {
      ret := !(Minus32(inn, out) > mask);
      if ret {
        PutStep(data[..], inn, out, order, val);
        data[And(inn, mask)] := val;
        inn := (inn + 1) % U32;
        assert data[..] == old(data[..])[And(old(inn), mask) := val];
      }
    }

    /** `kfifo_get` removes the oldest element; on an empty fifo `*val` keeps `prior`. */
    method Get(prior: T) returns (ret: bool, val: T)
      requires Valid()
      modifies this`out
      ensures Valid()
      ensures ret <==> old(Contents()) != []
      ensures ret ==> [val] + Contents() == old(Contents())
      ensures !ret ==> val == prior && Contents() == old(Contents())
    {
      ret, val := Peek(prior);
      if ret {
        ghost var before := Contents();
        CounterStep(inn, out);
        ViewDrop(data[..], out, Minus32(inn, out), order);
        out := (out + 1) % U32;
        assert before == [before[0]] + before[1..];
      }
    }

    /** `kfifo_peek` */
    method Peek(prior: T) returns (ret: bool, val: T)
      requires Valid()
      ensures ret <==> Contents() != []
      ensures val == if ret then Contents()[0] else prior
    {
      ret := !(inn == out);
      val := prior;
      if ret {
        assert out % U32 == out;
        SlotOfCounter(out, order);
        val := data[And(out, mask)];
      }
    }

    /** `kfifo_skip` tests nothing: it drops the head exactly when there is one, and on an
        empty fifo it makes the length 2^32 - 1. */
    method Skip()
      requires Valid()
      modifies this`out
      ensures Valid() <==> old(Contents()) != []
      ensures Valid() ==> Contents() == old(Contents())[1..]
      ensures !Valid() ==> Minus32(inn, out) == U32 - 1
    {
      SizeFits(order);
      CounterStep(inn, out);
      if inn != out { ViewDrop(data[..], out, Minus32(inn, out), order); }
      out := (out + 1) % U32;
    }

    /** `kfifo_reset` */
    method Reset()
      requires Valid()
      modifies this`inn, this`out
      ensures Valid() && Contents() == []
    {
      out := 0;
      inn := 0;
    }

    /** `kfifo_reset_out` */
    method ResetOut()
      requires Valid()
      modifies this`out
      ensures Valid() && Contents() == [] && inn == old(inn)
    {
      out := inn;
    }
  }
}
