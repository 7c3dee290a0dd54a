/** Searching a bitmap: the one-word fast paths of `find.h` and the scan over many words of
    `find_bit.c`, whose position is an `unsigned long` and can wrap. */
module BitSearch {
  import opened Words

  /** The first position at or after `from` that holds `v`; the length if there is none. */
  function NextIn(bits: seq<bool>, v: bool, from: nat): (r: nat)
    ensures r <= |bits| && (from <= |bits| ==> from <= r)
    ensures r < |bits| ==> bits[r] == v
    ensures forall i :: from <= i < r ==> bits[i] != v
    decreases |bits| - from
  {
    if from >= |bits| then |bits|
    else if bits[from] == v then from
    else NextIn(bits, v, from + 1)
  }

  lemma {:induction false} NextUnique(bits: seq<bool>, v: bool, from: nat, r: nat)
    requires from <= r <= |bits| && (r < |bits| ==> bits[r] == v) && forall i :: from <= i < r ==> bits[i] != v
    ensures NextIn(bits, v, from) == r
    decreases |bits| - from
  {
    if from < r { NextUnique(bits, v, from + 1, r); }
  }

  // ----- the one-word fast paths

  /** The bits of one word, up to `size`. */
  function WordBits(word: nat, size: nat): (s: seq<bool>)
    ensures |s| == size && forall i :: 0 <= i < size ==> s[i] == Bit(word, i)
  {
    seq(size, i requires 0 <= i => Bit(word, i))
  }

  /** `GENMASK(h, l)` on words of `w` bits. */
  function Genmask(w: nat, h: nat, l: nat): (m: nat)
    requires l <= h < w
  {
    Pow2Mono(l, w);
    And(Pow2(w) - 1 - Pow2(l) + 1, Shr(Pow2(w) - 1, w - 1 - h))
  }

  lemma {:induction false} GenmaskBits(w: nat, h: nat, l: nat, i: nat)
    requires l <= h < w
    ensures Bit(Genmask(w, h, l), i) <==> l <= i <= h
  {
    Pow2Mono(l, w);
    BitAnd(Pow2(w) - 1 - Pow2(l) + 1, Shr(Pow2(w) - 1, w - 1 - h), i);
    NegPow2Bit(w, l, i);
    BitShr(Pow2(w) - 1, w - 1 - h, i);
    BitNot(w, 0, i + (w - 1 - h));
    BitZero(i + (w - 1 - h));
  }

  lemma {:induction false} GenmaskFits(w: nat, h: nat, l: nat)
    requires l <= h < w
    ensures Genmask(w, h, l) < Pow2(w)
  {
    forall i: nat | Bit(Genmask(w, h, l), i) ensures i < w { GenmaskBits(w, h, l, i); }
    BitsBound(Genmask(w, h, l), w);
  }

  /** `find_next_bit` on a bitmap of one word (`small_const_nbits`): mask, then `__ffs`. */
  method FindNextBitSmall(w: nat, word: nat, size: nat, offset: nat) returns (r: nat)
    requires word < Pow2(w) && 0 < size <= w
    ensures r == NextIn(WordBits(word, size), true, offset)
  {
    if offset >= size {
      return size;
    }
    var val := And(word, Genmask(w, size - 1, offset));
    FirstSet(w, word, size, offset);
    r := if val != 0 then Ffs(val) else size;
  }

  lemma {:induction false} FirstSet(w: nat, word: nat, size: nat, offset: nat)
    requires offset < size <= w
    ensures var val := And(word, Genmask(w, size - 1, offset));
            NextIn(WordBits(word, size), true, offset) == if val != 0 then Ffs(val) else size
  {
    var val := And(word, Genmask(w, size - 1, offset));
    forall i: nat ensures Bit(val, i) <==> Bit(word, i) && offset <= i < size {
      BitAnd(word, Genmask(w, size - 1, offset), i);
      GenmaskBits(w, size - 1, offset, i);
    }
    if val == 0 {
      forall i | offset <= i < size ensures !WordBits(word, size)[i] { BitZero(i); }
      NextUnique(WordBits(word, size), true, offset, size);
    } else {
      FfsLowest(val, 0);
      forall i | offset <= i < Ffs(val) ensures !WordBits(word, size)[i] { FfsLowest(val, i); }
      NextUnique(WordBits(word, size), true, offset, Ffs(val));
    }
  }

  /** `find_next_zero_bit` on a bitmap of one word: fill, then `ffz`. */
  method FindNextZeroBitSmall(w: nat, word: nat, size: nat, offset: nat) returns (r: nat)
    requires word < Pow2(w) && 0 < size <= w
    ensures r == NextIn(WordBits(word, size), false, offset)
  {
    if offset >= size {
      return size;
    }
    GenmaskFits(w, size - 1, offset);
    var val := Or(word, Not(w, Genmask(w, size - 1, offset)));
    FirstZero(w, word, size, offset);
    r := if val == Pow2(w) - 1 then size else Ffs(Not(w, val));
  }

  lemma {:induction false} FirstZero(w: nat, word: nat, size: nat, offset: nat)
    requires word < Pow2(w) && offset < size <= w && Genmask(w, size - 1, offset) < Pow2(w)
    ensures var val := Or(word, Not(w, Genmask(w, size - 1, offset)));
            && val < Pow2(w)
            && NextIn(WordBits(word, size), false, offset)
               == if val == Pow2(w) - 1 then size else Ffs(Not(w, val))
  {
    var mask := Genmask(w, size - 1, offset);
    var val := Or(word, Not(w, mask));
    forall i: nat ensures Bit(val, i) <==> Bit(word, i) || (i < w && !(offset <= i < size)) {
      BitOr(word, Not(w, mask), i);
      BitNot(w, mask, i);
      GenmaskBits(w, size - 1, offset, i);
    }
    forall i: nat | Bit(val, i) ensures i < w { if i >= w { BitBeyond(word, w, i); } }
    BitsBound(val, w);
    var inv := Not(w, val);
    forall i: nat ensures Bit(inv, i) <==> !Bit(word, i) && offset <= i < size {
      BitNot(w, val, i);
    }
    if inv == 0 {
      forall i | offset <= i < size ensures WordBits(word, size)[i] { BitZero(i); }
      NextUnique(WordBits(word, size), false, offset, size);
    } else {
      FfsLowest(inv, 0);
      forall i | offset <= i < Ffs(inv) ensures WordBits(word, size)[i] { FfsLowest(inv, i); }
      NextUnique(WordBits(word, size), false, offset, Ffs(inv));
    }
  }

  // ----- bitmaps of many words

  /** The number of bits of a word; `lg` is its logarithm. */
  function Bits(lg: nat): (w: nat)
    ensures w >= 1
  {
    Pow2(lg)
  }

  /** One past the largest `unsigned long`. */
  function Top(lg: nat): (t: nat)
    ensures t >= 1
  {
    Pow2(Bits(lg))
  }

  /** A bitmap of `size` bits: words of at least two bits, no more of them than needed. */
  ghost predicate Bitmap(lg: nat, words: seq<nat>, size: nat) {
    && lg >= 1 && size < Top(lg)
    && (forall k :: 0 <= k < |words| ==> words[k] < Top(lg))
    && size <= |words| * Bits(lg) < size + Bits(lg)
  }

  /** All bits of all words, padding behind `size` included. */
  function Padded(lg: nat, words: seq<nat>): (s: seq<bool>)
    ensures |s| == |words| * Bits(lg)
  {
    if words == [] then []
    else
      Distribute(|words| - 1, 1, Bits(lg));
      Padded(lg, words[..|words| - 1]) + WordBits(words[|words| - 1], Bits(lg))
  }

  lemma {:induction false} BlockInside(k: nat, n: nat, w: nat)
    requires k < n
    ensures k * w + w <= n * w
  {
    MulMono(k + 1, n, w);
    Distribute(k, 1, w);
  }

  lemma {:induction false} PaddedAt(lg: nat, words: seq<nat>, k: nat, i: nat)
    requires k < |words| && i < Bits(lg)
    ensures k * Bits(lg) + i < |words| * Bits(lg)
    ensures Padded(lg, words)[k * Bits(lg) + i] == Bit(words[k], i)
    decreases |words|
  {
    BlockInside(k, |words|, Bits(lg));
    Distribute(|words| - 1, 1, Bits(lg));
    if k < |words| - 1 {
      PaddedAt(lg, words[..|words| - 1], k, i);
    }
  }

  /** What a search delivers: a position, or nothing ever. */
  datatype Outcome = Found(pos: nat) | Hangs

  /** The result of `_find_next_bit` for the value `v` on the padded bits `p`. Bitmaps longer
      than `Top - w` bits make the position wrap, and the scan starts over. */
  function Search(lg: nat, p: seq<bool>, size: nat, v: bool, from: nat): (o: Outcome)
    ensures o.Found? ==> o.pos <= size
  {
    var hit := NextIn(p, v, from);
    var again := NextIn(p, v, 0);
    if from >= size then Found(size)
    else if hit < |p| then Found(Min(hit, size))
    else if size + Bits(lg) <= Top(lg) then Found(size)
    else if again < |p| then Found(Min(again, size))
    else Hangs
  }

  /** The state of `_find_next_bit`: scanning the word at `start`, whose interesting bits are
      `tmp`, or returned. */
  datatype Scan = Scanning(start: nat, tmp: nat) | Returned(pos: nat)

  /** The fetched word, inverted to search for clear bits. */
  function Fetch(lg: nat, words: seq<nat>, start: nat, v: bool): nat
    requires start / Bits(lg) < |words|
  {
    Xor(words[Quot(start, Bits(lg))], if v then 0 else Top(lg) - 1)
  }

  /** `BITMAP_FIRST_WORD_MASK` */
  function FirstWordMask(lg: nat, start: nat): nat {
    Low(Not(Bits(lg), 0) * Pow2(And(start, Bits(lg) - 1)), Bits(lg))
  }

  lemma {:induction false} WordOf(lg: nat, words: seq<nat>, size: nat, start: nat)
    requires Bitmap(lg, words, size) && start < size
    ensures start / Bits(lg) < |words|
  {
    WordIndex(|words|, Bits(lg), start);
  }

  lemma {:induction false} WordIndex(n: nat, w: nat, i: nat)
    requires 0 < w && i < n * w
    ensures i / w < n
  {
    QuotientBracket(i, w);
    if i / w >= n { MulMono(n, i / w, w); }
  }

  /** Up to the loop of `_find_next_bit`. */
  function ScanBegin(lg: nat, words: seq<nat>, size: nat, from: nat, v: bool): Scan
    requires Bitmap(lg, words, size)
  {
    if from >= size then Returned(size)
    else
      WordOf(lg, words, size, from);
      Scanning(AndNot(from, Bits(lg) - 1), And(Fetch(lg, words, from, v), FirstWordMask(lg, from)))
  }

  /** One round of the loop, or the final `return`. */
  function ScanStep(lg: nat, words: seq<nat>, size: nat, v: bool, s: Scan): Scan
    requires Bitmap(lg, words, size)
  {
    if s.Returned? then s
    else if s.tmp != 0 then Returned(Min(s.start + Ffs(s.tmp), size))
    else
      var start := Low(s.start + Bits(lg), Bits(lg));
      if start >= size then Returned(size)
      else
        WordOf(lg, words, size, start);
        Scanning(start, Fetch(lg, words, start, v))
  }

  // ----- what one word tells

  lemma {:induction false} FetchBit(lg: nat, words: seq<nat>, k: nat, r: nat, v: bool, i: nat)
    requires k < |words| && r < Bits(lg) && words[k] < Top(lg)
    ensures (k * Bits(lg) + r) / Bits(lg) == k
    ensures Bit(Fetch(lg, words, k * Bits(lg) + r, v), i) <==> i < Bits(lg) && Bit(words[k], i) == v
  {
    MultipleMod(k, Bits(lg), r);
    var invert: nat := if v then 0 else Top(lg) - 1;
    BitXor(words[k], invert, i);
    BitZero(i);
    BitNot(Bits(lg), 0, i);
    if i >= Bits(lg) { BitBeyond(words[k], Bits(lg), i); }
  }

  lemma {:induction false} FirstWordMaskBit(lg: nat, start: nat, i: nat)
    ensures Bit(FirstWordMask(lg, start), i) <==> start % Bits(lg) <= i < Bits(lg)
  {
    var w, r := Bits(lg), Low(start, lg);
    AndMask(start, lg);
    BitMod(Not(w, 0) * Pow2(r), w, i);
    BitShl(Not(w, 0), r, i);
    if i >= r {
      BitNot(w, 0, i - r);
      BitZero(i - r);
    }
  }

  /** `tmp` holds the bits of word `k` equal to `v` at or after position `lo`. */
  ghost predicate Sees(lg: nat, words: seq<nat>, k: nat, v: bool, lo: nat, tmp: nat) {
    && k < |words| && k * Bits(lg) <= lo < k * Bits(lg) + Bits(lg)
    && forall i: nat :: Bit(tmp, i) <==> i < Bits(lg) && lo <= k * Bits(lg) + i && Bit(words[k], i) == v
  }

  lemma {:induction false} FirstWordSeen(lg: nat, words: seq<nat>, size: nat, from: nat, v: bool)
    requires Bitmap(lg, words, size) && from < size
    ensures from / Bits(lg) < |words|
    ensures AndNot(from, Bits(lg) - 1) == Quot(from, Bits(lg)) * Bits(lg)
    ensures Sees(lg, words, Quot(from, Bits(lg)), v, from, And(Fetch(lg, words, from, v), FirstWordMask(lg, from)))
  {
    WordOf(lg, words, size, from);
    AndNotMask(from, lg);
    QuotientBracket(from, Bits(lg));
    var k, r := Quot(from, Bits(lg)), from % Bits(lg);
    var word, mask := Fetch(lg, words, from, v), FirstWordMask(lg, from);
    forall i: nat ensures Bit(And(word, mask), i) <==> i < Bits(lg) && from <= k * Bits(lg) + i && Bit(words[k], i) == v {
      BitAnd(word, mask, i);
      FetchBit(lg, words, k, r, v, i);
      FirstWordMaskBit(lg, from, i);
    }
  }

  lemma {:induction false} WholeWordSeen(lg: nat, words: seq<nat>, k: nat, v: bool)
    requires k < |words| && words[k] < Top(lg)
    ensures (k * Bits(lg)) / Bits(lg) == k
    ensures Sees(lg, words, k, v, k * Bits(lg), Fetch(lg, words, k * Bits(lg), v))
  {
    MultipleMod(k, Bits(lg), 0);
    var tmp := Fetch(lg, words, k * Bits(lg), v);
    forall i: nat ensures Bit(tmp, i) <==> i < Bits(lg) && Bit(words[k], i) == v {
      FetchBit(lg, words, k, 0, v, i);
      assert k * Bits(lg) + 0 == k * Bits(lg);
    }
  }

  /** No bits of interest in the word: the search goes on behind it. */
  lemma {:induction false} EmptyWord(lg: nat, words: seq<nat>, k: nat, v: bool, lo: nat)
    requires Sees(lg, words, k, v, lo, 0)
    ensures NextIn(Padded(lg, words), v, lo) == NextIn(Padded(lg, words), v, k * Bits(lg) + Bits(lg))
  {
    var p := Padded(lg, words);
    BlockInside(k, |words|, Bits(lg));
    forall j | lo <= j < k * Bits(lg) + Bits(lg) ensures p[j] != v {
      PaddedAt(lg, words, k, j - k * Bits(lg));
      BitZero(j - k * Bits(lg));
    }
    NextUnique(p, v, lo, NextIn(p, v, k * Bits(lg) + Bits(lg)));
  }

  /** The lowest bit of interest is the hit. */
  lemma {:induction false} HitWord(lg: nat, words: seq<nat>, k: nat, v: bool, lo: nat, tmp: nat)
    requires Sees(lg, words, k, v, lo, tmp) && tmp > 0
    ensures NextIn(Padded(lg, words), v, lo) == k * Bits(lg) + Ffs(tmp) < |words| * Bits(lg)
  {
    var p := Padded(lg, words);
    var base := k * Bits(lg);
    FfsLowest(tmp, 0);
    PaddedAt(lg, words, k, Ffs(tmp));
    forall j | lo <= j < base + Ffs(tmp) ensures p[j] != v {
      PaddedAt(lg, words, k, j - base);
      FfsLowest(tmp, j - base);
    }
    NextUnique(p, v, lo, base + Ffs(tmp));
  }

  // ----- where the position goes

  lemma {:induction false} LgBelowBits(lg: nat)
    ensures lg < Bits(lg)
  {
    if lg > 0 { LgBelowBits(lg - 1); }
  }

  lemma {:induction false} SqueezedMultiple(a: nat, b: nat, w: nat)
    requires b * w < a * w + w && a * w < b * w + w
    ensures a == b
  {
    if a < b { MulMono(a + 1, b, w); Distribute(a, 1, w); }
    if b < a { MulMono(b + 1, a, w); Distribute(b, 1, w); }
  }

  /** A bitmap above the limit occupies every word an index can name. */
  lemma {:induction false} FullMemory(lg: nat, words: seq<nat>, size: nat)
    requires Bitmap(lg, words, size) && size + Bits(lg) > Top(lg)
    ensures |words| * Bits(lg) == Top(lg)
  {
    var w := Bits(lg);
    LgBelowBits(lg);
    Pow2Add(w - lg, lg);
    SqueezedMultiple(|words|, Pow2(w - lg), w);
  }

  lemma {:induction false} FitsIndex(x: nat, w: nat)
    requires x < Pow2(w)
    ensures Low(x, w) == x
  {
    ModSmall(x, Pow2(w));
  }

  /** The position after word `k`: the next word, the end, or word 0 again. */
  lemma {:induction false} NextStart(lg: nat, words: seq<nat>, size: nat, k: nat)
    requires Bitmap(lg, words, size) && k < |words|
    ensures var next := Low(k * Bits(lg) + Bits(lg), Bits(lg));
            && (k + 1 < |words| ==> next == (k + 1) * Bits(lg) < size)
            && (k + 1 == |words| ==> k * Bits(lg) + Bits(lg) == |words| * Bits(lg))
            && (k + 1 == |words| ==> next == if size + Bits(lg) <= Top(lg) then |words| * Bits(lg) else 0)
  {
    var w := Bits(lg);
    Distribute(k, 1, w);
    if k + 1 < |words| {
      BlockInside(k + 1, |words|, w);
      FitsIndex((k + 1) * w, w);
    } else if size + w <= Top(lg) {
      FitsIndex(|words| * w, w);
    } else {
      FullMemory(lg, words, size);
      MultipleMod(1, Top(lg), 0);
    }
  }

  // ----- the scan

  /** The scan is at a word, everything from `lo` to there is done, and the result of the
      search from `from` is the one of the search from `lo`. */
  ghost predicate ScanInv(lg: nat, words: seq<nat>, size: nat, v: bool, from: nat, s: Scan, k: nat, lo: nat) {
    var p := Padded(lg, words);
    if s.Returned? then Search(lg, p, size, v, from) == Found(s.pos)
    else
      && s.start == k * Bits(lg) < size && lo < size && Sees(lg, words, k, v, lo, s.tmp)
      && Search(lg, p, size, v, lo) == Search(lg, p, size, v, from)
  }

  lemma {:induction false} BeginInv(lg: nat, words: seq<nat>, size: nat, v: bool, from: nat)
    requires Bitmap(lg, words, size)
    ensures ScanInv(lg, words, size, v, from, ScanBegin(lg, words, size, from, v), Quot(from, Bits(lg)), from)
  {
    if from < size {
      FirstWordSeen(lg, words, size, from, v);
      QuotientBracket(from, Bits(lg));
    }
  }

  /** How far the scan is: a hit ahead before a restart ahead, then the words left. */
  ghost function Ahead(lg: nat, words: seq<nat>, v: bool, lo: nat): nat {
    if NextIn(Padded(lg, words), v, lo) < |words| * Bits(lg) then 0 else 1
  }

  /** The search from `lo` is the search from the next word, or the end, or a new start. */
  lemma {:induction false} SearchGoesOn(lg: nat, words: seq<nat>, size: nat, v: bool, k: nat, lo: nat)
    requires Bitmap(lg, words, size) && Sees(lg, words, k, v, lo, 0) && lo < size
    ensures var p := Padded(lg, words);
            var next := Low(k * Bits(lg) + Bits(lg), Bits(lg));
            && Search(lg, p, size, v, lo) == Search(lg, p, size, v, next)
            && (k + 1 < |words| ==> Ahead(lg, words, v, next) == Ahead(lg, words, v, lo))
            && (k + 1 == |words| && next < size && Search(lg, p, size, v, lo).Found? ==>
                  Ahead(lg, words, v, next) < Ahead(lg, words, v, lo))
  {
    EmptyWord(lg, words, k, v, lo);
    NextStart(lg, words, size, k);
    Distribute(k, 1, Bits(lg));
  }

  lemma {:induction false} HitReturns(lg: nat, words: seq<nat>, size: nat, v: bool, k: nat, lo: nat, tmp: nat)
    requires Sees(lg, words, k, v, lo, tmp) && tmp > 0 && lo < size
    ensures Search(lg, Padded(lg, words), size, v, lo) == Found(Min(k * Bits(lg) + Ffs(tmp), size))
  {
    HitWord(lg, words, k, v, lo, tmp);
  }

  function NextWord(words: seq<nat>, k: nat): nat {
    if k + 1 < |words| then k + 1 else 0
  }

  lemma {:induction false} NextWordSeen(lg: nat, words: seq<nat>, size: nat, v: bool, k: nat)
    requires Bitmap(lg, words, size) && k < |words| && Low(k * Bits(lg) + Bits(lg), Bits(lg)) < size
    ensures var next := Low(k * Bits(lg) + Bits(lg), Bits(lg));
            && next == NextWord(words, k) * Bits(lg) && next / Bits(lg) < |words|
            && Sees(lg, words, NextWord(words, k), v, next, Fetch(lg, words, next, v))
  {
    NextStart(lg, words, size, k);
    WholeWordSeen(lg, words, NextWord(words, k), v);
  }

  /** One step keeps the invariant. Where the search has a result, the step returns, goes to a
      later word, or starts over with a hit ahead where there was none. */
  lemma {:induction false} StepInv(lg: nat, words: seq<nat>, size: nat, v: bool, from: nat, s: Scan, k: nat, lo: nat)
    returns (k': nat, lo': nat)
    requires Bitmap(lg, words, size) && ScanInv(lg, words, size, v, from, s, k, lo) && s.Scanning?
    ensures ScanInv(lg, words, size, v, from, ScanStep(lg, words, size, v, s), k', lo')
    ensures ScanStep(lg, words, size, v, s).Scanning? && Search(lg, Padded(lg, words), size, v, from).Found? ==>
              || (k < k' < |words| && Ahead(lg, words, v, lo') == Ahead(lg, words, v, lo))
              || Ahead(lg, words, v, lo') < Ahead(lg, words, v, lo)
  {
    k', lo' := k, lo;
    if s.tmp > 0 {
      HitReturns(lg, words, size, v, k, lo, s.tmp);
    } else {
      SearchGoesOn(lg, words, size, v, k, lo);
      k', lo' := NextWord(words, k), Low(k * Bits(lg) + Bits(lg), Bits(lg));
      if lo' < size { NextWordSeen(lg, words, size, v, k); }
    }
  }

  /** `_find_next_bit`, for every input on which it returns. */
  method FindNextBit(lg: nat, words: seq<nat>, size: nat, from: nat, v: bool) returns (r: nat)
    requires Bitmap(lg, words, size) && Search(lg, Padded(lg, words), size, v, from).Found?
    ensures Search(lg, Padded(lg, words), size, v, from) == Found(r)
  {
    var s := ScanBegin(lg, words, size, from, v);
    ghost var k, lo := Quot(from, Bits(lg)), from;
    BeginInv(lg, words, size, v, from);
    while s.Scanning?
      invariant ScanInv(lg, words, size, v, from, s, k, lo)
      decreases s.Scanning?, Ahead(lg, words, v, lo), |words| - k
    {
      k, lo := StepInv(lg, words, size, v, from, s, k, lo);
      s := ScanStep(lg, words, size, v, s);
    }
    r := s.pos;
  }

  /** The state after `n` rounds. */
  function ScanAt(lg: nat, words: seq<nat>, size: nat, from: nat, v: bool, n: nat): Scan
    requires Bitmap(lg, words, size)
  {
    if n == 0 then ScanBegin(lg, words, size, from, v)
    else ScanStep(lg, words, size, v, ScanAt(lg, words, size, from, v, n - 1))
  }

  lemma {:induction false} ScanAtInv(lg: nat, words: seq<nat>, size: nat, from: nat, v: bool, n: nat)
    returns (k: nat, lo: nat)
    requires Bitmap(lg, words, size)
    ensures ScanInv(lg, words, size, v, from, ScanAt(lg, words, size, from, v, n), k, lo)
  {
    if n == 0 {
      BeginInv(lg, words, size, v, from);
      k, lo := Quot(from, Bits(lg)), from;
    } else {
      k, lo := ScanAtInv(lg, words, size, from, v, n - 1);
      var s := ScanAt(lg, words, size, from, v, n - 1);
      if s.Scanning? { k, lo := StepInv(lg, words, size, v, from, s, k, lo); }
    }
  }

  /** Where the search hangs, the loop is still running after any number of rounds. */
  lemma {:induction false} HangsForever(lg: nat, words: seq<nat>, size: nat, from: nat, v: bool, n: nat)
    requires Bitmap(lg, words, size) && Search(lg, Padded(lg, words), size, v, from).Hangs?
    ensures ScanAt(lg, words, size, from, v, n).Scanning?
  {
    var k, lo := ScanAtInv(lg, words, size, from, v, n);
  }

  // ----- when the scan is the search it is meant to be

  lemma {:induction false} NextInPrefix(p: seq<bool>, size: nat, v: bool, from: nat)
    requires from < size <= |p|
    ensures NextIn(p[..size], v, from) == Min(NextIn(p, v, from), size)
  {
    NextUnique(p[..size], v, from, Min(NextIn(p, v, from), size));
  }

  /** The scan finds the next bit of the bitmap, or its size if there is none, if and only if
      the bitmap is at most `Top - w` bits long, or nothing is to be searched, or a hit lies in
      the words ahead (padding counts). */
  lemma {:induction false} SearchIsNextIff(lg: nat, p: seq<bool>, size: nat, v: bool, from: nat)
    requires size <= |p|
    ensures Search(lg, p, size, v, from) == Found(NextIn(p[..size], v, from))
      <==> size + Bits(lg) <= Top(lg) || from >= size || exists i :: from <= i < |p| && p[i] == v
  {
    if from < size {
      NextInPrefix(p, size, v, from);
      var hit := NextIn(p, v, from);
      if hit < |p| { assert p[hit] == v; }
    }
  }

  /** The other cases: past the limit with no hit ahead, the result is the first hit of all, before
      the start; and the scan hangs exactly when there is none at all. */
  lemma {:induction false} SearchWraps(lg: nat, p: seq<bool>, size: nat, v: bool, from: nat)
    requires size <= |p|
    ensures var o := Search(lg, p, size, v, from);
            && (o.Hangs? <==> size + Bits(lg) > Top(lg) && from < size && forall i :: 0 <= i < |p| ==> p[i] != v)
            && (o.Found? && size + Bits(lg) > Top(lg) && from < size && (forall i :: from <= i < |p| ==> p[i] != v) ==>
                  o.pos < from && p[o.pos] == v && forall i :: 0 <= i < o.pos ==> p[i] != v)
  {
    var hit, again := NextIn(p, v, from), NextIn(p, v, 0);
    if hit < |p| { assert p[hit] == v; }
    if again < |p| { assert p[again] == v; }
  }

  lemma {:induction false} NothingSet(lg: nat, words: seq<nat>)
    requires forall k :: 0 <= k < |words| ==> words[k] == 0
    ensures NextIn(Padded(lg, words), true, 0) == |Padded(lg, words)|
  {
    var hit := NextIn(Padded(lg, words), true, 0);
    if hit < |words| * Bits(lg) {
      WordIndex(|words|, Bits(lg), hit);
      QuotientBracket(hit, Bits(lg));
      var k, i := Quot(hit, Bits(lg)), Low(hit, lg);
      PaddedAt(lg, words, k, i);
      BitZero(i);
    }
  }

  /** The longest bitmap, all clear: looking for a set bit never ends. */
  lemma {:induction false} ClearBitmapHangs(lg: nat, words: seq<nat>)
    requires Bitmap(lg, words, Top(lg) - 1) && forall k :: 0 <= k < |words| ==> words[k] == 0
    ensures Search(lg, Padded(lg, words), Top(lg) - 1, true, 0) == Hangs
  {
    Pow2Mono(0, Bits(lg));
    Pow2Mono(0, lg);
    NothingSet(lg, words);
  }
}
