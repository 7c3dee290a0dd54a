/** `find.h`: iterating over the runs of equal bits in a bitmap, with the searches of
    `find_bit.c` underneath. */
module BitRanges {
  import opened Words
  import opened BitSearch

  datatype Range = Range(start: nat, end: nat)

  /** `[start, end)` is a maximal run of `v`. */
  ghost predicate MaximalRun(bits: seq<bool>, v: bool, r: Range) {
    && r.start < r.end <= |bits|
    && (forall i :: r.start <= i < r.end ==> bits[i] == v)
    && (r.start > 0 ==> bits[r.start - 1] != v)
    && (r.end < |bits| ==> bits[r.end] != v)
  }

  ghost predicate Holds(rs: seq<Range>, i: nat) {
    exists k :: 0 <= k < |rs| && rs[k].start <= i < rs[k].end
  }

  /** `rs` are the maximal runs of `v` below `limit`, in increasing order, with a gap between
      neighbours, and they hold every `v` below `limit`. */
  ghost predicate RunsBelow(bits: seq<bool>, v: bool, rs: seq<Range>, limit: nat) {
    && limit <= |bits|
    && (forall k :: 0 <= k < |rs| ==> MaximalRun(bits, v, rs[k]) && rs[k].end <= limit)
    && (forall j, k :: 0 <= j < k < |rs| ==> rs[j].end < rs[k].start)
    && (forall i :: 0 <= i < limit && bits[i] == v ==> Holds(rs, i))
  }

  /** `p` is a bitmap of `size` bits with its padding. */
  ghost predicate Sized(lg: nat, p: seq<bool>, size: nat) {
    && lg >= 1 && size < Top(lg) && size <= |p|
    && (size + Bits(lg) > Top(lg) ==> size >= 3)
  }

  lemma {:induction false} BitmapIsSized(lg: nat, words: seq<nat>, size: nat)
    requires Bitmap(lg, words, size)
    ensures Sized(lg, Padded(lg, words), size)
  {
    LgBelowBits(lg);
    Pow2Mono(lg, Bits(lg));
    Pow2Mono(0, lg);
  }

  /** The outcome of the two assignments of the macro: a range, or a search that hangs. */
  datatype Advanced = At(range: Range) | Stuck

  /** The two assignments, from the position behind the last range. Both increments wrap. */
  function Advance(lg: nat, p: seq<bool>, size: nat, v: bool, from: nat): (a: Advanced)
    ensures a.At? ==> a.range.start <= size && a.range.end <= size
  {
    match Search(lg, p, size, v, from)
    case Hangs => Stuck
    case Found(b) =>
      match Search(lg, p, size, !v, Low(b + 1, Bits(lg)))
      case Hangs => Stuck
      case Found(e) => At(Range(b, e))
  }

  /** `v` occurs in the last two bits of the bitmap or in the padding. */
  ghost predicate Covered(p: seq<bool>, size: nat, v: bool) {
    exists i: nat :: size <= i + 2 && i < |p| && p[i] == v
  }

  /** When the loop over the runs of `v` ends: the bitmap is at most `Top - w` bits long; or both
      values occur in its last two bits and the padding, and it does not end in a run if it is
      as long as the largest index. */
  ghost predicate Ends(lg: nat, p: seq<bool>, size: nat, v: bool)
    requires size <= |p|
  {
    || size + Bits(lg) <= Top(lg)
    || (Covered(p, size, true) && Covered(p, size, false) && !(size + 1 == Top(lg) && size > 0 && p[size - 1] == v))
  }

  // ----- the loop that ends

  lemma {:induction false} LongNotLast(lg: nat, size: nat)
    requires lg >= 1 && size + Bits(lg) <= Top(lg)
    ensures size + 1 < Top(lg)
  {
    Pow2Mono(0, lg);
  }

  /** At the start, at the end and right behind a bit of the other kind, the search is right. */
  lemma {:induction false} SearchRight(lg: nat, p: seq<bool>, size: nat, v: bool, u: bool, from: nat)
    requires Sized(lg, p, size) && Ends(lg, p, size, v) && (0 < from < size ==> p[from - 1] != u)
    ensures Search(lg, p, size, u, from) == Found(NextIn(p[..size], u, from))
  {
    SearchIsNextIff(lg, p, size, u, from);
    if size + Bits(lg) > Top(lg) && from < size {
      assert Covered(p, size, u);
      var i: nat :| size <= i + 2 && i < |p| && p[i] == u;
      assert from <= i;
    }
  }

  /** The end of the range as the two searches leave it. */
  function EndOf(lg: nat, bits: seq<bool>, v: bool, b: nat): nat {
    NextIn(bits, !v, if b < |bits| then b + 1 else Low(b + 1, Bits(lg)))
  }

  /** The search for the end of a range returns. */
  lemma {:induction false} EndFound(lg: nat, p: seq<bool>, size: nat, v: bool, b: nat)
    requires Sized(lg, p, size) && Ends(lg, p, size, v) && b <= size && (b < size ==> p[b] == v)
    ensures Search(lg, p, size, !v, Low(b + 1, Bits(lg))) == Found(EndOf(lg, p[..size], v, b))
  {
    var next := Low(b + 1, Bits(lg));
    if b + 1 < Top(lg) {
      FitsIndex(b + 1, Bits(lg));
    } else {
      MultipleMod(1, Top(lg), 0);
    }
    SearchRight(lg, p, size, v, !v, next);
  }

  lemma {:induction false} RunBetween(bits: seq<bool>, v: bool, from: nat)
    requires 0 < from <= |bits| ==> bits[from - 1] != v
    ensures var b := NextIn(bits, v, from);
            b < |bits| ==> MaximalRun(bits, v, Range(b, NextIn(bits, !v, b + 1)))
  {
    var b := NextIn(bits, v, from);
    if b < |bits| {
      assert forall i :: b + 1 <= i < NextIn(bits, !v, b + 1) ==> bits[i] != !v;
    }
  }

  lemma {:induction false} AdvanceValue(lg: nat, p: seq<bool>, size: nat, v: bool, from: nat)
    requires Sized(lg, p, size) && Ends(lg, p, size, v) && (0 < from < size ==> p[from - 1] != v)
    ensures var b := NextIn(p[..size], v, from);
            Advance(lg, p, size, v, from) == At(Range(b, EndOf(lg, p[..size], v, b)))
  {
    var b := NextIn(p[..size], v, from);
    assert Search(lg, p, size, v, from) == Found(b) by { SearchRight(lg, p, size, v, v, from); }
    assert Search(lg, p, size, !v, Low(b + 1, Bits(lg))) == Found(EndOf(lg, p[..size], v, b)) by {
      assert b < size ==> p[b] == p[..size][b];
      EndFound(lg, p, size, v, b);
    }
  }

  /** A range at a maximal run, or the end. */
  ghost predicate RunOrEnd(a: Advanced, bits: seq<bool>, v: bool) {
    a.At? && (a.range.start < |bits| ==> MaximalRun(bits, v, a.range))
  }

  lemma {:induction false} AdvanceFindsRun(lg: nat, p: seq<bool>, size: nat, v: bool, from: nat)
    requires Sized(lg, p, size) && Ends(lg, p, size, v) && (0 < from <= size ==> p[from - 1] != v)
    ensures var a := Advance(lg, p, size, v, from);
            RunOrEnd(a, p[..size], v) && a.range.start == NextIn(p[..size], v, from)
  {
    AdvanceValue(lg, p, size, v, from);
    RunBetween(p[..size], v, from);
  }

  /** After a range the next search starts behind it, past the end if the range was the last. */
  lemma {:induction false} Restart(lg: nat, p: seq<bool>, size: nat, v: bool, r: Range)
    requires Sized(lg, p, size) && Ends(lg, p, size, v) && MaximalRun(p[..size], v, r)
    ensures Low(r.end + 1, Bits(lg)) == r.end + 1 && (r.end < size ==> p[r.end] != v)
  {
    if r.end == size {
      assert p[..size][size - 1] == v;
      if size + Bits(lg) <= Top(lg) { LongNotLast(lg, size); }
    } else {
      assert p[..size][r.end] != v;
    }
    FitsIndex(r.end + 1, Bits(lg));
  }

  lemma {:induction false} NextRange(lg: nat, p: seq<bool>, size: nat, v: bool, r: Range)
    requires Sized(lg, p, size) && Ends(lg, p, size, v) && MaximalRun(p[..size], v, r)
    ensures var a := Advance(lg, p, size, v, Low(r.end + 1, Bits(lg)));
            && RunOrEnd(a, p[..size], v) && r.end <= a.range.start && (a.range.start < size ==> r.end < a.range.start)
            && (forall i :: r.end <= i < a.range.start ==> p[i] != v)
  {
    Restart(lg, p, size, v, r);
    AdvanceFindsRun(lg, p, size, v, r.end + 1);
    var next := NextIn(p[..size], v, r.end + 1);
    forall i | r.end <= i < next ensures p[i] != v {
      if i > r.end { assert p[..size][i] != v; }
    }
  }

  lemma {:induction false} RunsExtend(bits: seq<bool>, v: bool, rs: seq<Range>, r: Range, limit: nat)
    requires RunsBelow(bits, v, rs, r.start) && MaximalRun(bits, v, r)
    requires |rs| > 0 ==> rs[|rs| - 1].end < r.start
    requires r.end <= limit <= |bits| && forall i :: r.end <= i < limit ==> bits[i] != v
    ensures RunsBelow(bits, v, rs + [r], limit)
  {
    var more := rs + [r];
    forall i | 0 <= i < limit && bits[i] == v ensures Holds(more, i) {
      if i < r.start {
        var k :| 0 <= k < |rs| && rs[k].start <= i < rs[k].end;
        assert more[k] == rs[k];
      } else {
        assert more[|rs|] == r;
      }
    }
  }

  /** The state of the loop: the runs before `r` are visited, and `r` is the next one or the
      loop is over. */
  ghost predicate AtRange(bits: seq<bool>, v: bool, visited: seq<Range>, r: Range) {
    && r.start <= |bits| && RunsBelow(bits, v, visited, r.start)
    && (r.start < |bits| ==> MaximalRun(bits, v, r))
    && (r.start < |bits| && |visited| > 0 ==> visited[|visited| - 1].end < r.start)
  }

  lemma {:induction false} LoopStep(lg: nat, p: seq<bool>, size: nat, v: bool, visited: seq<Range>, r: Range)
    requires Sized(lg, p, size) && Ends(lg, p, size, v) && AtRange(p[..size], v, visited, r) && r.start < size
    ensures var a := Advance(lg, p, size, v, Low(r.end + 1, Bits(lg)));
            a.At? && AtRange(p[..size], v, visited + [r], a.range) && r.start < a.range.start
  {
    NextRange(lg, p, size, v, r);
    RunsExtend(p[..size], v, visited, r, Advance(lg, p, size, v, Low(r.end + 1, Bits(lg))).range.start);
  }

  /** The two assignments, run. */
  method AdvanceRange(lg: nat, words: seq<nat>, size: nat, v: bool, from: nat) returns (r: Range)
    requires Bitmap(lg, words, size) && Advance(lg, Padded(lg, words), size, v, from).At?
    ensures Advance(lg, Padded(lg, words), size, v, from) == At(r)
  {
    var b := FindNextBit(lg, words, size, from, v);
    var e := FindNextBit(lg, words, size, Low(b + 1, Bits(lg)), !v);
    r := Range(b, e);
  }

  /** `for_each_set_bitrange` (`v` true) and `for_each_clear_bitrange` (`v` false) visit exactly
      the maximal runs, on every bitmap on which they end. */
  method ForEachBitrange(lg: nat, words: seq<nat>, size: nat, v: bool) returns (visited: seq<Range>)
    requires Bitmap(lg, words, size) && Ends(lg, Padded(lg, words), size, v)
    ensures RunsBelow(Padded(lg, words)[..size], v, visited, size)
  {
    ghost var p := Padded(lg, words);
    BitmapIsSized(lg, words, size);
    visited := [];
    AdvanceFindsRun(lg, p, size, v, 0);
    var r := AdvanceRange(lg, words, size, v, 0);
    while r.start < size
      invariant AtRange(p[..size], v, visited, r)
      decreases size - r.start
    {
      LoopStep(lg, p, size, v, visited, r);
      visited := visited + [r];
      r := AdvanceRange(lg, words, size, v, Low(r.end + 1, Bits(lg)));
    }
  }

  lemma {:induction false} MeetingRuns(bits: seq<bool>, v: bool, r: Range, s: Range)
    requires MaximalRun(bits, v, r) && MaximalRun(bits, v, s) && s.start <= r.start < s.end
    ensures r == s
  {
  }

  /** The visited ranges are all the maximal runs there are. */
  lemma {:induction false} AllRunsVisited(bits: seq<bool>, v: bool, rs: seq<Range>, r: Range)
    requires RunsBelow(bits, v, rs, |bits|)
    ensures MaximalRun(bits, v, r) <==> r in rs
  {
    if MaximalRun(bits, v, r) {
      assert Holds(rs, r.start);
      var k :| 0 <= k < |rs| && rs[k].start <= r.start < rs[k].end;
      MeetingRuns(bits, v, r, rs[k]);
    }
  }

  // ----- the loop that does not end

  /** What the macro holds after `n` rounds. */
  function Round(lg: nat, p: seq<bool>, size: nat, v: bool, n: nat): Advanced {
    if n == 0 then Advance(lg, p, size, v, 0)
    else
      match Round(lg, p, size, v, n - 1)
      case Stuck => Stuck
      case At(r) => Advance(lg, p, size, v, Low(r.end + 1, Bits(lg)))
  }

  /** A search that starts here cannot lead the loop to its end. */
  ghost predicate Trapped(p: seq<bool>, size: nat, v: bool, from: nat) {
    from < size && (Covered(p, size, !v) || from + 1 < size)
  }

  ghost predicate StaysTrapped(lg: nat, p: seq<bool>, size: nat, v: bool, a: Advanced) {
    a.At? ==> a.range.start < size && Trapped(p, size, v, Low(a.range.end + 1, Bits(lg)))
  }

  lemma {:induction false} HitLies(lg: nat, p: seq<bool>, size: nat, v: bool, from: nat)
    requires size <= |p|
    ensures var o := Search(lg, p, size, v, from);
            && (o.Found? && o.pos < size ==> p[o.pos] == v)
            && (o.Found? && from < size && size + Bits(lg) > Top(lg) && !Covered(p, size, v) ==> o.pos + 2 < size)
  {
    var hit, again := NextIn(p, v, from), NextIn(p, v, 0);
    if hit < |p| { assert p[hit] == v; }
    if again < |p| { assert p[again] == v; }
  }

  lemma {:induction false} NextAtMost(lg: nat, p: seq<bool>, size: nat, v: bool, from: nat, i: nat)
    requires from <= i < size <= |p| && p[i] == v
    ensures Search(lg, p, size, v, from).Found? && from <= Search(lg, p, size, v, from).pos <= i
  {
    assert NextIn(p, v, from) <= i;
  }

  /** No `v` near the end: the search for it starts over, or hangs. */
  lemma {:induction false} TrappedWithoutRuns(lg: nat, p: seq<bool>, size: nat, v: bool, from: nat)
    requires Sized(lg, p, size) && size + Bits(lg) > Top(lg) && from < size && !Covered(p, size, v)
    ensures StaysTrapped(lg, p, size, v, Advance(lg, p, size, v, from))
  {
    assert p[size - 1] == !v && p[size - 2] == !v;
    assert Covered(p, size, !v);
    HitLies(lg, p, size, v, from);
    var o := Search(lg, p, size, v, from);
    if o.Found? {
      FitsIndex(o.pos + 1, Bits(lg));
      NextAtMost(lg, p, size, !v, o.pos + 1, size - 2);
      FitsIndex(Search(lg, p, size, !v, o.pos + 1).pos + 1, Bits(lg));
    }
  }

  /** Nothing but `v` near the end: the search for the end of the run starts over, or hangs. */
  lemma {:induction false} TrappedInRun(lg: nat, p: seq<bool>, size: nat, v: bool, from: nat)
    requires Sized(lg, p, size) && size + Bits(lg) > Top(lg) && from + 1 < size && !Covered(p, size, !v)
    ensures StaysTrapped(lg, p, size, v, Advance(lg, p, size, v, from))
  {
    assert p[size - 2] == v;
    NextAtMost(lg, p, size, v, from, size - 2);
    var a := Advance(lg, p, size, v, from);
    if a.At? {
      FitsIndex(a.range.start + 1, Bits(lg));
      HitLies(lg, p, size, !v, a.range.start + 1);
      FitsIndex(a.range.end + 1, Bits(lg));
    }
  }

  /** As long as the largest index and ending in a run: the position behind it wraps to 0. */
  lemma {:induction false} TrappedByWrap(lg: nat, p: seq<bool>, size: nat, v: bool, from: nat)
    requires Sized(lg, p, size) && size + 1 == Top(lg) && from < size && p[size - 1] == v && Covered(p, size, !v)
    ensures StaysTrapped(lg, p, size, v, Advance(lg, p, size, v, from))
  {
    NextAtMost(lg, p, size, v, from, size - 1);
    var a := Advance(lg, p, size, v, from);
    if a.At? {
      HitLies(lg, p, size, !v, Low(a.range.start + 1, Bits(lg)));
      WrapsBelow(lg, size, a.range.end);
    }
  }

  lemma {:induction false} WrapsBelow(lg: nat, size: nat, e: nat)
    requires 0 < size && size + 1 == Top(lg) && e <= size && e != size - 1
    ensures Low(e + 1, Bits(lg)) < size
  {
    if e < size { FitsIndex(e + 1, Bits(lg)); } else { MultipleMod(1, Top(lg), 0); }
  }

  lemma {:induction false} TrappedStep(lg: nat, p: seq<bool>, size: nat, v: bool, from: nat)
    requires Sized(lg, p, size) && !Ends(lg, p, size, v) && Trapped(p, size, v, from)
    ensures StaysTrapped(lg, p, size, v, Advance(lg, p, size, v, from))
  {
    if !Covered(p, size, !v) {
      TrappedInRun(lg, p, size, v, from);
    } else if !Covered(p, size, v) {
      TrappedWithoutRuns(lg, p, size, v, from);
    } else {
      TrappedByWrap(lg, p, size, v, from);
    }
  }

  lemma {:induction false} RoundAfter(lg: nat, p: seq<bool>, size: nat, v: bool, n: nat, r: Range)
    requires Round(lg, p, size, v, n) == At(r)
    ensures Round(lg, p, size, v, n + 1) == Advance(lg, p, size, v, Low(r.end + 1, Bits(lg)))
  {
  }

  lemma {:induction false} RoundStaysTrapped(lg: nat, p: seq<bool>, size: nat, v: bool, n: nat)
    requires Sized(lg, p, size) && !Ends(lg, p, size, v)
    requires Round(lg, p, size, v, n).At? && StaysTrapped(lg, p, size, v, Round(lg, p, size, v, n))
    ensures StaysTrapped(lg, p, size, v, Round(lg, p, size, v, n + 1))
  {
    var r := Round(lg, p, size, v, n).range;
    RoundAfter(lg, p, size, v, n, r);
    TrappedStep(lg, p, size, v, Low(r.end + 1, Bits(lg)));
  }

  /** Outside `Ends`, in every round a search hangs or the loop condition holds. */
  lemma {:induction false} NeverEnds(lg: nat, p: seq<bool>, size: nat, v: bool, n: nat)
    requires Sized(lg, p, size) && !Ends(lg, p, size, v)
    ensures StaysTrapped(lg, p, size, v, Round(lg, p, size, v, n))
  {
    if n == 0 {
      TrappedStep(lg, p, size, v, 0);
    } else {
      NeverEnds(lg, p, size, v, n - 1);
      if Round(lg, p, size, v, n - 1).At? { RoundStaysTrapped(lg, p, size, v, n - 1); }
    }
  }

  /** After `n` rounds the loop condition is false. */
  ghost predicate Finished(lg: nat, p: seq<bool>, size: nat, v: bool, n: nat) {
    Round(lg, p, size, v, n).At? && Round(lg, p, size, v, n).range.start >= size
  }

  lemma {:induction false} RoundAdvances(lg: nat, p: seq<bool>, size: nat, v: bool, n: nat, r: Range)
    requires Sized(lg, p, size) && Ends(lg, p, size, v)
    requires Round(lg, p, size, v, n) == At(r) && r.start < size && MaximalRun(p[..size], v, r)
    ensures RunOrEnd(Round(lg, p, size, v, n + 1), p[..size], v)
    ensures r.start < Round(lg, p, size, v, n + 1).range.start
  {
    NextRange(lg, p, size, v, r);
    RoundAfter(lg, p, size, v, n, r);
  }

  lemma {:induction false} ReachesEnd(lg: nat, p: seq<bool>, size: nat, v: bool, n: nat, r: Range) returns (m: nat)
    requires Sized(lg, p, size) && Ends(lg, p, size, v)
    requires Round(lg, p, size, v, n) == At(r) && RunOrEnd(At(r), p[..size], v)
    ensures Finished(lg, p, size, v, m)
    decreases size - r.start
  {
    if r.start >= size { return n; }
    RoundAdvances(lg, p, size, v, n, r);
    m := ReachesEnd(lg, p, size, v, n + 1, Round(lg, p, size, v, n + 1).range);
  }

  /** The loop ends on exactly the bitmaps described by `Ends`. */
  lemma {:induction false} EndsIff(lg: nat, words: seq<nat>, size: nat, v: bool)
    requires Bitmap(lg, words, size)
    ensures Ends(lg, Padded(lg, words), size, v) <==> exists n: nat :: Finished(lg, Padded(lg, words), size, v, n)
  {
    var p := Padded(lg, words);
    BitmapIsSized(lg, words, size);
    if Ends(lg, p, size, v) {
      AdvanceFindsRun(lg, p, size, v, 0);
      var m := ReachesEnd(lg, p, size, v, 0, Round(lg, p, size, v, 0).range);
    } else {
      forall n: nat ensures !Finished(lg, p, size, v, n) { NeverEnds(lg, p, size, v, n); }
    }
  }
}
