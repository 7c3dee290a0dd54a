/** The lock-free protocol of `kfifo.h`: one writer running `kfifo_put`, one reader running
    `kfifo_get`, `kfifo_peek`, `kfifo_skip` behind an emptiness test, and `kfifo_reset_out`,
    in every interleaving of their individual shared-memory accesses (sequentially
    consistent memory). */
module KfifoProtocol {
  import opened Words
  import opened Kfifo

  /** Where the writer stands inside `kfifo_put`. */
  datatype Writer<T> = WIdle | WChecked(val: T) | WStored(val: T)

  /** Where the reader stands inside `kfifo_get` / `kfifo_peek` / `kfifo_reset_out`. */
  datatype Reader<T> = RIdle | RChecked | RLoaded(val: T) | RSaw(counter: nat)

  datatype Shared<T> = Shared(inn: nat, out: nat, buf: seq<T>, w: Writer<T>, r: Reader<T>)

  /** What an observer without wrap-around would record: every committed value, how many of
      them are behind the read counter, and each value handed to the reader with its number:
      `got` by `kfifo_get`, `peeked` by `kfifo_peek`. `saw` is the number of committed values
      when the reader last sampled `in`. */
  datatype History<T> =
    History(written: seq<T>, consumed: nat, got: seq<Item<T>>, peeked: seq<Item<T>>, saw: nat)
  datatype Item<T> = Item(number: nat, val: T)

  datatype Action<T> =
    | CheckFull(val: T) | StoreSlot | AdvanceIn
    | CheckEmpty | LoadSlot | AdvanceOut | EndPeek | SkipOne
    | SampleIn | WriteOut

  // ----- one shared-memory access per action; an action that is not next does nothing

  function Step<T>(order: nat, s: Shared<T>, a: Action<T>): (t: Shared<T>)
    requires |s.buf| == Pow2(order)
    ensures |t.buf| == |s.buf|
  {
    var mask := Pow2(order) - 1;
    match a
    case CheckFull(v) =>
      if s.w.WIdle? && !(Minus32(s.inn, s.out) > mask) then s.(w := WChecked(v)) else s
    case StoreSlot =>
      if s.w.WChecked? then
        AndMask(s.inn, order);
        s.(buf := s.buf[And(s.inn, mask) := s.w.val], w := WStored(s.w.val))
      else s
    case AdvanceIn =>
      if s.w.WStored? then s.(inn := (s.inn + 1) % U32, w := WIdle) else s
    case CheckEmpty =>
      if s.r.RIdle? && s.inn != s.out then s.(r := RChecked) else s
    case LoadSlot =>
      if s.r.RChecked? then
        AndMask(s.out, order);
        s.(r := RLoaded(s.buf[And(s.out, mask)]))
      else s
    case AdvanceOut =>
      if s.r.RLoaded? then s.(out := (s.out + 1) % U32, r := RIdle) else s
    case EndPeek =>
      if s.r.RLoaded? then s.(r := RIdle) else s
    case SkipOne =>
      if s.r.RChecked? then s.(out := (s.out + 1) % U32, r := RIdle) else s
    case SampleIn =>
      if s.r.RIdle? then s.(r := RSaw(s.inn)) else s
    case WriteOut =>
      if s.r.RSaw? then s.(out := s.r.counter, r := RIdle) else s
  }

  function Record<T>(s: Shared<T>, h: History<T>, a: Action<T>): History<T>
  {
    match a
    case AdvanceIn => if s.w.WStored? then h.(written := h.written + [s.w.val]) else h
    case AdvanceOut =>
      if s.r.RLoaded?
      then h.(consumed := h.consumed + 1, got := h.got + [Item(h.consumed, s.r.val)])
      else h
    case EndPeek =>
      if s.r.RLoaded? then h.(peeked := h.peeked + [Item(h.consumed, s.r.val)]) else h
    case SkipOne => if s.r.RChecked? then h.(consumed := h.consumed + 1) else h
    case SampleIn => if s.r.RIdle? then h.(saw := |h.written|) else h
    case WriteOut => if s.r.RSaw? then h.(consumed := h.saw) else h
    case _ => h
  }

  datatype Config<T> = Config(s: Shared<T>, h: History<T>)

  function Run<T>(order: nat, c: Config<T>, actions: seq<Action<T>>): Config<T>
    requires |c.s.buf| == Pow2(order)
    decreases |actions|
  {
    if actions == [] then c
    else Run(order, Next(order, c, actions[0]), actions[1..])
  }

  ghost predicate Initial<T>(order: nat, c: Config<T>) {
    && |c.s.buf| == Pow2(order)
    && c.s.inn == 0 && c.s.out == 0 && c.s.w == WIdle && c.s.r == RIdle
    && c.h == History([], 0, [], [], 0)
  }

  // ----- the invariant

  /** Every committed value not yet consumed is still in its slot. */
  ghost predicate Live<T>(buf: seq<T>, h: History<T>)
    requires |buf| > 0
  {
    forall i :: h.consumed <= i < |h.written| ==> buf[Slot(i, |buf|)] == h.written[i]
  }

  /** The reader received committed values, each under its own number, in order. */
  ghost predicate InOrder<T>(h: History<T>) {
    && (forall k :: 0 <= k < |h.got| ==>
          h.got[k].number < h.consumed && h.got[k].number < |h.written|
          && h.got[k].val == h.written[h.got[k].number])
    && (forall j, k :: 0 <= j < k < |h.got| ==> h.got[j].number < h.got[k].number)
  }

  /** What the reader peeked at were committed values too, under numbers that never go back. */
  ghost predicate PeeksInOrder<T>(h: History<T>) {
    && (forall k :: 0 <= k < |h.peeked| ==>
          h.peeked[k].number <= h.consumed && h.peeked[k].number < |h.written|
          && h.peeked[k].val == h.written[h.peeked[k].number])
    && (forall j, k :: 0 <= j < k < |h.peeked| ==> h.peeked[j].number <= h.peeked[k].number)
  }

  ghost predicate Counters<T>(s: Shared<T>, h: History<T>) {
    && |s.buf| > 0
    && s.inn == |h.written| % U32 && s.out == h.consumed % U32
    && h.consumed <= |h.written| <= h.consumed + |s.buf|
  }

  ghost predicate WriterInv<T>(s: Shared<T>, h: History<T>)
    requires |s.buf| > 0
  {
    && (!s.w.WIdle? ==> |h.written| < h.consumed + |s.buf|)
    && (s.w.WStored? ==> s.buf[Slot(|h.written|, |s.buf|)] == s.w.val)
  }

  ghost predicate ReaderInv<T>(s: Shared<T>, h: History<T>) {
    && (s.r.RChecked? ==> h.consumed < |h.written|)
    && (s.r.RLoaded? ==> h.consumed < |h.written| && s.r.val == h.written[h.consumed])
    && (s.r.RSaw? ==> h.consumed <= h.saw <= |h.written| && s.r.counter == h.saw % U32)
  }

  ghost predicate Inv<T>(order: nat, c: Config<T>) {
    && 1 <= order <= 31 && |c.s.buf| == Pow2(order)
    && Counters(c.s, c.h) && Live(c.s.buf, c.h) && WriterInv(c.s, c.h) && ReaderInv(c.s, c.h)
    && InOrder(c.h) && PeeksInOrder(c.h)
  }

  lemma {:induction false} WrappedCounters(a: nat, b: nat)
    requires b <= a < b + U32
    ensures Minus32(a % U32, b % U32) == a - b
    ensures (a % U32 + 1) % U32 == (a + 1) % U32 && (b % U32 + 1) % U32 == (b + 1) % U32
  {
    var i := a / U32 - b / U32;
    assert a % U32 - b % U32 == (a - b) - U32 * i;
    WrapIgnores(a - b, -i);
    WrapIgnores(a % U32 + 1, a / U32);
    WrapIgnores(b % U32 + 1, b / U32);
  }

  lemma {:induction false} WrapIgnores(r: int, i: int)
    ensures (r + U32 * i) % U32 == r % U32
  {
  }

  lemma {:induction false} WrappedDistance<T>(order: nat, s: Shared<T>, h: History<T>)
    requires 1 <= order <= 31 && |s.buf| == Pow2(order) && Counters(s, h)
    ensures Minus32(s.inn, s.out) == |h.written| - h.consumed
  {
    SizeFits(order);
    WrappedCounters(|h.written|, h.consumed);
  }

  lemma {:induction false} Distance<T>(order: nat, s: Shared<T>, h: History<T>)
    requires 1 <= order <= 31 && |s.buf| == Pow2(order) && Counters(s, h)
    ensures Minus32(s.inn, s.out) == |h.written| - h.consumed
    ensures (s.inn + 1) % U32 == (|h.written| + 1) % U32 && (s.out + 1) % U32 == (h.consumed + 1) % U32
    ensures And(s.inn, Pow2(order) - 1) == Slot(|h.written|, |s.buf|)
    ensures And(s.out, Pow2(order) - 1) == Slot(h.consumed, |s.buf|)
  {
    SizeFits(order);
    WrappedCounters(|h.written|, h.consumed);
    SlotOfCounter(|h.written|, order);
    SlotOfCounter(h.consumed, order);
  }

  lemma {:induction false} StoreKeepsLive<T>(buf: seq<T>, h: History<T>, v: T)
    requires |buf| > 0 && h.consumed <= |h.written| < h.consumed + |buf| && Live(buf, h)
    ensures Live(buf[Slot(|h.written|, |buf|) := v], h)
  {
    forall i | h.consumed <= i < |h.written| ensures Slot(i, |buf|) != Slot(|h.written|, |buf|) {
      SlotsDiffer(i, |h.written|, |buf|);
    }
  }

  function Next<T>(order: nat, c: Config<T>, a: Action<T>): Config<T>
    requires |c.s.buf| == Pow2(order)
  {
    Config(Step(order, c.s, a), Record(c.s, c.h, a))
  }

  predicate WriterAction<T>(a: Action<T>) {
    a.CheckFull? || a.StoreSlot? || a.AdvanceIn?
  }

  lemma {:induction false} WriterKeepsOrder<T>(s: Shared<T>, h: History<T>, a: Action<T>)
    requires InOrder(h) && PeeksInOrder(h) && WriterAction(a)
    ensures InOrder(Record(s, h, a)) && PeeksInOrder(Record(s, h, a))
  {
  }

  lemma {:induction false} WriterKeepsLive<T>(order: nat, c: Config<T>, a: Action<T>)
    requires Inv(order, c) && WriterAction(a)
    ensures var e := Next(order, c, a); Live(e.s.buf, e.h)
  {
    Distance(order, c.s, c.h);
    if a.StoreSlot? && c.s.w.WChecked? {
      StoreKeepsLive(c.s.buf, c.h, c.s.w.val);
    }
  }

  lemma {:induction false} WriterKeepsInv<T>(order: nat, c: Config<T>, a: Action<T>)
    requires Inv(order, c) && WriterAction(a)
    ensures Inv(order, Next(order, c, a))
  {
    Distance(order, c.s, c.h);
    WriterKeepsLive(order, c, a);
    WriterKeepsOrder(c.s, c.h, a);
  }

  lemma {:induction false} ReaderKeepsCounters<T>(order: nat, c: Config<T>, a: Action<T>)
    requires Inv(order, c) && !WriterAction(a)
    ensures var e := Next(order, c, a);
            Counters(e.s, e.h) && WriterInv(e.s, e.h) && e.s.buf == c.s.buf && c.h.consumed <= e.h.consumed
  {
    Distance(order, c.s, c.h);
  }

  lemma {:induction false} ReaderKeepsInv<T>(order: nat, c: Config<T>, a: Action<T>)
    requires Inv(order, c) && !WriterAction(a)
    ensures Inv(order, Next(order, c, a))
  {
    ReaderKeepsCounters(order, c, a);
    Distance(order, c.s, c.h);
    ReaderKeepsOrder(c.s, c.h, a);
  }

  lemma {:induction false} ReaderKeepsOrder<T>(s: Shared<T>, h: History<T>, a: Action<T>)
    requires |s.buf| > 0 && Counters(s, h) && ReaderInv(s, h) && InOrder(h) && PeeksInOrder(h) && !WriterAction(a)
    ensures InOrder(Record(s, h, a)) && PeeksInOrder(Record(s, h, a))
  {
  }

  lemma {:induction false} StepKeepsInv<T>(order: nat, c: Config<T>, a: Action<T>)
    requires Inv(order, c)
    ensures Inv(order, Next(order, c, a))
  {
    if WriterAction(a) { WriterKeepsInv(order, c, a); } else { ReaderKeepsInv(order, c, a); }
  }

  lemma {:induction false} RunKeepsInv<T>(order: nat, c: Config<T>, actions: seq<Action<T>>)
    requires Inv(order, c)
    ensures Inv(order, Run(order, c, actions))
    decreases |actions|
  {
    if actions != [] {
      StepKeepsInv(order, c, actions[0]);
      RunKeepsInv(order, Next(order, c, actions[0]), actions[1..]);
    }
  }

  // ----- what each access does, on the recorded values

  /** A put is admitted exactly when the writer is idle and the fifo is not full, and it is the
      argument that gets committed. */
  lemma {:induction false} WriterLaw<T>(order: nat, c: Config<T>, a: Action<T>)
    requires Inv(order, c) && WriterAction(a)
    ensures var e := Next(order, c, a);
            && (a.CheckFull? ==>
                  e.s.w == if c.s.w.WIdle? && |c.h.written| < c.h.consumed + Pow2(order) then WChecked(a.val) else c.s.w)
            && (a.StoreSlot? ==> e.s.w == if c.s.w.WChecked? then WStored(c.s.w.val) else c.s.w)
            && (a.AdvanceIn? ==> e.s.w == if c.s.w.WStored? then WIdle else c.s.w)
            && e.h.written == (if a.AdvanceIn? && c.s.w.WStored? then c.h.written + [c.s.w.val] else c.h.written)
            && e.s.r == c.s.r && e.s.out == c.s.out && e.h.(written := c.h.written) == c.h
  {
    Distance(order, c.s, c.h);
  }

  /** A get or peek is admitted exactly when the reader is idle and an element is there; it
      delivers the oldest one. A skip drops one, a reset everything committed when sampled. */
  lemma {:induction false} ReaderLaw<T>(order: nat, c: Config<T>, a: Action<T>)
    requires Inv(order, c) && !WriterAction(a)
    ensures var e, n := Next(order, c, a), c.h.consumed;
            && (a.CheckEmpty? ==> e.s.r == (if c.s.r.RIdle? && n < |c.h.written| then RChecked else c.s.r) && e.h == c.h)
            && (a.LoadSlot? && c.s.r.RChecked? ==>
                  e.h == c.h && n < |c.h.written| && e.s.r == RLoaded(c.h.written[n]))
            && (a.AdvanceOut? && c.s.r.RLoaded? ==>
                  && e.s.r == RIdle && n < |c.h.written|
                  && e.h == c.h.(consumed := n + 1, got := c.h.got + [Item(n, c.h.written[n])]))
            && (a.EndPeek? && c.s.r.RLoaded? ==>
                  && e.s.r == RIdle && n < |c.h.written|
                  && e.h == c.h.(peeked := c.h.peeked + [Item(n, c.h.written[n])]))
            && (a.SkipOne? && c.s.r.RChecked? ==> e.s.r == RIdle && e.h == c.h.(consumed := n + 1))
            && (a.SampleIn? && c.s.r.RIdle? ==> e.s.r == RSaw(c.s.inn) && e.h == c.h.(saw := |c.h.written|))
            && (a.WriteOut? && c.s.r.RSaw? ==> e.s.r == RIdle && e.h == c.h.(consumed := c.h.saw))
            && (OutOfTurn(c.s.r, a) ==> e == c)
            && e.s.w == c.s.w && e.s.inn == c.s.inn && e.s.buf == c.s.buf
  {
    Distance(order, c.s, c.h);
    CounterStep(c.s.inn, c.s.out);
  }

  /** The reader is not at the access `a`. */
  predicate OutOfTurn<T>(r: Reader<T>, a: Action<T>) {
    match a
    case LoadSlot => !r.RChecked?
    case AdvanceOut => !r.RLoaded?
    case EndPeek => !r.RLoaded?
    case SkipOne => !r.RChecked?
    case SampleIn => !r.RIdle?
    case WriteOut => !r.RSaw?
    case _ => false
  }

  // ----- what holds in every run

  lemma {:induction false} InitialInv<T>(order: nat, c: Config<T>)
    requires 1 <= order <= 31 && Initial(order, c)
    ensures Inv(order, c)
  {
    SizeFits(order);
  }

  /** Every interleaving delivers committed values under increasing numbers, whether they are
      taken or peeked at, never lets the counters drift further apart than the buffer is long,
      and then admits a put of any value exactly when there is room and a read exactly when
      there is an element. */
  lemma {:induction false} EveryRun<T>(order: nat, c: Config<T>, actions: seq<Action<T>>, v: T)
    requires 1 <= order <= 31 && Initial(order, c)
    ensures var e := Run(order, c, actions);
            && |e.s.buf| == Pow2(order) && InOrder(e.h) && PeeksInOrder(e.h)
            && Minus32(e.s.inn, e.s.out) <= Pow2(order)
            && (Minus32(e.s.inn, e.s.out) > Pow2(order) - 1 <==> |e.h.written| == e.h.consumed + Pow2(order))
            && (e.s.inn == e.s.out <==> |e.h.written| == e.h.consumed)
            && Step(order, e.s, CheckFull(v)).w
                 == (if e.s.w.WIdle? && |e.h.written| < e.h.consumed + Pow2(order) then WChecked(v) else e.s.w)
            && Step(order, e.s, CheckEmpty).r
                 == (if e.s.r.RIdle? && e.h.consumed < |e.h.written| then RChecked else e.s.r)
  {
    InitialInv(order, c);
    RunKeepsInv(order, c, actions);
    var e := Run(order, c, actions);
    Distance(order, e.s, e.h);
    CounterStep(e.s.inn, e.s.out);
    WriterLaw(order, e, CheckFull(v));
    ReaderLaw(order, e, CheckEmpty);
  }

  lemma {:induction false} AvoidsLiveSlot(order: nat, written: nat, consumed: nat, i: nat)
    requires order <= 31 && consumed + i < written < consumed + Pow2(order)
    ensures And(written % U32, Pow2(order) - 1) != And((consumed % U32 + i) % U32, Pow2(order) - 1)
  {
    SlotOfCounter(written, order);
    SlotOfCounter(consumed % U32 + i, order);
    SlotAfterWrap(consumed, i, order);
    SlotsDiffer(consumed + i, written, Pow2(order));
  }

  /** Whenever the writer is about to store, its slot holds none of the elements between the
      two counters, so neither a pending `kfifo_get` nor a later one can see it torn. */
  lemma {:induction false} WriterAvoidsLiveSlots<T>(order: nat, c: Config<T>, actions: seq<Action<T>>, i: nat)
    requires 1 <= order <= 31 && Initial(order, c)
    requires var s := Run(order, c, actions).s; s.w.WChecked? && i < Minus32(s.inn, s.out)
    ensures var s := Run(order, c, actions).s;
            And(s.inn, Pow2(order) - 1) != And((s.out + i) % U32, Pow2(order) - 1)
  {
    InitialInv(order, c);
    RunKeepsInv(order, c, actions);
    var e := Run(order, c, actions);
    WrappedDistance(order, e.s, e.h);
    AvoidsLiveSlot(order, |e.h.written|, e.h.consumed, i);
  }

  /** The argument of `kfifo_put` if this access admits it: the writer is idle and fewer than
      size elements are in the fifo. */
  function Admitted<T>(order: nat, c: Config<T>, a: Action<T>): seq<T> {
    if a.CheckFull? && c.s.w.WIdle? && |c.h.written| < c.h.consumed + Pow2(order) then [a.val] else []
  }

  /** The admitted arguments of a run, in order. */
  function Accepted<T>(order: nat, c: Config<T>, actions: seq<Action<T>>): seq<T>
    requires |c.s.buf| == Pow2(order)
    decreases |actions|
  {
    if actions == [] then []
    else Admitted(order, c, actions[0]) + Accepted(order, Next(order, c, actions[0]), actions[1..])
  }

  /** The argument of a put that is under way. */
  function Pending<T>(w: Writer<T>): seq<T> {
    if w.WIdle? then [] else [w.val]
  }

  lemma {:induction false} StepAccepts<T>(order: nat, c: Config<T>, a: Action<T>)
    requires Inv(order, c)
    ensures var e := Next(order, c, a);
            e.h.written + Pending(e.s.w) == c.h.written + Pending(c.s.w) + Admitted(order, c, a)
  {
    if WriterAction(a) { WriterLaw(order, c, a); } else { ReaderLaw(order, c, a); }
  }

  lemma {:induction false} RunAccepts<T>(order: nat, c: Config<T>, actions: seq<Action<T>>)
    requires Inv(order, c)
    ensures var e := Run(order, c, actions);
            e.h.written + Pending(e.s.w) == c.h.written + Pending(c.s.w) + Accepted(order, c, actions)
    decreases |actions|
  {
    if actions != [] {
      StepAccepts(order, c, actions[0]);
      StepKeepsInv(order, c, actions[0]);
      RunAccepts(order, Next(order, c, actions[0]), actions[1..]);
    }
  }

  /** In every interleaving the values committed, and the one under way, are exactly the
      arguments of the admitted puts, in order. */
  lemma {:induction false} EveryPutCounts<T>(order: nat, c: Config<T>, actions: seq<Action<T>>)
    requires 1 <= order <= 31 && Initial(order, c)
    ensures var e := Run(order, c, actions); e.h.written + Pending(e.s.w) == Accepted(order, c, actions)
  {
    InitialInv(order, c);
    RunAccepts(order, c, actions);
  }

  function Numbers(start: nat, end: nat): (s: set<nat>)
    ensures forall k: nat :: k in s <==> start <= k < end
    decreases end - start
  {
    if start >= end then {} else {start} + Numbers(start + 1, end)
  }

  /** The numbers that an access drops unread. */
  function Skipped<T>(c: Config<T>, a: Action<T>): set<nat> {
    if a.SkipOne? && c.s.r.RChecked? then {c.h.consumed}
    else if a.WriteOut? && c.s.r.RSaw? then Numbers(c.h.consumed, c.h.saw)
    else {}
  }

  function Dropped<T>(order: nat, c: Config<T>, actions: seq<Action<T>>): set<nat>
    requires |c.s.buf| == Pow2(order)
    decreases |actions|
  {
    if actions == [] then {}
    else Skipped(c, actions[0]) + Dropped(order, Next(order, c, actions[0]), actions[1..])
  }

  ghost predicate Taken<T>(h: History<T>, k: nat) {
    exists i :: 0 <= i < |h.got| && h.got[i].number == k
  }

  /** Every number behind the read counter was delivered or dropped, and not both. */
  ghost predicate Accounted<T>(h: History<T>, dropped: set<nat>) {
    && (forall k: nat :: k < h.consumed <==> Taken(h, k) || k in dropped)
    && (forall k: nat :: Taken(h, k) ==> k !in dropped)
  }

  lemma {:induction false} StepAccounts<T>(order: nat, c: Config<T>, a: Action<T>, dropped: set<nat>)
    requires Inv(order, c) && Accounted(c.h, dropped)
    ensures Accounted(Next(order, c, a).h, dropped + Skipped(c, a))
  {
    var e := Next(order, c, a);
    if WriterAction(a) { WriterLaw(order, c, a); } else { ReaderLaw(order, c, a); }
    var n := |c.h.got|;
    forall k: nat ensures Taken(e.h, k) <==> Taken(c.h, k) || (a.AdvanceOut? && c.s.r.RLoaded? && k == c.h.consumed) {
      if Taken(c.h, k) {
        var i :| 0 <= i < n && c.h.got[i].number == k;
        assert e.h.got[i].number == k;
      }
      if a.AdvanceOut? && c.s.r.RLoaded? { assert e.h.got[n].number == c.h.consumed; }
    }
  }

  lemma {:induction false} RunAccounts<T>(order: nat, c: Config<T>, actions: seq<Action<T>>, dropped: set<nat>)
    requires Inv(order, c) && Accounted(c.h, dropped)
    ensures Accounted(Run(order, c, actions).h, dropped + Dropped(order, c, actions))
    decreases |actions|
  {
    if actions == [] {
      assert dropped + Dropped(order, c, actions) == dropped;
    } else {
      var e, d := Next(order, c, actions[0]), Skipped(c, actions[0]);
      StepAccounts(order, c, actions[0], dropped);
      StepKeepsInv(order, c, actions[0]);
      RunAccounts(order, e, actions[1..], dropped + d);
      assert dropped + d + Dropped(order, e, actions[1..]) == dropped + Dropped(order, c, actions);
    }
  }

  /** In every interleaving each element behind the read counter was either delivered, exactly
      once, or dropped by a skip or a reset. */
  lemma {:induction false} EveryElementCounts<T>(order: nat, c: Config<T>, actions: seq<Action<T>>)
    requires 1 <= order <= 31 && Initial(order, c)
    ensures Accounted(Run(order, c, actions).h, Dropped(order, c, actions))
  {
    InitialInv(order, c);
    RunAccounts(order, c, actions, {});
    assert {} + Dropped(order, c, actions) == Dropped(order, c, actions);
  }

  predicate Drops<T>(a: Action<T>) {
    a.SkipOne? || a.WriteOut?
  }

  function Values<T>(got: seq<Item<T>>): (vs: seq<T>)
    ensures |vs| == |got| && forall k :: 0 <= k < |got| ==> vs[k] == got[k].val
  {
    seq(|got|, k requires 0 <= k < |got| => got[k].val)
  }

  ghost predicate Numbered<T>(h: History<T>) {
    h.consumed == |h.got| && forall k :: 0 <= k < |h.got| ==> h.got[k].number == k
  }

  lemma {:induction false} RunKeepsNumbered<T>(order: nat, c: Config<T>, actions: seq<Action<T>>)
    requires |c.s.buf| == Pow2(order) && Numbered(c.h) && forall a :: a in actions ==> !Drops(a)
    ensures Numbered(Run(order, c, actions).h)
    decreases |actions|
  {
    if actions != [] {
      assert actions[0] in actions;
      assert Numbered(Next(order, c, actions[0]).h);
      RunKeepsNumbered(order, Next(order, c, actions[0]), actions[1..]);
    }
  }

  /** When the reader never drops elements unread, the values it got are a prefix of the
      values written, and those of the arguments of the admitted puts. */
  lemma {:induction false} ReadsArePrefixOfWrites<T>(order: nat, c: Config<T>, actions: seq<Action<T>>)
    requires 1 <= order <= 31 && Initial(order, c) && forall a :: a in actions ==> !Drops(a)
    ensures var h := Run(order, c, actions).h; Values(h.got) <= h.written <= Accepted(order, c, actions)
  {
    EveryPutCounts(order, c, actions);
    RunKeepsNumbered(order, c, actions);
    InitialInv(order, c);
    RunKeepsInv(order, c, actions);
    var h := Run(order, c, actions).h;
    assert forall k :: 0 <= k < |h.got| ==> h.got[k].number == k && Values(h.got)[k] == h.written[k];
  }
}
