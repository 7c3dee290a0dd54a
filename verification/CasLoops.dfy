/** The compare-and-swap loops of `bitops.h`, `set_mask_bits` and `bit_clear_unless`, run by
    any number of threads on one shared word in any interleaving of their loads and swaps. */
module CasLoops {
  import opened Words

  datatype Call = SetMaskBits(mask: nat, bits: nat) | BitClearUnless(clear: nat, test: nat)

  /** What a call evaluates to: the old word, or whether the bits were cleared. */
  datatype Answer = OldWord(word: nat) | Cleared(done: bool)

  // ----- what one call should do, at one point in time

  function After(c: Call, word: nat): nat {
    match c
    case SetMaskBits(mask, bits) => Or(AndNot(word, mask), bits)
    case BitClearUnless(clear, test) => if And(word, test) != 0 then word else AndNot(word, clear)
  }

  function Reply(c: Call, word: nat): Answer {
    match c
    case SetMaskBits(_, _) => OldWord(word)
    case BitClearUnless(_, test) => Cleared(And(word, test) == 0)
  }

  /** An event is one call taking effect for one thread. */
  datatype Event = Event(thread: nat, call: Call, answer: Answer)

  /** The word after the events, and whether each answer fits the word just before it. */
  function Replay(word: nat, log: seq<Event>): nat
    decreases |log|
  {
    if log == [] then word else Replay(After(log[0].call, word), log[1..])
  }

  predicate Honest(word: nat, log: seq<Event>)
    decreases |log|
  {
    log == [] || (log[0].answer == Reply(log[0].call, word) && Honest(After(log[0].call, word), log[1..]))
  }

  // ----- the threads

  /** `Loaded(seen)` is the point between `READ_ONCE` and `cmpxchg`. */
  datatype Pc = Start | Loaded(seen: nat)

  datatype Thread = Thread(todo: seq<Call>, pc: Pc, answers: seq<Answer>)

  datatype Memory = Memory(word: nat, threads: seq<Thread>)

  datatype Stepped = Stepped(memory: Memory, log: seq<Event>)

  function Finish(m: Memory, t: nat, word: nat, answer: Answer): Stepped
    requires t < |m.threads| && m.threads[t].todo != []
  {
    var th := m.threads[t];
    Stepped(Memory(word, m.threads[t := Thread(th.todo[1..], Start, th.answers + [answer])]),
            [Event(t, th.todo[0], answer)])
  }

  /** One shared-memory access of thread `t`; nothing if it has no call left. */
  function Step(m: Memory, t: nat): Stepped {
    if t >= |m.threads| || m.threads[t].todo == [] then Stepped(m, [])
    else
      var th := m.threads[t];
      match th.pc
      case Start =>
        if th.todo[0].BitClearUnless? && And(m.word, th.todo[0].test) != 0
        then Finish(m, t, m.word, Cleared(false))
        else Stepped(m.(threads := m.threads[t := th.(pc := Loaded(m.word))]), [])
      case Loaded(seen) =>
        if m.word != seen
        then Stepped(m.(threads := m.threads[t := th.(pc := Start)]), [])
        else
          match th.todo[0]
          case SetMaskBits(mask, bits) => Finish(m, t, Or(AndNot(seen, mask), bits), OldWord(seen))
          case BitClearUnless(clear, test) => Finish(m, t, AndNot(seen, clear), Cleared(And(seen, test) == 0))
  }

  function Run(m: Memory, schedule: seq<nat>): Stepped
    decreases |schedule|
  {
    if schedule == [] then Stepped(m, [])
    else
      var first := Step(m, schedule[0]);
      var rest := Run(first.memory, schedule[1..]);
      Stepped(rest.memory, first.log + rest.log)
  }

  /** A longer schedule takes the next access of the named thread where the shorter one ended. */
  lemma {:induction false} RunExtends(m: Memory, schedule: seq<nat>, t: nat)
    ensures Run(m, []) == Stepped(m, [])
    ensures var r := Run(m, schedule);
            Run(m, schedule + [t]) == Stepped(Step(r.memory, t).memory, r.log + Step(r.memory, t).log)
    decreases |schedule|
  {
    var longer := schedule + [t];
    if schedule == [] {
      assert longer[1..] == [];
    } else {
      assert longer[0] == schedule[0] && longer[1..] == schedule[1..] + [t];
      RunExtends(Step(m, schedule[0]).memory, schedule[1..], t);
    }
  }

  // ----- linearizability

  /** A thread about to swap has already seen that no test bit was set. */
  ghost predicate Tested(th: Thread) {
    th.pc.Loaded? && th.todo != [] && th.todo[0].BitClearUnless? ==> And(th.pc.seen, th.todo[0].test) == 0
  }

  ghost predicate Inv(m: Memory) {
    forall t :: 0 <= t < |m.threads| ==> Tested(m.threads[t])
  }

  /** One access: no effect, or the whole effect of the thread's next call, answered from the
      word it found. */
  lemma {:induction false} StepLinearizes(m: Memory, t: nat)
    requires Inv(m)
    ensures var s := Step(m, t);
            && Inv(s.memory) && s.memory.word == Replay(m.word, s.log) && Honest(m.word, s.log)
            && (s.log != [] ==>
                  var e := s.log[0];
                  && |s.log| == 1 && e.thread == t < |m.threads| && [e.call] <= m.threads[t].todo
                  && (e.call.SetMaskBits? ==> e.answer == OldWord(m.word))
                  && (e.call.BitClearUnless? ==> e.answer == Cleared(And(m.word, e.call.test) == 0)))
  {
    var s := Step(m, t);
    if s.log != [] {
      assert s.log[1..] == [];
    }
  }

  lemma {:induction false} ReplayConcat(word: nat, p: seq<Event>, q: seq<Event>)
    ensures Replay(word, p + q) == Replay(Replay(word, p), q)
    ensures Honest(word, p + q) <==> Honest(word, p) && Honest(Replay(word, p), q)
    decreases |p|
  {
    if p == [] {
      assert p + q == q;
    } else {
      assert (p + q)[1..] == p[1..] + q;
      ReplayConcat(After(p[0].call, word), p[1..], q);
    }
  }

  /** What the answers of an honest log are: the word before the call, or whether it had none
      of the test bits. */
  lemma {:induction false} HonestAnswers(word: nat, log: seq<Event>, i: nat)
    requires Honest(word, log) && i < |log|
    ensures log[i].call.SetMaskBits? ==> log[i].answer == OldWord(Replay(word, log[..i]))
    ensures log[i].call.BitClearUnless? ==> log[i].answer == Cleared(And(Replay(word, log[..i]), log[i].call.test) == 0)
    decreases i
  {
    if i > 0 {
      assert log[..i][1..] == log[1..][..i - 1];
      HonestAnswers(After(log[0].call, word), log[1..], i - 1);
    }
  }

  /** Every run is a sequential replay: each finished call took effect at one of its own
      accesses, the final word is the replay of those effects in that order, and each answer
      is the one for the word just before. A word that changed and changed back in between
      makes no difference. */
  lemma {:induction false} RunLinearizes(m: Memory, schedule: seq<nat>)
    requires Inv(m)
    ensures var r := Run(m, schedule);
            Inv(r.memory) && r.memory.word == Replay(m.word, r.log) && Honest(m.word, r.log)
    ensures var log := Run(m, schedule).log;
            forall i :: 0 <= i < |log| ==>
              && (log[i].call.SetMaskBits? ==> log[i].answer == OldWord(Replay(m.word, log[..i])))
              && (log[i].call.BitClearUnless? ==>
                    log[i].answer == Cleared(And(Replay(m.word, log[..i]), log[i].call.test) == 0))
  {
    RunIsReplay(m, schedule);
    var log := Run(m, schedule).log;
    forall i | 0 <= i < |log|
      ensures log[i].call.SetMaskBits? ==> log[i].answer == OldWord(Replay(m.word, log[..i]))
      ensures log[i].call.BitClearUnless? ==>
                log[i].answer == Cleared(And(Replay(m.word, log[..i]), log[i].call.test) == 0)
    {
      HonestAnswers(m.word, log, i);
    }
  }

  lemma {:induction false} RunIsReplay(m: Memory, schedule: seq<nat>)
    requires Inv(m)
    ensures var r := Run(m, schedule);
            Inv(r.memory) && r.memory.word == Replay(m.word, r.log) && Honest(m.word, r.log)
    decreases |schedule|
  {
    if schedule != [] {
      var first := Step(m, schedule[0]);
      StepLinearizes(m, schedule[0]);
      RunIsReplay(first.memory, schedule[1..]);
      ReplayConcat(m.word, first.log, Run(first.memory, schedule[1..]).log);
    }
  }

  // ----- each thread gets its own answers, in program order

  function CallsOf(log: seq<Event>, t: nat): seq<Call> {
    if log == [] then []
    else if log[0].thread == t then [log[0].call] + CallsOf(log[1..], t) else CallsOf(log[1..], t)
  }

  function AnswersOf(log: seq<Event>, t: nat): seq<Answer> {
    if log == [] then []
    else if log[0].thread == t then [log[0].answer] + AnswersOf(log[1..], t) else AnswersOf(log[1..], t)
  }

  lemma {:induction false} CallsConcat(p: seq<Event>, q: seq<Event>, t: nat)
    ensures CallsOf(p + q, t) == CallsOf(p, t) + CallsOf(q, t)
  {
    if p == [] {
      assert p + q == q;
    } else {
      assert (p + q)[0] == p[0] && (p + q)[1..] == p[1..] + q;
      CallsConcat(p[1..], q, t);
    }
  }

  lemma {:induction false} AnswersConcat(p: seq<Event>, q: seq<Event>, t: nat)
    ensures AnswersOf(p + q, t) == AnswersOf(p, t) + AnswersOf(q, t)
  {
    if p == [] {
      assert p + q == q;
    } else {
      assert (p + q)[0] == p[0] && (p + q)[1..] == p[1..] + q;
      AnswersConcat(p[1..], q, t);
    }
  }

  /** The log accounts for what thread `t` did: its calls in program order, each exactly
      once, and the answers it received. */
  ghost predicate Accounts(before: Thread, after: Thread, log: seq<Event>, t: nat) {
    && before.todo == CallsOf(log, t) + after.todo
    && after.answers == before.answers + AnswersOf(log, t)
  }

  lemma {:induction false} AccountsCompose(a: Thread, b: Thread, c: Thread, p: seq<Event>, q: seq<Event>, t: nat)
    requires Accounts(a, b, p, t) && Accounts(b, c, q, t)
    ensures Accounts(a, c, p + q, t)
  {
    CallsConcat(p, q, t);
    AnswersConcat(p, q, t);
  }

  lemma {:induction false} StepPerThread(m: Memory, u: nat, t: nat)
    requires t < |m.threads|
    ensures var s := Step(m, u);
            |s.memory.threads| == |m.threads| && Accounts(m.threads[t], s.memory.threads[t], s.log, t)
  {
    var s := Step(m, u);
    if s.log != [] { assert s.log[1..] == []; }
  }

  /** The calls of a thread take effect in program order, each exactly once, and the thread
      receives exactly the answers of its own events. */
  lemma {:induction false} RunPerThread(m: Memory, schedule: seq<nat>, t: nat)
    requires t < |m.threads|
    ensures var r := Run(m, schedule);
            |r.memory.threads| == |m.threads| && Accounts(m.threads[t], r.memory.threads[t], r.log, t)
    decreases |schedule|
  {
    if schedule != [] {
      var first := Step(m, schedule[0]);
      StepPerThread(m, schedule[0], t);
      RunPerThread(first.memory, schedule[1..], t);
      var rest := Run(first.memory, schedule[1..]);
      AccountsCompose(m.threads[t], first.memory.threads[t], rest.memory.threads[t], first.log, rest.log, t);
    }
  }

  // ----- progress

  lemma {:induction false} ChangeNeedsEvent(word: nat, log: seq<Event>)
    requires Replay(word, log) != word
    ensures exists i, v :: 0 <= i < |log| && After(log[i].call, v) != v && v == Replay(word, log[..i])
  {
    if After(log[0].call, word) != word {
      assert log[..0] == [];
      assert After(log[0].call, word) != word && word == Replay(word, log[..0]);
    } else {
      ChangeNeedsEvent(word, log[1..]);
      var i, v :| 0 <= i < |log[1..]| && After(log[1..][i].call, v) != v && v == Replay(word, log[1..][..i]);
      assert log[..i + 1][1..] == log[1..][..i];
      assert After(log[i + 1].call, v) != v && v == Replay(word, log[..i + 1]);
    }
  }

  lemma {:induction false} OthersLeaveThread(m: Memory, schedule: seq<nat>, t: nat)
    requires t < |m.threads| && t !in schedule
    ensures var r := Run(m, schedule); t < |r.memory.threads| && r.memory.threads[t] == m.threads[t]
    decreases |schedule|
  {
    if schedule != [] {
      assert schedule[0] in schedule;
      OthersLeaveThread(Step(m, schedule[0]).memory, schedule[1..], t);
    }
  }

  /** A thread repeats its loop only because, between its load and its swap, a call of another
      thread took effect and changed the word. */
  lemma {:induction false} RetryMeansProgress(m: Memory, t: nat, others: seq<nat>)
    requires Inv(m) && t < |m.threads| && m.threads[t].todo != [] && m.threads[t].pc.Start? && t !in others
    requires Step(m, t).log == []
    requires var r := Run(Step(m, t).memory, others); Step(r.memory, t).log == []
    ensures var log := Run(Step(m, t).memory, others).log;
            exists i, v :: 0 <= i < |log| && After(log[i].call, v) != v && v == Replay(m.word, log[..i])
  {
    var loaded := Step(m, t).memory;
    StepLinearizes(m, t);
    RunIsReplay(loaded, others);
    OthersLeaveThread(loaded, others, t);
    ChangeNeedsEvent(m.word, Run(loaded, others).log);
  }

  // ----- the effects, bit by bit

  lemma {:induction false} EffectOnBits(c: Call, word: nat, i: nat)
    ensures c.SetMaskBits? ==>
              (Bit(After(c, word), i) <==> Bit(c.bits, i) || (Bit(word, i) && !Bit(c.mask, i)))
    ensures c.BitClearUnless? ==>
              (Bit(After(c, word), i) <==> Bit(word, i) && (Bit(c.clear, i) ==> And(word, c.test) != 0))
  {
    match c
    case SetMaskBits(mask, bits) =>
      BitOr(AndNot(word, mask), bits, i);
      BitAndNot(word, mask, i);
    case BitClearUnless(clear, test) =>
      BitAndNot(word, clear, i);
  }
}
