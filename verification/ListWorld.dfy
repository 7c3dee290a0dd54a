/** Arbitrary programs over the list operations: a world of disjoint rings, the effect of each
    operation on the sequences, and the proof that running any legal program of real pointer
    operations yields exactly the world computed on the sequences. */
module ListWorld {
  import opened Lists
  import opened ListOps
  import opened ListCuts

  type Rings = set<Nodes>

  datatype Op =
    | Add(node: ListHead, head: ListHead)
    | AddTail(node: ListHead, head: ListHead)
    | DelInit(node: ListHead)
    | Move(node: ListHead, head: ListHead)
    | MoveTail(node: ListHead, head: ListHead)
    | ReplaceInit(orig: ListHead, node: ListHead)
    | SpliceInit(list: ListHead, head: ListHead)
    | SpliceTailInit(list: ListHead, head: ListHead)

  // ----- worlds of sequences; nothing here reads the heap

  ghost function NodesOf(w: Rings): set<ListHead> {
    set s, x | s in w && x in s :: x
  }

  ghost predicate Partition(w: Rings) {
    && (forall s :: s in w ==> |s| > 0 && Distinct(s))
    && (forall s, t :: s in w && t in w && s != t ==> Apart(s, t))
  }

  /** The ring of `n` as the world holds it. */
  ghost function RingOf(w: Rings, n: ListHead): (s: Nodes)
    requires n in NodesOf(w)
    ensures s in w && n in s
  {
    var s :| s in w && n in s; s
  }

  /** The nodes that follow `n` on a ring, all the way round. */
  ghost function Following(s: Nodes, n: ListHead): (a: Nodes)
    requires n in s
  {
    From(s, IndexOf(s, n))[1..]
  }

  ghost function Rest(w: Rings, n: ListHead): (a: Nodes)
    requires n in NodesOf(w)
  {
    Following(RingOf(w, n), n)
  }

  lemma {:induction false} FollowingIsRotation(s: Nodes, n: ListHead)
    requires n in s
    ensures From(s, IndexOf(s, n)) == [n] + Following(s, n)
    ensures forall x :: x in s <==> x == n || x in Following(s, n)
    ensures Distinct(s) ==> Distinct([n] + Following(s, n)) && n !in Following(s, n)
  {
    var k := IndexOf(s, n);
    var r := From(s, k);
    assert r[0] == n && r == [n] + r[1..];
    assert s == s[..k] + s[k..];
    forall x ensures x in s <==> x == n || x in Following(s, n) {
      assert x in s <==> x in s[..k] || x in s[k..];
      assert x in r <==> x in s[..k] || x in s[k..];
      assert x in r <==> x == n || x in r[1..];
    }
    if Distinct(s) { ApartParts([n], r[1..]); }
  }

  /** A node that may be inserted: it is alone on its ring, or on no ring of the world, and
      then its links may hold anything. */
  ghost predicate Free(w: Rings, node: ListHead) {
    [node] in w || node !in NodesOf(w)
  }

  /** What the source asks of its caller: the nodes are on rings; a node to be inserted is
      free; a node is not moved relative to itself; a list is not spliced into itself. */
  ghost predicate Legal(w: Rings, op: Op) {
    match op
    case Add(node, head) => Free(w, node) && head in NodesOf(w) && node != head
    case AddTail(node, head) => Free(w, node) && head in NodesOf(w) && node != head
    case DelInit(node) => node in NodesOf(w)
    case Move(node, head) => node in NodesOf(w) && head in NodesOf(w) && node != head
    case MoveTail(node, head) => node in NodesOf(w) && head in NodesOf(w) && node != head
    case ReplaceInit(orig, node) => Free(w, node) && orig in NodesOf(w) && node != orig
    case SpliceInit(list, head) => list in NodesOf(w) && head in NodesOf(w) && head !in RingOf(w, list)
    case SpliceTailInit(list, head) => list in NodesOf(w) && head in NodesOf(w) && head !in RingOf(w, list)
  }

  /** The nodes an operation brings along. */
  ghost function Brings(op: Op): set<ListHead> {
    match op
    case Add(node, _) => {node}
    case AddTail(node, _) => {node}
    case ReplaceInit(_, node) => {node}
    case DelInit(_) => {}
    case Move(_, _) => {}
    case MoveTail(_, _) => {}
    case SpliceInit(_, _) => {}
    case SpliceTailInit(_, _) => {}
  }

  /** The world with a free node counted as a ring of its own. */
  ghost function With(w: Rings, node: ListHead): Rings {
    w + {[node]}
  }

  lemma {:induction false} WithKeeps(w: Rings, node: ListHead)
    requires Partition(w) && Free(w, node)
    ensures Partition(With(w, node)) && NodesOf(With(w, node)) == NodesOf(w) + {node}
  {
    var v := With(w, node);
    assert node in [node] && [node] in v;
    forall s | s in w && s != [node] ensures Apart(s, [node]) && Apart([node], s) {
      if node in s { assert node in NodesOf(w); }
    }
    forall x ensures x in NodesOf(v) <==> x in NodesOf(w) || x == node {
      if x in NodesOf(w) {
        var s :| s in w && x in s;
        assert s in v;
      }
    }
  }

  ghost function Exchange(w: Rings, gone: Rings, made: Rings): Rings {
    w - gone + made
  }

  ghost function Removed(w: Rings, node: ListHead): Rings
    requires node in NodesOf(w)
  {
    if Rest(w, node) == [] then w else Exchange(w, {RingOf(w, node)}, {Rest(w, node), [node]})
  }

  ghost function Inserted(w: Rings, node: ListHead, head: ListHead): Rings
    requires head in NodesOf(w)
  {
    Exchange(w, {RingOf(w, head), [node]}, {[head, node] + Rest(w, head)})
  }

  ghost function Appended(w: Rings, node: ListHead, head: ListHead): Rings
    requires head in NodesOf(w)
  {
    Exchange(w, {RingOf(w, head), [node]}, {[head] + Rest(w, head) + [node]})
  }

  ghost function Replaced(w: Rings, orig: ListHead, node: ListHead): Rings
    requires orig in NodesOf(w)
  {
    Exchange(w, {RingOf(w, orig), [node]}, {[node] + Rest(w, orig), [orig]})
  }

  // ----- the effects keep the world a partition of the same nodes

  lemma {:induction false} ExchangeKeeps(w: Rings, gone: Rings, made: Rings)
    requires Partition(w) && gone <= w && Partition(made) && NodesOf(made) == NodesOf(gone)
    ensures Partition(Exchange(w, gone, made)) && NodesOf(Exchange(w, gone, made)) == NodesOf(w)
  {
    var v := Exchange(w, gone, made);
    forall s, t | s in w - gone && t in made ensures Apart(s, t) && Apart(t, s) {
      forall x | x in s ensures x !in t {
        assert x in t ==> x in NodesOf(made);
      }
    }
    forall x ensures x in NodesOf(v) <==> x in NodesOf(w) {
      if x in NodesOf(w) {
        var s :| s in w && x in s;
        if s in gone {
          assert x in NodesOf(made);
          var m :| m in made && x in m;
          assert m in v;
        } else {
          assert s in v;
        }
      }
      if x in NodesOf(v) {
        var s :| s in v && x in s;
        if s !in w { assert x in NodesOf(made); }
      }
    }
  }

  lemma {:induction false} NodesOfTwo(s: Nodes, t: Nodes, x: ListHead)
    ensures x in NodesOf({s, t}) <==> x in s || x in t
    ensures x in NodesOf({s}) <==> x in s
  {
    assert s in {s, t} && t in {s, t} && s in {s};
  }

  lemma {:induction false} RingUnique(w: Rings, s: Nodes, n: ListHead)
    requires Partition(w) && s in w && n in s
    ensures n in NodesOf(w) && RingOf(w, n) == s
  {
    assert n in NodesOf(w);
  }

  lemma {:induction false} Rooted(w: Rings, n: ListHead)
    requires Partition(w) && n in NodesOf(w)
    ensures Distinct([n] + Rest(w, n)) && n !in Rest(w, n)
    ensures forall x :: x in RingOf(w, n) <==> x == n || x in Rest(w, n)
    ensures Rest(w, n) == [] ==> RingOf(w, n) == [n]
    ensures RingOf(w, n) == [n] ==> Rest(w, n) == []
  {
    FollowingIsRotation(RingOf(w, n), n);
  }

  ghost predicate Exchanges(w: Rings, gone: Rings, made: Rings) {
    Partition(w) && gone <= w && Partition(made) && NodesOf(made) == NodesOf(gone)
  }

  lemma {:induction false} RemovedExchange(w: Rings, node: ListHead) returns (gone: Rings, made: Rings)
    requires Partition(w) && node in NodesOf(w)
    ensures Exchanges(w, gone, made) && Exchange(w, gone, made) == Removed(w, node)
    ensures gone == {RingOf(w, node)}
    ensures made == if Rest(w, node) == [] then {[node]} else {Rest(w, node), [node]}
  {
    Rooted(w, node);
    var a := Rest(w, node);
    gone := {RingOf(w, node)};
    if a == [] {
      made := {[node]};
    } else {
      made := {a, [node]};
      ApartParts([node], a);
      forall x ensures x in NodesOf(made) <==> x in NodesOf(gone) {
        NodesOfTwo(a, [node], x);
        NodesOfTwo(RingOf(w, node), [], x);
      }
    }
  }

  lemma {:induction false} RemovedIsExchange(w: Rings, node: ListHead)
    requires Partition(w) && node in NodesOf(w)
    ensures Partition(Removed(w, node)) && NodesOf(Removed(w, node)) == NodesOf(w) && [node] in Removed(w, node)
  {
    var gone, made := RemovedExchange(w, node);
    ExchangeKeeps(w, gone, made);
  }

  lemma {:induction false} InsertedIsExchange(w: Rings, node: ListHead, head: ListHead)
    requires Partition(w) && [node] in w && head in NodesOf(w) && node != head
    ensures Exchanges(w, {RingOf(w, head), [node]}, {[head, node] + Rest(w, head)})
    ensures Exchanges(w, {RingOf(w, head), [node]}, {[head] + Rest(w, head) + [node]})
    ensures node !in [head] + Rest(w, head)
  {
    Rooted(w, head);
    var a := Rest(w, head);
    assert node in [node];
    RingUnique(w, [node], node);
    assert Apart([node], RingOf(w, head));
    assert forall x :: x in [head, node] + a <==> x == head || x == node || x in a;
    assert forall x :: x in [head] + a + [node] <==> x == head || x == node || x in a;
    forall x
      ensures x in NodesOf({[head, node] + a}) <==> x in NodesOf({RingOf(w, head), [node]})
      ensures x in NodesOf({[head] + a + [node]}) <==> x in NodesOf({RingOf(w, head), [node]})
    {
      NodesOfTwo(RingOf(w, head), [node], x);
      NodesOfTwo([head, node] + a, [], x);
      NodesOfTwo([head] + a + [node], [], x);
    }
  }

  lemma {:induction false} ReplacedIsExchange(w: Rings, orig: ListHead, node: ListHead)
    requires Partition(w) && [node] in w && orig in NodesOf(w) && node != orig
    ensures Exchanges(w, {RingOf(w, orig), [node]}, {[node] + Rest(w, orig), [orig]})
    ensures node !in [orig] + Rest(w, orig)
  {
    Rooted(w, orig);
    var a := Rest(w, orig);
    assert node in [node];
    RingUnique(w, [node], node);
    assert Apart([node], RingOf(w, orig));
    ApartParts([orig], a);
    var r := [node] + a;
    assert forall x :: x in r <==> x == node || x in a;
    forall x ensures x in NodesOf({r, [orig]}) <==> x in NodesOf({RingOf(w, orig), [node]}) {
      NodesOfTwo(RingOf(w, orig), [node], x);
      NodesOfTwo(r, [orig], x);
    }
  }

  /** Any sequence of the head and both rests, with the emptied list, replaces the two rings. */
  lemma {:induction false} SplicedTo(w: Rings, list: ListHead, head: ListHead, r: Nodes)
    requires Partition(w) && list in NodesOf(w) && head in NodesOf(w) && head !in RingOf(w, list)
    requires |r| > 0 && Distinct(r) && list !in r
    requires forall x :: x in r <==> x == head || x in Rest(w, list) || x in Rest(w, head)
    ensures Exchanges(w, {RingOf(w, head), RingOf(w, list)}, {r, [list]})
  {
    Rooted(w, head);
    Rooted(w, list);
    var gone := {RingOf(w, head), RingOf(w, list)};
    forall x ensures x in NodesOf({r, [list]}) <==> x in NodesOf(gone) {
      NodesOfTwo(RingOf(w, head), RingOf(w, list), x);
      NodesOfTwo(r, [list], x);
    }
  }

  lemma {:induction false} SplicedIsExchange(w: Rings, list: ListHead, head: ListHead)
    requires Partition(w) && list in NodesOf(w) && head in NodesOf(w) && head !in RingOf(w, list)
    ensures Apart([head] + Rest(w, head), [list] + Rest(w, list))
    ensures var gone, t, a := {RingOf(w, head), RingOf(w, list)}, Rest(w, list), Rest(w, head);
            Exchanges(w, gone, {[head] + t + a, [list]}) && Exchanges(w, gone, {[head] + a + t, [list]})
  {
    Rooted(w, head);
    Rooted(w, list);
    var t, a := Rest(w, list), Rest(w, head);
    assert Apart(RingOf(w, head), RingOf(w, list));
    assert Apart([head] + a, [list] + t);
    ApartParts([list], t);
    SpliceApart(head, a, list, t);
    assert Distinct([head] + t + a) by { ApartThree([head], a, t); }
    SplicedTo(w, list, head, [head] + t + a);
    SplicedTo(w, list, head, [head] + a + t);
  }

  /** A move is a removal followed by an insertion. */
  ghost function Moved(w: Rings, node: ListHead, head: ListHead, tail: bool): Rings
    requires Partition(w) && node in NodesOf(w) && head in NodesOf(w)
  {
    RemovedIsExchange(w, node);
    if tail then Appended(Removed(w, node), node, head) else Inserted(Removed(w, node), node, head)
  }

  /** What each operation does to the sequences. */
  ghost function Effect(w: Rings, op: Op): Rings
    requires Partition(w) && Legal(w, op)
  {
    match op
    case Add(node, head) =>
      WithKeeps(w, node);
      Inserted(With(w, node), node, head)
    case AddTail(node, head) =>
      WithKeeps(w, node);
      Appended(With(w, node), node, head)
    case DelInit(node) => Removed(w, node)
    case Move(node, head) => Moved(w, node, head, false)
    case MoveTail(node, head) => Moved(w, node, head, true)
    case ReplaceInit(orig, node) =>
      WithKeeps(w, node);
      Replaced(With(w, node), orig, node)
    case SpliceInit(list, head) =>
      Exchange(w, {RingOf(w, head), RingOf(w, list)}, {[head] + Rest(w, list) + Rest(w, head), [list]})
    case SpliceTailInit(list, head) =>
      Exchange(w, {RingOf(w, head), RingOf(w, list)}, {[head] + Rest(w, head) + Rest(w, list), [list]})
  }

  lemma {:induction false} MoveBrings(w: Rings, node: ListHead)
    requires Partition(w) && node in NodesOf(w)
    ensures With(Removed(w, node), node) == Removed(w, node)
  {
    RemovedIsExchange(w, node);
  }

  /** No operation loses, invents or shares a node. */
  lemma {:induction false} EffectConserves(w: Rings, op: Op)
    requires Partition(w) && Legal(w, op)
    ensures Partition(Effect(w, op)) && NodesOf(Effect(w, op)) == NodesOf(w) + Brings(op)
    decreases op.Move? || op.MoveTail?
  {
    match op
    case Add(node, head) =>
      WithKeeps(w, node);
      var v := With(w, node);
      InsertedIsExchange(v, node, head);
      ExchangeKeeps(v, {RingOf(v, head), [node]}, {[head, node] + Rest(v, head)});
    case AddTail(node, head) =>
      WithKeeps(w, node);
      var v := With(w, node);
      InsertedIsExchange(v, node, head);
      ExchangeKeeps(v, {RingOf(v, head), [node]}, {[head] + Rest(v, head) + [node]});
    case DelInit(node) =>
      RemovedIsExchange(w, node);
    case Move(node, head) =>
      RemovedIsExchange(w, node);
      MoveBrings(w, node);
      EffectConserves(Removed(w, node), Add(node, head));
    case MoveTail(node, head) =>
      RemovedIsExchange(w, node);
      MoveBrings(w, node);
      EffectConserves(Removed(w, node), AddTail(node, head));
    case ReplaceInit(orig, node) =>
      WithKeeps(w, node);
      var v := With(w, node);
      ReplacedIsExchange(v, orig, node);
      ExchangeKeeps(v, {RingOf(v, orig), [node]}, {[node] + Rest(v, orig), [orig]});
    case SpliceInit(list, head) =>
      SplicedIsExchange(w, list, head);
      ExchangeKeeps(w, {RingOf(w, head), RingOf(w, list)}, {[head] + Rest(w, list) + Rest(w, head), [list]});
    case SpliceTailInit(list, head) =>
      SplicedIsExchange(w, list, head);
      ExchangeKeeps(w, {RingOf(w, head), RingOf(w, list)}, {[head] + Rest(w, head) + Rest(w, list), [list]});
  }

  // ----- what the effects are, on plain sequences

  /** The world holds the ring `s`, written down from any of its nodes. */
  ghost predicate Has(w: Rings, s: Nodes) {
    exists k: nat :: k <= |s| && HasTurned(w, s, k)
  }

  ghost predicate HasTurned(w: Rings, s: Nodes, k: nat)
    requires k <= |s|
  {
    s[k..] + s[..k] in w
  }

  /** Wherever a ring was written down from, its nodes follow each other in the same order. */
  lemma {:induction false} RestIs(w: Rings, n: ListHead, a: Nodes)
    requires Partition(w) && Has(w, [n] + a)
    ensures n in NodesOf(w) && Rest(w, n) == a
    ensures forall x :: x in RingOf(w, n) <==> x == n || x in a
  {
    var s := [n] + a;
    var k: nat :| k <= |s| && HasTurned(w, s, k);
    var r := s[k..] + s[..k];
    var i := if k == 0 then 0 else |s| - k;
    assert r[i] == n && r[i..] + r[..i] == s;
    assert n in r;
    RingUnique(w, r, n);
    assert IndexOf(r, n) == i;
    Rooted(w, n);
  }

  lemma {:induction false} AddLaw(w: Rings, node: ListHead, head: ListHead, a: Nodes)
    requires Partition(w) && Free(w, node) && Has(w, [head] + a) && node != head
    ensures Legal(w, Add(node, head)) && [head, node] + a in Effect(w, Add(node, head))
    ensures Legal(w, AddTail(node, head)) && [head] + a + [node] in Effect(w, AddTail(node, head))
  {
    RestIs(w, head, a);
    WithKeeps(w, node);
    WithHas(w, node, [head] + a);
    RestIs(With(w, node), head, a);
  }

  lemma {:induction false} WithHas(w: Rings, node: ListHead, s: Nodes)
    requires Has(w, s)
    ensures Has(With(w, node), s)
  {
    var k: nat :| k <= |s| && HasTurned(w, s, k);
    assert HasTurned(With(w, node), s, k);
  }

  lemma {:induction false} DelInitLaw(w: Rings, node: ListHead, a: Nodes)
    requires Partition(w) && Has(w, [node] + a)
    ensures Legal(w, DelInit(node)) && [node] in Effect(w, DelInit(node))
    ensures a != [] ==> a in Effect(w, DelInit(node))
  {
    RestIs(w, node, a);
    RemovedIsExchange(w, node);
  }

  lemma {:induction false} ReplaceInitLaw(w: Rings, orig: ListHead, node: ListHead, a: Nodes)
    requires Partition(w) && Free(w, node) && Has(w, [orig] + a) && node != orig
    ensures Legal(w, ReplaceInit(orig, node))
    ensures [node] + a in Effect(w, ReplaceInit(orig, node)) && [orig] in Effect(w, ReplaceInit(orig, node))
  {
    RestIs(w, orig, a);
    WithKeeps(w, node);
    WithHas(w, node, [orig] + a);
    RestIs(With(w, node), orig, a);
  }

  lemma {:induction false} SpliceInitLaw(w: Rings, list: ListHead, t: Nodes, head: ListHead, a: Nodes)
    requires Partition(w) && Has(w, [list] + t) && Has(w, [head] + a) && head !in [list] + t
    ensures Legal(w, SpliceInit(list, head)) && Legal(w, SpliceTailInit(list, head))
    ensures [head] + t + a in Effect(w, SpliceInit(list, head)) && [list] in Effect(w, SpliceInit(list, head))
    ensures [head] + a + t in Effect(w, SpliceTailInit(list, head)) && [list] in Effect(w, SpliceTailInit(list, head))
  {
    RestIs(w, list, t);
    RestIs(w, head, a);
  }

  lemma {:induction false} TurnedBack(p: Nodes, n: ListHead, q: Nodes)
    ensures var s := [n] + (q + p); s[1 + |q|..] + s[..1 + |q|] == p + [n] + q
  {
  }

  lemma {:induction false} RestStays(w: Rings, node: ListHead, a: Nodes)
    requires Partition(w) && Has(w, [node] + a) && a != []
    ensures node in NodesOf(w) && a in Removed(w, node) && Partition(Removed(w, node)) && node !in a
    ensures forall x :: x in a ==> x in NodesOf(w)
  {
    RestIs(w, node, a);
    RemovedIsExchange(w, node);
    Rooted(w, node);
    assert forall x :: x in a ==> x in RingOf(w, node);
  }

  /** The rest of the ring once the node has left, seen from another node of it. */
  lemma {:induction false} RestOfRest(w: Rings, node: ListHead, head: ListHead, p: Nodes, q: Nodes)
    requires Partition(w) && Has(w, [node] + (p + [head] + q))
    ensures node in NodesOf(w) && head in NodesOf(w) && node != head
    ensures head in NodesOf(Removed(w, node)) && Rest(Removed(w, node), head) == q + p
  {
    var a := p + [head] + q;
    assert head in a by { assert a[|p|] == head; }
    RestStays(w, node, a);
    var s := [head] + (q + p);
    assert HasTurned(Removed(w, node), s, 1 + |q|) by { TurnedBack(p, head, q); }
    RestIs(Removed(w, node), head, q + p);
  }

  /** A move within one ring: the node leaves its place and comes next to the head. */
  lemma {:induction false} MoveWithinLaw(w: Rings, node: ListHead, head: ListHead, p: Nodes, q: Nodes)
    requires Partition(w) && Has(w, [node] + (p + [head] + q))
    ensures Legal(w, Move(node, head)) && [head, node] + (q + p) in Effect(w, Move(node, head))
    ensures Legal(w, MoveTail(node, head)) && [head] + (q + p) + [node] in Effect(w, MoveTail(node, head))
  {
    RestOfRest(w, node, head, p, q);
  }

  /** A move between two rings: one closes over the node, the other takes it in. */
  lemma {:induction false} MoveAcrossLaw(w: Rings, node: ListHead, a: Nodes, head: ListHead, b: Nodes)
    requires Partition(w) && Has(w, [node] + a) && Has(w, [head] + b) && head !in [node] + a
    ensures Legal(w, Move(node, head)) && [head, node] + b in Effect(w, Move(node, head))
    ensures Legal(w, MoveTail(node, head)) && [head] + b + [node] in Effect(w, MoveTail(node, head))
    ensures a != [] ==> a in Effect(w, Move(node, head)) && a in Effect(w, MoveTail(node, head))
  {
    RestIs(w, node, a);
    RestIs(w, head, b);
    RemovedIsExchange(w, node);
    HeadAfterRemoval(w, node, head);
    var u := Removed(w, node);
    assert Rest(u, head) == b;
    if a != [] {
      assert a != RingOf(u, head) by { assert head in RingOf(u, head); }
      assert a != [node] by { Rooted(w, node); assert a == [node] ==> node in a; }
    }
  }

  /** The nodes an operation is called with. */
  ghost function Named(op: Op): set<ListHead> {
    match op
    case Add(node, head) => {node, head}
    case AddTail(node, head) => {node, head}
    case DelInit(node) => {node}
    case Move(node, head) => {node, head}
    case MoveTail(node, head) => {node, head}
    case ReplaceInit(orig, node) => {orig, node}
    case SpliceInit(list, head) => {list, head}
    case SpliceTailInit(list, head) => {list, head}
  }

  lemma {:induction false} OthersStayPut(w: Rings, node: ListHead, head: ListHead, tail: bool, r: Nodes)
    requires Partition(w) && node in NodesOf(w) && head in NodesOf(w) && r in w && node !in r && head !in r
    ensures r in Moved(w, node, head, tail)
  {
    RemovedIsExchange(w, node);
    assert r in Removed(w, node);
    assert r != [node] by { assert node in [node]; }
  }

  /** Rings without any of the nodes the operation is called with stay as they are. */
  lemma {:induction false} OthersStay(w: Rings, op: Op, r: Nodes)
    requires Partition(w) && Legal(w, op) && r in w && forall x :: x in r ==> x !in Named(op)
    ensures r in Effect(w, op)
  {
    match op
    case Add(node, head) => WithKeeps(w, node);
    case AddTail(node, head) => WithKeeps(w, node);
    case DelInit(node) =>
    case Move(node, head) => OthersStayPut(w, node, head, false, r);
    case MoveTail(node, head) => OthersStayPut(w, node, head, true, r);
    case ReplaceInit(orig, node) => WithKeeps(w, node);
    case SpliceInit(list, head) =>
    case SpliceTailInit(list, head) =>
  }

  // ----- the heap agrees

  ghost predicate World(w: Rings)
    reads NodesOf(w)
  {
    Partition(w) && forall s :: s in w ==> RingOfWorld(w, s)
  }

  ghost predicate RingOfWorld(w: Rings, s: Nodes)
    requires s in w
    reads NodesOf(w)
  {
    assert forall x :: x in s ==> x in NodesOf(w);
    Ring(s)
  }

  lemma {:induction false} RootedRing(w: Rings, n: ListHead)
    requires n in NodesOf(w) && RingOfWorld(w, RingOf(w, n))
    ensures Ring([n] + Rest(w, n))
  {
    var s := RingOf(w, n);
    FollowingIsRotation(s, n);
    Rotate(s, IndexOf(s, n), [n] + Rest(w, n));
  }

  /** Rings that were not touched are still there; the touched ones were exchanged. */
  twostate lemma Lift(w: Rings, new gone: Rings, new made: Rings)
    requires forall s :: s in w && s !in gone ==> old(RingOfWorld(w, s))
    requires Exchanges(w, gone, made)
    requires forall s :: s in made ==> Ring(s)
    requires forall x :: x in NodesOf(w) && x !in NodesOf(gone) ==> x.next == old(x.next) && x.prev == old(x.prev)
    ensures World(Exchange(w, gone, made))
  {
    ExchangeKeeps(w, gone, made);
    forall s | s in w - gone ensures Ring(s) {
      forall x | x in s ensures x in NodesOf(w) && x !in NodesOf(gone) {
        if x in NodesOf(gone) {
          var g :| g in gone && x in g;
        }
      }
      StillRing(s);
    }
  }

  twostate lemma LiftWorld(w: Rings, new gone: Rings, new made: Rings)
    requires old(World(w))
    requires Exchanges(w, gone, made)
    requires forall s :: s in made ==> Ring(s)
    requires forall x :: x in NodesOf(w) && x !in NodesOf(gone) ==> x.next == old(x.next) && x.prev == old(x.prev)
    ensures World(Exchange(w, gone, made))
  {
    Lift(w, gone, made);
  }

  /** The rings an operation works on lie inside the world. */
  lemma {:induction false} Inside(w: Rings, n: ListHead)
    requires Partition(w) && n in NodesOf(w)
    ensures forall x :: x in [n] + Rest(w, n) ==> x in NodesOf(w)
    ensures forall x :: x in [n] + Rest(w, n) ==> x in RingOf(w, n)
    ensures forall x :: x in Rest(w, n) ==> x in NodesOf(w) && x in RingOf(w, n)
  {
    Rooted(w, n);
  }

  /** A free node joins the world before its links are set. */
  lemma {:induction false} Joins(w: Rings, node: ListHead, head: ListHead)
    requires World(w) && Free(w, node) && head in NodesOf(w) && node != head
    ensures var v := With(w, node);
            && Partition(v) && [node] in v && NodesOf(v) == NodesOf(w) + {node}
            && (forall s :: s in v && s != [node] ==> RingOfWorld(v, s))
            && Ring([head] + Rest(v, head)) && forall x :: x in [head] + Rest(v, head) ==> x in NodesOf(w)
  {
    WithKeeps(w, node);
    var v := With(w, node);
    var s := RingOf(v, head);
    assert node in [node] && head in s;
    assert Apart([node], s);
    forall t | t in v && t != [node] ensures RingOfWorld(v, t) { assert RingOfWorld(w, t); }
    RootedRing(v, head);
    Rooted(v, head);
  }

  method ApplyAdd(node: ListHead, head: ListHead, ghost w: Rings)
    requires World(w) && Legal(w, Add(node, head))
    modifies NodesOf(w), node
    ensures World(Effect(w, Add(node, head)))
  {
    ghost var v := With(w, node);
    Joins(w, node, head);
    ghost var a := Rest(v, head);
    Inside(v, head);
    InsertedIsExchange(v, node, head);
    ListAdd(node, head, [head] + a, 0);
    assert InsertAfter([head] + a, 0, [node]) == [head, node] + a;
    ghost var gone, made := {RingOf(v, head), [node]}, {[head, node] + a};
    assert forall x :: x in NodesOf(v) && x !in NodesOf(gone) ==> x != node && x !in [head] + a;
    Lift(v, gone, made);
  }

  method ApplyAddTail(node: ListHead, head: ListHead, ghost w: Rings)
    requires World(w) && Legal(w, AddTail(node, head))
    modifies NodesOf(w), node
    ensures World(Effect(w, AddTail(node, head)))
  {
    ghost var v := With(w, node);
    Joins(w, node, head);
    ghost var a := Rest(v, head);
    Inside(v, head);
    InsertedIsExchange(v, node, head);
    ListAddTail(node, head, [head] + a, 0);
    assert InsertBefore([head] + a, 0, [node]) == [head] + a + [node];
    ghost var gone, made := {RingOf(v, head), [node]}, {[head] + a + [node]};
    assert forall x :: x in NodesOf(v) && x !in NodesOf(gone) ==> x != node && x !in [head] + a;
    Lift(v, gone, made);
  }

  method ApplyDelInit(node: ListHead, ghost w: Rings)
    requires World(w) && node in NodesOf(w)
    modifies NodesOf(w)
    ensures World(Removed(w, node))
  {
    ghost var a := Rest(w, node);
    RootedRing(w, node);
    Inside(w, node);
    ghost var gone, made := RemovedExchange(w, node);
    ListDelInit(node, [node] + a, 0);
    assert RemoveAt([node] + a, 0) == a;
    assert forall x :: x in NodesOf(w) && x !in NodesOf(gone) ==> x !in [node] + a;
    LiftWorld(w, gone, made);
  }

  method ApplyReplaceInit(orig: ListHead, node: ListHead, ghost w: Rings)
    requires World(w) && Legal(w, ReplaceInit(orig, node))
    modifies NodesOf(w), node
    ensures World(Effect(w, ReplaceInit(orig, node)))
  {
    ghost var v := With(w, node);
    Joins(w, node, orig);
    ghost var a := Rest(v, orig);
    Inside(v, orig);
    ReplacedIsExchange(v, orig, node);
    ListReplaceInit(orig, node, [orig] + a, 0);
    assert ([orig] + a)[0 := node] == [node] + a;
    ghost var gone, made := {RingOf(v, orig), [node]}, {[node] + a, [orig]};
    assert forall x :: x in NodesOf(v) && x !in NodesOf(gone) ==> x != node && x !in [orig] + a;
    Lift(v, gone, made);
  }

  method ApplySpliceInit(list: ListHead, head: ListHead, ghost w: Rings)
    requires World(w) && Legal(w, SpliceInit(list, head))
    modifies NodesOf(w)
    ensures World(Effect(w, SpliceInit(list, head)))
  {
    ghost var t, a := Rest(w, list), Rest(w, head);
    RootedRing(w, list);
    RootedRing(w, head);
    Inside(w, list);
    Inside(w, head);
    SplicedIsExchange(w, list, head);
    ListSpliceInit(list, head, t, a);
    ghost var gone, made := {RingOf(w, head), RingOf(w, list)}, {[head] + t + a, [list]};
    assert forall x :: x in NodesOf(w) && x !in NodesOf(gone) ==> x !in [head] + a && x !in [list] + t;
    LiftWorld(w, gone, made);
  }

  method ApplySpliceTailInit(list: ListHead, head: ListHead, ghost w: Rings)
    requires World(w) && Legal(w, SpliceTailInit(list, head))
    modifies NodesOf(w)
    ensures World(Effect(w, SpliceTailInit(list, head)))
  {
    ghost var t, a := Rest(w, list), Rest(w, head);
    RootedRing(w, list);
    RootedRing(w, head);
    Inside(w, list);
    Inside(w, head);
    SplicedIsExchange(w, list, head);
    ListSpliceTailInit(list, head, t, a);
    ghost var gone, made := {RingOf(w, head), RingOf(w, list)}, {[head] + a + t, [list]};
    assert forall x :: x in NodesOf(w) && x !in NodesOf(gone) ==> x !in [head] + a && x !in [list] + t;
    LiftWorld(w, gone, made);
  }

  // ----- moves: a removal and an insertion seen as one exchange

  lemma {:induction false} NodesOfUnion(p: Rings, q: Rings)
    ensures NodesOf(p + q) == NodesOf(p) + NodesOf(q)
  {
  }

  lemma {:induction false} Compose(w: Rings, g1: Rings, m1: Rings, g2: Rings, m2: Rings)
    requires Exchanges(w, g1, m1) && Exchanges(Exchange(w, g1, m1), g2, m2)
    ensures var gone, made := g1 + (g2 - m1), (m1 - g2) + m2;
            Exchanges(w, gone, made) && Exchange(w, gone, made) == Exchange(Exchange(w, g1, m1), g2, m2)
  {
    var u := Exchange(w, g1, m1);
    var gone, made := g1 + (g2 - m1), (m1 - g2) + m2;
    ExchangeKeeps(w, g1, m1);
    ExchangeKeeps(u, g2, m2);
    assert made <= Exchange(u, g2, m2);
    forall s | s in m1 ensures s !in w - g1 {
      assert s[0] in s;
      assert s[0] in NodesOf(m1);
      var g :| g in g1 && s[0] in g;
      assert s in w && g in w && s != g ==> Apart(s, g);
    }
    assert w - gone == w - g1 - g2;
    NodesOfUnion(m1 - g2, m2);
    NodesOfUnion(g1, g2 - m1);
    NodesOfUnion(g2 - m1, g2 * m1);
    NodesOfUnion(m1 - g2, g2 * m1);
    assert g2 == (g2 - m1) + (g2 * m1) && m1 == (m1 - g2) + (g2 * m1);
  }

  /** Where `head` is once `node` has left: on the rest of the common ring, or where it was. */
  lemma {:induction false} HeadAfterRemoval(w: Rings, node: ListHead, head: ListHead)
    requires Partition(w) && node in NodesOf(w) && head in NodesOf(w) && node != head
    ensures head in NodesOf(Removed(w, node))
    ensures head in Rest(w, node) ==> RingOf(Removed(w, node), head) == Rest(w, node)
    ensures head !in Rest(w, node) ==>
              RingOf(Removed(w, node), head) == RingOf(w, head) && Apart([node] + Rest(w, node), [head] + Rest(w, head))
  {
    RemovedIsExchange(w, node);
    Rooted(w, node);
    Rooted(w, head);
    var u := Removed(w, node);
    if head in Rest(w, node) {
      RingUnique(u, Rest(w, node), head);
    } else {
      RingUnique(u, RingOf(w, head), head);
      assert Apart(RingOf(w, node), RingOf(w, head));
    }
  }

  lemma {:induction false} MovedRing(a: Nodes, node: ListHead, head: ListHead)
    requires head in a
    ensures var k := IndexOf(a, head);
            && From(InsertAfter(a, k, [node]), k) == [head, node] + Following(a, head)
            && (if k == 0 then InsertBefore(a, k, [node]) == [head] + Following(a, head) + [node]
                else From(InsertBefore(a, k, [node]), k + 1) == [head] + Following(a, head) + [node])
  {
    var k := IndexOf(a, head);
    var p, q := a[..k], a[k + 1..];
    assert a == p + [head] + q;
    assert Following(a, head) == q + p;
    assert InsertAfter(a, k, [node]) == p + ([head, node] + q);
    if k > 0 { assert InsertBefore(a, k, [node]) == (p + [node]) + ([head] + q); }
  }

  /** The ring that a move creates. */
  ghost function NewRing(w: Rings, node: ListHead, head: ListHead, tail: bool): Nodes
    requires Partition(w) && node in NodesOf(w) && head in NodesOf(w)
  {
    RemovedIsExchange(w, node);
    var b := Rest(Removed(w, node), head);
    if tail then [head] + b + [node] else [head, node] + b
  }

  lemma {:induction false} MoveExchange(w: Rings, node: ListHead, head: ListHead, tail: bool)
    returns (gone: Rings, made: Rings)
    requires Partition(w) && node in NodesOf(w) && head in NodesOf(w) && node != head
    ensures Exchanges(w, gone, made)
    ensures Exchange(w, gone, made) == Moved(w, node, head, tail)
    ensures made == {NewRing(w, node, head, tail)}
                    + (if Rest(w, node) == [] || head in Rest(w, node) then {} else {Rest(w, node)})
    ensures RingOf(w, node) in gone && RingOf(w, head) in gone
  {
    var a, x := Rest(w, node), NewRing(w, node, head, tail);
    var u := Removed(w, node);
    var g1, m1 := RemovedExchange(w, node);
    RemovedIsExchange(w, node);
    HeadAfterRemoval(w, node, head);
    InsertedIsExchange(u, node, head);
    Rooted(w, node);
    var g2, m2 := {RingOf(u, head), [node]}, {x};
    Compose(w, g1, m1, g2, m2);
    gone, made := g1 + (g2 - m1), (m1 - g2) + m2;
    if head in a {
      RingUnique(w, RingOf(w, node), head);
      assert m1 - g2 == {};
    } else {
      assert head !in [node] + a && head in RingOf(w, head);
      if a != [] {
        assert a[0] in RingOf(w, node);
        assert m1 - g2 == {a};
      }
    }
  }

  /** The sequences that describe a move: `s` starts at the node, `t` holds the head at
      position `j`, and the new ring is what inserting leaves, up to rotation. */
  ghost predicate MoveShape(s: Nodes, t: Nodes, j: nat, node: ListHead, tail: bool, x: Nodes)
    requires |s| > 0 && j < |t| && (s == t ==> j > 0)
  {
    var u, k := if s == t then RemoveAt(s, 0) else t, if s == t then Shifted(j, 0) else j;
    var y := if tail then InsertBefore(u, k, [node]) else InsertAfter(u, k, [node]);
    exists m: nat :: m <= |y| && x == From(y, m)
  }

  lemma {:induction false} SameShape(a: Nodes, node: ListHead, head: ListHead, tail: bool)
    requires head in a
    ensures var s, f := [node] + a, Following(a, head);
            MoveShape(s, s, 1 + IndexOf(a, head), node, tail, if tail then [head] + f + [node] else [head, node] + f)
  {
    var k, f := IndexOf(a, head), Following(a, head);
    assert RemoveAt([node] + a, 0) == a;
    MovedRing(a, node, head);
    if !tail {
      assert From(InsertAfter(a, k, [node]), k) == [head, node] + f;
    } else if k == 0 {
      assert From(InsertBefore(a, k, [node]), 0) == [head] + f + [node];
    } else {
      assert From(InsertBefore(a, k, [node]), k + 1) == [head] + f + [node];
    }
  }

  lemma {:induction false} ApartShape(s: Nodes, b: Nodes, node: ListHead, head: ListHead, tail: bool)
    requires |s| > 0 && s != [head] + b
    ensures MoveShape(s, [head] + b, 0, node, tail, if tail then [head] + b + [node] else [head, node] + b)
  {
    var t := [head] + b;
    var y := if tail then InsertBefore(t, 0, [node]) else InsertAfter(t, 0, [node]);
    assert From(y, 0) == if tail then [head] + b + [node] else [head, node] + b;
  }

  lemma {:induction false} MoveShapes(w: Rings, node: ListHead, head: ListHead, tail: bool)
    returns (s: Nodes, t: Nodes, j: nat)
    requires Partition(w) && node in NodesOf(w) && head in NodesOf(w) && node != head
    ensures s == [node] + Rest(w, node) && j < |t| && t[j] == head
    ensures if head in Rest(w, node) then t == s && j > 0 else t == [head] + Rest(w, head) && Apart(s, t)
    ensures s != t <==> head !in Rest(w, node)
    ensures (s == t ==> j > 0) && MoveShape(s, t, j, node, tail, NewRing(w, node, head, tail))
  {
    var a, x := Rest(w, node), NewRing(w, node, head, tail);
    RemovedIsExchange(w, node);
    HeadAfterRemoval(w, node, head);
    Rooted(w, node);
    Rooted(w, head);
    s := [node] + a;
    if head in a {
      t, j := s, 1 + IndexOf(a, head);
      SameShape(a, node, head, tail);
    } else {
      t, j := [head] + Rest(w, head), 0;
      assert head in t && head !in s;
      ApartShape(s, Rest(w, head), node, head, tail);
    }
  }

  lemma {:induction false} ShapeRing(s: Nodes, t: Nodes, j: nat, node: ListHead, tail: bool, x: Nodes)
    requires |s| > 0 && j < |t| && (s == t ==> j > 0) && MoveShape(s, t, j, node, tail, x)
    requires var u, k := if s == t then RemoveAt(s, 0) else t, if s == t then Shifted(j, 0) else j;
             Ring(if tail then InsertBefore(u, k, [node]) else InsertAfter(u, k, [node]))
    ensures Ring(x)
  {
    var u, k := if s == t then RemoveAt(s, 0) else t, if s == t then Shifted(j, 0) else j;
    var y := if tail then InsertBefore(u, k, [node]) else InsertAfter(u, k, [node]);
    var m: nat :| m <= |y| && x == From(y, m);
    Rotate(y, m, x);
  }

  /** `list_move` or `list_move_tail`, described by a shape. */
  method MoveNode(node: ListHead, head: ListHead, tail: bool, ghost s: Nodes, ghost t: Nodes, ghost j: nat, ghost x: Nodes)
    requires Ring(s) && Ring(t) && s[0] == node && j < |t| && t[j] == head && node != head
    requires (s == t && j > 0) || (s != t && Apart(s, t))
    requires MoveShape(s, t, j, node, tail, x)
    modifies s, t
    ensures Ring(x) && (s != t && |s| > 1 ==> Ring(RemoveAt(s, 0)))
  {
    if tail {
      ListMoveTail(node, head, s, 0, t, j);
    } else {
      ListMove(node, head, s, 0, t, j);
    }
    ShapeRing(s, t, j, node, tail, x);
  }

  /** The move writes only the rings of the node and the head and leaves well-formed rings. */
  method MoveRings(node: ListHead, head: ListHead, tail: bool, ghost w: Rings, ghost gone: Rings, ghost made: Rings)
    requires World(w) && node in NodesOf(w) && head in NodesOf(w) && node != head
    requires RingOf(w, node) in gone && RingOf(w, head) in gone
    requires made == {NewRing(w, node, head, tail)}
                    + (if Rest(w, node) == [] || head in Rest(w, node) then {} else {Rest(w, node)})
    modifies NodesOf(w)
    ensures forall r :: r in made ==> Ring(r)
    ensures forall x :: x in NodesOf(w) && x !in NodesOf(gone) ==> x.next == old(x.next) && x.prev == old(x.prev)
  {
    ghost var s, t, j := MoveShapes(w, node, head, tail);
    ghost var x := NewRing(w, node, head, tail);
    MoveFrame(w, gone, node, head, s, t);
    MoveNode(node, head, tail, s, t, j, x);
    MadeRings(made, x, Rest(w, node), node, s, head in Rest(w, node));
  }

  method ApplyMove(node: ListHead, head: ListHead, tail: bool, ghost w: Rings)
    requires World(w) && node in NodesOf(w) && head in NodesOf(w) && node != head
    modifies NodesOf(w)
    ensures World(Moved(w, node, head, tail))
  {
    ghost var gone, made := MoveExchange(w, node, head, tail);
    MoveRings(node, head, tail, w, gone, made);
    LiftWorld(w, gone, made);
  }

  lemma {:induction false} MadeRings(made: Rings, x: Nodes, a: Nodes, node: ListHead, s: Nodes, same: bool)
    requires s == [node] + a && Ring(x) && (!same && |s| > 1 ==> Ring(RemoveAt(s, 0)))
    requires made == {x} + (if a == [] || same then {} else {a})
    ensures forall r :: r in made ==> Ring(r)
  {
    assert RemoveAt(s, 0) == a;
  }

  lemma {:induction false} MoveFrame(w: Rings, gone: Rings, node: ListHead, head: ListHead, s: Nodes, t: Nodes)
    requires World(w) && node in NodesOf(w) && head in NodesOf(w) && RingOf(w, node) in gone && RingOf(w, head) in gone
    requires s == [node] + Rest(w, node) && (t == s || t == [head] + Rest(w, head))
    ensures Ring(s) && Ring(t)
    ensures forall x :: x in s || x in t ==> x in NodesOf(w) && x in NodesOf(gone)
    ensures forall x :: x in NodesOf(w) && x !in NodesOf(gone) ==> x !in s && x !in t
  {
    RootedRing(w, node);
    RootedRing(w, head);
    Inside(w, node);
    Inside(w, head);
  }

  // ----- whole programs

  method Apply(op: Op, ghost w: Rings)
    requires World(w) && Legal(w, op)
    modifies NodesOf(w), Brings(op)
    ensures World(Effect(w, op)) && NodesOf(Effect(w, op)) == NodesOf(w) + Brings(op)
  {
    EffectConserves(w, op);
    match op
    case Add(node, head) => ApplyAdd(node, head, w);
    case AddTail(node, head) => ApplyAddTail(node, head, w);
    case DelInit(node) => ApplyDelInit(node, w);
    case Move(node, head) => ApplyMove(node, head, false, w);
    case MoveTail(node, head) => ApplyMove(node, head, true, w);
    case ReplaceInit(orig, node) => ApplyReplaceInit(orig, node, w);
    case SpliceInit(list, head) => ApplySpliceInit(list, head, w);
    case SpliceTailInit(list, head) => ApplySpliceTailInit(list, head, w);
  }

  /** The world after the first operations of a program; `Illegal` once one was not legal. */
  datatype Outcome = Illegal | Reached(world: Rings)

  ghost function Effects(w: Rings, ops: seq<Op>): Outcome
    requires Partition(w)
  {
    if ops == [] then Reached(w)
    else
      var before := Effects(w, ops[..|ops| - 1]);
      var op := ops[|ops| - 1];
      if before.Reached? && Partition(before.world) && Legal(before.world, op)
      then Reached(Effect(before.world, op)) else Illegal
  }

  ghost function AllBrought(ops: seq<Op>): set<ListHead> {
    if ops == [] then {} else AllBrought(ops[..|ops| - 1]) + Brings(ops[|ops| - 1])
  }

  /** A program ends with the nodes it started with and those it brought along. */
  lemma {:induction false} EffectsConserve(w: Rings, ops: seq<Op>)
    requires Partition(w) && Effects(w, ops).Reached?
    ensures var e := Effects(w, ops).world; Partition(e) && NodesOf(e) == NodesOf(w) + AllBrought(ops)
  {
    if ops != [] {
      EffectsConserve(w, ops[..|ops| - 1]);
      EffectConserves(Effects(w, ops[..|ops| - 1]).world, ops[|ops| - 1]);
    }
  }

  lemma {:induction false} PrefixBrings(ops: seq<Op>, n: nat)
    requires n < |ops|
    ensures AllBrought(ops[..n]) + Brings(ops[n]) <= AllBrought(ops)
  {
    assert ops[..|ops| - 1][..n] == ops[..n];
    if n < |ops| - 1 { PrefixBrings(ops[..|ops| - 1], n); }
  }

  lemma {:induction false} PrefixReached(w: Rings, ops: seq<Op>, n: nat)
    requires Partition(w) && Effects(w, ops).Reached? && n <= |ops|
    ensures Effects(w, ops[..n]).Reached?
  {
    if n == |ops| {
      assert ops[..n] == ops;
    } else {
      assert ops[..|ops| - 1][..n] == ops[..n];
      PrefixReached(w, ops[..|ops| - 1], n);
    }
  }

  /** A program is its first operation, if that is legal, followed by the rest. */
  lemma {:induction false} ProgramLaw(w: Rings, op: Op, ops: seq<Op>)
    requires Partition(w)
    ensures Effects(w, []) == Reached(w)
    ensures !Legal(w, op) ==> Effects(w, [op] + ops) == Illegal
    ensures Legal(w, op) ==> Partition(Effect(w, op)) && Effects(w, [op] + ops) == Effects(Effect(w, op), ops)
    decreases |ops|
  {
    if Legal(w, op) { EffectConserves(w, op); }
    var all := [op] + ops;
    if ops == [] {
      assert all[..|all| - 1] == [];
    } else {
      assert all[..|all| - 1] == [op] + ops[..|ops| - 1] && all[|all| - 1] == ops[|ops| - 1];
      ProgramLaw(w, op, ops[..|ops| - 1]);
    }
  }

  /** The next operation of a legal program is legal where the program stands, and works on
      nodes the program may touch. */
  lemma {:induction false} NextReached(w: Rings, ops: seq<Op>, i: nat, now: Rings)
    requires Partition(w) && Effects(w, ops).Reached? && i < |ops| && Effects(w, ops[..i]) == Reached(now)
    ensures Partition(now) && Legal(now, ops[i])
    ensures Effects(w, ops[..i + 1]) == Reached(Effect(now, ops[i]))
    ensures NodesOf(now) + Brings(ops[i]) <= NodesOf(w) + AllBrought(ops)
  {
    PrefixReached(w, ops, i + 1);
    assert ops[..i + 1][..i] == ops[..i];
    EffectsConserve(w, ops[..i]);
    PrefixBrings(ops, i);
  }

  /** Every program that is legal on the sequences runs on the heap, ends in the world the
      sequences predict, with all rings well formed and disjoint, and loses no node. */
  method Execute(ops: seq<Op>, ghost w: Rings)
    requires World(w) && Effects(w, ops).Reached?
    modifies NodesOf(w), AllBrought(ops)
    ensures World(Effects(w, ops).world) && NodesOf(Effects(w, ops).world) == NodesOf(w) + AllBrought(ops)
  {
    ghost var now := w;
    ghost var mine := NodesOf(w) + AllBrought(ops);
    for i := 0 to |ops|
      invariant Effects(w, ops[..i]) == Reached(now) && World(now)
    {
      NextReached(w, ops, i, now);
      assert forall x :: x in NodesOf(now) || x in Brings(ops[i]) ==> x in mine;
      Apply(ops[i], now);
      now := Effect(now, ops[i]);
    }
    assert ops[..|ops|] == ops;
    EffectsConserve(w, ops);
  }
}
