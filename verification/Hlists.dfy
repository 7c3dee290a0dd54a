/** `hlist` of `list.h`: doubly linked lists whose head is a single pointer. The back link
    `pprev` is the address of the pointer that points to the node. */
module Hlists {
  import opened Lists

  class HlistHead {
    var first: HlistNode?
  }

  class HlistNode {
    var next: HlistNode?
    var pprev: Location
  }

  /** A pointer to a pointer to a node: `&h->first`, `&n->next`, or `NULL` (which also stands
      for the poison value). */
  datatype Location = Nowhere | FirstOf(head: HlistHead) | NextOf(node: HlistNode)

  type Chain = seq<HlistNode>

  /** `*where` */
  ghost function Deref(where: Location): HlistNode?
    reads match where case Nowhere => {} case FirstOf(h) => {h as object} case NextOf(n) => {n as object}
  {
    match where
    case Nowhere => null
    case FirstOf(h) => h.first
    case NextOf(n) => n.next
  }

  function At(s: Chain, i: nat): HlistNode? {
    if i < |s| then s[i] else null
  }

  function Link(h: HlistHead, s: Chain, i: nat): Location
    requires i <= |s|
  {
    if i == 0 then FirstOf(h) else NextOf(s[i - 1])
  }

  ghost predicate Hlist(h: HlistHead, s: Chain)
    reads h, s
  {
    && Distinct(s) && h.first == At(s, 0)
    && (forall i {:trigger s[i].next} :: 0 <= i < |s| ==> s[i].next == At(s, i + 1))
    && (forall i {:trigger s[i].pprev} :: 0 <= i < |s| ==> s[i].pprev == Link(h, s, i))
  }

  /** The location that `pprev` names holds the node itself. */
  lemma {:induction false} PprevHoldsNode(h: HlistHead, s: Chain, i: nat)
    requires Hlist(h, s) && i < |s|
    ensures s[i].pprev != Nowhere && Deref(s[i].pprev) == s[i]
  {
    if i > 0 { assert s[i - 1].next == At(s, i); }
  }

  lemma {:induction false} InsertDistinct(s: Chain, k: nat, n: HlistNode)
    requires Distinct(s) && n !in s && k <= |s|
    ensures Distinct(s[..k] + [n] + s[k..])
  {
    var t := s[..k] + [n] + s[k..];
    forall i, j | 0 <= i < j < |t| ensures t[i] != t[j] {
      assert t[i] == if i < k then s[i] else if i == k then n else s[i - 1];
      assert t[j] == if j < k then s[j] else if j == k then n else s[j - 1];
    }
  }

  /** Neighbours in a sequence with `n` inserted at `k`, in terms of the sequence before. */
  lemma {:induction false} InsertedLinks(h: HlistHead, s: Chain, k: nat, n: HlistNode, i: nat)
    requires k <= |s| && i <= |s|
    ensures var t := s[..k] + [n] + s[k..];
            && t[i] == (if i < k then s[i] else if i == k then n else s[i - 1])
            && At(t, i + 1) == (if i + 1 < k then At(s, i + 1) else if i + 1 == k then n else At(s, i))
            && Link(h, t, i) == (if i <= k then Link(h, s, i) else if i == k + 1 then NextOf(n) else Link(h, s, i - 1))
  {
  }

  /** `*where = value` */
  method Store(where: Location, value: HlistNode?)
    requires where != Nowhere
    modifies if where.FirstOf? then {where.head as object} else if where.NextOf? then {where.node as object} else {}
    ensures Deref(where) == value
    ensures where.NextOf? ==> where.node.pprev == old(where.node.pprev)
  {
    match where
    case FirstOf(h) => h.first := value;
    case NextOf(n) => n.next := value;
  }

  method HlistAddHead(n: HlistNode, h: HlistHead, ghost s: Chain)
    requires Hlist(h, s) && n !in s
    modifies n, h, s
    ensures Hlist(h, [n] + s)
  {
    var first := h.first;
    n.next := first;
    if first != null {
      first.pprev := NextOf(n);
    }
    h.first := n;
    n.pprev := FirstOf(h);
  }

  method HlistAddBefore(n: HlistNode, next: HlistNode, ghost h: HlistHead, ghost s: Chain, ghost k: nat)
    requires Hlist(h, s) && n !in s && k < |s| && s[k] == next
    modifies n, h, s
    ensures Hlist(h, s[..k] + [n] + s[k..])
  {
    ghost var t := s[..k] + [n] + s[k..];
    assert next.pprev == Link(h, s, k);
    n.pprev := next.pprev;
    n.next := next;
    next.pprev := NextOf(n);
    Store(n.pprev, n);
    InsertDistinct(s, k, n);
    assert if k == 0 then h.first == n else s[k - 1].next == n;
    forall i | 0 <= i < |t| ensures t[i].next == At(t, i + 1) && t[i].pprev == Link(h, t, i) {
      InsertedLinks(h, s, k, n, i);
      if i < k {
        assert old(s[i].next) == At(s, i + 1) && old(s[i].pprev) == Link(h, s, i);
      } else if i > k {
        assert old(s[i - 1].next) == At(s, i) && old(s[i - 1].pprev) == Link(h, s, i - 1);
      }
    }
  }

  method HlistAddBehind(n: HlistNode, prev: HlistNode, ghost h: HlistHead, ghost s: Chain, ghost k: nat)
    requires Hlist(h, s) && n !in s && k < |s| && s[k] == prev
    modifies n, s
    ensures Hlist(h, s[..k + 1] + [n] + s[k + 1..])
  {
    ghost var t := s[..k + 1] + [n] + s[k + 1..];
    assert prev.next == At(s, k + 1);
    n.next := prev.next;
    prev.next := n;
    n.pprev := NextOf(prev);
    if n.next != null {
      n.next.pprev := NextOf(n);
    }
    InsertDistinct(s, k + 1, n);
    forall i | 0 <= i < |t| ensures t[i].next == At(t, i + 1) && t[i].pprev == Link(h, t, i) {
      InsertedLinks(h, s, k + 1, n, i);
      if i <= k {
        assert old(s[i].next) == At(s, i + 1) && old(s[i].pprev) == Link(h, s, i);
      } else if i > k + 1 {
        assert old(s[i - 1].next) == At(s, i) && old(s[i - 1].pprev) == Link(h, s, i - 1);
      }
    }
  }

  /** Neighbours in a sequence without position `k`, in terms of the sequence before. */
  lemma {:induction false} RemovedLinks(h: HlistHead, s: Chain, k: nat, i: nat)
    requires k < |s| && i < |s| - 1
    ensures var t, j := RemoveAt(s, k), if i < k then i else i + 1;
            && t[i] == s[j]
            && At(t, i + 1) == (if j + 1 == k then At(s, k + 1) else At(s, j + 1))
            && Link(h, t, i) == (if j == k + 1 then Link(h, s, k) else Link(h, s, j))
  {
  }

  /** `__hlist_del` */
  method Unhash(n: HlistNode, ghost h: HlistHead, ghost s: Chain, ghost k: nat)
    requires Hlist(h, s) && k < |s| && s[k] == n
    modifies h, s
    ensures Hlist(h, RemoveAt(s, k))
  {
    ghost var t := RemoveAt(s, k);
    assert n.next == At(s, k + 1) && n.pprev == Link(h, s, k);
    var next := n.next;
    var pprev := n.pprev;
    Store(pprev, next);
    if next != null {
      next.pprev := pprev;
    }
    forall i | 0 <= i < |t| ensures t[i].next == At(t, i + 1) && t[i].pprev == Link(h, t, i) {
      RemovedLinks(h, s, k, i);
      ghost var j := if i < k then i else i + 1;
      assert old(s[j].next) == At(s, j + 1) && old(s[j].pprev) == Link(h, s, j);
    }
  }

  /** The target takes over the list. Whatever it held before is not looked at, so every node
      is still held by its `pprev` if and only if the target was empty. */
  method HlistMoveList(from: HlistHead, to: HlistHead, ghost s: Chain, ghost t: Chain)
    requires Hlist(from, s) && Hlist(to, t)
    requires if from == to then s == t else Apart(s, t)
    modifies from, to, s
    ensures Hlist(from, []) && (from != to ==> Hlist(to, s))
    ensures from != to ==> forall x :: x in t ==> x.next == old(x.next) && x.pprev == old(x.pprev)
    ensures (forall x :: x in s + t ==> Deref(x.pprev) == x) <==> t == []
  {
    to.first := from.first;
    if to.first != null {
      to.first.pprev := FirstOf(to);
    }
    from.first := null;
    if t != [] {
      assert t[0] in s + t && t[0].pprev == FirstOf(to);
      assert Deref(t[0].pprev) != t[0];
    } else if s != [] {
      forall x | x in s ensures Deref(x.pprev) == x {
        PprevHoldsNode(to, s, IndexOf(s, x));
      }
    }
  }

  /** An input for the failing case: the node of the target names a location that now holds the
      node of the source, where a later `hlist_del` would write. */
  method MoveOntoFullHead(from: HlistHead, to: HlistHead, x: HlistNode, y: HlistNode)
    requires from != to && x != y && Hlist(from, []) && Hlist(to, [])
    modifies from, to, x, y
    ensures Hlist(to, [x]) && y.pprev == FirstOf(to) && Deref(y.pprev) == x
  {
    HlistAddHead(x, from, []);
    HlistAddHead(y, to, []);
    HlistMoveList(from, to, [x], [y]);
  }

  /** `hlist_del_init`; an unhashed node is left alone, and then no list is involved. */
  method HlistDelInit(n: HlistNode, ghost h: HlistHead?, ghost s: Chain, ghost k: nat)
    requires if n.pprev == Nowhere then h == null && s == [] else h != null && Hlist(h, s) && k < |s| && s[k] == n
    modifies h, s
    ensures h != null ==> Hlist(h, RemoveAt(s, k)) && n.next == null && n.pprev == Nowhere
  {
    if n.pprev != Nowhere {
      Unhash(n, h, s, k);
      assert n !in RemoveAt(s, k);
      n.next := null;
      n.pprev := Nowhere;
    }
  }

  /** `hlist_is_singular_node` decides without looking at the head. */
  method HlistIsSingularNode(n: HlistNode, h: HlistHead, ghost s: Chain, ghost k: nat) returns (singular: bool)
    requires Hlist(h, s) && k < |s| && s[k] == n
    ensures singular <==> s == [n]
  {
    assert n.next == At(s, k + 1) && n.pprev == Link(h, s, k);
    singular := n.next == null && n.pprev == FirstOf(h);
  }

  // ----- any number of lists

  /** Which nodes are on which list, which are unhashed, and which are on no list and hold
      whatever they held last. */
  datatype Tables = Tables(lists: map<HlistHead, Chain>, loose: set<HlistNode>, stale: set<HlistNode>)

  datatype HlistOp =
    | AddHead(n: HlistNode, h: HlistHead)
    | AddBefore(n: HlistNode, next: HlistNode)
    | AddBehind(n: HlistNode, prev: HlistNode)
    | DelInit(n: HlistNode)
    | MoveList(from: HlistHead, to: HlistHead)

  ghost function Linked(w: Tables): set<HlistNode> {
    set h, x | h in w.lists && x in w.lists[h] :: x
  }

  ghost function NodesOf(w: Tables): set<HlistNode> {
    Linked(w) + w.loose + w.stale
  }

  ghost predicate Separate(w: Tables) {
    && (forall h :: h in w.lists ==> Distinct(w.lists[h]))
    && (forall h, g :: h in w.lists && g in w.lists && h != g ==> Apart(w.lists[h], w.lists[g]))
    && (forall x :: x in w.loose + w.stale ==> x !in Linked(w))
    && w.loose !! w.stale
  }

  ghost predicate Sound(w: Tables)
    reads w.lists.Keys, NodesOf(w)
  {
    && Separate(w)
    && (forall h :: h in w.lists ==> SoundList(w, h))
    && (forall x :: x in w.loose ==> x.pprev == Nowhere)
  }

  ghost predicate SoundList(w: Tables, h: HlistHead)
    requires h in w.lists
    reads w.lists.Keys, NodesOf(w)
  {
    assert forall x :: x in w.lists[h] ==> x in Linked(w);
    Hlist(h, w.lists[h])
  }

  ghost function HeadOf(w: Tables, n: HlistNode): (h: HlistHead)
    requires n in Linked(w)
    ensures h in w.lists && n in w.lists[h]
  {
    var h :| h in w.lists && n in w.lists[h]; h
  }

  ghost predicate Legal(w: Tables, op: HlistOp) {
    match op
    case AddHead(n, h) => Addable(w, n) && h in w.lists
    case AddBefore(n, next) => Addable(w, n) && next in Linked(w)
    case AddBehind(n, prev) => Addable(w, n) && prev in Linked(w)
    case DelInit(n) => n in Linked(w) + w.loose
    case MoveList(from, to) => from in w.lists && to in w.lists
  }

  /** Any node that is on no list can be added; its contents do not matter. */
  ghost predicate Addable(w: Tables, n: HlistNode) {
    n in w.loose + w.stale
  }

  ghost function Insert(w: Tables, n: HlistNode, h: HlistHead, k: nat): Tables
    requires h in w.lists && k <= |w.lists[h]|
  {
    var s := w.lists[h];
    Tables(w.lists[h := s[..k] + [n] + s[k..]], w.loose - {n}, w.stale - {n})
  }

  ghost function Effect(w: Tables, op: HlistOp): Tables
    requires Legal(w, op)
  {
    match op
    case AddHead(n, h) => Insert(w, n, h, 0)
    case AddBefore(n, next) => var h := HeadOf(w, next); Insert(w, n, h, IndexOf(w.lists[h], next))
    case AddBehind(n, prev) => var h := HeadOf(w, prev); Insert(w, n, h, IndexOf(w.lists[h], prev) + 1)
    case DelInit(n) =>
      if n in w.loose then w
      else
        var h := HeadOf(w, n);
        Tables(w.lists[h := RemoveAt(w.lists[h], IndexOf(w.lists[h], n))], w.loose + {n}, w.stale)
    case MoveList(from, to) =>
      var dropped := set x | x in w.lists[to];
      Tables(w.lists[to := w.lists[from]][from := []], w.loose, w.stale + dropped)
  }

  // ----- the effects conserve the nodes

  lemma {:induction false} LinkedAfter(w: Tables, v: Tables, h: HlistHead, x: HlistNode)
    requires Separate(w) && h in w.lists && v.lists.Keys == w.lists.Keys
    requires forall g :: g in w.lists && g != h ==> v.lists[g] == w.lists[g]
    ensures x in Linked(v) <==> x in v.lists[h] || (x in Linked(w) && x !in w.lists[h])
  {
    if x in Linked(v) {
      var g :| g in v.lists && x in v.lists[g];
    }
    if x in Linked(w) && x !in w.lists[h] {
      var g :| g in w.lists && x in w.lists[g];
      assert g in v.lists && x in v.lists[g];
    }
  }

  lemma {:induction false} InsertConserves(w: Tables, n: HlistNode, h: HlistHead, k: nat)
    requires Separate(w) && Addable(w, n) && h in w.lists && k <= |w.lists[h]|
    ensures Separate(Insert(w, n, h, k)) && NodesOf(Insert(w, n, h, k)) == NodesOf(w)
    ensures n !in w.lists[h]
  {
    var s, v := w.lists[h], Insert(w, n, h, k);
    var t := v.lists[h];
    assert s == s[..k] + s[k..];
    assert forall x :: x in t <==> x == n || x in s;
    assert forall g :: g in w.lists ==> n !in w.lists[g];
    forall x ensures x in Linked(v) <==> x in Linked(w) || x == n {
      LinkedAfter(w, v, h, x);
      assert x in s ==> x in Linked(w);
    }
  }

  lemma {:induction false} RemoveConserves(w: Tables, n: HlistNode)
    requires Separate(w) && n in Linked(w) && n !in w.loose
    ensures var v := Effect(w, DelInit(n)); Separate(v) && NodesOf(v) == NodesOf(w)
  {
    var h := HeadOf(w, n);
    var s, v := w.lists[h], Effect(w, DelInit(n));
    var k := IndexOf(s, n);
    var t := v.lists[h];
    assert s == s[..k] + [n] + s[k + 1..];
    assert n !in t;
    forall x ensures x in t <==> x in s && x != n {
      assert x in s <==> x in s[..k] || x == n || x in s[k + 1..];
    }
    forall x ensures x in Linked(v) <==> x in Linked(w) && x != n {
      LinkedAfter(w, v, h, x);
      assert x in s ==> x in Linked(w);
    }
  }

  lemma {:induction false} MoveConserves(w: Tables, from: HlistHead, to: HlistHead)
    requires Separate(w) && Legal(w, MoveList(from, to))
    ensures var v := Effect(w, MoveList(from, to)); Separate(v) && NodesOf(v) == NodesOf(w)
  {
    var v := Effect(w, MoveList(from, to));
    forall x ensures x in Linked(v) <==> x in Linked(w) && x !in w.lists[to] {
      MovedNode(w, from, to, x);
    }
    assert forall x :: x in w.lists[to] ==> x in Linked(w);
  }

  lemma {:induction false} MovedNode(w: Tables, from: HlistHead, to: HlistHead, x: HlistNode)
    requires Separate(w) && Legal(w, MoveList(from, to))
    ensures x in Linked(Effect(w, MoveList(from, to))) <==> x in Linked(w) && x !in w.lists[to]
  {
    var v := Effect(w, MoveList(from, to));
    if x in Linked(w) && x !in w.lists[to] {
      var g := HeadOf(w, x);
      var g' := if g == from then to else g;
      assert g' in v.lists && x in v.lists[g'];
    }
    if x in Linked(v) {
      var g := HeadOf(v, x);
      var g' := if g == to then from else g;
      assert g' in w.lists && x in w.lists[g'];
    }
  }

  /** No operation loses, invents or shares a node, and a node leaves the lists without being
      unhashed if and only if a list is moved onto a head that holds one. */
  lemma {:induction false} EffectConserves(w: Tables, op: HlistOp)
    requires Separate(w) && Legal(w, op)
    ensures Separate(Effect(w, op)) && NodesOf(Effect(w, op)) == NodesOf(w)
    ensures Effect(w, op).lists.Keys == w.lists.Keys
    ensures Effect(w, op).stale <= w.stale <==> !(op.MoveList? && w.lists[op.to] != [])
  {
    match op
    case AddHead(n, h) => InsertConserves(w, n, h, 0);
    case AddBefore(n, next) =>
      var h := HeadOf(w, next);
      var k := IndexOf(w.lists[h], next);
      assert Effect(w, op) == Insert(w, n, h, k);
      InsertConserves(w, n, h, k);
    case AddBehind(n, prev) =>
      var h := HeadOf(w, prev);
      var k := IndexOf(w.lists[h], prev) + 1;
      assert Effect(w, op) == Insert(w, n, h, k);
      InsertConserves(w, n, h, k);
    case DelInit(n) =>
      if n !in w.loose { RemoveConserves(w, n); }
    case MoveList(from, to) =>
      MoveConserves(w, from, to);
      if w.lists[to] != [] { assert w.lists[to][0] in Linked(w) && w.lists[to][0] in Effect(w, op).stale; }
  }

  // ----- what the effects are, on plain sequences

  lemma {:induction false} FoundAt(w: Tables, h: HlistHead, a: Chain, x: HlistNode, b: Chain)
    requires Separate(w) && h in w.lists && w.lists[h] == a + [x] + b
    ensures x in Linked(w) && HeadOf(w, x) == h && IndexOf(w.lists[h], x) == |a|
    ensures x !in w.loose && x !in w.stale
  {
    assert w.lists[h][|a|] == x;
    assert x in w.lists[h];
    assert x in Linked(w);
  }

  lemma {:induction false} AddHeadLaw(w: Tables, n: HlistNode, h: HlistHead)
    requires Separate(w) && Addable(w, n) && h in w.lists
    ensures Legal(w, AddHead(n, h))
    ensures Effect(w, AddHead(n, h)) == Tables(w.lists[h := [n] + w.lists[h]], w.loose - {n}, w.stale - {n})
  {
    var s := w.lists[h];
    assert s[..0] + [n] + s[0..] == [n] + s;
  }

  lemma {:induction false} AddBeforeLaw(w: Tables, n: HlistNode, next: HlistNode, h: HlistHead, a: Chain, b: Chain)
    requires Separate(w) && Addable(w, n) && h in w.lists && w.lists[h] == a + [next] + b
    ensures Legal(w, AddBefore(n, next))
    ensures Effect(w, AddBefore(n, next)) == Tables(w.lists[h := a + [n, next] + b], w.loose - {n}, w.stale - {n})
  {
    var s := w.lists[h];
    FoundAt(w, h, a, next, b);
    assert s[..|a|] + [n] + s[|a|..] == a + [n, next] + b;
  }

  lemma {:induction false} AddBehindLaw(w: Tables, n: HlistNode, prev: HlistNode, h: HlistHead, a: Chain, b: Chain)
    requires Separate(w) && Addable(w, n) && h in w.lists && w.lists[h] == a + [prev] + b
    ensures Legal(w, AddBehind(n, prev))
    ensures Effect(w, AddBehind(n, prev)) == Tables(w.lists[h := a + [prev, n] + b], w.loose - {n}, w.stale - {n})
  {
    var s := w.lists[h];
    FoundAt(w, h, a, prev, b);
    assert s[..|a| + 1] + [n] + s[|a| + 1..] == a + [prev, n] + b;
  }

  lemma {:induction false} DelInitLaw(w: Tables, n: HlistNode, h: HlistHead, a: Chain, b: Chain)
    requires Separate(w) && h in w.lists && w.lists[h] == a + [n] + b
    ensures Legal(w, DelInit(n))
    ensures Effect(w, DelInit(n)) == Tables(w.lists[h := a + b], w.loose + {n}, w.stale)
  {
    FoundAt(w, h, a, n, b);
    assert RemoveAt(w.lists[h], |a|) == a + b;
  }

  lemma {:induction false} DelInitAgainLaw(w: Tables, n: HlistNode)
    requires n in w.loose
    ensures Legal(w, DelInit(n)) && Effect(w, DelInit(n)) == w
  {
  }

  lemma {:induction false} MoveListLaw(w: Tables, from: HlistHead, to: HlistHead)
    requires from in w.lists && to in w.lists
    ensures Legal(w, MoveList(from, to))
    ensures var e := Effect(w, MoveList(from, to));
            && e.lists.Keys == w.lists.Keys && e.lists[from] == [] && (from != to ==> e.lists[to] == w.lists[from])
            && (forall g :: g in w.lists && g != from && g != to ==> e.lists[g] == w.lists[g])
            && e.loose == w.loose && forall x :: x in e.stale <==> x in w.stale || x in w.lists[to]
  {
  }

  // ----- the heap agrees

  /** When only the lists of `hs` were rewritten, the tables stay sound. */
  twostate lemma Lift(w: Tables, new v: Tables, new hs: set<HlistHead>)
    requires old(Sound(w)) && Separate(v) && v.lists.Keys == w.lists.Keys
    requires forall g :: g in w.lists && g !in hs ==> v.lists[g] == w.lists[g] && g.first == old(g.first)
    requires forall h :: h in hs && h in v.lists ==> Hlist(h, v.lists[h])
    requires forall x :: x in v.loose ==> x.pprev == Nowhere
    requires forall g, x :: g in w.lists && g !in hs && x in w.lists[g] ==> x.next == old(x.next) && x.pprev == old(x.pprev)
    ensures Sound(v)
  {
    forall g | g in v.lists && g !in hs ensures Hlist(g, v.lists[g]) {
      var s := w.lists[g];
      assert old(SoundList(w, g));
      forall i | 0 <= i < |s| ensures s[i].next == At(s, i + 1) && s[i].pprev == Link(g, s, i) {
        assert s[i] in w.lists[g];
        assert old(s[i].next) == At(s, i + 1) && old(s[i].pprev) == Link(g, s, i);
      }
    }
    assert forall g :: g in v.lists ==> SoundList(v, g);
  }

  lemma {:induction false} Inside(w: Tables, h: HlistHead)
    requires Sound(w) && h in w.lists
    ensures Hlist(h, w.lists[h])
    ensures forall x :: x in w.lists[h] ==> x in Linked(w) && x in NodesOf(w)
  {
    assert SoundList(w, h);
  }

  twostate lemma InsertLift(w: Tables, new n: HlistNode, new h: HlistHead, new k: nat)
    requires old(Sound(w)) && Addable(w, n) && h in w.lists && k <= |w.lists[h]|
    requires Hlist(h, w.lists[h][..k] + [n] + w.lists[h][k..])
    requires forall g :: g in w.lists && g != h ==> g.first == old(g.first)
    requires forall x :: x in NodesOf(w) && x !in w.lists[h] && x != n ==> x.next == old(x.next) && x.pprev == old(x.pprev)
    ensures Sound(Insert(w, n, h, k))
  {
    InsertConserves(w, n, h, k);
    forall g, x | g in w.lists && g != h && x in w.lists[g] ensures x.next == old(x.next) && x.pprev == old(x.pprev) {
      assert x in Linked(w);
    }
    Lift(w, Insert(w, n, h, k), {h});
  }

  /** The list an operation works on: well formed, inside the tables, without the new node. */
  lemma {:induction false} Opened(w: Tables, n: HlistNode, h: HlistHead)
    requires Sound(w) && Addable(w, n) && h in w.lists
    ensures Hlist(h, w.lists[h]) && n !in w.lists[h] && n in NodesOf(w)
    ensures forall x :: x in w.lists[h] ==> x in NodesOf(w)
  {
    Inside(w, h);
  }

  method ApplyAddHead(n: HlistNode, h: HlistHead, ghost w: Tables)
    requires Sound(w) && Legal(w, AddHead(n, h))
    modifies w.lists.Keys, NodesOf(w)
    ensures Sound(Effect(w, AddHead(n, h)))
  {
    ghost var s := w.lists[h];
    Opened(w, n, h);
    HlistAddHead(n, h, s);
    assert s[..0] + [n] + s[0..] == [n] + s;
    InsertLift(w, n, h, 0);
  }

  method AddBeforeAt(n: HlistNode, next: HlistNode, ghost w: Tables, ghost h: HlistHead, ghost k: nat)
    requires Sound(w) && Addable(w, n) && h in w.lists && k < |w.lists[h]| && w.lists[h][k] == next
    modifies w.lists.Keys, NodesOf(w)
    ensures Sound(Insert(w, n, h, k))
  {
    Opened(w, n, h);
    HlistAddBefore(n, next, h, w.lists[h], k);
    InsertLift(w, n, h, k);
  }

  method AddBehindAt(n: HlistNode, prev: HlistNode, ghost w: Tables, ghost h: HlistHead, ghost k: nat)
    requires Sound(w) && Addable(w, n) && h in w.lists && k < |w.lists[h]| && w.lists[h][k] == prev
    modifies w.lists.Keys, NodesOf(w)
    ensures Sound(Insert(w, n, h, k + 1))
  {
    Opened(w, n, h);
    HlistAddBehind(n, prev, h, w.lists[h], k);
    InsertLift(w, n, h, k + 1);
  }

  method ApplyAddBefore(n: HlistNode, next: HlistNode, ghost w: Tables)
    requires Sound(w) && Legal(w, AddBefore(n, next))
    modifies w.lists.Keys, NodesOf(w)
    ensures Sound(Effect(w, AddBefore(n, next)))
  {
    ghost var h := HeadOf(w, next);
    AddBeforeAt(n, next, w, h, IndexOf(w.lists[h], next));
  }

  method ApplyAddBehind(n: HlistNode, prev: HlistNode, ghost w: Tables)
    requires Sound(w) && Legal(w, AddBehind(n, prev))
    modifies w.lists.Keys, NodesOf(w)
    ensures Sound(Effect(w, AddBehind(n, prev)))
  {
    ghost var h := HeadOf(w, prev);
    AddBehindAt(n, prev, w, h, IndexOf(w.lists[h], prev));
  }

  method ApplyDelInit(n: HlistNode, ghost w: Tables)
    requires Sound(w) && Legal(w, DelInit(n))
    modifies w.lists.Keys, NodesOf(w)
    ensures Sound(Effect(w, DelInit(n)))
  {
    ghost var v := Effect(w, DelInit(n));
    ghost var h: HlistHead? := null;
    ghost var s, k: nat := [], 0;
    if n !in w.loose {
      var g := HeadOf(w, n);
      Inside(w, g);
      RemoveConserves(w, n);
      h, s, k := g, w.lists[g], IndexOf(w.lists[g], n);
      PprevHoldsNode(g, s, k);
    }
    HlistDelInit(n, h, s, k);
    if n !in w.loose { Lift(w, v, {HeadOf(w, n)}); }
  }

  method ApplyMoveList(from: HlistHead, to: HlistHead, ghost w: Tables)
    requires Sound(w) && Legal(w, MoveList(from, to))
    modifies w.lists.Keys, NodesOf(w)
    ensures Sound(Effect(w, MoveList(from, to)))
  {
    ghost var v := Effect(w, MoveList(from, to));
    Inside(w, from);
    Inside(w, to);
    MoveConserves(w, from, to);
    HlistMoveList(from, to, w.lists[from], w.lists[to]);
    Lift(w, v, {from, to});
  }

  method Apply(op: HlistOp, ghost w: Tables)
    requires Sound(w) && Legal(w, op)
    modifies w.lists.Keys, NodesOf(w)
    ensures Sound(Effect(w, op)) && NodesOf(Effect(w, op)) == NodesOf(w)
    ensures Effect(w, op).lists.Keys == w.lists.Keys
  {
    EffectConserves(w, op);
    match op
    case AddHead(n, h) => ApplyAddHead(n, h, w);
    case AddBefore(n, next) => ApplyAddBefore(n, next, w);
    case AddBehind(n, prev) => ApplyAddBehind(n, prev, w);
    case DelInit(n) => ApplyDelInit(n, w);
    case MoveList(from, to) => ApplyMoveList(from, to, w);
  }

  // ----- whole programs

  datatype Outcome = Illegal | Reached(tables: Tables)

  ghost function Effects(w: Tables, ops: seq<HlistOp>): Outcome {
    if ops == [] then Reached(w)
    else
      var before := Effects(w, ops[..|ops| - 1]);
      if before.Reached? && Legal(before.tables, ops[|ops| - 1])
      then Reached(Effect(before.tables, ops[|ops| - 1])) else Illegal
  }

  /** A program is its first operation, if that is legal, followed by the rest. */
  lemma {:induction false} ProgramLaw(w: Tables, op: HlistOp, ops: seq<HlistOp>)
    ensures Effects(w, []) == Reached(w)
    ensures Effects(w, [op] + ops) == if Legal(w, op) then Effects(Effect(w, op), ops) else Illegal
    decreases |ops|
  {
    var all := [op] + ops;
    if ops == [] {
      assert all[..|all| - 1] == [];
    } else {
      assert all[..|all| - 1] == [op] + ops[..|ops| - 1] && all[|all| - 1] == ops[|ops| - 1];
      ProgramLaw(w, op, ops[..|ops| - 1]);
    }
  }

  lemma {:induction false} PrefixReached(w: Tables, ops: seq<HlistOp>, n: nat)
    requires Effects(w, ops).Reached? && n <= |ops|
    ensures Effects(w, ops[..n]).Reached?
  {
    if n == |ops| {
      assert ops[..n] == ops;
    } else {
      assert ops[..|ops| - 1][..n] == ops[..n];
      PrefixReached(w, ops[..|ops| - 1], n);
    }
  }

  /** Every legal program ends with exactly the lists the sequences predict; every linked
      node is still held by the location its `pprev` names, and no node was lost. */
  method Execute(ops: seq<HlistOp>, ghost w: Tables)
    requires Sound(w) && Effects(w, ops).Reached?
    modifies w.lists.Keys, NodesOf(w)
    ensures var e := Effects(w, ops).tables;
            && Sound(e) && NodesOf(e) == NodesOf(w) && e.lists.Keys == w.lists.Keys
            && forall h, k: nat :: h in e.lists && k < |e.lists[h]| ==> Deref(e.lists[h][k].pprev) == e.lists[h][k]
  {
    ghost var now := w;
    for i := 0 to |ops|
      invariant Effects(w, ops[..i]) == Reached(now)
      invariant Sound(now) && NodesOf(now) == NodesOf(w) && now.lists.Keys == w.lists.Keys
    {
      PrefixReached(w, ops, i + 1);
      assert ops[..i + 1][..i] == ops[..i];
      Apply(ops[i], now);
      now := Effect(now, ops[i]);
    }
    assert ops[..|ops|] == ops;
    forall h, k: nat | h in now.lists && k < |now.lists[h]|
      ensures Deref(now.lists[h][k].pprev) == now.lists[h][k]
    {
      Inside(now, h);
      PprevHoldsNode(h, now.lists[h], k);
    }
  }
}
