/** `list.h`: circular doubly linked lists threaded through the nodes themselves. A ring is
    described by the sequence of its nodes, starting at any of them; by convention the list
    head comes first. */
module Lists {

  /** `struct list_head`. `null` stands for the poison values and for uninitialised fields:
      a pointer that must not be followed. */
  class ListHead {
    var next: ListHead?
    var prev: ListHead?
  }

  type Nodes = seq<ListHead>

  // ----- sequences

  ghost predicate Distinct<T>(s: seq<T>) {
    forall i, j :: 0 <= i < j < |s| ==> s[i] != s[j]
  }

  ghost predicate Apart<T>(s: seq<T>, t: seq<T>) {
    forall x :: x in s ==> x !in t
  }

  lemma {:induction false} ApartAt<T>(s: seq<T>, t: seq<T>)
    requires Apart(s, t)
    ensures forall i, j :: 0 <= i < |s| && 0 <= j < |t| ==> s[i] != t[j]
    ensures Distinct(s) && Distinct(t) ==> Distinct(s + t)
  {
    assert forall i :: 0 <= i < |s| ==> s[i] in s;
  }

  lemma {:induction false} ApartParts<T>(s: seq<T>, t: seq<T>)
    requires Distinct(s + t)
    ensures Distinct(s) && Distinct(t)
    ensures forall i, j :: 0 <= i < |s| && 0 <= j < |t| ==> s[i] != t[j]
  {
    forall i, j | 0 <= i < |s| && 0 <= j < |t| ensures s[i] != t[j] {
      assert (s + t)[i] != (s + t)[|s| + j];
    }
    forall i, j | 0 <= i < j < |t| ensures t[i] != t[j] {
      assert (s + t)[|s| + i] != (s + t)[|s| + j];
    }
    forall i, j | 0 <= i < j < |s| ensures s[i] != s[j] {
      assert (s + t)[i] != (s + t)[j];
    }
  }

  ghost function IndexOf<T>(s: seq<T>, x: T): (k: nat)
    requires x in s
    ensures k < |s| && s[k] == x
  {
    var k :| 0 <= k < |s| && s[k] == x; k
  }

  function RemoveAt<T>(s: seq<T>, k: nat): seq<T>
    requires k < |s|
  {
    s[..k] + s[k + 1..]
  }

  /** Insert all of `t` right behind position `k`. */
  function InsertAfter<T>(s: seq<T>, k: nat, t: seq<T>): seq<T>
    requires k < |s|
  {
    s[..k + 1] + t + s[k + 1..]
  }

  /** Insert all of `t` right before position `k`, going round the ring when `k` is 0. */
  function InsertBefore<T>(s: seq<T>, k: nat, t: seq<T>): seq<T>
    requires k < |s|
  {
    if k == 0 then s + t else s[..k] + t + s[k..]
  }

  function Succ(i: nat, n: nat): nat { if i + 1 == n then 0 else i + 1 }

  function Pred(i: nat, n: nat): nat
    requires n > 0
  {
    if i == 0 then n - 1 else i - 1
  }

  // ----- rings

  ghost predicate Ring(s: Nodes)
    reads s
  {
    && |s| > 0 && Distinct(s)
    && (forall i {:trigger s[i].next} :: 0 <= i < |s| ==> s[i].next == s[Succ(i, |s|)])
    && (forall i {:trigger s[i].prev} :: 0 <= i < |s| ==> s[i].prev == s[Pred(i, |s|)])
  }

  /** A ring may be described from any of its nodes. */
  lemma {:induction false} Rotate(s: Nodes, k: nat, t: Nodes)
    requires Ring(s) && k <= |s| && t == From(s, k)
    ensures Ring(t)
  {
  }

  /** A ring none of whose nodes was written is still a ring. */
  twostate lemma StillRing(s: Nodes)
    requires old(Ring(s)) && forall x :: x in s ==> x.next == old(x.next) && x.prev == old(x.prev)
    ensures Ring(s)
  {
    forall i | 0 <= i < |s| ensures s[i].next == s[Succ(i, |s|)] && s[i].prev == s[Pred(i, |s|)] {
      assert s[i] in s;
      assert old(s[i].next) == s[Succ(i, |s|)] && old(s[i].prev) == s[Pred(i, |s|)];
    }
  }

  /** The sequence that describes the same ring from position `k` on. */
  function From<T>(s: seq<T>, k: nat): seq<T>
    requires k <= |s|
  {
    s[k..] + s[..k]
  }

  /** The neighbours of the first node. */
  lemma {:induction false} Around(s: Nodes)
    requires Ring(s)
    ensures s[0].next == s[Succ(0, |s|)] && s[0].prev == s[|s| - 1]
    ensures s[|s| - 1].next == s[0] && s[Succ(0, |s|)].prev == s[0]
  {
    assert s[0].next == s[Succ(0, |s|)];
    assert s[0].prev == s[Pred(0, |s|)];
    assert s[|s| - 1].next == s[Succ(|s| - 1, |s|)];
    assert s[Succ(0, |s|)].prev == s[Pred(Succ(0, |s|), |s|)];
  }

  lemma {:induction false} AroundAt(s: Nodes, k: nat)
    requires Ring(s) && k < |s|
    ensures s[k].next == s[Succ(k, |s|)] && s[k].prev == s[Pred(k, |s|)]
  {
  }

  // ----- open segments of rings

  ghost predicate Path(p: Nodes)
    reads p
  {
    && (forall i {:trigger p[i].next} :: 0 <= i < |p| - 1 ==> p[i].next == p[i + 1])
    && (forall i {:trigger p[i].prev} :: 0 < i < |p| ==> p[i].prev == p[i - 1])
  }

  lemma {:induction false} PathOfRing(s: Nodes, i: nat, j: nat)
    requires Ring(s) && i <= j <= |s|
    ensures Path(s[i..j])
  {
  }

  /** A segment survives writes to the outer links of its two ends. */
  twostate lemma StillPath(p: Nodes)
    requires old(Path(p))
    requires forall i :: 0 <= i < |p| - 1 ==> p[i].next == old(p[i].next)
    requires forall i :: 0 < i < |p| ==> p[i].prev == old(p[i].prev)
    ensures Path(p)
  {
    forall i | 0 <= i < |p| - 1 ensures p[i].next == p[i + 1] {
      assert old(p[i].next) == p[i + 1];
    }
    forall i | 0 < i < |p| ensures p[i].prev == p[i - 1] {
      assert old(p[i].prev) == p[i - 1];
    }
  }

  ghost predicate Joined(p: Nodes, q: Nodes)
    requires |p| > 0 && |q| > 0
    reads p, q
  {
    p[|p| - 1].next == q[0] && q[0].prev == p[|p| - 1]
  }

  lemma {:induction false} Join(p: Nodes, q: Nodes)
    requires Path(p) && Path(q) && (p != [] && q != [] ==> Joined(p, q))
    ensures Path(p + q)
  {
    var r := p + q;
    forall i | 0 <= i < |r| - 1 ensures r[i].next == r[i + 1] {
      if i < |p| { assert r[i].next == p[i].next; } else { assert r[i].next == q[i - |p|].next; }
    }
    forall i | 0 < i < |r| ensures r[i].prev == r[i - 1] {
      if i < |p| { assert r[i].prev == p[i].prev; } else { assert r[i].prev == q[i - |p|].prev; }
    }
  }

  lemma {:induction false} Close(p: Nodes)
    requires |p| > 0 && Path(p) && Distinct(p) && Joined(p, p)
    ensures Ring(p)
  {
  }

  /** Two segments joined at both ends make a ring. */
  lemma {:induction false} CloseTwo(p: Nodes, q: Nodes)
    requires |p| > 0 && |q| > 0 && Path(p) && Path(q) && Distinct(p + q) && Joined(p, q) && Joined(q, p)
    ensures Ring(p + q)
  {
    Join(p, q);
    Close(p + q);
  }

  lemma {:induction false} OpenTwo(p: Nodes, q: Nodes)
    requires |p| > 0 && |q| > 0 && Ring(p + q)
    ensures Path(p) && Path(q) && Distinct(p + q) && Joined(p, q) && Joined(q, p)
  {
    var s := p + q;
    assert Path(p) by { PathOfRing(s, 0, |p|); assert s[0..|p|] == p; }
    assert Path(q) by { PathOfRing(s, |p|, |s|); assert s[|p|..|s|] == q; }
    assert Joined(p, q) by { AroundAt(s, |p|); AroundAt(s, |p| - 1); }
    assert Joined(q, p) by { Around(s); }
  }

  lemma {:induction false} Split(p: Nodes, q: Nodes)
    requires Path(p + q) && |p| > 0 && |q| > 0
    ensures Path(p) && Path(q) && Joined(p, q)
  {
    var s := p + q;
    forall i | 0 <= i < |p| - 1 ensures p[i].next == p[i + 1] { assert s[i].next == s[i + 1]; }
    forall i | 0 < i < |p| ensures p[i].prev == p[i - 1] { assert s[i].prev == s[i - 1]; }
    forall i | 0 <= i < |q| - 1 ensures q[i].next == q[i + 1] { assert s[|p| + i].next == s[|p| + i + 1]; }
    forall i | 0 < i < |q| ensures q[i].prev == q[i - 1] { assert s[|p| + i].prev == s[|p| + i - 1]; }
    assert s[|p| - 1].next == s[|p|] && s[|p|].prev == s[|p| - 1];
  }

  // ----- the internal operations, on consecutive nodes

  method InitListHead(list: ListHead)
    modifies list
    ensures Ring([list])
  {
    list.next := list;
    list.prev := list;
  }

  /** `__list_add`; the sequence starts at `next` and ends at `prev`. */
  method InsertBetween(node: ListHead, prev: ListHead, next: ListHead, ghost s: Nodes)
    requires Ring(s) && node !in s && next == s[0] && prev == s[|s| - 1]
    modifies node, prev, next
    ensures Ring(s + [node])
  {
    Around(s);
    PathOfRing(s, 0, |s|);
    assert s[0..|s|] == s;
    next.prev := node;
    node.next := next;
    node.prev := prev;
    prev.next := node;
    assert Path(s) by { StillPath(s); }
    assert Distinct(s + [node]);
    CloseTwo(s, [node]);
  }

  /** `__list_del`; the sequence starts at the node between `prev` and `next`. */
  method Unlink(prev: ListHead, next: ListHead, ghost s: Nodes)
    requires Ring(s) && prev == s[|s| - 1] && next == s[Succ(0, |s|)]
    modifies prev, next
    ensures if |s| > 1 then Ring(s[1..]) else Ring(s)
  {
    Around(s);
    ghost var p := s[1..];
    PathOfRing(s, 1, |s|);
    next.prev := prev;
    prev.next := next;
    if |s| > 1 {
      assert Path(p) by { StillPath(p); }
      Close(p);
    } else {
      assert s[0].next == s[0] && s[0].prev == s[0];
    }
  }

  method ReplaceFirst(orig: ListHead, node: ListHead, ghost s: Nodes)
    requires Ring(s) && s[0] == orig && node !in s
    modifies node, s
    ensures Ring([node] + s[1..])
  {
    Around(s);
    ghost var p := s[1..];
    PathOfRing(s, 1, |s|);
    assert Distinct([node] + p);
    node.next := orig.next;
    node.next.prev := node;
    node.prev := orig.prev;
    node.prev.next := node;
    if |s| > 1 {
      assert Path(p) by { StillPath(p); }
      CloseTwo([node], p);
    } else {
      assert [node] + p == [node];
    }
  }

  // ----- operations on one node, wherever it is on its ring

  lemma {:induction false} InsertFrom<T>(s: seq<T>, k: nat, t: seq<T>)
    requires k < |s|
    ensures InsertAfter(s, k, t) == From(From(s, k + 1) + t, |s| - k - 1)
    ensures InsertBefore(s, k, t) == if k == 0 then From(s, k) + t else From(From(s, k) + t, |s| - k)
  {
  }

  lemma {:induction false} RemoveFrom<T>(s: seq<T>, k: nat)
    requires k < |s|
    ensures RemoveAt(s, k) == From(From(s, k)[1..], |s| - k - 1)
  {
  }

  lemma {:induction false} RingWithout(s: Nodes, k: nat)
    requires k < |s| && |s| > 1 && Ring(From(s, k)[1..])
    ensures Ring(RemoveAt(s, k))
  {
    RemoveFrom(s, k);
    Rotate(From(s, k)[1..], |s| - k - 1, RemoveAt(s, k));
  }

  lemma {:induction false} UpdateFrom<T>(s: seq<T>, k: nat, x: T)
    requires k < |s|
    ensures s[k := x] == From([x] + From(s, k)[1..], |s| - k)
  {
  }

  /** Seen from behind node `k`, that node is the last one and its successor the first. */
  lemma {:induction false} SeenFrom(s: Nodes, k: nat) returns (r: Nodes)
    requires Ring(s) && k < |s|
    ensures r == From(s, k + 1) && Ring(r) && s[k] == r[|r| - 1] && s[k].next == r[0]
    ensures forall x :: x in r <==> x in s
  {
    r := From(s, k + 1);
    Rotate(s, k + 1, r);
    Around(r);
  }

  /** Seen from node `k`, its predecessor is the last one. */
  lemma {:induction false} SeenAt(s: Nodes, k: nat) returns (r: Nodes)
    requires Ring(s) && k < |s|
    ensures r == From(s, k) && Ring(r) && s[k] == r[0] && s[k].prev == r[|r| - 1]
    ensures forall x :: x in r <==> x in s
  {
    r := From(s, k);
    Rotate(s, k, r);
    Around(r);
  }

  lemma {:induction false} RingWithAfter(s: Nodes, k: nat, t: Nodes)
    requires k < |s| && Ring(From(s, k + 1) + t)
    ensures Ring(InsertAfter(s, k, t))
  {
    InsertFrom(s, k, t);
    Rotate(From(s, k + 1) + t, |s| - k - 1, InsertAfter(s, k, t));
  }

  lemma {:induction false} RingWithBefore(s: Nodes, k: nat, t: Nodes)
    requires k < |s| && Ring(From(s, k) + t)
    ensures Ring(InsertBefore(s, k, t))
  {
    InsertFrom(s, k, t);
    if k > 0 { Rotate(From(s, k) + t, |s| - k, InsertBefore(s, k, t)); }
  }

  method ListAdd(node: ListHead, head: ListHead, ghost s: Nodes, ghost k: nat)
    requires Ring(s) && node !in s && k < |s| && head == s[k]
    modifies node, s
    ensures Ring(InsertAfter(s, k, [node]))
  {
    ghost var r := SeenFrom(s, k);
    InsertBetween(node, head, head.next, r);
    RingWithAfter(s, k, [node]);
  }

  method ListAddTail(node: ListHead, head: ListHead, ghost s: Nodes, ghost k: nat)
    requires Ring(s) && node !in s && k < |s| && head == s[k]
    modifies node, s
    ensures Ring(InsertBefore(s, k, [node]))
  {
    ghost var r := SeenAt(s, k);
    InsertBetween(node, head.prev, head, r);
    RingWithBefore(s, k, [node]);
  }

  /** `__list_del_entry` */
  method ListDelEntry(entry: ListHead, ghost s: Nodes, ghost k: nat)
    requires Ring(s) && k < |s| && s[k] == entry
    modifies s
    ensures |s| > 1 ==> Ring(RemoveAt(s, k))
    ensures |s| == 1 ==> Ring(s)
  {
    ghost var r := From(s, k);
    Rotate(s, k, r);
    Around(r);
    Unlink(entry.prev, entry.next, r);
    if |s| > 1 { RingWithout(s, k); } else { assert r == s; }
  }

  method ListDel(entry: ListHead, ghost s: Nodes, ghost k: nat)
    requires Ring(s) && k < |s| && s[k] == entry
    modifies s
    ensures |s| > 1 ==> Ring(RemoveAt(s, k))
    ensures entry.next == null && entry.prev == null
  {
    ListDelEntry(entry, s, k);
    entry.next := null;
    entry.prev := null;
  }

  method ListDelInit(entry: ListHead, ghost s: Nodes, ghost k: nat)
    requires Ring(s) && k < |s| && s[k] == entry
    modifies s
    ensures |s| > 1 ==> Ring(RemoveAt(s, k))
    ensures Ring([entry])
  {
    ListDelEntry(entry, s, k);
    InitListHead(entry);
  }

  /** Also right when `orig` is an empty ring: `node` becomes an empty ring. */
  method ListReplace(orig: ListHead, node: ListHead, ghost s: Nodes, ghost k: nat)
    requires Ring(s) && k < |s| && s[k] == orig && node !in s
    modifies node, s
    ensures Ring(s[k := node])
  {
    ghost var r := From(s, k);
    Rotate(s, k, r);
    ReplaceFirst(orig, node, r);
    UpdateFrom(s, k, node);
    Rotate([node] + r[1..], |s| - k, s[k := node]);
  }

  method ListReplaceInit(orig: ListHead, node: ListHead, ghost s: Nodes, ghost k: nat)
    requires Ring(s) && k < |s| && s[k] == orig && node !in s
    modifies node, s
    ensures Ring(s[k := node]) && Ring([orig])
  {
    ListReplace(orig, node, s, k);
    InitListHead(orig);
  }
}
